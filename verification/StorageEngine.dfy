/** The storage the catalog lives in: the meta page, a page allocator and the heaps
    that hang off root pages. Every call can fail, and a failed call may or may
    not have taken effect. */
module StorageEngine {
  import opened Bytes
  import opened MetaPage

  /** A heap row with the transactions that created and deleted it (0: not deleted). */
  datatype HeapRow = HeapRow(created: u64, deleted: u64, data: bytes)

  type Heaps = map<u64, seq<HeapRow>>

  datatype DbError =
    | Io | CatalogNotInitialized | PageNotFound(page: u64) | Internal | Parse(e: ParseError)
    | TableNotFound(schema: bytes, name: bytes) | ColumnNotFound(table: u32, name: bytes)

  datatype Store = Store(meta: Meta, pages: set<u64>, heaps: Heaps)

  class Storage {
    var meta: Meta
    var pages: set<u64>
    var heaps: Heaps
    /** Some call on existing pages has failed. */
    ghost var failed: bool
    /** Something was written since the last flush. */
    ghost var unflushed: bool

    ghost function View(): Store
      reads this
    {
      Store(meta, pages, heaps)
    }

    /** Hands out some page that is neither the meta page nor in use. */
    method AllocPage() returns (r: Result<u64, DbError>)
      modifies this`pages, this`failed, this`unflushed
      ensures failed == (old(failed) || r.Err?) && unflushed
      ensures r.Err? ==> r.error != Internal
      ensures old(pages) <= pages
      ensures r.Ok? ==> r.value != 0 && r.value !in old(pages) && pages == old(pages) + {r.value}
    {
      unflushed := true;
      var p: u64 := *;
      if p == 0 || p in pages {
        failed := true;
        return Err(Io);
      }
      pages := pages + {p};
      if * {
        failed := true;
        return Err(Io);
      }
      return Ok(p);
    }

    /** Writes an empty heap page. */
    method WriteEmptyPage(p: u64) returns (r: Result<(), DbError>)
      modifies this`heaps, this`failed, this`unflushed
      ensures failed == (old(failed) || r.Err?) && unflushed
      ensures r.Err? ==> r.error != Internal
      ensures heaps == old(heaps)[p := []] || (r.Err? && heaps == old(heaps))
    {
      unflushed := true;
      if * {
        failed := true;
        return Err(Io);
      }
      heaps := heaps[p := []];
      if * {
        failed := true;
        return Err(Io);
      }
      return Ok(());
    }

    /** Read, modify, write of the meta page. */
    method WriteMeta(off: nat, chunk: bytes) returns (r: Result<(), DbError>)
      requires off + |chunk| <= BODY_SIZE
      modifies this`meta, this`failed, this`unflushed
      ensures failed == (old(failed) || r.Err?) && unflushed
      ensures r.Err? ==> r.error != Internal
      ensures meta == Overwrite(old(meta), off, chunk) || (r.Err? && meta == old(meta))
    {
      unflushed := true;
      if * {
        failed := true;
        return Err(Io);
      }
      meta := Overwrite(meta, off, chunk);
      if * {
        failed := true;
        return Err(Io);
      }
      return Ok(());
    }

    method ReadMeta64(off: nat) returns (r: Result<u64, DbError>)
      requires off + 8 <= BODY_SIZE
      modifies this`failed
      ensures failed == (old(failed) || r.Err?)
      ensures r.Err? ==> r.error != Internal
      ensures r.Ok? ==> r.value == Get64(meta, off)
    {
      if * {
        failed := true;
        return Err(Io);
      }
      return Ok(Get64(meta, off));
    }

    method ReadMeta32(off: nat) returns (r: Result<u32, DbError>)
      requires off + 4 <= BODY_SIZE
      modifies this`failed
      ensures failed == (old(failed) || r.Err?)
      ensures r.Err? ==> r.error != Internal
      ensures r.Ok? ==> r.value == Get32(meta, off)
    {
      if * {
        failed := true;
        return Err(Io);
      }
      return Ok(Get32(meta, off));
    }

    /** Appends a row to the heap rooted at `root`; a full heap grows by a page. */
    method InsertRow(root: u64, data: bytes, txn: u64) returns (r: Result<(), DbError>)
      modifies this`heaps, this`pages, this`failed, this`unflushed
      ensures failed == (old(failed) || (r.Err? && root in old(heaps)))
      ensures root in old(heaps) ==> unflushed
      ensures r.Err? ==> r.error != Internal
      ensures old(pages) <= pages
      ensures root !in old(heaps) ==> r.Err? && heaps == old(heaps)
      ensures root in old(heaps) ==>
                || heaps == old(heaps)[root := old(heaps)[root] + [HeapRow(txn, 0, data)]]
                || (r.Err? && heaps == old(heaps))
    {
      if root !in heaps {
        return Err(PageNotFound(root));
      }
      unflushed := true;
      if * {
        var grown := AllocPage();
        if grown.Err? {
          return Err(grown.error);
        }
      }
      if * {
        failed := true;
        return Err(Io);
      }
      heaps := heaps[root := heaps[root] + [HeapRow(txn, 0, data)]];
      if * {
        failed := true;
        return Err(Io);
      }
      return Ok(());
    }

    method Flush() returns (r: Result<(), DbError>)
      modifies this`failed, this`unflushed
      ensures failed == (old(failed) || r.Err?)
      ensures r.Ok? ==> !unflushed
      ensures r.Err? ==> r.error != Internal
    {
      if * {
        failed := true;
        return Err(Io);
      }
      unflushed := false;
      return Ok(());
    }
  }
}
