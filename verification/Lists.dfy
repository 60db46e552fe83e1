/** Filtering, first match and stable sorting of sequences: what the catalog reader's
    loops compute. */
module Lists {
  import opened Bytes

  function Filter<T>(p: T -> bool, xs: seq<T>): (r: seq<T>)
    ensures |r| <= |xs|
  {
    if xs == [] then []
    else if p(xs[|xs| - 1]) then Filter(p, xs[..|xs| - 1]) + [xs[|xs| - 1]]
    else Filter(p, xs[..|xs| - 1])
  }

  function FirstOf<T>(p: T -> bool, xs: seq<T>): (r: Option<T>)
    ensures r.Some? ==> r.value in xs && p(r.value)
    ensures r.None? ==> forall x :: x in xs ==> !p(x)
  {
    if xs == [] then None
    else if p(xs[0]) then Some(xs[0])
    else FirstOf(p, xs[1..])
  }

  /** Nothing before the first match matches. */
  lemma {:induction false} FirstOfIsFirst<T>(p: T -> bool, xs: seq<T>)
    requires FirstOf(p, xs).Some?
    ensures exists i :: 0 <= i < |xs| && xs[i] == FirstOf(p, xs).value && forall j :: 0 <= j < i ==> !p(xs[j])
  {
    if p(xs[0]) {
      assert xs[0] == FirstOf(p, xs).value;
    } else {
      FirstOfIsFirst(p, xs[1..]);
      var i :| 0 <= i < |xs[1..]| && xs[1..][i] == FirstOf(p, xs).value && forall j :: 0 <= j < i ==> !p(xs[1..][j]);
      assert forall j :: 0 < j < i + 1 ==> xs[j] == xs[1..][j - 1];
      assert xs[i + 1] == FirstOf(p, xs).value;
    }
  }

  function Both<T>(p: T -> bool, q: T -> bool): T -> bool {
    x => p(x) && q(x)
  }

  lemma {:induction false} FilterStep<T>(p: T -> bool, xs: seq<T>, x: T)
    ensures Filter(p, xs + [x]) == if p(x) then Filter(p, xs) + [x] else Filter(p, xs)
  {
    assert (xs + [x])[..|xs|] == xs;
  }

  lemma {:induction false} FilterConcat<T>(p: T -> bool, xs: seq<T>, ys: seq<T>)
    ensures Filter(p, xs + ys) == Filter(p, xs) + Filter(p, ys)
    decreases |ys|
  {
    if ys == [] {
      assert xs + ys == xs;
    } else {
      var init, y := ys[..|ys| - 1], ys[|ys| - 1];
      assert xs + ys == (xs + init) + [y];
      FilterStep(p, xs + init, y);
      FilterConcat(p, xs, init);
    }
  }

  lemma {:induction false} FilterMembers<T>(p: T -> bool, xs: seq<T>)
    ensures forall x :: x in Filter(p, xs) <==> x in xs && p(x)
  {
    if xs != [] {
      FilterMembers(p, xs[..|xs| - 1]);
      assert xs == xs[..|xs| - 1] + [xs[|xs| - 1]];
    }
  }

  lemma {:induction false} FilterTwice<T>(p: T -> bool, q: T -> bool, xs: seq<T>)
    ensures Filter(q, Filter(p, xs)) == Filter(Both(p, q), xs)
  {
    if xs != [] {
      var init, x := xs[..|xs| - 1], xs[|xs| - 1];
      FilterTwice(p, q, init);
      if p(x) {
        FilterStep(q, Filter(p, init), x);
      } else {
        assert Filter(p, xs) == Filter(p, init);
      }
    }
  }

  /** The first match of both is the first match of `q` among the matches of `p`. */
  lemma {:induction false} FirstOfFilter<T>(p: T -> bool, q: T -> bool, xs: seq<T>)
    ensures FirstOf(q, Filter(p, xs)) == FirstOf(Both(p, q), xs)
  {
    if xs != [] {
      var x, rest := xs[0], xs[1..];
      assert xs == [x] + rest;
      FirstOfFilter(p, q, rest);
      FilterConcat(p, [x], rest);
      assert [x][..0] == [];
      assert Filter(p, [x]) == if p(x) then [x] else [];
      var f := Filter(p, xs);
      if p(x) {
        assert f == [x] + Filter(p, rest) && f[1..] == Filter(p, rest);
      } else {
        assert f == Filter(p, rest);
      }
    }
  }

  // ---------------------------------------------------------------------------
  // Partition by key

  function HasKey<T, K(==)>(key: T -> K, k: K): T -> bool {
    x => key(x) == k
  }

  /** The elements with key ks[0], then those with key ks[1], and so on. */
  function Grouped<T, K(==)>(key: T -> K, ks: seq<K>, xs: seq<T>): (r: seq<T>) {
    if ks == [] then [] else Filter(HasKey(key, ks[0]), xs) + Grouped(key, ks[1..], xs)
  }

  predicate Distinct<K(==)>(ks: seq<K>) {
    forall i, j :: 0 <= i < j < |ks| ==> ks[i] != ks[j]
  }

  lemma {:induction false} RestDistinct<K>(ks: seq<K>)
    requires ks != [] && Distinct(ks)
    ensures Distinct(ks[1..]) && ks[0] !in ks[1..]
  {
  }

  lemma {:induction false} GroupedStep<T, K>(key: T -> K, ks: seq<K>, xs: seq<T>, x: T)
    requires Distinct(ks)
    ensures multiset(Grouped(key, ks, xs + [x]))
         == multiset(Grouped(key, ks, xs)) + (if key(x) in ks then multiset{x} else multiset{})
  {
    if ks != [] {
      hide Filter, Distinct;
      var k, rest := ks[0], ks[1..];
      RestDistinct(ks);
      FilterStep(HasKey(key, k), xs, x);
      GroupedStep(key, rest, xs, x);
      assert ks == [k] + rest;
      var a, b := Filter(HasKey(key, k), xs), Grouped(key, rest, xs);
      if key(x) == k {
        assert multiset((a + [x]) + b) == multiset(a + b) + multiset{x};
      }
    }
  }

  lemma {:induction false} GroupedMembers<T, K>(key: T -> K, ks: seq<K>, xs: seq<T>)
    ensures forall x :: x in Grouped(key, ks, xs) <==> x in xs && key(x) in ks
  {
    if ks != [] {
      hide Filter;
      assert ks == [ks[0]] + ks[1..];
      FilterMembers(HasKey(key, ks[0]), xs);
      GroupedMembers(key, ks[1..], xs);
    }
  }

  /** Grouping by distinct keys loses and repeats nothing exactly when the keys cover
      all elements. */
  lemma {:induction false} GroupedIsPermutation<T, K>(key: T -> K, ks: seq<K>, xs: seq<T>)
    requires Distinct(ks)
    ensures multiset(Grouped(key, ks, xs)) == multiset(xs) <==> forall x :: x in xs ==> key(x) in ks
  {
    hide Grouped;
    if forall x :: x in xs ==> key(x) in ks {
      CoveredIsPermutation(key, ks, xs);
    } else {
      var x :| x in xs && key(x) !in ks;
      GroupedMembers(key, ks, xs);
      assert x in multiset(xs) && x !in multiset(Grouped(key, ks, xs));
    }
  }

  lemma {:induction false} CoveredIsPermutation<T, K>(key: T -> K, ks: seq<K>, xs: seq<T>)
    requires Distinct(ks)
    requires forall x :: x in xs ==> key(x) in ks
    ensures multiset(Grouped(key, ks, xs)) == multiset(xs)
  {
    if xs == [] {
      GroupedNothing(key, ks);
    } else {
      hide Grouped;
      var init, x := xs[..|xs| - 1], xs[|xs| - 1];
      assert xs == init + [x];
      CoveredIsPermutation(key, ks, init);
      GroupedStep(key, ks, init, x);
    }
  }

  lemma {:induction false} GroupedNothing<T, K>(key: T -> K, ks: seq<K>)
    ensures Grouped<T, K>(key, ks, []) == []
  {
    if ks != [] {
      GroupedNothing(key, ks[1..]);
    }
  }

  // ---------------------------------------------------------------------------
  // Stable sorting

  function Insert<T>(le: (T, T) -> bool, x: T, ys: seq<T>): (r: seq<T>) {
    if ys == [] then [x]
    else if le(ys[|ys| - 1], x) then ys + [x]
    else Insert(le, x, ys[..|ys| - 1]) + [ys[|ys| - 1]]
  }

  function Sort<T>(le: (T, T) -> bool, xs: seq<T>): (r: seq<T>) {
    if xs == [] then [] else Insert(le, xs[|xs| - 1], Sort(le, xs[..|xs| - 1]))
  }

  ghost predicate Sorted<T>(le: (T, T) -> bool, xs: seq<T>) {
    forall i, j :: 0 <= i < j < |xs| ==> le(xs[i], xs[j])
  }

  ghost predicate TotalPreorder<T(!new)>(le: (T, T) -> bool) {
    && (forall a, b :: le(a, b) || le(b, a))
    && (forall a, b, c :: le(a, b) && le(b, c) ==> le(a, c))
  }

  lemma {:induction false} InsertKeeps<T>(le: (T, T) -> bool, x: T, ys: seq<T>)
    ensures multiset(Insert(le, x, ys)) == multiset(ys) + multiset{x}
  {
    if ys != [] && !le(ys[|ys| - 1], x) {
      InsertKeeps(le, x, ys[..|ys| - 1]);
      assert ys == ys[..|ys| - 1] + [ys[|ys| - 1]];
    }
  }

  lemma {:induction false} InsertSorted<T(!new)>(le: (T, T) -> bool, x: T, ys: seq<T>)
    requires TotalPreorder(le) && Sorted(le, ys)
    ensures Sorted(le, Insert(le, x, ys))
  {
    if ys != [] && !le(ys[|ys| - 1], x) {
      var init, y := ys[..|ys| - 1], ys[|ys| - 1];
      InsertSorted(le, x, init);
      InsertKeeps(le, x, init);
      var r := Insert(le, x, init);
      forall i | 0 <= i < |r| ensures le(r[i], y) {
        assert r[i] in multiset(r);
        assert r[i] == x || r[i] in init;
      }
    }
  }

  /** Sorting gives a sorted permutation. */
  lemma {:induction false} SortIsSorted<T(!new)>(le: (T, T) -> bool, xs: seq<T>)
    requires TotalPreorder(le)
    ensures Sorted(le, Sort(le, xs)) && multiset(Sort(le, xs)) == multiset(xs)
  {
    hide Insert, TotalPreorder;
    if xs != [] {
      var init, x := xs[..|xs| - 1], xs[|xs| - 1];
      SortIsSorted(le, init);
      InsertSorted(le, x, Sort(le, init));
      InsertKeeps(le, x, Sort(le, init));
      assert xs == init + [x];
    }
  }

  lemma {:induction false} InsertStable<T>(le: (T, T) -> bool, q: T -> bool, x: T, ys: seq<T>)
    requires forall y :: y in ys && q(x) && q(y) ==> le(y, x)
    ensures Filter(q, Insert(le, x, ys)) == if q(x) then Filter(q, ys) + [x] else Filter(q, ys)
  {
    if ys == [] {
      FilterStep(q, [], x);
      assert [] + [x] == [x];
    } else if le(ys[|ys| - 1], x) {
      FilterStep(q, ys, x);
    } else {
      var init, y := ys[..|ys| - 1], ys[|ys| - 1];
      InsertStable(le, q, x, init);
      FilterStep(q, Insert(le, x, init), y);
    }
  }

  /** Elements that compare equal keep their order: any class `q` of mutually equal
      elements reads the same before and after. */
  lemma {:induction false} SortIsStable<T(!new)>(le: (T, T) -> bool, q: T -> bool, xs: seq<T>)
    requires forall a, b :: q(a) && q(b) ==> le(a, b)
    ensures Filter(q, Sort(le, xs)) == Filter(q, xs)
  {
    if xs != [] {
      var init, x := xs[..|xs| - 1], xs[|xs| - 1];
      SortIsStable(le, q, init);
      InsertStable(le, q, x, Sort(le, init));
    }
  }

  // ---------------------------------------------------------------------------
  // Byte-wise comparison of names

  predicate LexLe(a: bytes, b: bytes) {
    a == [] || (b != [] && (a[0] < b[0] || (a[0] == b[0] && LexLe(a[1..], b[1..]))))
  }

  lemma {:induction false} LexTotal(a: bytes, b: bytes)
    ensures LexLe(a, b) || LexLe(b, a)
  {
    if a != [] && b != [] && a[0] == b[0] {
      LexTotal(a[1..], b[1..]);
    }
  }

  lemma {:induction false} LexOrder(a: bytes, b: bytes, c: bytes)
    ensures LexLe(a, b) || LexLe(b, a)
    ensures LexLe(a, b) && LexLe(b, c) ==> LexLe(a, c)
  {
    LexTotal(a, b);
    if LexLe(a, b) && LexLe(b, c) {
      LexTransitive(a, b, c);
    }
  }

  lemma {:induction false} LexTransitive(a: bytes, b: bytes, c: bytes)
    requires LexLe(a, b) && LexLe(b, c)
    ensures LexLe(a, c)
  {
    if a != [] && a[0] == b[0] == c[0] {
      LexTransitive(a[1..], b[1..], c[1..]);
    }
  }

  /** `a` has the smaller byte where the two first differ. */
  predicate SmallerAt(a: bytes, b: bytes, i: nat) {
    i < |a| && i < |b| && a[i] < b[i] && forall j :: 0 <= j < i ==> a[j] == b[j]
  }

  lemma {:induction false} SmallerIsLe(a: bytes, b: bytes, i: nat)
    requires SmallerAt(a, b, i)
    ensures LexLe(a, b)
    decreases |a|
  {
    if i > 0 {
      SmallerIsLe(a[1..], b[1..], i - 1);
    }
  }

  lemma {:induction false} PrefixIsLe(a: bytes, b: bytes)
    requires a <= b
    ensures LexLe(a, b)
  {
    if a != [] {
      PrefixIsLe(a[1..], b[1..]);
    }
  }

  lemma {:induction false} LeMeans(a: bytes, b: bytes)
    requires LexLe(a, b)
    ensures a <= b || exists i: nat :: SmallerAt(a, b, i)
  {
    if a != [] {
      if a[0] < b[0] {
        assert SmallerAt(a, b, 0);
      } else {
        var x, y := a[1..], b[1..];
        LeMeans(x, y);
        if i: nat :| SmallerAt(x, y, i) {
          assert forall j :: 0 < j <= i + 1 ==> a[j] == x[j - 1] && b[j] == y[j - 1];
          assert SmallerAt(a, b, i + 1);
        } else {
          assert a == [a[0]] + x && b == [a[0]] + y;
        }
      }
    }
  }

  /** Byte-wise order: `a` comes before `b` exactly when it is a prefix of `b`, or has the
      smaller byte where they first differ. */
  lemma {:induction false} LexLeIff(a: bytes, b: bytes)
    ensures LexLe(a, b) <==> a <= b || exists i: nat :: SmallerAt(a, b, i)
  {
    hide LexLe;
    if LexLe(a, b) {
      LeMeans(a, b);
    }
    if a <= b {
      PrefixIsLe(a, b);
    }
    if i: nat :| SmallerAt(a, b, i) {
      SmallerIsLe(a, b, i);
    }
  }
}
