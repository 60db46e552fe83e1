/** Reading `n` items one after the other from a buffer. Every loop of the packed
    parsers is such a repetition, of names, cells, rows or columns. */
module Repeat {
  import opened Bytes

  /** A parsed item and the offset after it. */
  datatype Step<+T> = Step(value: T, off: nat)

  datatype ReadError = Short | BadUtf8 | BadMagic

  type Reader<T> = nat -> Result<Step<T>, ReadError>

  /** Built from the back, so that a loop's state after `n` rounds is `Times(f, off, n)`. */
  function Times<T>(f: Reader<T>, off: nat, n: nat): (r: Result<Step<seq<T>>, ReadError>)
    ensures r.Ok? ==> |r.value.value| == n
  {
    if n == 0 then Ok(Step([], off))
    else
      var r := Times(f, off, n - 1);
      if r.Err? then r
      else
        var x := f(r.value.off);
        if x.Err? then Err(x.error) else Ok(Step(r.value.value + [x.value.value], x.value.off))
  }

  /** The encodings of all items one after the other. */
  function ConcatAll<T>(enc: T -> bytes, xs: seq<T>): (b: bytes) {
    if xs == [] then [] else ConcatAll(enc, xs[..|xs| - 1]) + enc(xs[|xs| - 1])
  }

  lemma {:induction false} ErrorsStay<T>(f: Reader<T>, off: nat, m: nat, n: nat)
    requires m <= n && Times(f, off, m).Err?
    ensures Times(f, off, n) == Times(f, off, m)
  {
    if m < n {
      ErrorsStay(f, off, m, n - 1);
    }
  }

  /** `f` reads the encoding of `x` wherever it finds it in `buf`. */
  ghost predicate Reads<T>(f: Reader<T>, enc: T -> bytes, buf: bytes, x: T) {
    forall off: nat :: Has(buf, off, enc(x)) ==> f(off) == Ok(Step(x, off + |enc(x)|))
  }

  /** A reader that reads each item's encoding reads all of them in sequence. */
  lemma {:induction false} ReadsAll<T>(f: Reader<T>, enc: T -> bytes, buf: bytes, xs: seq<T>, off: nat)
    requires forall i :: 0 <= i < |xs| ==> Reads(f, enc, buf, xs[i])
    requires Has(buf, off, ConcatAll(enc, xs))
    ensures Times(f, off, |xs|) == Ok(Step(xs, off + |ConcatAll(enc, xs)|))
  {
    hide Has;
    if xs != [] {
      var init, x := xs[..|xs| - 1], xs[|xs| - 1];
      HasConcat(buf, off, ConcatAll(enc, init), enc(x));
      ReadsAll(f, enc, buf, init, off);
      assert Reads(f, enc, buf, xs[|xs| - 1]);
      assert xs == init + [x];
    }
  }

  function MapAll<T, U>(to: T -> U, xs: seq<T>): (r: seq<U>)
    ensures |r| == |xs| && forall i :: 0 <= i < |xs| ==> r[i] == to(xs[i])
  {
    seq(|xs|, i requires 0 <= i < |xs| => to(xs[i]))
  }

  /** `f` reads the encoding of `x` as `to(x)` wherever it finds it in `buf`. */
  ghost predicate ReadsAs<T, U>(f: Reader<U>, enc: T -> bytes, to: T -> U, buf: bytes, x: T) {
    forall off: nat :: Has(buf, off, enc(x)) ==> f(off) == Ok(Step(to(x), off + |enc(x)|))
  }

  lemma {:induction false} ReadsAllAs<T, U>(f: Reader<U>, enc: T -> bytes, to: T -> U, buf: bytes, xs: seq<T>, off: nat)
    requires forall i :: 0 <= i < |xs| ==> ReadsAs(f, enc, to, buf, xs[i])
    requires Has(buf, off, ConcatAll(enc, xs))
    ensures Times(f, off, |xs|) == Ok(Step(MapAll(to, xs), off + |ConcatAll(enc, xs)|))
  {
    hide Has;
    if xs != [] {
      var init, x := xs[..|xs| - 1], xs[|xs| - 1];
      HasConcat(buf, off, ConcatAll(enc, init), enc(x));
      ReadsAllAs(f, enc, to, buf, init, off);
      assert ReadsAs(f, enc, to, buf, xs[|xs| - 1]);
      assert MapAll(to, xs) == MapAll(to, init) + [to(x)];
    }
  }

  lemma {:induction false} ConcatAllMapped<T, U>(f: T -> bytes, enc: U -> bytes, to: T -> U, xs: seq<T>)
    requires forall i :: 0 <= i < |xs| ==> f(xs[i]) == enc(to(xs[i]))
    ensures ConcatAll(f, xs) == ConcatAll(enc, MapAll(to, xs))
  {
    if xs != [] {
      var init, x := xs[..|xs| - 1], xs[|xs| - 1];
      ConcatAllMapped(f, enc, to, init);
      assert MapAll(to, xs)[..|xs| - 1] == MapAll(to, init);
      assert f(x) == enc(to(x));
    }
  }

  /** Item by item, encodings of equal lengths can be compared. */
  lemma {:induction false} ConcatAllEqual<T>(f: T -> bytes, g: T -> bytes, xs: seq<T>)
    requires forall i :: 0 <= i < |xs| ==> |f(xs[i])| == |g(xs[i])|
    ensures |ConcatAll(f, xs)| == |ConcatAll(g, xs)|
    ensures ConcatAll(f, xs) == ConcatAll(g, xs) <==> forall i :: 0 <= i < |xs| ==> f(xs[i]) == g(xs[i])
  {
    if xs != [] {
      var init, x := xs[..|xs| - 1], xs[|xs| - 1];
      ConcatAllEqual(f, g, init);
      assert forall i :: 0 <= i < |init| ==> init[i] == xs[i];
      SplitEqual(ConcatAll(f, init), ConcatAll(g, init), f(x), g(x));
    }
  }

  lemma {:induction false} SplitEqual(a: bytes, b: bytes, c: bytes, d: bytes)
    requires |a| == |b|
    ensures a + c == b + d <==> a == b && c == d
  {
    if a + c == b + d {
      assert a == (a + c)[..|a|] && b == (b + d)[..|a|];
      assert c == (a + c)[|a|..] && d == (b + d)[|a|..];
    }
  }

  /** Where `g` succeeds with an item `ok` accepts, `f` does the same; then so do
      their repetitions. */
  lemma {:induction false} TimesAgree<T>(f: Reader<T>, g: Reader<T>, ok: T -> bool, off: nat, n: nat)
    requires forall o: nat :: g(o).Ok? && ok(g(o).value.value) ==> f(o) == g(o)
    requires Times(g, off, n).Ok?
    requires forall i :: 0 <= i < n ==> ok(Times(g, off, n).value.value[i])
    ensures Times(f, off, n) == Times(g, off, n)
  {
    if n > 0 {
      var all, init := Times(g, off, n).value.value, Times(g, off, n - 1).value.value;
      assert forall i :: 0 <= i < n - 1 ==> init[i] == all[i];
      TimesAgree(f, g, ok, off, n - 1);
      assert ok(all[n - 1]);
    }
  }

  lemma {:induction false} TimesOne<T>(f: Reader<T>, off: nat, x: T, end: nat)
    requires f(off) == Ok(Step(x, end))
    ensures Times(f, off, 1) == Ok(Step([x], end))
  {
    assert Times(f, off, 0) == Ok(Step([], off));
    assert [] + [x] == [x];
  }

  /** `z` succeeds exactly when `x` and `y` both do, and then `x` and `y` are equal and end
      where `z` does. */
  ghost predicate JointAt<T, U>(x: Result<Step<T>, ReadError>, y: Result<Step<T>, ReadError>, z: Result<Step<U>, ReadError>) {
    && (z.Ok? <==> x.Ok? && y.Ok?)
    && (z.Ok? ==> x == y && z.value.off == x.value.off)
  }

  ghost predicate Joint<T, U>(f: Reader<T>, g: Reader<T>, h: Reader<U>) {
    forall o: nat :: JointAt(f(o), g(o), h(o))
  }

  /** If that holds of single reads, it holds of their repetitions. */
  lemma {:induction false} TimesJoint<T, U>(f: Reader<T>, g: Reader<T>, h: Reader<U>, off: nat, n: nat)
    requires Joint(f, g, h)
    ensures JointAt(Times(f, off, n), Times(g, off, n), Times(h, off, n))
  {
    if n > 0 {
      TimesJoint(f, g, h, off, n - 1);
      var z := Times(h, off, n - 1);
      if z.Ok? {
        assert JointAt(f(z.value.off), g(z.value.off), h(z.value.off));
      }
    }
  }

  lemma {:induction false} ConcatAllStep<T>(enc: T -> bytes, head: bytes, xs: seq<T>, i: nat)
    requires i < |xs|
    ensures head + ConcatAll(enc, xs[..i + 1]) == head + ConcatAll(enc, xs[..i]) + enc(xs[i])
    ensures ConcatAll(enc, xs[..|xs|]) == ConcatAll(enc, xs)
  {
    assert xs[..i + 1][..i] == xs[..i];
    assert xs[..|xs|] == xs;
  }

  /** Encodings follow one another in the order of the items. */
  lemma {:induction false} ConcatAllConcat<T>(enc: T -> bytes, xs: seq<T>, ys: seq<T>)
    ensures ConcatAll(enc, xs + ys) == ConcatAll(enc, xs) + ConcatAll(enc, ys)
    decreases |ys|
  {
    if ys == [] {
      assert xs + ys == xs;
    } else {
      var init := ys[..|ys| - 1];
      assert (xs + ys)[..|xs + ys| - 1] == xs + init;
      ConcatAllConcat(enc, xs, init);
    }
  }
}
