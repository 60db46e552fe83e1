/** Text form of UUIDs. The code formats five big-endian numbers in zero-padded
    hexadecimal; the result is the two-digit hexadecimal of each byte. */
module Uuid {
  import opened Bytes

  type nibble = n: int | 0 <= n < 16

  function HexDigit(n: nibble): u8 {
    if n < 10 then 48 + n else 87 + n
  }

  const HYPHEN: bytes := [45]

  /** `{:x}`: no leading zeros. */
  function Hex(n: nat): (s: bytes)
    ensures |s| > 0
  {
    if n < 16 then [HexDigit(n)] else Hex(n / 16) + [HexDigit(n % 16)]
  }

  function Zeros(k: nat): (s: bytes)
    ensures |s| == k
  {
    if k == 0 then [] else [48] + Zeros(k - 1)
  }

  /** `{:0wx}`: padded on the left to at least `w` digits. */
  function Padded(n: nat, w: nat): (s: bytes) {
    if |Hex(n)| < w then Zeros(w - |Hex(n)|) + Hex(n) else Hex(n)
  }

  function BigEndian(bs: bytes): (n: nat) {
    if bs == [] then 0 else 256 * BigEndian(bs[..|bs| - 1]) + bs[|bs| - 1]
  }

  function Format(u: bytes): (s: bytes)
    requires |u| == 16
  {
    Padded(BigEndian(u[0..4]), 8) + HYPHEN + Padded(BigEndian(u[4..6]), 4) + HYPHEN + Padded(BigEndian(u[6..8]), 4)
    + HYPHEN + Padded(BigEndian(u[8..10]), 4) + HYPHEN + Padded(BigEndian(u[10..16]), 12)
  }

  // ---------------------------------------------------------------------------
  // The byte-wise form

  /** Two lowercase digits per byte. */
  function HexBytes(bs: bytes): (s: bytes)
    ensures |s| == 2 * |bs|
  {
    if bs == [] then []
    else HexBytes(bs[..|bs| - 1]) + [HexDigit(bs[|bs| - 1] / 16), HexDigit(bs[|bs| - 1] % 16)]
  }

  lemma {:induction false} ZerosShift(k: nat)
    ensures Zeros(k) + [48] == Zeros(k + 1)
  {
    if k > 0 {
      ZerosShift(k - 1);
      assert [48] + Zeros(k - 1) + [48] == [48] + (Zeros(k - 1) + [48]);
    }
  }

  /** Appending a digit commutes with padding. */
  lemma {:induction false} PaddedStep(n: nat, d: nibble, w: nat)
    requires |Hex(n)| <= w && w > 0
    ensures |Hex(16 * n + d)| <= w + 1
    ensures Padded(16 * n + d, w + 1) == Padded(n, w) + [HexDigit(d)]
  {
    if n == 0 {
      assert Hex(n) == [48];
      ZerosShift(w - 1);
    } else {
      assert Hex(16 * n + d) == Hex(n) + [HexDigit(d)];
    }
  }

  lemma {:induction false} PaddedIsHexBytes(bs: bytes)
    requires bs != []
    ensures |Hex(BigEndian(bs))| <= 2 * |bs|
    ensures Padded(BigEndian(bs), 2 * |bs|) == HexBytes(bs)
  {
    hide Padded, Hex, HexDigit;
    var init, b := bs[..|bs| - 1], bs[|bs| - 1];
    var hi: nat, lo: nat := b / 16, b % 16;
    var n, w := BigEndian(init), 2 * |init|;
    assert BigEndian(bs) == 16 * (16 * n + hi) + lo;
    if init == [] {
      PaddedByte(hi, lo);
      assert HexBytes(bs) == [HexDigit(hi), HexDigit(lo)];
    } else {
      PaddedIsHexBytes(init);
      PaddedStep(n, hi, w);
      PaddedStep(16 * n + hi, lo, w + 1);
      assert HexBytes(init) + [HexDigit(hi)] + [HexDigit(lo)] == HexBytes(bs);
    }
  }

  lemma {:induction false} PaddedByte(hi: nibble, lo: nibble)
    ensures |Hex(16 * hi + lo)| <= 2 && Padded(16 * hi + lo, 2) == [HexDigit(hi), HexDigit(lo)]
  {
    PaddedStep(hi, lo, 1);
  }

  /** The text is the lowercase hexadecimal of the sixteen bytes in order, with
      hyphens in 8-4-4-4-12 form (section 4 of RFC 9562). */
  lemma {:induction false} FormatIsByteWise(u: bytes)
    requires |u| == 16
    ensures Format(u) == HexBytes(u[0..4]) + HYPHEN + HexBytes(u[4..6]) + HYPHEN + HexBytes(u[6..8])
                         + HYPHEN + HexBytes(u[8..10]) + HYPHEN + HexBytes(u[10..16])
    ensures |Format(u)| == 36
  {
    hide Padded, HexBytes, BigEndian;
    PaddedIsHexBytes(u[0..4]);
    PaddedIsHexBytes(u[4..6]);
    PaddedIsHexBytes(u[6..8]);
    PaddedIsHexBytes(u[8..10]);
    PaddedIsHexBytes(u[10..16]);
  }

  lemma {:induction false} HexDigitInjective(a: nibble, b: nibble)
    requires HexDigit(a) == HexDigit(b)
    ensures a == b
  {
  }

  lemma {:induction false} HexBytesInjective(a: bytes, b: bytes)
    requires |a| == |b| && HexBytes(a) == HexBytes(b)
    ensures a == b
  {
    if a != [] {
      var n := |a| - 1;
      var x, y := HexBytes(a), HexBytes(b);
      assert x[..2 * n] == HexBytes(a[..n]) && y[..2 * n] == HexBytes(b[..n]);
      HexBytesInjective(a[..n], b[..n]);
      assert x[2 * n] == y[2 * n] && x[2 * n + 1] == y[2 * n + 1];
      HexDigitInjective(a[n] / 16, b[n] / 16);
      HexDigitInjective(a[n] % 16, b[n] % 16);
      assert a == a[..n] + [a[n]] && b == b[..n] + [b[n]];
    }
  }

  /** Distinct UUIDs have distinct texts. */
  lemma {:induction false} FormatInjective(u: bytes, v: bytes)
    requires |u| == |v| == 16 && Format(u) == Format(v)
    ensures u == v
  {
    hide Format, HexBytes;
    FormatIsByteWise(u);
    FormatIsByteWise(v);
    var s := Format(u);
    assert s[0..8] == HexBytes(u[0..4]) == HexBytes(v[0..4]);
    assert s[9..13] == HexBytes(u[4..6]) == HexBytes(v[4..6]);
    assert s[14..18] == HexBytes(u[6..8]) == HexBytes(v[6..8]);
    assert s[19..23] == HexBytes(u[8..10]) == HexBytes(v[8..10]);
    assert s[24..36] == HexBytes(u[10..16]) == HexBytes(v[10..16]);
    HexBytesInjective(u[0..4], v[0..4]);
    HexBytesInjective(u[4..6], v[4..6]);
    HexBytesInjective(u[6..8], v[6..8]);
    HexBytesInjective(u[8..10], v[8..10]);
    HexBytesInjective(u[10..16], v[10..16]);
    assert u == u[0..4] + u[4..6] + u[6..8] + u[8..10] + u[10..16];
    assert v == v[0..4] + v[4..6] + v[6..8] + v[8..10] + v[10..16];
  }

  /** Two digits of "0123456789abcdef" per byte, high half first. */
  lemma {:induction false} HexBytesAre(bs: bytes, k: nat)
    requires k < |bs|
    ensures HexBytes(bs)[2 * k] == "0123456789abcdef"[bs[k] / 16] as int
    ensures HexBytes(bs)[2 * k + 1] == "0123456789abcdef"[bs[k] % 16] as int
  {
    var init := bs[..|bs| - 1];
    if k < |init| {
      HexBytesAre(init, k);
    } else {
      DigitIs(bs[k] / 16);
      DigitIs(bs[k] % 16);
    }
  }

  lemma {:induction false} DigitIs(n: nibble)
    ensures HexDigit(n) == "0123456789abcdef"[n] as int
  {
  }
}
