/** Byte strings, fixed-width little-endian integers and UTF-8, as every row
    and buffer format of the system uses them. Readers are indexed: they look at
    `data` from position `pos` and fail instead of running past the end. */
module Bytes {

  type u8 = x: int | 0 <= x < 0x100
  type u16 = x: int | 0 <= x < 0x1_0000
  type u32 = x: int | 0 <= x < 0x1_0000_0000
  type u64 = x: int | 0 <= x < 0x1_0000_0000_0000_0000
  type i64 = x: int | -0x8000_0000_0000_0000 <= x < 0x8000_0000_0000_0000

  type bytes = seq<u8>

  datatype Option<+T> = None | Some(value: T)

  datatype Result<+T, +E> = Ok(value: T) | Err(error: E)

  /** Why a row or a buffer is refused. */
  datatype ParseError = Truncated | InvalidUtf8 | UnknownTag(tag: u8) | Malformed

  // ---------------------------------------------------------------------------
  // Little-endian integers

  function U16(n: u16): (b: bytes)
    ensures |b| == 2
  {
    [n % 0x100, n / 0x100]
  }

  function U32(n: u32): (b: bytes)
    ensures |b| == 4
  {
    U16(n % 0x1_0000) + U16(n / 0x1_0000)
  }

  function U64(n: u64): (b: bytes)
    ensures |b| == 8
  {
    U32(n % 0x1_0000_0000) + U32(n / 0x1_0000_0000)
  }

  /** Two's complement. */
  function I64(n: i64): (b: bytes)
    ensures |b| == 8
  {
    U64(if n < 0 then n + 0x1_0000_0000_0000_0000 else n)
  }

  function ToU16(b: bytes): (n: u16)
    requires |b| == 2
  {
    var lo: int, hi: int := b[0], b[1];
    lo + 0x100 * hi
  }

  function ToU32(b: bytes): (n: u32)
    requires |b| == 4
  {
    var lo: int, hi: int := ToU16(b[..2]), ToU16(b[2..]);
    lo + 0x1_0000 * hi
  }

  function ToU64(b: bytes): (n: u64)
    requires |b| == 8
  {
    var lo: int, hi: int := ToU32(b[..4]), ToU32(b[4..]);
    lo + 0x1_0000_0000 * hi
  }

  function ToI64(b: bytes): (n: i64)
    requires |b| == 8
  {
    var n := ToU64(b);
    if n < 0x8000_0000_0000_0000 then n else n - 0x1_0000_0000_0000_0000
  }

  lemma {:induction false} U16RoundTrip(n: u16)
    ensures ToU16(U16(n)) == n
  {
  }

  lemma {:induction false} U32RoundTrip(n: u32)
    ensures ToU32(U32(n)) == n
  {
    assert U32(n)[..2] == U16(n % 0x1_0000);
    assert U32(n)[2..] == U16(n / 0x1_0000);
  }

  lemma {:induction false} U64RoundTrip(n: u64)
    ensures ToU64(U64(n)) == n
  {
    assert U64(n)[..4] == U32(n % 0x1_0000_0000);
    assert U64(n)[4..] == U32(n / 0x1_0000_0000);
    U32RoundTrip(n % 0x1_0000_0000);
    U32RoundTrip(n / 0x1_0000_0000);
  }

  lemma {:induction false} I64RoundTrip(n: i64)
    ensures ToI64(I64(n)) == n
  {
    U64RoundTrip(if n < 0 then n + 0x1_0000_0000_0000_0000 else n);
  }

  lemma {:induction false} U16Onto(b: bytes)
    requires |b| == 2
    ensures U16(ToU16(b)) == b
  {
  }

  lemma {:induction false} U32Onto(b: bytes)
    requires |b| == 4
    ensures U32(ToU32(b)) == b
  {
    var lo: int, hi: int := ToU16(b[..2]), ToU16(b[2..]);
    assert (lo + 0x1_0000 * hi) % 0x1_0000 == lo && (lo + 0x1_0000 * hi) / 0x1_0000 == hi;
    U16Onto(b[..2]);
    U16Onto(b[2..]);
    assert b == U16(lo) + U16(hi);
  }

  lemma {:induction false} U64Onto(b: bytes)
    requires |b| == 8
    ensures U64(ToU64(b)) == b
  {
    var lo: int, hi: int := ToU32(b[..4]), ToU32(b[4..]);
    assert (lo + 0x1_0000_0000 * hi) % 0x1_0000_0000 == lo && (lo + 0x1_0000_0000 * hi) / 0x1_0000_0000 == hi;
    U32Onto(b[..4]);
    U32Onto(b[4..]);
    assert b == U32(lo) + U32(hi);
  }

  lemma {:induction false} I64Onto(b: bytes)
    requires |b| == 8
    ensures I64(ToI64(b)) == b
  {
    U64Onto(b);
  }

  // ---------------------------------------------------------------------------
  // UTF-8 (section 4 of RFC 3629)

  predicate Tail(b: u8) {
    0x80 <= b <= 0xBF
  }

  /** Length of the well-formed code point at the head of `s`, or 0. */
  function CodePointLength(s: bytes): (n: nat)
    ensures n <= |s|
  {
    if |s| >= 1 && s[0] <= 0x7F then 1
    else if |s| >= 2 && 0xC2 <= s[0] <= 0xDF && Tail(s[1]) then 2
    else if |s| >= 3 && Tail(s[1]) && Tail(s[2])
            && (|| (s[0] == 0xE0 && 0xA0 <= s[1])
                || 0xE1 <= s[0] <= 0xEC
                || (s[0] == 0xED && s[1] <= 0x9F)
                || 0xEE <= s[0] <= 0xEF) then 3
    else if |s| >= 4 && Tail(s[1]) && Tail(s[2]) && Tail(s[3])
            && (|| (s[0] == 0xF0 && 0x90 <= s[1])
                || 0xF1 <= s[0] <= 0xF3
                || (s[0] == 0xF4 && s[1] <= 0x8F)) then 4
    else 0
  }

  /** Rust's `String`: bytes that are valid UTF-8. */
  predicate ValidUtf8(s: bytes)
    decreases |s|
  {
    s == [] || (CodePointLength(s) > 0 && ValidUtf8(s[CodePointLength(s)..]))
  }

  lemma {:induction false} AsciiIsUtf8(s: bytes)
    requires forall i :: 0 <= i < |s| ==> s[i] < 0x80
    ensures ValidUtf8(s)
  {
    if s != [] {
      AsciiIsUtf8(s[1..]);
    }
  }

  // ---------------------------------------------------------------------------
  // Chunks at a position

  /** `chunk` occupies `data` from `pos` on. */
  predicate Has(data: bytes, pos: nat, chunk: bytes) {
    pos + |chunk| <= |data| && data[pos..pos + |chunk|] == chunk
  }

  lemma {:induction false} HasConcat(data: bytes, pos: nat, a: bytes, b: bytes)
    ensures Has(data, pos, a + b) <==> Has(data, pos, a) && Has(data, pos + |a|, b)
  {
    if Has(data, pos, a) && Has(data, pos + |a|, b) {
      assert data[pos..pos + |a + b|] == data[pos..pos + |a|] + data[pos + |a|..pos + |a| + |b|];
    }
    if Has(data, pos, a + b) {
      assert data[pos..pos + |a|] == (a + b)[..|a|];
      assert data[pos + |a|..pos + |a| + |b|] == (a + b)[|a|..];
    }
  }

  lemma {:induction false} HasNothing(data: bytes, pos: nat)
    requires pos <= |data|
    ensures Has(data, pos, [])
  {
  }

  lemma {:induction false} HasAll(data: bytes, chunk: bytes)
    ensures data == chunk <==> |data| == |chunk| && Has(data, 0, chunk)
  {
  }

  lemma {:induction false} HasBound(data: bytes, pos: nat, chunk: bytes)
    requires Has(data, pos, chunk)
    ensures pos + |chunk| <= |data|
  {
  }

  lemma {:induction false} HasPrefix(data: bytes, chunk: bytes)
    ensures chunk <= data <==> Has(data, 0, chunk)
  {
  }

  lemma {:induction false} SameStart(data: bytes, pos: nat, a: bytes, b: bytes)
    requires Has(data, pos, a) && Has(data, pos, b) && |b| <= |a|
    ensures b <= a
    ensures forall i :: 0 <= i < |b| ==> b[i] == a[i]
  {
  }

  /** What is at `pos` stays there when more bytes follow. */
  lemma {:induction false} HasExtended(data: bytes, pos: nat, chunk: bytes, more: bytes)
    requires Has(data, pos, chunk)
    ensures Has(data + more, pos, chunk)
  {
    assert (data + more)[pos..pos + |chunk|] == data[pos..pos + |chunk|];
  }

  // ---------------------------------------------------------------------------
  // Indexed readers

  function ReadU8(data: bytes, pos: nat): (r: Option<u8>) {
    if pos + 1 <= |data| then Some(data[pos]) else None
  }

  function ReadU16(data: bytes, pos: nat): (r: Option<u16>) {
    if pos + 2 <= |data| then Some(ToU16(data[pos..pos + 2])) else None
  }

  function ReadU32(data: bytes, pos: nat): (r: Option<u32>) {
    if pos + 4 <= |data| then Some(ToU32(data[pos..pos + 4])) else None
  }

  function ReadU64(data: bytes, pos: nat): (r: Option<u64>) {
    if pos + 8 <= |data| then Some(ToU64(data[pos..pos + 8])) else None
  }

  function ReadI64(data: bytes, pos: nat): (r: Option<i64>) {
    if pos + 8 <= |data| then Some(ToI64(data[pos..pos + 8])) else None
  }

  /** `n` bytes that must be valid UTF-8. */
  function ReadText(data: bytes, pos: nat, n: nat): (r: Result<bytes, ParseError>)
    ensures r.Ok? <==> pos + n <= |data| && ValidUtf8(data[pos..pos + n])
    ensures r.Ok? ==> |r.value| == n && Has(data, pos, r.value)
  {
    if |data| < pos + n then Err(Truncated)
    else if ValidUtf8(data[pos..pos + n]) then Ok(data[pos..pos + n])
    else Err(InvalidUtf8)
  }

  lemma {:induction false} ReadU8Has(data: bytes, pos: nat, n: u8)
    ensures ReadU8(data, pos) == Some(n) <==> Has(data, pos, [n])
  {
    if Has(data, pos, [n]) {
      assert data[pos..pos + 1][0] == n;
    }
  }

  lemma {:induction false} ReadU16Has(data: bytes, pos: nat, n: u16)
    ensures ReadU16(data, pos) == Some(n) <==> Has(data, pos, U16(n))
  {
    U16RoundTrip(n);
    if pos + 2 <= |data| {
      U16Onto(data[pos..pos + 2]);
    }
  }

  lemma {:induction false} ReadU32Has(data: bytes, pos: nat, n: u32)
    ensures ReadU32(data, pos) == Some(n) <==> Has(data, pos, U32(n))
  {
    U32RoundTrip(n);
    if pos + 4 <= |data| {
      U32Onto(data[pos..pos + 4]);
    }
  }

  lemma {:induction false} ReadU64Has(data: bytes, pos: nat, n: u64)
    ensures ReadU64(data, pos) == Some(n) <==> Has(data, pos, U64(n))
  {
    U64RoundTrip(n);
    if pos + 8 <= |data| {
      U64Onto(data[pos..pos + 8]);
    }
  }

  lemma {:induction false} ReadI64Has(data: bytes, pos: nat, n: i64)
    ensures ReadI64(data, pos) == Some(n) <==> Has(data, pos, I64(n))
  {
    I64RoundTrip(n);
    if pos + 8 <= |data| {
      I64Onto(data[pos..pos + 8]);
    }
  }

  lemma {:induction false} ReadTextHas(data: bytes, pos: nat, s: bytes)
    ensures ReadText(data, pos, |s|) == Ok(s) <==> Has(data, pos, s) && ValidUtf8(s)
  {
  }

  // ---------------------------------------------------------------------------
  // Numbers as sums over bytes

  /** The number in `n` bytes from `pos`, lowest byte first. */
  function LE(data: bytes, pos: nat, n: nat): (v: nat)
    requires pos + n <= |data|
    decreases n
  {
    if n == 0 then 0 else LE(data, pos + 1, n - 1) * 0x100 + data[pos]
  }

  lemma {:induction false} LE2(data: bytes, pos: nat)
    requires pos + 2 <= |data|
    ensures LE(data, pos, 2) == ToU16(data[pos..pos + 2])
  {
    assert LE(data, pos + 1, 1) == LE(data, pos + 2, 0) * 0x100 + data[pos + 1];
  }

  lemma {:induction false} LE2Then(data: bytes, pos: nat, n: nat)
    requires pos + 2 + n <= |data|
    ensures LE(data, pos, 2 + n) == LE(data, pos, 2) + 0x1_0000 * LE(data, pos + 2, n)
  {
    assert LE(data, pos, 2 + n) == LE(data, pos + 1, 1 + n) * 0x100 + data[pos];
    assert LE(data, pos + 1, 1 + n) == LE(data, pos + 2, n) * 0x100 + data[pos + 1];
    assert LE(data, pos + 1, 1) == LE(data, pos + 2, 0) * 0x100 + data[pos + 1];
  }

  lemma {:induction false} LE4(data: bytes, pos: nat)
    requires pos + 4 <= |data|
    ensures LE(data, pos, 4) == ToU32(data[pos..pos + 4])
  {
    hide LE, ToU16;
    LE2(data, pos);
    LE2(data, pos + 2);
    LE2Then(data, pos, 2);
    var b := data[pos..pos + 4];
    assert b[..2] == data[pos..pos + 2] && b[2..] == data[pos + 2..pos + 4];
  }

  lemma {:induction false} LE8(data: bytes, pos: nat)
    requires pos + 8 <= |data|
    ensures LE(data, pos, 8) == ToU64(data[pos..pos + 8])
  {
    hide LE, ToU32;
    LE4(data, pos);
    LE4(data, pos + 4);
    LE2Then(data, pos, 6);
    LE2Then(data, pos + 2, 4);
    LE2Then(data, pos, 2);
    var b := data[pos..pos + 8];
    assert b[..4] == data[pos..pos + 4] && b[4..] == data[pos + 4..pos + 8];
  }

  /** Where a number is written, its bytes add up to it. */
  lemma {:induction false} U16At(data: bytes, pos: nat, n: u16)
    requires Has(data, pos, U16(n))
    ensures pos + 2 <= |data| && LE(data, pos, 2) == n
  {
    hide U16, ToU16, LE;
    ReadU16Has(data, pos, n);
    LE2(data, pos);
  }

  lemma {:induction false} U32At(data: bytes, pos: nat, n: u32)
    requires Has(data, pos, U32(n))
    ensures pos + 4 <= |data| && LE(data, pos, 4) == n
  {
    hide U32, ToU32, LE;
    ReadU32Has(data, pos, n);
    LE4(data, pos);
  }

  lemma {:induction false} U64At(data: bytes, pos: nat, n: u64)
    requires Has(data, pos, U64(n))
    ensures pos + 8 <= |data| && LE(data, pos, 8) == n
  {
    hide U64, ToU64, LE;
    ReadU64Has(data, pos, n);
    LE8(data, pos);
  }

  /** Negative numbers in two's complement. */
  lemma {:induction false} I64At(data: bytes, pos: nat, n: i64)
    requires Has(data, pos, I64(n))
    ensures pos + 8 <= |data| && LE(data, pos, 8) == if n < 0 then n + 0x1_0000_0000_0000_0000 else n
  {
    hide U64, LE;
    U64At(data, pos, if n < 0 then n + 0x1_0000_0000_0000_0000 else n);
  }

  // ---------------------------------------------------------------------------
  // Length-prefixed strings

  predicate Fits1(s: bytes) {
    ValidUtf8(s) && |s| < 0x100
  }

  predicate Fits2(s: bytes) {
    ValidUtf8(s) && |s| < 0x1_0000
  }

  /** A one-byte length, cut to eight bits, then the bytes. */
  function Str1(s: bytes): (b: bytes)
    ensures |b| == 1 + |s|
  {
    [|s| % 0x100] + s
  }

  /** A two-byte length, cut to sixteen bits, then the bytes. */
  function Str2(s: bytes): (b: bytes)
    ensures |b| == 2 + |s|
  {
    U16(|s| % 0x1_0000) + s
  }

  /** Reads a string with a one-byte length; `extra` more bytes must follow it. */
  function ReadStr1(data: bytes, pos: nat, extra: nat): (r: Result<bytes, ParseError>)
    ensures r.Ok? ==> pos + |Str1(r.value)| + extra <= |data|
  {
    if |data| < pos + 1 || |data| < pos + 1 + data[pos] + extra then Err(Truncated)
    else ReadText(data, pos + 1, data[pos])
  }

  function ReadStr2(data: bytes, pos: nat): (r: Result<bytes, ParseError>)
    ensures r.Ok? ==> pos + |Str2(r.value)| <= |data|
  {
    if |data| < pos + 2 then Err(Truncated)
    else ReadText(data, pos + 2, ToU16(data[pos..pos + 2]))
  }

  lemma {:induction false} ReadStr1Has(data: bytes, pos: nat, extra: nat, s: bytes)
    ensures ReadStr1(data, pos, extra) == Ok(s)
       <==> Fits1(s) && Has(data, pos, Str1(s)) && pos + |Str1(s)| + extra <= |data|
    ensures Has(data, pos, Str1(s)) ==> pos + |Str1(s)| <= |data|
  {
    hide ValidUtf8;
    HasConcat(data, pos, [|s| % 0x100], s);
    ReadU8Has(data, pos, |s| % 0x100);
    ReadTextHas(data, pos + 1, s);
  }

  lemma {:induction false} ReadStr2Has(data: bytes, pos: nat, s: bytes)
    ensures ReadStr2(data, pos) == Ok(s) <==> Fits2(s) && Has(data, pos, Str2(s))
  {
    hide Has, ValidUtf8, U16, ToU16;
    HasConcat(data, pos, U16(|s| % 0x1_0000), s);
    ReadU16Has(data, pos, |s| % 0x1_0000);
    ReadTextHas(data, pos + 2, s);
  }

  // ---------------------------------------------------------------------------
  // Strings by position

  /** A one-byte length, cut to eight bits, and the bytes after it. */
  predicate Text1At(data: bytes, pos: nat, s: bytes) {
    pos + 1 + |s| <= |data| && data[pos] == |s| % 0x100 && data[pos + 1..pos + 1 + |s|] == s
  }

  predicate Text2At(data: bytes, pos: nat, s: bytes) {
    pos + 2 + |s| <= |data| && LE(data, pos, 2) == |s| % 0x1_0000 && data[pos + 2..pos + 2 + |s|] == s
  }

  predicate Text4At(data: bytes, pos: nat, s: bytes) {
    pos + 4 + |s| <= |data| && LE(data, pos, 4) == |s| % 0x1_0000_0000 && data[pos + 4..pos + 4 + |s|] == s
  }

  lemma {:induction false} Str1At(data: bytes, pos: nat, s: bytes)
    requires Has(data, pos, Str1(s))
    ensures Text1At(data, pos, s)
  {
    HasConcat(data, pos, [|s| % 0x100], s);
    ReadU8Has(data, pos, |s| % 0x100);
  }

  lemma {:induction false} Str2At(data: bytes, pos: nat, s: bytes)
    requires Has(data, pos, Str2(s))
    ensures Text2At(data, pos, s)
  {
    hide LE, U16;
    HasConcat(data, pos, U16(|s| % 0x1_0000), s);
    U16At(data, pos, |s| % 0x1_0000);
  }

  lemma {:induction false} Len4At(data: bytes, pos: nat, s: bytes)
    requires Has(data, pos, U32(|s| % 0x1_0000_0000) + s)
    ensures Text4At(data, pos, s)
  {
    hide LE, U32;
    HasConcat(data, pos, U32(|s| % 0x1_0000_0000), s);
    U32At(data, pos, |s| % 0x1_0000_0000);
  }
}
