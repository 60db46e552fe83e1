/** Valid UTF-8 in terms of code points (section 3 of RFC 3629): the byte strings the codecs
    accept as text are exactly the encodings of sequences of Unicode scalar values. */
module Utf8 {
  import opened Bytes

  predicate Scalar(cp: nat) {
    cp < 0xD800 || 0xE000 <= cp < 0x11_0000
  }

  function ScalarBytes(cp: nat): (b: bytes)
    requires Scalar(cp)
    ensures 1 <= |b| <= 4
  {
    if cp < 0x80 then [cp]
    else if cp < 0x800 then [0xC0 + cp / 0x40, 0x80 + cp % 0x40]
    else if cp < 0x1_0000 then [0xE0 + cp / 0x1000, 0x80 + cp / 0x40 % 0x40, 0x80 + cp % 0x40]
    else [0xF0 + cp / 0x4_0000, 0x80 + cp / 0x1000 % 0x40, 0x80 + cp / 0x40 % 0x40, 0x80 + cp % 0x40]
  }

  function TextBytes(cps: seq<nat>): (b: bytes)
    requires forall i :: 0 <= i < |cps| ==> Scalar(cps[i])
  {
    if cps == [] then [] else ScalarBytes(cps[0]) + TextBytes(cps[1..])
  }

  lemma {:induction false} ScalarIsCodePoint(cp: nat, rest: bytes)
    requires Scalar(cp)
    ensures CodePointLength(ScalarBytes(cp) + rest) == |ScalarBytes(cp)|
  {
  }

  lemma {:induction false} Digits(hi: nat, lo: nat)
    requires lo < 0x40
    ensures (hi * 0x40 + lo) / 0x40 == hi && (hi * 0x40 + lo) % 0x40 == lo
  {
  }

  /** The scalar value at the head of `s`. */
  lemma {:induction false} CodePointIsScalar(s: bytes) returns (cp: nat)
    requires CodePointLength(s) > 0
    ensures Scalar(cp) && ScalarBytes(cp) == s[..CodePointLength(s)]
  {
    var n := CodePointLength(s);
    var a: int := s[0];
    if n == 1 {
      cp := a;
    } else {
      var b: int := s[1] - 0x80;
      if n == 2 {
        cp := (a - 0xC0) * 0x40 + b;
        Digits(a - 0xC0, b);
      } else {
        var c: int := s[2] - 0x80;
        if n == 3 {
          cp := ThreeBytes(a - 0xE0, b, c);
        } else {
          cp := FourBytes(a - 0xF0, b, c, s[3] - 0x80);
        }
      }
    }
  }

  lemma {:induction false} ThreeBytes(a: nat, b: nat, c: nat) returns (cp: nat)
    requires a < 0x10 && b < 0x40 && c < 0x40 && (a == 0 ==> b >= 0x20) && (a == 0xD ==> b < 0x20)
    ensures Scalar(cp) && ScalarBytes(cp) == [0xE0 + a, 0x80 + b, 0x80 + c]
  {
    var hi := a * 0x40 + b;
    cp := hi * 0x40 + c;
    Digits(a, b);
    Digits(hi, c);
    assert cp / 0x1000 == cp / 0x40 / 0x40;
  }

  lemma {:induction false} FourBytes(a: nat, b: nat, c: nat, d: nat) returns (cp: nat)
    requires a <= 4 && b < 0x40 && c < 0x40 && d < 0x40 && (a == 0 ==> b >= 0x10) && (a == 4 ==> b < 0x10)
    ensures Scalar(cp) && ScalarBytes(cp) == [0xF0 + a, 0x80 + b, 0x80 + c, 0x80 + d]
  {
    var top := a * 0x40 + b;
    var hi := top * 0x40 + c;
    cp := hi * 0x40 + d;
    Digits(a, b);
    Digits(top, c);
    Digits(hi, d);
    assert cp / 0x1000 == cp / 0x40 / 0x40 && cp / 0x4_0000 == cp / 0x40 / 0x40 / 0x40;
  }

  lemma {:induction false} ScalarsOf(s: bytes) returns (cps: seq<nat>)
    requires ValidUtf8(s)
    ensures (forall i :: 0 <= i < |cps| ==> Scalar(cps[i])) && s == TextBytes(cps)
    decreases |s|
  {
    hide CodePointLength, ScalarBytes, Scalar;
    cps := [];
    if s != [] {
      var n := CodePointLength(s);
      var cp := CodePointIsScalar(s);
      var rest := ScalarsOf(s[n..]);
      cps := [cp] + rest;
      assert cps[1..] == rest && s == s[..n] + s[n..];
    }
  }

  lemma {:induction false} TextIsUtf8(cps: seq<nat>)
    requires forall i :: 0 <= i < |cps| ==> Scalar(cps[i])
    ensures ValidUtf8(TextBytes(cps))
  {
    hide CodePointLength, ScalarBytes, Scalar;
    if cps != [] {
      var b, rest := ScalarBytes(cps[0]), TextBytes(cps[1..]);
      TextIsUtf8(cps[1..]);
      ScalarIsCodePoint(cps[0], rest);
      assert (b + rest)[|b|..] == rest;
    }
  }

  /** A byte string is accepted as text exactly when it encodes some sequence of scalar
      values. */
  lemma {:induction false} ValidUtf8Iff(s: bytes)
    ensures ValidUtf8(s)
       <==> exists cps: seq<nat> :: (forall i :: 0 <= i < |cps| ==> Scalar(cps[i])) && s == TextBytes(cps)
  {
    hide CodePointLength, ScalarBytes, Scalar;
    if ValidUtf8(s) {
      var cps := ScalarsOf(s);
    }
    if cps: seq<nat> :| (forall i :: 0 <= i < |cps| ==> Scalar(cps[i])) && s == TextBytes(cps) {
      TextIsUtf8(cps);
    }
  }

  lemma {:induction false} TextBytesLast(cps: seq<nat>, cp: nat)
    requires (forall i :: 0 <= i < |cps| ==> Scalar(cps[i])) && Scalar(cp)
    ensures TextBytes(cps + [cp]) == TextBytes(cps) + ScalarBytes(cp)
  {
    hide ScalarBytes, Scalar;
    if cps == [] {
      assert cps + [cp] == [cp] && [cp][1..] == [];
    } else {
      assert (cps + [cp])[1..] == cps[1..] + [cp];
      TextBytesLast(cps[1..], cp);
    }
  }
}
