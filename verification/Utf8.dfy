/** UTF-8: the validator of parson.c against the encoding defined in section 4 of RFC 3629. */
module Utf8 {
  import opened Bits
  import opened Bytes

  /** A Unicode scalar value: a code point that is not a surrogate half. */
  predicate Scalar(cp: int) {
    0 <= cp <= 0x10FFFF && !(0xD800 <= cp <= 0xDFFF)
  }

  /** The table of section 3 of RFC 3629: the octets of one scalar value. */
  function Encode(cp: int): (bs: seq<byte>)
    requires Scalar(cp)
    ensures 1 <= |bs| <= 4
  {
    if cp < 0x80 then [cp]
    else if cp < 0x800 then [0xC0 + cp / 64, 0x80 + cp % 64]
    else if cp < 0x10000 then [0xE0 + cp / 4096, 0x80 + cp / 64 % 64, 0x80 + cp % 64]
    else [0xF0 + cp / 262144, 0x80 + cp / 4096 % 64, 0x80 + cp / 64 % 64, 0x80 + cp % 64]
  }

  predicate AllScalar(cps: seq<int>) {
    forall i :: 0 <= i < |cps| ==> Scalar(cps[i])
  }

  function EncodeAll(cps: seq<int>): seq<byte>
    requires AllScalar(cps)
  {
    if cps == [] then [] else Encode(cps[0]) + EncodeAll(cps[1..])
  }

  /** Well-formed text: some sequence of scalar values encodes to it. */
  ghost predicate WellFormed(s: seq<byte>) {
    exists cps: seq<int> :: AllScalar(cps) && EncodeAll(cps) == s
  }

  // The C tests and shifts, written as the arithmetic they amount to; `VerifyUtf8Sequence` below is the
  // function with the masks and shifts of the source.

  predicate IsCont(b: byte) {
    0x80 <= b < 0xC0
  }

  function SequenceLength(c: byte): nat {
    if c == 0xC0 || c == 0xC1 || c > 0xF4 || IsCont(c) then 0
    else if c < 0x80 then 1
    else if c < 0xE0 then 2
    else if c < 0xF0 then 3
    else 4
  }

  function Join(cp: nat, b: byte): nat {
    cp * 64 + b % 64
  }

  /** The code point that the first sequence of `s` carries, or -1 when a continuation byte is missing. */
  function Assemble(s: seq<byte>): (cp: int)
    ensures cp >= -1
  {
    var len := SequenceLength(At(s, 0));
    if len == 1 then At(s, 0)
    else if len == 2 && IsCont(At(s, 1)) then
      Join(At(s, 0) % 32, At(s, 1))
    else if len == 3 && IsCont(At(s, 1)) && IsCont(At(s, 2)) then
      Join(Join(At(s, 0) % 16, At(s, 1)), At(s, 2))
    else if len == 4 && IsCont(At(s, 1)) && IsCont(At(s, 2)) && IsCont(At(s, 3)) then
      Join(Join(Join(At(s, 0) % 8, At(s, 1)), At(s, 2)), At(s, 3))
    else -1
  }

  predicate VerifySequence(s: seq<byte>) {
    var len, cp := SequenceLength(At(s, 0)), Assemble(s);
    && cp != -1
    && !((cp < 0x80 && len > 1) || (cp < 0x800 && len > 2) || (cp < 0x10000 && len > 3))
    && !(cp > 0x10FFFF)
    && !(0xD800 <= cp <= 0xDFFF)
  }

  /** Masking with the top n bits of a byte clears the k bits below them; m == 2^n - 1, p == 2^k. */
  lemma TopMask(b: byte, m: nat, n: nat, p: nat, k: nat)
    requires m + 1 == Pow2(n) && p == Pow2(k) && p * (m + 1) == 256
    ensures And(b, m * p) == b / p * p
  {
    hide And, Pow2;
    var q := b / p;
    DivBelow(b, p, m + 1);
    AndHighMask(b, m, k);
    AndLowMask(q, n);
    DivModUnique(q, m + 1, 0, q);
  }

  /** IS_CONT. */
  predicate IsContinuation(b: byte) {
    And(b, 0xC0) == 0x80
  }

  function NumBytesInSequence(c: byte): nat {
    if c == 0xC0 || c == 0xC1 || c > 0xF4 || IsContinuation(c) then 0
    else if And(c, 0x80) == 0 then 1
    else if And(c, 0xE0) == 0xC0 then 2
    else if And(c, 0xF0) == 0xE0 then 3
    else if And(c, 0xF8) == 0xF0 then 4
    else 0
  }

  /** Masked tests are range tests. */
  lemma BitTests(b: byte)
    ensures IsContinuation(b) <==> IsCont(b)
    ensures NumBytesInSequence(b) == SequenceLength(b)
  {
    hide And;
    assert Pow2(1) == 2 && Pow2(2) == 4 && Pow2(6) == 64 && Pow2(7) == 128;
    TopMask(b, 1, 1, 128, 7);
    TopMask(b, 3, 2, 64, 6);
    BitLeads(b);
  }

  lemma BitLeads(b: byte)
    ensures 0xC0 <= b < 0xE0 <==> And(b, 0xE0) == 0xC0
    ensures 0xE0 <= b < 0xF0 <==> And(b, 0xF0) == 0xE0
    ensures 0xF0 <= b < 0xF8 <==> And(b, 0xF8) == 0xF0
  {
    hide And;
    assert Pow2(3) == 8 && Pow2(4) == 16 && Pow2(5) == 32;
    TopMask(b, 7, 3, 32, 5);
    TopMask(b, 15, 4, 16, 4);
    TopMask(b, 31, 5, 8, 3);
  }

  /** `(cp << 6) | (b & 0x3F)`. */
  function ShiftIn(cp: nat, b: byte): nat
  {
    AndBounds(b, 0x3F);
    Or(cp * Pow2(6), And(b, 0x3F))
  }

  /** Shifting bits in is arithmetic in base 64. */
  lemma BitJoin(cp: nat, b: byte)
    ensures And(b, 0x1F) == b % 32 && And(b, 0xF) == b % 16 && And(b, 0x7) == b % 8
    ensures ShiftIn(cp, b) == Join(cp, b)
  {
    hide And, Or;
    AndLowMask(b, 6); AndLowMask(b, 5); AndLowMask(b, 4); AndLowMask(b, 3);
    assert Pow2(3) == 8 && Pow2(4) == 16 && Pow2(5) == 32 && Pow2(6) == 64;
    OrDisjoint(cp, b % 64, 6);
  }

  /** verify_utf8_sequence: the length of the sequence at the start of `s`, and whether it is good. */
  method VerifyUtf8Sequence(s: seq<byte>) returns (ok: bool, len: nat)
    ensures len == SequenceLength(At(s, 0)) && ok == VerifySequence(s)
  {
    hide And, ShiftIn, Join, NumBytesInSequence, SequenceLength, IsContinuation, IsCont;
    var b0, b1, b2, b3 := At(s, 0), At(s, 1), At(s, 2), At(s, 3);
    BitTests(b0); BitTests(b1); BitTests(b2); BitTests(b3);
    len := NumBytesInSequence(b0);
    BitJoin(0, b0);
    var cp: nat := 0;
    if len == 1 {
      cp := b0;
    } else if len == 2 && IsContinuation(b1) {
      cp := And(b0, 0x1F);
      BitJoin(cp, b1);
      cp := ShiftIn(cp, b1);
    } else if len == 3 && IsContinuation(b1) && IsContinuation(b2) {
      cp := And(b0, 0xF);
      BitJoin(cp, b1);
      cp := ShiftIn(cp, b1);
      BitJoin(cp, b2);
      cp := ShiftIn(cp, b2);
    } else if len == 4 && IsContinuation(b1) && IsContinuation(b2) && IsContinuation(b3) {
      cp := And(b0, 0x7);
      BitJoin(cp, b1);
      cp := ShiftIn(cp, b1);
      BitJoin(cp, b2);
      cp := ShiftIn(cp, b2);
      BitJoin(cp, b3);
      cp := ShiftIn(cp, b3);
    } else {
      return false, len;
    }
    if (cp < 0x80 && len > 1) || (cp < 0x800 && len > 2) || (cp < 0x10000 && len > 3) {
      return false, len;
    }
    if cp > 0x10FFFF {
      return false, len;
    }
    if cp >= 0xD800 && cp <= 0xDFFF {
      return false, len;
    }
    ok := true;
  }

  lemma Digits64(cp: nat)
    ensures cp == cp / 64 * 64 + cp % 64
    ensures cp / 64 == cp / 4096 * 64 + cp / 64 % 64
    ensures cp / 4096 == cp / 262144 * 64 + cp / 4096 % 64
  {
  }

  lemma FromDigits64(a: nat, b: nat, c: nat, d: nat)
    requires b < 64 && c < 64 && d < 64
    ensures var cp := ((a * 64 + b) * 64 + c) * 64 + d;
            && cp / 64 == (a * 64 + b) * 64 + c && cp % 64 == d && cp / 64 % 64 == c
            && cp / 4096 == a * 64 + b && cp / 4096 % 64 == b && cp / 262144 == a
  {
  }

  lemma Encoded2(cp: int, s: seq<byte>)
    requires Scalar(cp) && 0x80 <= cp < 0x800 && Encode(cp) <= s
    ensures SequenceLength(At(s, 0)) == 2 && Assemble(s) == cp
  {
    assert At(s, 0) == Encode(cp)[0] && At(s, 1) == Encode(cp)[1];
  }

  lemma Encoded3(cp: int, s: seq<byte>)
    requires Scalar(cp) && 0x800 <= cp < 0x10000 && Encode(cp) <= s
    ensures SequenceLength(At(s, 0)) == 3 && Assemble(s) == cp
  {
    Digits64(cp);
    assert At(s, 0) == Encode(cp)[0] && At(s, 1) == Encode(cp)[1] && At(s, 2) == Encode(cp)[2];
    assert At(s, 0) % 16 == cp / 4096;
  }

  lemma Encoded4(cp: int, s: seq<byte>)
    requires Scalar(cp) && 0x10000 <= cp && Encode(cp) <= s
    ensures SequenceLength(At(s, 0)) == 4 && Assemble(s) == cp
  {
    var a, b, c, d := cp / 262144, cp / 4096 % 64, cp / 64 % 64, cp % 64;
    Digits64(cp);
    assert At(s, 0) == 0xF0 + a && At(s, 1) == 0x80 + b && At(s, 2) == 0x80 + c && At(s, 3) == 0x80 + d;
    Assembles4(s, a, b, c, d);
  }

  lemma Assembles4(s: seq<byte>, a: nat, b: nat, c: nat, d: nat)
    requires a < 5 && b < 64 && c < 64 && d < 64
    requires At(s, 0) == 0xF0 + a && At(s, 1) == 0x80 + b && At(s, 2) == 0x80 + c && At(s, 3) == 0x80 + d
    ensures SequenceLength(At(s, 0)) == 4 && Assemble(s) == ((a * 64 + b) * 64 + c) * 64 + d
  {
    DivModUnique(0xF0 + a, 8, 30, a);
    DivModUnique(0x80 + b, 64, 2, b); DivModUnique(0x80 + c, 64, 2, c); DivModUnique(0x80 + d, 64, 2, d);
  }

  /** Every scalar value's encoding, whatever follows it, is accepted for that value. */
  lemma EncodedIsVerified(cp: int, s: seq<byte>)
    requires Scalar(cp) && Encode(cp) <= s
    ensures VerifySequence(s) && Assemble(s) == cp && SequenceLength(At(s, 0)) == |Encode(cp)|
  {
    if cp < 0x80 {
      assert At(s, 0) == Encode(cp)[0];
    } else if cp < 0x800 {
      Encoded2(cp, s);
    } else if cp < 0x10000 {
      Encoded3(cp, s);
    } else {
      Encoded4(cp, s);
    }
  }

  /** What is accepted starts with the encoding of the scalar value assembled. */
  lemma VerifiedIsEncoded(s: seq<byte>)
    requires s != [] && VerifySequence(s)
    ensures Scalar(Assemble(s)) && Encode(Assemble(s)) <= s
    ensures |Encode(Assemble(s))| == SequenceLength(s[0])
  {
    var len := SequenceLength(s[0]);
    if len == 2 { Verified2(s); } else if len == 3 { Verified3(s); } else if len == 4 { Verified4(s); }
  }

  lemma Verified2(s: seq<byte>)
    requires s != [] && VerifySequence(s) && SequenceLength(s[0]) == 2
    ensures |s| >= 2 && Encode(Assemble(s)) == s[..2]
  {
    var cp := Assemble(s);
    assert cp / 64 == s[0] % 32 && cp % 64 == s[1] % 64;
  }

  lemma Assembled3(s: seq<byte>)
    requires VerifySequence(s) && SequenceLength(At(s, 0)) == 3
    ensures var a: int, b: int, c: int := At(s, 0) - 0xE0, At(s, 1) - 0x80, At(s, 2) - 0x80;
            && 0 <= a < 16 && 0 <= b < 64 && 0 <= c < 64
            && Assemble(s) == (a * 64 + b) * 64 + c
            && 0x800 <= Assemble(s) < 0x10000 && Scalar(Assemble(s))
  {
  }

  lemma Verified3(s: seq<byte>)
    requires s != [] && VerifySequence(s) && SequenceLength(s[0]) == 3
    ensures |s| >= 3 && Encode(Assemble(s)) == s[..3]
  {
    Assembled3(s);
    hide VerifySequence, Assemble, SequenceLength;
    var a: int, b: int, c: int := s[0] - 0xE0, At(s, 1) - 0x80, At(s, 2) - 0x80;
    FromDigits64(0, a, b, c);
    assert Encode(Assemble(s)) == [0xE0 + a, 0x80 + b, 0x80 + c];
  }

  lemma Assembled4(s: seq<byte>)
    requires VerifySequence(s) && SequenceLength(At(s, 0)) == 4
    ensures var a: int, b: int, c: int, d: int := At(s, 0) - 0xF0, At(s, 1) - 0x80, At(s, 2) - 0x80, At(s, 3) - 0x80;
            && 0 <= a < 5 && 0 <= b < 64 && 0 <= c < 64 && 0 <= d < 64
            && Assemble(s) == ((a * 64 + b) * 64 + c) * 64 + d
            && Assemble(s) >= 0x10000 && Scalar(Assemble(s))
  {
  }

  lemma Verified4(s: seq<byte>)
    requires s != [] && VerifySequence(s) && SequenceLength(s[0]) == 4
    ensures |s| >= 4 && Encode(Assemble(s)) == s[..4]
  {
    Assembled4(s);
    hide VerifySequence, Assemble, SequenceLength;
    var a: int, b: int, c: int, d: int := s[0] - 0xF0, At(s, 1) - 0x80, At(s, 2) - 0x80, At(s, 3) - 0x80;
    Encoded4Digits(Assemble(s), a, b, c, d);
    hide Encode;
    assert |s| >= 4;
    assert s[..4] == [s[0], s[1], s[2], s[3]];
  }

  /** The four octets of a code point, from its base-64 digits. */
  lemma Encoded4Digits(cp: int, a: nat, b: nat, c: nat, d: nat)
    requires Scalar(cp) && cp >= 0x10000 && a < 5 && b < 64 && c < 64 && d < 64
    requires cp == ((a * 64 + b) * 64 + c) * 64 + d
    ensures Encode(cp) == [0xF0 + a, 0x80 + b, 0x80 + c, 0x80 + d]
  {
    FromDigits64(a, b, c, d);
  }

  /** Sequence after sequence is accepted, up to the end of the string. */
  ghost predicate Accepts(s: seq<byte>)
    decreases |s|
  {
    s == [] ||
    (VerifySequence(s) && 0 < SequenceLength(s[0]) <= |s| && Accepts(s[SequenceLength(s[0])..]))
  }

  lemma {:induction false} AcceptsEncoded(cps: seq<int>)
    requires AllScalar(cps)
    ensures Accepts(EncodeAll(cps))
  {
    if cps != [] {
      var s, e := EncodeAll(cps), Encode(cps[0]);
      assert e <= s && s[0] == e[0];
      EncodedIsVerified(cps[0], s);
      assert s[|e|..] == EncodeAll(cps[1..]);
      AcceptsEncoded(cps[1..]);
    }
  }

  lemma {:induction false} AcceptedIsEncoded(s: seq<byte>) returns (cps: seq<int>)
    requires Accepts(s)
    ensures AllScalar(cps) && EncodeAll(cps) == s
    decreases |s|
  {
    hide Encode, VerifySequence, Assemble, SequenceLength, Scalar;
    if s == [] {
      cps := [];
    } else {
      VerifiedIsEncoded(s);
      var n := SequenceLength(s[0]);
      var rest := AcceptedIsEncoded(s[n..]);
      cps := [Assemble(s)] + rest;
      assert cps[1..] == rest;
      assert s == s[..n] + s[n..];
    }
  }

  /** The accepted strings are exactly the concatenations of encoded scalar values. */
  lemma AcceptsExactlyWellFormed(s: seq<byte>)
    ensures Accepts(s) <==> WellFormed(s)
  {
    if Accepts(s) {
      var cps := AcceptedIsEncoded(s);
    }
    if WellFormed(s) {
      var cps :| AllScalar(cps) && EncodeAll(cps) == s;
      AcceptsEncoded(cps);
    }
  }

  method IsValidUtf8(s: seq<byte>) returns (valid: bool)
    ensures valid <==> WellFormed(s)
  {
    AcceptsExactlyWellFormed(s);
    hide WellFormed, VerifySequence, SequenceLength, Assemble, Encode;
    var p := 0;
    while p < |s|
      invariant 0 <= p <= |s|
      invariant Accepts(s) <==> Accepts(s[p..])
    {
      var ok, len := VerifyUtf8Sequence(s[p..]);
      if !ok {
        return false;
      }
      VerifiedIsEncoded(s[p..]);
      assert s[p..][len..] == s[p + len..];
      p := p + len;
    }
    return true;
  }
}
