/** Quoted strings: finding the closing quote, decoding escapes, and that decoding undoes escaping. */
module JsonStrings {
  import opened Collections
  import opened Bits
  import opened Bytes
  import opened Utf8
  import opened JsonValues

  /** How many bytes precede the first unescaped quote. */
  function ScanQuote(s: seq<cbyte>): (r: Option<nat>)
    ensures r.Some? ==> r.value < |s| && s[r.value] == QUOTE
  {
    if s == [] then None
    else if s[0] == QUOTE then Some(0)
    else
      var step := if s[0] == BACKSLASH then 2 else 1;
      if step > |s| then None
      else
        Shift(step, ScanQuote(s[step..]))
  }

  function HexValue(c: byte): (d: int)
    ensures -1 <= d < 16
  {
    if 0x30 <= c <= 0x39 then c - 0x30
    else if 0x61 <= c <= 0x66 then c - 0x61 + 10
    else if 0x41 <= c <= 0x46 then c - 0x41 + 10
    else -1
  }

  /** The four hex digits at position i, or -1. */
  function Hex4(s: seq<byte>, i: nat): (r: int)
    ensures -1 <= r < 0x10000
    ensures r >= 0 ==> i + 4 <= |s|
  {
    var a, b, c, d := HexValue(At(s, i)), HexValue(At(s, i + 1)), HexValue(At(s, i + 2)), HexValue(At(s, i + 3));
    if a == -1 || b == -1 || c == -1 || d == -1 then -1 else a * 4096 + b * 256 + c * 16 + d
  }

  predicate IsLead(cp: int) { 0xD800 <= cp <= 0xDBFF }
  predicate IsTrail(cp: int) { 0xDC00 <= cp <= 0xDFFF }

  function Supplementary(lead: int, trail: int): (cp: int)
    requires IsLead(lead) && IsTrail(trail)
    ensures 0x10000 <= cp <= 0x10FFFF
  {
    (lead - 0xD800) * 1024 + (trail - 0xDC00) + 0x10000
  }

  /** The octets parse_utf16 stores for a code point. */
  function Store(cp: int): seq<byte>
    requires Scalar(cp)
  {
    if cp < 0x80 then [cp]
    else if cp < 0x800 then [cp / 64 % 32 + 0xC0, cp % 64 + 0x80]
    else if cp < 0x10000 then [cp / 4096 % 16 + 0xE0, cp / 64 % 64 + 0x80, cp % 64 + 0x80]
    else [cp / 262144 % 8 + 0xF0, cp / 4096 % 64 + 0x80, cp / 64 % 64 + 0x80, cp % 64 + 0x80]
  }

  // ---------------------------------------------------------------- with the source's bit operations

  /** The surrogates' low ten bits, joined. */
  function JoinSurrogates(lead: int, trail: int): int {
    AndBounds(lead - 0xD800, 0x3FF);
    AndBounds(trail - 0xDC00, 0x3FF);
    Or(And(lead - 0xD800, 0x3FF) * Pow2(10), And(trail - 0xDC00, 0x3FF)) + 0x10000
  }

  lemma SurrogateBits(lead: int, trail: int)
    requires IsLead(lead) && IsTrail(trail)
    ensures JoinSurrogates(lead, trail) == Supplementary(lead, trail)
  {
    hide And, Or;
    assert Pow2(10) == 1024;
    AndLowMask(lead - 0xD800, 10);
    AndLowMask(trail - 0xDC00, 10);
    OrDisjoint(lead - 0xD800, trail - 0xDC00, 10);
  }

  /** Four hex digits, shifted and joined. */
  function JoinHex(a: nat, b: nat, c: nat, d: nat): nat {
    Or(Or(Or(a * Pow2(12), b * Pow2(8)), c * Pow2(4)), d)
  }

  lemma HexBits(a: nat, b: nat, c: nat, d: nat)
    requires a < 16 && b < 16 && c < 16 && d < 16
    ensures JoinHex(a, b, c, d) == a * 4096 + b * 256 + c * 16 + d
  {
    hide Or;
    assert Pow2(4) == 16 && Pow2(8) == 256 && Pow2(12) == 4096;
    OrDisjoint(a, b * 256, 12);
    OrDisjoint(a * 16 + b, c * 16, 8);
    OrDisjoint(a * 256 + b * 16 + c, d, 4);
  }

  /** The octets stored, each the masked and tagged bits of the shifted code point. */
  function StoreBits(cp: nat): seq<nat> {
    if cp < 0x80 then [cp]
    else if cp < 0x800 then [Tagged(cp / Pow2(6), 0x1F, 0xC0), Tagged(cp, 0x3F, 0x80)]
    else if cp < 0x10000 then
      [Tagged(cp / Pow2(12), 0x0F, 0xE0), Tagged(cp / Pow2(6), 0x3F, 0x80), Tagged(cp, 0x3F, 0x80)]
    else
      [Tagged(cp / Pow2(18), 0x07, 0xF0), Tagged(cp / Pow2(12), 0x3F, 0x80), Tagged(cp / Pow2(6), 0x3F, 0x80),
       Tagged(cp, 0x3F, 0x80)]
  }

  /** Masking and tagging are remainders and sums. */
  lemma TaggedOctets(x: nat)
    ensures Tagged(x, 0x3F, 0x80) == x % 64 + 0x80 && Tagged(x, 0x1F, 0xC0) == x % 32 + 0xC0
    ensures Tagged(x, 0x0F, 0xE0) == x % 16 + 0xE0 && Tagged(x, 0x07, 0xF0) == x % 8 + 0xF0
  {
    hide Tagged;
    assert Pow2(3) == 8 && Pow2(4) == 16 && Pow2(5) == 32 && Pow2(6) == 64;
    TaggedLowBits(x, 2, 6);
    TaggedLowBits(x, 6, 5);
    TaggedLowBits(x, 14, 4);
    TaggedLowBits(x, 30, 3);
  }

  lemma StoredBits(cp: int)
    requires Scalar(cp)
    ensures StoreBits(cp) == Store(cp) == Encode(cp)
  {
    hide Tagged;
    StoreEncodes(cp);
    assert Pow2(6) == 64 && Pow2(12) == 4096 && Pow2(18) == 262144;
    TaggedOctets(cp);
    TaggedOctets(cp / 64);
    TaggedOctets(cp / 4096);
    TaggedOctets(cp / 262144);
  }

  /** A decoded `\u` escape: the octets stored, and the bytes consumed from the `u` on. */
  datatype Decoded = Decoded(octets: seq<byte>, used: nat)

  /** `s` starts at the `u` of an escape. */
  function DecodeUtf16(s: seq<byte>): (r: Option<Decoded>)
    ensures r.Some? ==> 1 <= |r.value.octets| < r.value.used <= |s|
  {
    var cp := Hex4(s, 1);
    if cp == -1 then None
    else if Scalar(cp) then Some(Decoded(Store(cp), 5))
    else if IsLead(cp) then
      if At(s, 5) != BACKSLASH || At(s, 6) != 0x75 then None
      else
        var trail := Hex4(s, 7);
        if !IsTrail(trail) then None else Some(Decoded(Store(Supplementary(cp, trail)), 11))
    else None
  }

  /** The byte of a two-character escape, or -1. */
  function SimpleEscape(c: byte): (r: int)
    ensures -1 <= r < 256
  {
    if c == QUOTE || c == BACKSLASH || c == 0x2F then c
    else if c == 0x62 then 0x08
    else if c == 0x66 then 0x0C
    else if c == 0x6E then 0x0A
    else if c == 0x72 then 0x0D
    else if c == 0x74 then 0x09
    else -1
  }

  function Prepend(bs: seq<byte>, r: Option<seq<byte>>): Option<seq<byte>> {
    if r.None? then None else Some(bs + r.value)
  }

  /** The bytes a quoted string denotes; the decoded text is never longer than its source. */
  function Process(s: seq<cbyte>): (r: Option<seq<byte>>)
    ensures r.Some? ==> |r.value| <= |s|
    decreases |s|
  {
    if s == [] then Some([])
    else if s[0] == BACKSLASH then
      if SimpleEscape(At(s, 1)) != -1 then Prepend([SimpleEscape(At(s, 1))], Process(s[2..]))
      else if At(s, 1) == 0x75 then
        var d := DecodeUtf16(s[1..]);
        if d.None? then None else Prepend(d.value.octets, Process(s[1 + d.value.used..]))
      else None
    else if s[0] < 0x20 then None
    else Prepend([s[0]], Process(s[1..]))
  }

  /** A buffer read back as a C string ends at its first NUL. */
  function UpToNul(bs: seq<byte>): seq<cbyte> {
    if bs == [] || bs[0] == 0 then [] else [bs[0]] + UpToNul(bs[1..])
  }

  // ---------------------------------------------------------------- properties

  lemma StoreEncodes(cp: int)
    requires Scalar(cp)
    ensures Store(cp) == Encode(cp)
  {
  }

  /** Every escape or surrogate pair that decodes stores one scalar value's UTF-8 encoding,
      which the validator accepts for that value. */
  lemma DecodedIsValid(s: seq<byte>)
    requires DecodeUtf16(s).Some?
    ensures var cp := if Scalar(Hex4(s, 1)) then Hex4(s, 1) else Supplementary(Hex4(s, 1), Hex4(s, 7));
            var octets := DecodeUtf16(s).value.octets;
            && octets == Encode(cp)
            && VerifySequence(octets) && Assemble(octets) == cp && WellFormed(octets)
  {
    var cp := if Scalar(Hex4(s, 1)) then Hex4(s, 1) else Supplementary(Hex4(s, 1), Hex4(s, 7));
    StoreEncodes(cp);
    EncodedIsVerified(cp, Encode(cp));
    assert EncodeAll([cp]) == Encode(cp) + EncodeAll([]);
    assert AllScalar([cp]);
  }

  lemma ScanAtQuote(rest: seq<cbyte>)
    ensures ScanQuote([QUOTE] + rest) == Some(0)
  {
  }

  function Shift(n: nat, r: Option<nat>): Option<nat> {
    if r.None? then None else Some(n + r.value)
  }

  lemma {:induction false} ScanPlain(p: seq<cbyte>, u: seq<cbyte>)
    requires QUOTE !in p && BACKSLASH !in p
    ensures ScanQuote(p + u) == Shift(|p|, ScanQuote(u))
  {
    if p == [] {
      assert p + u == u;
    } else {
      assert (p + u)[1..] == p[1..] + u;
      ScanPlain(p[1..], u);
    }
  }
}
