/** JSON text as RFC 8259 describes it, byte for byte: trees that keep white space, escapes and number
    forms, what each spells and what each means. Nothing here refers to the parser or the serializer.
    Three liberties of parson.c are part of it: vertical tab and form feed are white space, a fraction
    may lack its digits or, after a minus sign, its whole part, and a string ends at the first NUL it
    spells. One restriction is: a lone zero takes no exponent. */
module JsonSyntax {
  import opened Collections
  import opened Bytes
  import opened Utf8
  import opened JsonValues

  // ---------------------------------------------------------------- white space

  /** The bytes that `isspace` accepts in the C locale. */
  predicate White(c: byte) {
    c == 0x20 || c == 0x09 || c == 0x0A || c == 0x0B || c == 0x0C || c == 0x0D
  }

  predicate Blank(w: seq<cbyte>) {
    forall i :: 0 <= i < |w| ==> White(w[i])
  }

  /** What can follow a number: nothing, white space, or the punctuation after a value. */
  predicate Delimited(rest: seq<cbyte>) {
    rest == [] || White(rest[0]) || rest[0] == 0x2C || rest[0] == 0x5D || rest[0] == 0x7D
  }

  // ---------------------------------------------------------------- strings (section 7)

  /** One character of a string: itself, a two-character escape, a `\u` escape, or a surrogate pair. */
  datatype Char =
    | Plain(c: cbyte) | Short(letter: cbyte, c: cbyte)
    | Code(hex: seq<cbyte>, cp: int) | Pair(high: seq<cbyte>, low: seq<cbyte>, cp: int)

  /** The escapes `\" \\ \/ \b \f \n \r \t`. */
  predicate Shorthand(letter: cbyte, c: cbyte) {
    || (letter == 0x22 && c == 0x22) || (letter == 0x5C && c == 0x5C) || (letter == 0x2F && c == 0x2F)
    || (letter == 0x62 && c == 0x08) || (letter == 0x66 && c == 0x0C) || (letter == 0x6E && c == 0x0A)
    || (letter == 0x72 && c == 0x0D) || (letter == 0x74 && c == 0x09)
  }

  /** A hex digit, in either case. */
  predicate Nibble(h: cbyte, d: int) {
    || (0 <= d < 10 && h == 0x30 + d)
    || (10 <= d < 16 && (h == 0x61 + (d - 10) || h == 0x41 + (d - 10)))
  }

  predicate Hex(h: seq<cbyte>, n: int) {
    && |h| == 4 && 0 <= n < 0x10000
    && Nibble(h[0], n / 4096) && Nibble(h[1], n / 256 % 16) && Nibble(h[2], n / 16 % 16) && Nibble(h[3], n % 16)
  }

  predicate ValidChar(ch: Char) {
    match ch
    case Plain(c) => c >= 0x20 && c != 0x22 && c != 0x5C
    case Short(letter, c) => Shorthand(letter, c)
    case Code(hex, cp) => Scalar(cp) && Hex(hex, cp)
    case Pair(high, low, cp) =>
      && 0x10000 <= cp <= 0x10FFFF
      && Hex(high, 0xD800 + (cp - 0x10000) / 0x400) && Hex(low, 0xDC00 + (cp - 0x10000) % 0x400)
  }

  function SpellChar(ch: Char): seq<cbyte> {
    match ch
    case Plain(c) => [c]
    case Short(letter, _) => [0x5C, letter]
    case Code(hex, _) => [0x5C, 0x75] + hex
    case Pair(high, low, _) => [0x5C, 0x75] + high + ([0x5C, 0x75] + low)
  }

  function CharBytes(ch: Char): seq<byte>
    requires ValidChar(ch)
  {
    match ch
    case Plain(c) => [c]
    case Short(_, c) => [c]
    case Code(_, cp) => Encode(cp)
    case Pair(_, _, cp) => Encode(cp)
  }

  predicate ValidChars(chars: seq<Char>) {
    forall i :: 0 <= i < |chars| ==> ValidChar(chars[i])
  }

  function SpellChars(chars: seq<Char>): seq<cbyte> {
    if chars == [] then [] else SpellChar(chars[0]) + SpellChars(chars[1..])
  }

  function CharsBytes(chars: seq<Char>): seq<byte>
    requires ValidChars(chars)
  {
    if chars == [] then [] else CharBytes(chars[0]) + CharsBytes(chars[1..])
  }

  /** A C string in a buffer: the bytes up to the first NUL. */
  predicate CString(bs: seq<byte>, s: seq<cbyte>) {
    s <= bs && (|s| < |bs| ==> bs[|s|] == 0)
  }

  /** A quoted string and its value. */
  datatype Quote = Quote(chars: seq<Char>, value: seq<cbyte>)

  predicate ValidQuote(q: Quote) {
    ValidChars(q.chars) && CString(CharsBytes(q.chars), q.value)
  }

  function SpellQuote(q: Quote): seq<cbyte> {
    [0x22] + (SpellChars(q.chars) + [0x22])
  }

  // ---------------------------------------------------------------- numbers (section 6)

  datatype Exponent = Exponent(letter: cbyte, sign: seq<cbyte>, digits: seq<cbyte>)

  datatype Numeral = Numeral(
    negative: bool, whole: seq<cbyte>, fraction: Option<seq<cbyte>>, exponent: Option<Exponent>)

  predicate Figures(ds: seq<cbyte>) {
    forall i :: 0 <= i < |ds| ==> 0x30 <= ds[i] <= 0x39
  }

  predicate ValidNumeral(n: Numeral) {
    && Figures(n.whole)
    && (n.fraction.Some? ==> Figures(n.fraction.value))
    && (n.exponent.Some? ==>
          && (n.exponent.value.letter == 0x65 || n.exponent.value.letter == 0x45)
          && (n.exponent.value.sign == [] || n.exponent.value.sign == [0x2B] || n.exponent.value.sign == [0x2D])
          && n.exponent.value.digits != [] && Figures(n.exponent.value.digits))
    && (n.whole == [] ==> n.negative && n.fraction.Some? && n.fraction.value != [])
    && (|n.whole| > 1 ==> n.whole[0] != 0x30)
    && (n.whole == [0x30] && n.exponent.Some? ==> n.fraction.Some?)
  }

  function Minus(negative: bool): seq<cbyte> {
    if negative then [0x2D] else []
  }

  function SpellFraction(f: Option<seq<cbyte>>): seq<cbyte> {
    if f.Some? then [0x2E] + f.value else []
  }

  function SpellExponent(e: Option<Exponent>): seq<cbyte> {
    if e.Some? then [e.value.letter] + (e.value.sign + e.value.digits) else []
  }

  function SpellNumeral(n: Numeral): seq<cbyte> {
    Minus(n.negative) + (n.whole + (SpellFraction(n.fraction) + SpellExponent(n.exponent)))
  }

  function Power10(k: nat): nat {
    if k == 0 then 1 else 10 * Power10(k - 1)
  }

  /** The number that digits write, the first counting most. */
  function Amount(ds: seq<cbyte>): int {
    if ds == [] then 0 else Figure(ds[0]) * Power10(|ds| - 1) + Amount(ds[1..])
  }

  function Figure(c: int): int {
    c - 0x30
  }

  /** Integers below 2^64 are kept as such, a minus sign negating them modulo 2^64; every other form is
      a double. */
  function NumeralValue(n: Numeral): Json {
    var a := Amount(n.whole);
    if n.fraction.Some? || n.exponent.Some? || !(0 <= a < 0x1_0000_0000_0000_0000) then Num(SpellNumeral(n))
    else Uint(if n.negative && a > 0 then 0x1_0000_0000_0000_0000 - a else a)
  }

  // ---------------------------------------------------------------- values (sections 2 to 5)

  datatype Tree =
    | WordNull | WordTrue | WordFalse
    | Figured(numeral: Numeral)
    | Quoting(quote: Quote)
    | Bracketed(gap: seq<cbyte>, items: seq<Item>)
    | Braced(gap: seq<cbyte>, members: seq<Entry>)

  /** An array item between the white space around it. */
  datatype Item = Item(before: seq<cbyte>, tree: Tree, after: seq<cbyte>)

  /** An object member between the white space around its parts. */
  datatype Entry = Entry(
    before: seq<cbyte>, name: Quote, beforeColon: seq<cbyte>, afterColon: seq<cbyte>, tree: Tree, after: seq<cbyte>)

  predicate Valid(t: Tree) {
    match t
    case WordNull => true
    case WordTrue => true
    case WordFalse => true
    case Figured(n) => ValidNumeral(n)
    case Quoting(q) => ValidQuote(q)
    case Bracketed(gap, items) => Blank(gap) && forall i :: 0 <= i < |items| ==> ValidItem(items[i])
    case Braced(gap, ms) => Blank(gap) && forall i :: 0 <= i < |ms| ==> ValidEntry(ms[i])
  }

  predicate ValidItem(i: Item) {
    Blank(i.before) && Valid(i.tree) && Blank(i.after)
  }

  predicate ValidEntry(m: Entry) {
    && Blank(m.before) && ValidQuote(m.name) && Blank(m.beforeColon) && Blank(m.afterColon)
    && Valid(m.tree) && Blank(m.after)
  }

  /** The text of a tree; the gap stands only in an empty container. */
  function Spell(t: Tree): seq<cbyte> {
    match t
    case WordNull => [0x6E, 0x75, 0x6C, 0x6C]
    case WordTrue => [0x74, 0x72, 0x75, 0x65]
    case WordFalse => [0x66, 0x61, 0x6C, 0x73, 0x65]
    case Figured(n) => SpellNumeral(n)
    case Quoting(q) => SpellQuote(q)
    case Bracketed(gap, items) => [0x5B] + ((if items == [] then gap else SpellItems(items)) + [0x5D])
    case Braced(gap, ms) => [0x7B] + ((if ms == [] then gap else SpellEntries(ms)) + [0x7D])
  }

  function SpellItems(items: seq<Item>): seq<cbyte>
    requires items != []
  {
    var i := items[0];
    i.before + (Spell(i.tree) + (i.after + if |items| == 1 then [] else [0x2C] + SpellItems(items[1..])))
  }

  function SpellEntries(ms: seq<Entry>): seq<cbyte>
    requires ms != []
  {
    var m := ms[0];
    m.before + (SpellQuote(m.name) + (m.beforeColon + ([0x3A] + (m.afterColon + (Spell(m.tree)
      + (m.after + if |ms| == 1 then [] else [0x2C] + SpellEntries(ms[1..])))))))
  }

  /** The value of a tree. */
  function ValueOf(t: Tree): Json {
    match t
    case WordNull => Null
    case WordTrue => Bool(true)
    case WordFalse => Bool(false)
    case Figured(n) => NumeralValue(n)
    case Quoting(q) => Str(q.value)
    case Bracketed(_, items) => Arr(ItemValues(items))
    case Braced(_, ms) => Obj(EntryValues(ms))
  }

  function ItemValues(items: seq<Item>): (vs: seq<Json>)
    ensures |vs| == |items|
  {
    if items == [] then [] else [ValueOf(items[0].tree)] + ItemValues(items[1..])
  }

  function EntryValues(ms: seq<Entry>): (vs: seq<Member>)
    ensures |vs| == |ms|
  {
    if ms == [] then [] else [Member(ms[0].name.value, ValueOf(ms[0].tree))] + EntryValues(ms[1..])
  }

  // ---------------------------------------------------------------- texts

  /** The byte-order mark that a text may start with. */
  function Mark(marked: bool): seq<cbyte> {
    if marked then [0xEF, 0xBB, 0xBF] else []
  }

  /** The text starts, after an optional mark and white space, with a tree of that value. */
  ghost predicate Denotes(s: seq<cbyte>, v: Json) {
    exists marked, w, t, rest :: Reads(s, marked, w, t, rest) && ValueOf(t) == v
  }

  ghost predicate Reads(s: seq<cbyte>, marked: bool, w: seq<cbyte>, t: Tree, rest: seq<cbyte>) {
    Blank(w) && Valid(t) && s == Mark(marked) + (w + (Spell(t) + rest))
  }
}
