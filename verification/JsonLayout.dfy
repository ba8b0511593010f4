/** What the serializer writes, in terms of the syntax: which white space stands where, which escape
    each byte gets, and that pretty and compact text differ in white space only. */
module JsonLayout {
  import opened Collections
  import opened Bytes
  import opened JsonValues
  import opened JsonSyntax
  import opened JsonNumbers
  import opened JsonAccepts

  // ---------------------------------------------------------------- the layout

  /** Five control characters, the quote and the backslash have a two-character escape; other control
      characters are written `\u00` and two lower-case hex digits; all else stands for itself. */
  function CharFor(c: cbyte): Char {
    if c == 0x22 || c == 0x5C then Short(c, c)
    else if c == 0x08 then Short(0x62, c)
    else if c == 0x0C then Short(0x66, c)
    else if c == 0x0A then Short(0x6E, c)
    else if c == 0x0D then Short(0x72, c)
    else if c == 0x09 then Short(0x74, c)
    else if c < 0x10 then Code([0x30, 0x30, 0x30, if c < 0x0A then 0x30 + c else 0x57 + c], c)
    else if c < 0x20 then Code([0x30, 0x30, 0x31, if c < 0x1A then 0x20 + c else 0x47 + c], c)
    else Plain(c)
  }

  function QuoteFor(s: seq<cbyte>): Quote {
    Quote(seq(|s|, i requires 0 <= i < |s| => CharFor(s[i])), s)
  }

  /** A new line indented by four spaces per enclosing container, when pretty; nothing otherwise. */
  function Gap(level: nat, pretty: bool): seq<cbyte> {
    if pretty then [0x0A] + seq(4 * level, _ => 0x20) else []
  }

  /** Each item and member starts on a line of its own, each closing bracket of a container that is not
      empty too, and a space follows a colon: when pretty. There is no other white space. */
  function Laid(v: Json, level: nat, pretty: bool): Tree
    decreases v, 1
  {
    match v
    case Null => WordNull
    case Bool(b) => if b then WordTrue else WordFalse
    case Uint(n) => Figured(Numeral(false, Decimal(n), None, None))
    case Num(lexeme) => Figured(Numeral(false, lexeme, None, None))
    case Str(s) => Quoting(QuoteFor(s))
    case Arr(items) => Bracketed([], LaidItems(items, level, pretty))
    case Obj(ms) => Braced([], LaidEntries(ms, level, pretty))
  }

  function LaidItems(items: seq<Json>, level: nat, pretty: bool): (r: seq<Item>)
    ensures |r| == |items|
    decreases items, 0
  {
    if items == [] then []
    else
      [Item(Gap(level + 1, pretty), Laid(items[0], level + 1, pretty), if |items| == 1 then Gap(level, pretty) else [])]
      + LaidItems(items[1..], level, pretty)
  }

  function LaidEntries(ms: seq<Member>, level: nat, pretty: bool): (r: seq<Entry>)
    ensures |r| == |ms|
    decreases ms, 0
  {
    if ms == [] then []
    else
      [Entry(Gap(level + 1, pretty), QuoteFor(ms[0].name), [], if pretty then [0x20] else [],
             Laid(ms[0].value, level + 1, pretty), if |ms| == 1 then Gap(level, pretty) else [])]
      + LaidEntries(ms[1..], level, pretty)
  }

  // ---------------------------------------------------------------- the serializer's text is laid out so

  lemma EscapeIsChar(c: cbyte)
    ensures Escape(c) == SpellChar(CharFor(c)) && ValidChar(CharFor(c)) && CharBytes(CharFor(c)) == [c]
  {
  }

  lemma {:induction false} EscapesAreChars(s: seq<cbyte>)
    ensures var chars := QuoteFor(s).chars;
            EscapeAll(s) == SpellChars(chars) && ValidChars(chars) && CharsBytes(chars) == s
  {
    hide Escape, CharFor, ValidChar, SpellChar, CharBytes;
    var chars := QuoteFor(s).chars;
    if s != [] {
      EscapeIsChar(s[0]);
      EscapesAreChars(s[1..]);
      assert chars[0] == CharFor(s[0]) && chars[1..] == QuoteFor(s[1..]).chars;
      assert s == [s[0]] + s[1..];
    }
  }

  lemma StringIsQuote(s: seq<cbyte>)
    ensures StringText(s) == SpellQuote(QuoteFor(s)) && ValidQuote(QuoteFor(s))
  {
    hide EscapeAll, SpellChars, ValidChars, CharsBytes;
    EscapesAreChars(s);
    Assoc([0x22], EscapeAll(s), [0x22]);
  }

  lemma {:induction false} IndentIsSpaces(level: nat)
    ensures Indent(level) == seq(4 * level, _ => 0x20)
  {
    if level > 0 {
      IndentIsSpaces(level - 1);
    }
  }

  lemma GapIsPadded(level: nat, pretty: bool)
    ensures Gap(level, pretty) == Newline(pretty) + Pad(level, pretty) && Blank(Gap(level, pretty))
  {
    IndentIsSpaces(level);
  }

  /** The text of a value is the tree laid out, and the tree means the value. */
  lemma {:induction false} TextIsLaid(v: Json, level: nat, pretty: bool)
    requires NoDoubles(v)
    ensures Text(v, level, pretty) == Spell(Laid(v, level, pretty))
    ensures Valid(Laid(v, level, pretty)) && ValueOf(Laid(v, level, pretty)) == v
    decreases v, 1
  {
    match v
    case Null =>
    case Bool(_) =>
    case Uint(n) => DecimalIsNumeral(n);
    case Str(s) => hide QuoteFor, ValidQuote, SpellQuote, StringText; StringIsQuote(s);
    case Arr(items) => ArrayIsLaid(items, level, pretty);
    case Obj(ms) => ObjectIsLaid(ms, level, pretty);
  }

  lemma DecimalIsNumeral(n: u64)
    ensures var x := Numeral(false, Decimal(n), None, None);
            SpellNumeral(x) == Decimal(n) && ValidNumeral(x) && NumeralValue(x) == Uint(n)
  {
    hide Decimal, Amount;
    DecimalDigits(n);
  }

  lemma {:induction false} ArrayIsLaid(items: seq<Json>, level: nat, pretty: bool)
    requires forall i :: 0 <= i < |items| ==> NoDoubles(items[i])
    ensures var v := Arr(items); var t := Laid(v, level, pretty);
            Text(v, level, pretty) == Spell(t) && Valid(t) && ValueOf(t) == v
    decreases items, 1
  {
    hide ItemsText, SpellItems, LaidItems, ItemValues, ValidItem, Newline, Pad, NoDoubles;
    if items == [] {
      EmptyLaid(level, pretty);
    } else {
      ItemsAreLaid(items, level, pretty);
      Assoc([0x5B], SpellItems(LaidItems(items, level, pretty)), [0x5D]);
    }
  }

  lemma EmptyLaid(level: nat, pretty: bool)
    ensures LaidItems([], level, pretty) == [] && LaidEntries([], level, pretty) == []
    ensures ItemValues([]) == [] && EntryValues([]) == []
  {
  }

  lemma {:induction false} ItemsAreLaid(items: seq<Json>, level: nat, pretty: bool)
    requires items != [] && forall i :: 0 <= i < |items| ==> NoDoubles(items[i])
    ensures var r := LaidItems(items, level, pretty);
            && Newline(pretty) + ItemsText(items, level, pretty) + Pad(level, pretty) == SpellItems(r)
            && (forall i :: 0 <= i < |r| ==> ValidItem(r[i])) && ItemValues(r) == items
    decreases items, 0
  {
    hide Newline, Pad, Gap, Text, Spell, Laid, Valid, ValueOf, NoDoubles, Blank;
    var r, rest := LaidItems(items, level, pretty), LaidItems(items[1..], level, pretty);
    var n, p, t, q := Newline(pretty), Pad(level + 1, pretty), Text(items[0], level + 1, pretty), Pad(level, pretty);
    TextIsLaid(items[0], level + 1, pretty);
    GapIsPadded(level + 1, pretty);
    GapIsPadded(level, pretty);
    NoGap();
    assert r[0] == Item(n + p, Laid(items[0], level + 1, pretty), if |items| == 1 then n + q else []) && r[1..] == rest;
    assert items == [items[0]] + items[1..];
    if |items| == 1 {
      EmptyLaid(level, pretty);
      assert items[1..] == [] && ItemsText(items[1..], level, pretty) == [];
      LastRegroup(n, p, t, q);
    } else {
      ItemsAreLaid(items[1..], level, pretty);
      MoreRegroup(n, p, t, ItemsText(items[1..], level, pretty), q);
    }
  }

  lemma NoGap()
    ensures Blank([])
  {
  }

  lemma LastRegroup(n: seq<cbyte>, p: seq<cbyte>, t: seq<cbyte>, q: seq<cbyte>)
    ensures n + (p + t + ([] + n) + []) + q == n + p + (t + (n + q + []))
  {
    assert [] + n == n && p + t + n + [] == p + t + n && n + q + [] == n + q;
    Assoc(p, t, n);
    Assoc(n, p + (t + n), q);
    Assoc(p, t + n, q);
    Assoc(t, n, q);
    Assoc(n, p, t + (n + q));
  }

  lemma MoreRegroup(n: seq<cbyte>, p: seq<cbyte>, t: seq<cbyte>, more: seq<cbyte>, q: seq<cbyte>)
    ensures n + (p + t + ([0x2C] + n) + more) + q == n + p + (t + ([] + ([0x2C] + (n + more + q))))
  {
    var c := [0x2C];
    assert [] + (c + (n + more + q)) == c + (n + more + q);
    Assoc(p, t, c + n);
    Assoc(p, t + (c + n), more);
    Assoc(n, p + (t + (c + n) + more), q);
    Assoc(p, t + (c + n) + more, q);
    Assoc(t, c + n, more);
    Assoc(t, c + n + more, q);
    Assoc(c, n, more);
    Assoc(c, n + more, q);
    Assoc(n, p, t + (c + (n + more + q)));
  }

  lemma {:induction false} ObjectIsLaid(ms: seq<Member>, level: nat, pretty: bool)
    requires forall i :: 0 <= i < |ms| ==> NoDoubles(ms[i].value)
    ensures var v := Obj(ms); var t := Laid(v, level, pretty);
            Text(v, level, pretty) == Spell(t) && Valid(t) && ValueOf(t) == v
    decreases ms, 1
  {
    hide MembersText, SpellEntries, LaidEntries, EntryValues, ValidEntry, Newline, Pad, NoDoubles;
    if ms == [] {
      EmptyLaid(level, pretty);
    } else {
      EntriesAreLaid(ms, level, pretty);
      Assoc([0x7B], SpellEntries(LaidEntries(ms, level, pretty)), [0x7D]);
    }
  }

  lemma {:induction false} EntriesAreLaid(ms: seq<Member>, level: nat, pretty: bool)
    requires ms != [] && forall i :: 0 <= i < |ms| ==> NoDoubles(ms[i].value)
    ensures var r := LaidEntries(ms, level, pretty);
            && Newline(pretty) + MembersText(ms, level, pretty) + Pad(level, pretty) == SpellEntries(r)
            && (forall i :: 0 <= i < |r| ==> ValidEntry(r[i])) && EntryValues(r) == ms
    decreases ms, 0
  {
    hide Newline, Pad, Gap, Text, Spell, Laid, Valid, ValueOf, NoDoubles, Blank, SpellQuote, StringText, ValidQuote;
    var r, rest := LaidEntries(ms, level, pretty), LaidEntries(ms[1..], level, pretty);
    var n, p, q := Newline(pretty), Pad(level + 1, pretty), Pad(level, pretty);
    var t, s, y := Text(ms[0].value, level + 1, pretty), StringText(ms[0].name), if pretty then [0x20] else [];
    TextIsLaid(ms[0].value, level + 1, pretty);
    StringIsQuote(ms[0].name);
    GapIsPadded(level + 1, pretty);
    GapIsPadded(level, pretty);
    SpaceIsBlank(pretty);
    assert r[0] == Entry(n + p, QuoteFor(ms[0].name), [], y, Laid(ms[0].value, level + 1, pretty),
                         if |ms| == 1 then n + q else []) && r[1..] == rest;
    assert ms == [Member(ms[0].name, ms[0].value)] + ms[1..];
    KeyRegroup(p, s, y, t, if |ms| == 1 then [] + n else [0x2C] + n, MembersText(ms[1..], level, pretty));
    var k := s + ([] + ([0x3A] + (y + t)));
    if |ms| == 1 {
      EmptyLaid(level, pretty);
      assert ms[1..] == [] && MembersText(ms[1..], level, pretty) == [];
      LastRegroup(n, p, k, q);
      EntrySpelled(s, y, t, n + q + []);
    } else {
      EntriesAreLaid(ms[1..], level, pretty);
      MoreRegroup(n, p, k, MembersText(ms[1..], level, pretty), q);
      EntrySpelled(s, y, t, [] + ([0x2C] + SpellEntries(rest)));
    }
  }

  lemma SpaceIsBlank(pretty: bool)
    ensures Blank(if pretty then [0x20] else []) && Blank([])
  {
  }

  lemma KeyRegroup(p: seq<cbyte>, s: seq<cbyte>, y: seq<cbyte>, t: seq<cbyte>, sep: seq<cbyte>, more: seq<cbyte>)
    ensures p + (s + [0x3A] + y) + t + sep + more == p + (s + ([] + ([0x3A] + (y + t)))) + sep + more
  {
    assert [] + ([0x3A] + (y + t)) == [0x3A] + (y + t);
    Assoc(s, [0x3A], y);
    Assoc(p, s + ([0x3A] + y), t);
    Assoc(s, [0x3A] + y, t);
    Assoc([0x3A], y, t);
  }

  lemma EntrySpelled(s: seq<cbyte>, y: seq<cbyte>, t: seq<cbyte>, tail: seq<cbyte>)
    ensures s + ([] + ([0x3A] + (y + t))) + tail == s + ([] + ([0x3A] + (y + (t + tail))))
  {
    assert [] + ([0x3A] + (y + t)) == [0x3A] + (y + t);
    assert [] + ([0x3A] + (y + (t + tail))) == [0x3A] + (y + (t + tail));
    Assoc(s, [0x3A] + (y + t), tail);
    Assoc([0x3A], y + t, tail);
    Assoc(y, t, tail);
  }

  // ---------------------------------------------------------------- without white space

  /** The text without its white space outside strings. */
  function Strip(s: seq<cbyte>, inside: bool): seq<cbyte>
    decreases |s|
  {
    if s == [] then []
    else if inside && s[0] == 0x5C && |s| > 1 then s[..2] + Strip(s[2..], true)
    else if inside then [s[0]] + Strip(s[1..], s[0] != 0x22)
    else if White(s[0]) then Strip(s[1..], false)
    else [s[0]] + Strip(s[1..], s[0] == 0x22)
  }

  /** The tree with all its white space removed. */
  function Bare(t: Tree): Tree {
    match t
    case Bracketed(_, items) => Bracketed([], BareItems(items))
    case Braced(_, ms) => Braced([], BareEntries(ms))
    case _ => t
  }

  function BareItems(items: seq<Item>): (r: seq<Item>)
    ensures |r| == |items|
  {
    if items == [] then [] else [Item([], Bare(items[0].tree), [])] + BareItems(items[1..])
  }

  function BareEntries(ms: seq<Entry>): (r: seq<Entry>)
    ensures |r| == |ms|
  {
    if ms == [] then [] else [Entry([], ms[0].name, [], [], Bare(ms[0].tree), [])] + BareEntries(ms[1..])
  }

  lemma {:induction false} StripBlank(w: seq<cbyte>, s: seq<cbyte>)
    requires Blank(w)
    ensures Strip(w + s, false) == Strip(s, false)
  {
    if w == [] {
      assert w + s == s;
    } else {
      assert (w + s)[1..] == w[1..] + s;
      StripBlank(w[1..], s);
    }
  }

  /** Bytes that are neither white space nor quotes stay. */
  predicate Solid(p: seq<cbyte>) {
    forall i :: 0 <= i < |p| ==> !White(p[i]) && p[i] != 0x22
  }

  lemma {:induction false} StripSolid(p: seq<cbyte>, s: seq<cbyte>)
    requires Solid(p)
    ensures Strip(p + s, false) == p + Strip(s, false)
  {
    if p == [] {
      assert p + s == s;
    } else {
      assert (p + s)[1..] == p[1..] + s;
      StripSolid(p[1..], s);
      assert p == [p[0]] + p[1..];
    }
  }

  /** Inside a string, bytes that are neither quotes nor backslashes stay too. */
  lemma {:induction false} StripInside(p: seq<cbyte>, s: seq<cbyte>)
    requires 0x22 !in p && 0x5C !in p
    ensures Strip(p + s, true) == p + Strip(s, true)
  {
    if p == [] {
      assert p + s == s;
    } else {
      assert (p + s)[1..] == p[1..] + s;
      StripInside(p[1..], s);
      assert p == [p[0]] + p[1..];
    }
  }

  lemma StripEscape(c: cbyte, h: seq<cbyte>, s: seq<cbyte>)
    requires 0x22 !in h && 0x5C !in h
    ensures Strip([0x5C, c] + (h + s), true) == [0x5C, c] + (h + Strip(s, true))
  {
    var e := [0x5C, c] + (h + s);
    assert e[..2] == [0x5C, c] && e[2..] == h + s;
    StripInside(h, s);
  }

  lemma StripChar(ch: Char, s: seq<cbyte>)
    requires ValidChar(ch)
    ensures Strip(SpellChar(ch) + s, true) == SpellChar(ch) + Strip(s, true)
  {
    hide Strip, Hex;
    var d := [0x5C, 0x75];
    match ch
    case Plain(c) => StripInside([c], s);
    case Short(letter, _) =>
      StripEscape(letter, [], s);
      assert [] + s == s && [] + Strip(s, true) == Strip(s, true);
    case Code(hex, cp) =>
      HexValues(hex, cp, []);
      StripEscape(0x75, hex, s);
      Assoc(d, hex, s);
      Assoc(d, hex, Strip(s, true));
    case Pair(high, low, cp) =>
      HexValues(high, 0xD800 + (cp - 0x10000) / 0x400, []);
      HexValues(low, 0xDC00 + (cp - 0x10000) % 0x400, []);
      StripEscape(0x75, low, s);
      StripEscape(0x75, high, d + (low + s));
      Assoc(d + high, d + low, s);
      Assoc(d, low, s);
      Assoc(d, high, d + (low + s));
      Assoc(d + high, d + low, Strip(s, true));
      Assoc(d, low, Strip(s, true));
      Assoc(d, high, d + (low + Strip(s, true)));
  }

  lemma {:induction false} StripChars(chars: seq<Char>, s: seq<cbyte>)
    requires ValidChars(chars)
    ensures Strip(SpellChars(chars) + s, true) == SpellChars(chars) + Strip(s, true)
  {
    hide Strip, ValidChar, SpellChar;
    if chars == [] {
      assert SpellChars(chars) + s == s;
    } else {
      var e, more := SpellChar(chars[0]), SpellChars(chars[1..]);
      Assoc(e, more, s);
      StripChar(chars[0], more + s);
      StripChars(chars[1..], s);
      Assoc(e, more, Strip(s, true));
    }
  }

  lemma StripQuoteMark(inside: bool, s: seq<cbyte>)
    ensures Strip([0x22] + s, inside) == [0x22] + Strip(s, !inside)
  {
    AfterFirst(0x22, s);
  }

  lemma StripQuote(q: Quote, s: seq<cbyte>)
    requires ValidQuote(q)
    ensures Strip(SpellQuote(q) + s, false) == SpellQuote(q) + Strip(s, false)
  {
    hide Strip, SpellChars, ValidChars, CharsBytes, CString;
    var e, x := SpellChars(q.chars), Strip(s, false);
    Assoc([0x22], e + [0x22], s);
    Assoc(e, [0x22], s);
    StripQuoteMark(false, e + ([0x22] + s));
    StripChars(q.chars, [0x22] + s);
    StripQuoteMark(true, s);
    Assoc(e, [0x22], x);
    Assoc([0x22], e + [0x22], x);
  }

  lemma SolidNumeral(n: Numeral)
    requires ValidNumeral(n)
    ensures Solid(SpellNumeral(n))
  {
    assert Solid(SpellFraction(n.fraction));
    assert Solid(SpellExponent(n.exponent));
    hide SpellFraction, SpellExponent;
  }

  /** Stripping a tree's text removes its white space and nothing else. */
  lemma {:induction false} StripTree(t: Tree, s: seq<cbyte>)
    requires Valid(t)
    ensures Strip(Spell(t) + s, false) == Spell(Bare(t)) + Strip(s, false)
    decreases t, 1
  {
    match t
    case WordNull => StripSolid(Spell(t), s);
    case WordTrue => StripSolid(Spell(t), s);
    case WordFalse => StripSolid(Spell(t), s);
    case Figured(n) => SolidNumeral(n); StripSolid(Spell(t), s);
    case Quoting(q) => StripQuote(q, s);
    case Bracketed(gap, items) => StripArray(gap, items, s);
    case Braced(gap, ms) => StripObject(gap, ms, s);
  }

  lemma {:induction false} StripArray(gap: seq<cbyte>, items: seq<Item>, s: seq<cbyte>)
    requires Blank(gap) && forall i :: 0 <= i < |items| ==> ValidItem(items[i])
    ensures var t := Bracketed(gap, items); Strip(Spell(t) + s, false) == Spell(Bare(t)) + Strip(s, false)
    decreases items, 1
  {
    hide Strip, SpellItems, BareItems, ValidItem, Blank;
    var body, bare, x := if items == [] then gap else SpellItems(items), BareItems(items), Strip(s, false);
    Assoc([0x5B], body + [0x5D], s);
    Assoc(body, [0x5D], s);
    StripSolid([0x5B], body + ([0x5D] + s));
    StripSolid([0x5D], s);
    if items == [] {
      StripBlank(gap, [0x5D] + s);
      assert [0x5B] + ([] + [0x5D]) + x == [0x5B] + ([0x5D] + x);
    } else {
      StripItems(items, [0x5D] + s);
      Assoc(SpellItems(bare), [0x5D], x);
      Assoc([0x5B], SpellItems(bare) + [0x5D], x);
    }
  }

  lemma {:induction false} StripItems(items: seq<Item>, s: seq<cbyte>)
    requires items != [] && forall i :: 0 <= i < |items| ==> ValidItem(items[i])
    ensures Strip(SpellItems(items) + s, false) == SpellItems(BareItems(items)) + Strip(s, false)
    decreases items, 0
  {
    hide Strip, Spell, Bare, Valid, Blank;
    var i, x, bare := items[0], Strip(s, false), BareItems(items);
    var more := if |items| == 1 then [] else [0x2C] + SpellItems(items[1..]);
    var bares := if |items| == 1 then [] else [0x2C] + SpellItems(BareItems(items[1..]));
    assert bare[0] == Item([], Bare(i.tree), []) && bare[1..] == BareItems(items[1..]);
    Assoc(i.before, Spell(i.tree) + (i.after + more), s);
    Assoc(Spell(i.tree), i.after + more, s);
    Assoc(i.after, more, s);
    StripBlank(i.before, Spell(i.tree) + (i.after + (more + s)));
    StripTree(i.tree, i.after + (more + s));
    StripBlank(i.after, more + s);
    assert Strip(more + s, false) == bares + x by {
      if |items| == 1 {
        assert more + s == s && bares + x == x;
      } else {
        Assoc([0x2C], SpellItems(items[1..]), s);
        StripSolid([0x2C], SpellItems(items[1..]) + s);
        StripItems(items[1..], s);
        Assoc([0x2C], SpellItems(BareItems(items[1..])), x);
      }
    }
    BareItemSpelled(Spell(Bare(i.tree)), bares, x);
  }

  lemma BareItemSpelled(t: seq<cbyte>, more: seq<cbyte>, x: seq<cbyte>)
    ensures [] + (t + ([] + more)) + x == t + (more + x)
  {
    assert [] + (t + ([] + more)) == t + more;
    Assoc(t, more, x);
  }

  lemma {:induction false} StripObject(gap: seq<cbyte>, ms: seq<Entry>, s: seq<cbyte>)
    requires Blank(gap) && forall i :: 0 <= i < |ms| ==> ValidEntry(ms[i])
    ensures var t := Braced(gap, ms); Strip(Spell(t) + s, false) == Spell(Bare(t)) + Strip(s, false)
    decreases ms, 1
  {
    hide Strip, SpellEntries, BareEntries, ValidEntry, Blank;
    var body, bare, x := if ms == [] then gap else SpellEntries(ms), BareEntries(ms), Strip(s, false);
    Assoc([0x7B], body + [0x7D], s);
    Assoc(body, [0x7D], s);
    StripSolid([0x7B], body + ([0x7D] + s));
    StripSolid([0x7D], s);
    if ms == [] {
      StripBlank(gap, [0x7D] + s);
      assert [0x7B] + ([] + [0x7D]) + x == [0x7B] + ([0x7D] + x);
    } else {
      StripEntries(ms, [0x7D] + s);
      Assoc(SpellEntries(bare), [0x7D], x);
      Assoc([0x7B], SpellEntries(bare) + [0x7D], x);
    }
  }

  lemma {:induction false} StripEntries(ms: seq<Entry>, s: seq<cbyte>)
    requires ms != [] && forall i :: 0 <= i < |ms| ==> ValidEntry(ms[i])
    ensures Strip(SpellEntries(ms) + s, false) == SpellEntries(BareEntries(ms)) + Strip(s, false)
    decreases ms, 0
  {
    hide Strip, Spell, Bare, Valid, Blank, SpellQuote, ValidQuote;
    var m, x, bare := ms[0], Strip(s, false), BareEntries(ms);
    var more := if |ms| == 1 then [] else [0x2C] + SpellEntries(ms[1..]);
    var bares := if |ms| == 1 then [] else [0x2C] + SpellEntries(BareEntries(ms[1..]));
    assert bare[0] == Entry([], m.name, [], [], Bare(m.tree), []) && bare[1..] == BareEntries(ms[1..]);
    var q, t := SpellQuote(m.name), Spell(m.tree);
    EntryRegroup(m.before, q, m.beforeColon, m.afterColon, t, m.after, more, s);
    StripEntry(m, more + s);
    assert Strip(more + s, false) == bares + x by {
      if |ms| == 1 {
        assert more + s == s && bares + x == x;
      } else {
        Assoc([0x2C], SpellEntries(ms[1..]), s);
        StripSolid([0x2C], SpellEntries(ms[1..]) + s);
        StripEntries(ms[1..], s);
        Assoc([0x2C], SpellEntries(BareEntries(ms[1..])), x);
      }
    }
    EntryRegroup([], q, [], [], Spell(Bare(m.tree)), [], bares, x);
    NoWhite(q, Spell(Bare(m.tree)), bares + x);
  }

  lemma NoWhite(q: seq<cbyte>, t: seq<cbyte>, x: seq<cbyte>)
    ensures [] + (q + ([] + ([0x3A] + ([] + (t + ([] + x)))))) == q + ([0x3A] + (t + x))
  {
    assert [] + x == x && [] + (t + x) == t + x;
    assert [] + ([0x3A] + (t + x)) == [0x3A] + (t + x);
  }

  lemma {:induction false} StripEntry(m: Entry, s: seq<cbyte>)
    requires ValidEntry(m)
    ensures Strip(m.before + (SpellQuote(m.name) + (m.beforeColon + ([0x3A] + (m.afterColon
                  + (Spell(m.tree) + (m.after + s)))))), false)
            == SpellQuote(m.name) + ([0x3A] + (Spell(Bare(m.tree)) + Strip(s, false)))
    decreases m, 0
  {
    hide Strip, Spell, Bare, Valid, Blank, SpellQuote, ValidQuote;
    var e := m.after + s;
    var d := m.afterColon + (Spell(m.tree) + e);
    var c := m.beforeColon + ([0x3A] + d);
    StripBlank(m.before, SpellQuote(m.name) + c);
    StripQuote(m.name, c);
    StripBlank(m.beforeColon, [0x3A] + d);
    StripSolid([0x3A], d);
    StripBlank(m.afterColon, Spell(m.tree) + e);
    StripTree(m.tree, e);
    StripBlank(m.after, s);
  }

  /** Bare, both layouts are the compact one. */
  lemma {:induction false} BareIsCompact(v: Json, level: nat, pretty: bool)
    ensures Bare(Laid(v, level, pretty)) == Laid(v, 0, false)
    decreases v, 1
  {
    match v
    case Arr(items) => BareItemsAreCompact(items, level, 0, pretty);
    case Obj(ms) => BareEntriesAreCompact(ms, level, 0, pretty);
    case _ =>
  }

  lemma {:induction false} BareItemsAreCompact(items: seq<Json>, level: nat, any: nat, pretty: bool)
    ensures BareItems(LaidItems(items, level, pretty)) == LaidItems(items, any, false)
    decreases items, 0
  {
    hide Laid, Bare;
    if items != [] {
      BareIsCompact(items[0], level + 1, pretty);
      CompactAnywhere(items[0], any + 1);
      BareItemsAreCompact(items[1..], level, any, pretty);
      assert LaidItems(items, level, pretty)[1..] == LaidItems(items[1..], level, pretty);
    }
  }

  lemma {:induction false} BareEntriesAreCompact(ms: seq<Member>, level: nat, any: nat, pretty: bool)
    ensures BareEntries(LaidEntries(ms, level, pretty)) == LaidEntries(ms, any, false)
    decreases ms, 0
  {
    hide Laid, Bare;
    if ms != [] {
      BareIsCompact(ms[0].value, level + 1, pretty);
      CompactAnywhere(ms[0].value, any + 1);
      BareEntriesAreCompact(ms[1..], level, any, pretty);
      assert LaidEntries(ms, level, pretty)[1..] == LaidEntries(ms[1..], level, pretty);
    }
  }

  /** The compact layout does not depend on the level. */
  lemma {:induction false} CompactAnywhere(v: Json, level: nat)
    ensures Laid(v, level, false) == Laid(v, 0, false)
    decreases v, 1
  {
    match v
    case Arr(items) => CompactItems(items, level, 0);
    case Obj(ms) => CompactEntries(ms, level, 0);
    case _ =>
  }

  lemma {:induction false} CompactItems(items: seq<Json>, level: nat, any: nat)
    ensures LaidItems(items, level, false) == LaidItems(items, any, false)
    decreases items, 0
  {
    hide Laid;
    if items != [] {
      CompactAnywhere(items[0], level + 1);
      CompactAnywhere(items[0], any + 1);
      CompactItems(items[1..], level, any);
    }
  }

  lemma {:induction false} CompactEntries(ms: seq<Member>, level: nat, any: nat)
    ensures LaidEntries(ms, level, false) == LaidEntries(ms, any, false)
    decreases ms, 0
  {
    hide Laid;
    if ms != [] {
      CompactAnywhere(ms[0].value, level + 1);
      CompactAnywhere(ms[0].value, any + 1);
      CompactEntries(ms[1..], level, any);
    }
  }

  /** The compact text has no white space outside strings, and the pretty text without it is the
      compact text. */
  lemma StripsToCompact(v: Json, level: nat, pretty: bool)
    requires NoDoubles(v)
    ensures Strip(Text(v, level, pretty), false) == Text(v, 0, false)
  {
    hide Text, Spell, Laid, Bare, Valid;
    TextIsLaid(v, level, pretty);
    TextIsLaid(v, 0, false);
    var t := Laid(v, level, pretty);
    assert Spell(t) + [] == Spell(t);
    StripTree(t, []);
    BareIsCompact(v, level, pretty);
    assert Spell(Bare(t)) + [] == Spell(Bare(t));
  }
}
