/** Every text of the syntax is parsed to its value, exactly when names are distinct and the nesting is
    within the limit. */
module JsonAccepts {
  import opened Collections
  import opened Bytes
  import opened Utf8
  import opened JsonValues
  import opened JsonSyntax
  import opened JsonStrings
  import opened JsonGrammar
  import opened JsonNumbers

  // ---------------------------------------------------------------- white space

  lemma {:induction false} SkipBlank(w: seq<cbyte>, s: seq<cbyte>)
    requires Blank(w)
    ensures SkipSpace(w + s) == SkipSpace(s)
  {
    if w == [] {
      assert w + s == s;
    } else {
      assert (w + s)[1..] == w[1..] + s;
      SkipBlank(w[1..], s);
    }
  }

  lemma SkipTo(w: seq<cbyte>, s: seq<cbyte>)
    requires Blank(w) && s != [] && !White(s[0])
    ensures SkipSpace(w + s) == s
  {
    SkipBlank(w, s);
  }

  // ---------------------------------------------------------------- strings

  lemma HexValues(h: seq<cbyte>, n: int, u: seq<cbyte>)
    requires Hex(h, n)
    ensures Hex4(h + u, 0) == n && QUOTE !in h && BACKSLASH !in h
  {
    hide Nibble, HexValue;
    assert At(h + u, 0) == h[0] && At(h + u, 1) == h[1] && At(h + u, 2) == h[2] && At(h + u, 3) == h[3];
    NibbleValue(h[0], n / 4096);
    NibbleValue(h[1], n / 256 % 16);
    NibbleValue(h[2], n / 16 % 16);
    NibbleValue(h[3], n % 16);
    HexSum(n);
    assert h == [h[0], h[1], h[2], h[3]];
  }

  lemma HexSum(n: nat)
    ensures n / 4096 * 4096 + n / 256 % 16 * 256 + n / 16 % 16 * 16 + n % 16 == n
  {
    assert n / 16 == n / 16 / 16 * 16 + n / 16 % 16 && n / 16 / 16 == n / 256;
    assert n / 256 == n / 256 / 16 * 16 + n / 256 % 16 && n / 256 / 16 == n / 4096;
  }

  lemma NibbleValue(h: cbyte, d: int)
    requires Nibble(h, d)
    ensures HexValue(h) == d && h != QUOTE && h != BACKSLASH
  {
  }

  lemma Hex4Shift(a: seq<cbyte>, s: seq<cbyte>)
    ensures Hex4(a + s, |a|) == Hex4(s, 0)
  {
    assert forall i :: At(a + s, |a| + i) == At(s, i);
  }

  lemma CodeDecodes(hex: seq<cbyte>, cp: int, u: seq<cbyte>)
    requires Scalar(cp) && Hex(hex, cp)
    ensures DecodeUtf16([0x75] + (hex + u)) == Some(Decoded(Encode(cp), 5))
  {
    hide Hex4, Hex, Store, Encode;
    HexValues(hex, cp, u);
    Hex4Shift([0x75], hex + u);
    StoreEncodes(cp);
  }

  lemma PairDecodes(high: seq<cbyte>, low: seq<cbyte>, cp: int, u: seq<cbyte>)
    requires ValidChar(Pair(high, low, cp))
    ensures DecodeUtf16([0x75] + (high + ([0x5C, 0x75] + (low + u)))) == Some(Decoded(Encode(cp), 11))
  {
    hide Hex4, Hex, Store, Encode;
    var lead, trail := 0xD800 + (cp - 0x10000) / 0x400, 0xDC00 + (cp - 0x10000) % 0x400;
    var tail := [0x5C, 0x75] + (low + u);
    var s := [0x75] + (high + tail);
    HexSize(high, lead);
    HexValues(high, lead, tail);
    Hex4Shift([0x75], high + tail);
    HexValues(low, trail, u);
    Assoc([0x75], high, tail);
    Assoc([0x75] + high, [0x5C, 0x75], low + u);
    Hex4Shift([0x75] + high + [0x5C, 0x75], low + u);
    assert At(s, 5) == 0x5C && At(s, 6) == 0x75;
    assert Supplementary(lead, trail) == cp;
    StoreEncodes(cp);
  }

  lemma HexSize(h: seq<cbyte>, n: int)
    requires Hex(h, n)
    ensures |h| == 4
  {
  }

  /** One character is decoded to its bytes. */
  lemma CharDecodes(ch: Char, u: seq<cbyte>)
    requires ValidChar(ch)
    ensures Process(SpellChar(ch) + u) == Prepend(CharBytes(ch), Process(u))
  {
    hide DecodeUtf16, Hex, Encode;
    match ch
    case Plain(c) => AfterFirst(c, u);
    case Short(letter, c) =>
      var s := [0x5C, letter] + u;
      assert s[2..] == u && At(s, 1) == letter;
      ShortDecodes(letter, c);
    case Code(hex, cp) =>
      HexSize(hex, cp);
      CodeDecodes(hex, cp, u);
      Assoc([0x5C, 0x75], hex, u);
      Escaped(hex + u);
      var s := SpellChar(ch) + u;
      assert s[6..] == u;
    case Pair(high, low, cp) =>
      HexSize(high, 0xD800 + (cp - 0x10000) / 0x400);
      HexSize(low, 0xDC00 + (cp - 0x10000) % 0x400);
      PairDecodes(high, low, cp, u);
      Assoc([0x5C, 0x75] + high, [0x5C, 0x75] + low, u);
      Assoc([0x5C, 0x75], low, u);
      Assoc([0x5C, 0x75], high, [0x5C, 0x75] + (low + u));
      Escaped(high + ([0x5C, 0x75] + (low + u)));
      var s := SpellChar(ch) + u;
      assert s[12..] == u;
  }

  lemma ShortDecodes(letter: cbyte, c: cbyte)
    requires Shorthand(letter, c)
    ensures SimpleEscape(letter) == c
  {
  }

  lemma Escaped(v: seq<cbyte>)
    ensures var s := [0x5C, 0x75] + v; s[1..] == [0x75] + v && At(s, 0) == 0x5C && At(s, 1) == 0x75
  {
  }

  /** The scan for the closing quote passes over it. */
  lemma CharScans(ch: Char, u: seq<cbyte>)
    requires ValidChar(ch)
    ensures ScanQuote(SpellChar(ch) + u) == Shift(|SpellChar(ch)|, ScanQuote(u))
  {
    hide Hex, ScanQuote;
    match ch
    case Plain(c) => ScanPlain([c], u);
    case Short(letter, _) => ScanEscape(letter, u);
    case Code(hex, cp) =>
      Assoc([0x5C, 0x75], hex, u);
      HexScans(hex, cp, u);
    case Pair(high, low, cp) => PairScans(high, low, cp, u);
  }

  lemma PairScans(high: seq<cbyte>, low: seq<cbyte>, cp: int, u: seq<cbyte>)
    requires ValidChar(Pair(high, low, cp))
    ensures var e := [0x5C, 0x75] + high + ([0x5C, 0x75] + low); ScanQuote(e + u) == Shift(|e|, ScanQuote(u))
  {
    hide Hex, ScanQuote;
    var d := [0x5C, 0x75];
    Assoc(d + high, d + low, u);
    Assoc(d, low, u);
    Assoc(d, high, d + (low + u));
    HexScans(low, 0xDC00 + (cp - 0x10000) % 0x400, u);
    HexScans(high, 0xD800 + (cp - 0x10000) / 0x400, d + (low + u));
  }

  lemma ScanEscape(c: cbyte, u: seq<cbyte>)
    ensures ScanQuote([0x5C, c] + u) == Shift(2, ScanQuote(u))
  {
    assert ([0x5C, c] + u)[2..] == u;
  }

  lemma HexScans(h: seq<cbyte>, n: int, u: seq<cbyte>)
    requires Hex(h, n)
    ensures ScanQuote([0x5C, 0x75] + (h + u)) == Shift(2 + |h|, ScanQuote(u))
  {
    hide ScanQuote;
    HexValues(h, n, []);
    ScanEscape(0x75, h + u);
    ScanPlain(h, u);
  }

  lemma {:induction false} CharsDecode(chars: seq<Char>)
    requires ValidChars(chars)
    ensures Process(SpellChars(chars)) == Some(CharsBytes(chars))
  {
    hide ValidChar, SpellChar, CharBytes;
    if chars == [] {
      assert Process([]) == Some([]);
    } else {
      hide Process;
      CharDecodes(chars[0], SpellChars(chars[1..]));
      CharsDecode(chars[1..]);
    }
  }

  lemma {:induction false} CharsScan(chars: seq<Char>, rest: seq<cbyte>)
    requires ValidChars(chars)
    ensures ScanQuote(SpellChars(chars) + ([0x22] + rest)) == Some(|SpellChars(chars)|)
  {
    hide ValidChar, SpellChar, ScanQuote;
    var u := [0x22] + rest;
    if chars == [] {
      assert SpellChars(chars) + u == u;
      ScanAtQuote(rest);
    } else {
      Assoc(SpellChar(chars[0]), SpellChars(chars[1..]), u);
      CharScans(chars[0], SpellChars(chars[1..]) + u);
      CharsScan(chars[1..], rest);
    }
  }

  lemma {:induction false} CStringRead(bs: seq<byte>, s: seq<cbyte>)
    requires CString(bs, s)
    ensures UpToNul(bs) == s
  {
    if bs != [] && bs[0] != 0 {
      assert s != [] && s[0] == bs[0];
      assert s[1..] <= bs[1..];
      CStringRead(bs[1..], s[1..]);
      assert s == [s[0]] + s[1..];
    }
  }

  /** A quoted string is read as its value. */
  lemma QuoteParses(q: Quote, rest: seq<cbyte>)
    requires ValidQuote(q)
    ensures Quoted(SpellQuote(q) + rest) == Ok(q.value, rest)
  {
    hide SpellChars, CharsBytes, ScanQuote, Process, UpToNul, ValidChars, CString;
    var e := SpellChars(q.chars);
    var s := SpellQuote(q) + rest;
    Assoc([0x22], e + [0x22], rest);
    Assoc(e, [0x22], rest);
    AfterFirst(0x22, e + ([0x22] + rest));
    CharsScan(q.chars, rest);
    AfterPrefix(e, [0x22] + rest);
    assert s[1..1 + |e|] == s[1..][..|e|] == e;
    assert s[|e| + 2..] == s[1..][|e|..][1..];
    AfterFirst(0x22, rest);
    CharsDecode(q.chars);
    CStringRead(CharsBytes(q.chars), q.value);
  }

  // ---------------------------------------------------------------- values

  /** A value at this depth, and everything inside it, stays within the nesting limit. */
  predicate Fits(v: Json, nesting: nat) {
    nesting <= MAX_NESTING &&
    match v
    case Arr(items) => forall i :: 0 <= i < |items| ==> Fits(items[i], nesting + 1)
    case Obj(ms) => forall i :: 0 <= i < |ms| ==> Fits(ms[i].value, nesting + 1)
    case _ => true
  }

  predicate Good(v: Json, nesting: nat) {
    Distinct(v) && Fits(v, nesting)
  }

  predicate AllGood(vs: seq<Json>, nesting: nat) {
    forall i :: 0 <= i < |vs| ==> Good(vs[i], nesting)
  }

  predicate MembersGood(ms: seq<Member>, nesting: nat) {
    forall i :: 0 <= i < |ms| ==> Good(ms[i].value, nesting)
  }

  function Outcome(good: bool, v: Json, rest: seq<cbyte>): Parse<Json> {
    if good then Ok(v, rest) else Fail
  }

  /** A tree starts with a byte that is neither white space nor a closing bracket nor a mark. */
  lemma TreeStart(t: Tree)
    requires Valid(t)
    ensures var s := Spell(t); s != [] && !White(s[0]) && s[0] != 0x5D && s[0] != 0x7D && s[0] != 0xEF
  {
    if t.Figured? {
      var n := t.numeral;
      NumeralStart(n);
      hide SpellFraction, SpellExponent;
      assert Spell(t)[0] == if n.negative then 0x2D else n.whole[0];
    }
  }

  lemma ScalarParses(t: Tree, nesting: nat, rest: seq<cbyte>)
    requires Valid(t) && !t.Bracketed? && !t.Braced? && nesting <= MAX_NESTING
    requires t.Figured? ==> Delimited(rest)
    ensures ParseValue(Spell(t) + rest, nesting) == Ok(ValueOf(t), rest)
  {
    hide ParseNumber, Quoted, ValidQuote, ValidNumeral, NumeralValue, SpellNumeral, SpellQuote;
    var s := Spell(t) + rest;
    TreeStart(t);
    assert s[0] == Spell(t)[0];
    AfterPrefix(Spell(t), rest);
    match t
    case WordNull =>
    case WordTrue =>
    case WordFalse =>
    case Figured(n) =>
      NumeralFirst(n);
      NumeralParses(n, rest);
    case Quoting(q) =>
      QuoteFirst(q);
      QuoteParses(q, rest);
  }

  lemma NumeralFirst(n: Numeral)
    requires ValidNumeral(n)
    ensures SpellNumeral(n) != [] && (SpellNumeral(n)[0] == 0x2D || IsDigit(SpellNumeral(n)[0]))
  {
    hide SpellFraction, SpellExponent;
    assert SpellNumeral(n)[0] == if n.negative then 0x2D else n.whole[0];
  }

  lemma QuoteFirst(q: Quote)
    ensures SpellQuote(q) != [] && SpellQuote(q)[0] == 0x22
  {
  }

  /** Every tree is parsed to its value if names are distinct and the nesting is within the limit, and
      refused otherwise. */
  lemma {:induction false} TreeParses(t: Tree, nesting: nat, rest: seq<cbyte>)
    requires Valid(t) && (t.Figured? ==> Delimited(rest))
    ensures ParseValue(Spell(t) + rest, nesting) == Outcome(Good(ValueOf(t), nesting), ValueOf(t), rest)
    decreases t, 1
  {
    hide Spell, ParseArray, ParseObject;
    if nesting <= MAX_NESTING {
      if t.Bracketed? {
        ArrayParses(t, nesting, rest);
        EntersArray(Spell(t) + rest, nesting);
      } else if t.Braced? {
        ObjectParses(t, nesting, rest);
        EntersObject(Spell(t) + rest, nesting);
      } else {
        ScalarParses(t, nesting, rest);
        ScalarGood(t, nesting);
      }
    }
  }

  lemma ScalarGood(t: Tree, nesting: nat)
    requires !t.Bracketed? && !t.Braced? && nesting <= MAX_NESTING
    ensures Good(ValueOf(t), nesting)
  {
  }

  lemma EntersArray(s: seq<cbyte>, nesting: nat)
    requires s != [] && s[0] == 0x5B && nesting <= MAX_NESTING
    ensures ParseValue(s, nesting) == ParseArray(s, nesting + 1)
  {
    hide ParseArray;
  }

  lemma EntersObject(s: seq<cbyte>, nesting: nat)
    requires s != [] && s[0] == 0x7B && nesting <= MAX_NESTING
    ensures ParseValue(s, nesting) == ParseObject(s, nesting + 1)
  {
    hide ParseObject;
  }

  lemma {:induction false} ArrayParses(t: Tree, nesting: nat, rest: seq<cbyte>)
    requires t.Bracketed? && Valid(t) && nesting <= MAX_NESTING
    ensures var s := Spell(t) + rest;
            && s != [] && s[0] == 0x5B
            && ParseArray(s, nesting + 1) == Outcome(Good(ValueOf(t), nesting), ValueOf(t), rest)
    decreases t, 0
  {
    hide ParseItems, SkipSpace, SpellItems, ValidItem, Blank;
    var body := if t.items == [] then t.gap else SpellItems(t.items);
    var u := [0x5D] + rest;
    Assoc([0x5B], body + [0x5D], rest);
    Assoc(body, [0x5D], rest);
    AfterFirst(0x5B, body + u);
    if t.items == [] {
      SkipTo(t.gap, u);
      AfterFirst(0x5D, rest);
    } else {
      ItemsParse(t.items, nesting + 1, [], rest);
      ItemsStart(t.items, u);
      assert [] + ItemValues(t.items) == ItemValues(t.items);
    }
  }

  /** What remains of an item's text after its value. */
  function ItemTail(items: seq<Item>, u: seq<cbyte>): seq<cbyte>
    requires items != []
  {
    items[0].after + if |items| == 1 then u else [0x2C] + (SpellItems(items[1..]) + u)
  }

  lemma ItemsStart(items: seq<Item>, u: seq<cbyte>)
    requires items != [] && ValidItem(items[0])
    ensures var s := Spell(items[0].tree) + ItemTail(items, u);
            SkipSpace(SpellItems(items) + u) == s && s != [] && s[0] != 0x5D
  {
    hide SkipSpace, Spell, Valid, Blank;
    var i := items[0];
    var more := if |items| == 1 then [] else [0x2C] + SpellItems(items[1..]);
    Assoc(i.before, Spell(i.tree) + (i.after + more), u);
    Assoc(Spell(i.tree), i.after + more, u);
    Assoc(i.after, more, u);
    if |items| > 1 {
      Assoc([0x2C], SpellItems(items[1..]), u);
    } else {
      assert more + u == u;
    }
    TreeStart(i.tree);
    SkipTo(i.before, Spell(i.tree) + ItemTail(items, u));
  }

  lemma {:induction false} ItemsParse(items: seq<Item>, nesting: nat, acc: seq<Json>, rest: seq<cbyte>)
    requires items != [] && forall i :: 0 <= i < |items| ==> ValidItem(items[i])
    ensures ParseItems(SkipSpace(SpellItems(items) + ([0x5D] + rest)), nesting, acc)
            == Outcome(AllGood(ItemValues(items), nesting), Arr(acc + ItemValues(items)), rest)
    decreases items, 0
  {
    hide ParseItems, ParseValue, SkipSpace, SpellItems, Spell, Good, AllGood, ItemTail, ItemValues, Valid;
    var u, x := [0x5D] + rest, items[0];
    var tail := ItemTail(items, u);
    ItemsStart(items, u);
    TailDelimited(items, u);
    TreeParses(x.tree, nesting, tail);
    ItemValuesSplit(items, nesting);
    var v := ValueOf(x.tree);
    if !Good(v, nesting) {
      FailedItem(Spell(x.tree) + tail, nesting, acc);
    } else if |items| == 1 {
      TailSkips(items, u);
      ClosingItem(Spell(x.tree) + tail, nesting, acc, v, tail, rest);
    } else {
      TailSkips(items, u);
      NextItem(Spell(x.tree) + tail, nesting, acc, v, tail, SpellItems(items[1..]) + u);
      ItemsParse(items[1..], nesting, acc + [v], rest);
      Assoc(acc, [v], ItemValues(items[1..]));
    }
  }

  lemma ItemValuesSplit(items: seq<Item>, nesting: nat)
    requires items != []
    ensures ItemValues(items) == [ValueOf(items[0].tree)] + ItemValues(items[1..])
    ensures AllGood(ItemValues(items), nesting)
            <==> Good(ValueOf(items[0].tree), nesting) && AllGood(ItemValues(items[1..]), nesting)
    ensures |items| == 1 ==> ItemValues(items) == [ValueOf(items[0].tree)] && AllGood(ItemValues(items[1..]), nesting)
  {
    hide Good, AllGood, ValueOf;
    AllGoodSplit(ValueOf(items[0].tree), ItemValues(items[1..]), nesting);
    if |items| == 1 { assert items[1..] == []; }
  }

  lemma AllGoodSplit(v: Json, vs: seq<Json>, nesting: nat)
    ensures AllGood([v] + vs, nesting) <==> Good(v, nesting) && AllGood(vs, nesting)
    ensures vs == [] ==> AllGood(vs, nesting)
  {
    hide Good;
    var all := [v] + vs;
    assert all[0] == v && forall i :: 0 <= i < |vs| ==> all[i + 1] == vs[i];
  }

  lemma TailDelimited(items: seq<Item>, u: seq<cbyte>)
    requires items != [] && Blank(items[0].after) && u != [] && (u[0] == 0x5D || u[0] == 0x7D)
    ensures Delimited(ItemTail(items, u))
  {
    hide SpellItems;
    var a := items[0].after;
    assert a != [] ==> ItemTail(items, u)[0] == a[0];
  }

  lemma TailSkips(items: seq<Item>, u: seq<cbyte>)
    requires items != [] && Blank(items[0].after) && u != [] && u[0] == 0x5D
    ensures SkipSpace(ItemTail(items, u)) == if |items| == 1 then u else [0x2C] + (SpellItems(items[1..]) + u)
  {
    hide SpellItems, SkipSpace;
    SkipTo(items[0].after, if |items| == 1 then u else [0x2C] + (SpellItems(items[1..]) + u));
  }

  lemma FailedItem(u: seq<cbyte>, nesting: nat, acc: seq<Json>)
    requires ParseValue(u, nesting) == Fail
    ensures ParseItems(u, nesting, acc) == Fail
  {
    hide ParseValue;
  }

  lemma ClosingItem(u: seq<cbyte>, nesting: nat, acc: seq<Json>, v: Json, tail: seq<cbyte>, rest: seq<cbyte>)
    requires u != [] && ParseValue(u, nesting) == Ok(v, tail) && SkipSpace(tail) == [0x5D] + rest
    ensures ParseItems(u, nesting, acc) == Ok(Arr(acc + [v]), rest)
  {
    hide ParseValue, SkipSpace;
    AfterFirst(0x5D, rest);
  }

  lemma NextItem(u: seq<cbyte>, nesting: nat, acc: seq<Json>, v: Json, tail: seq<cbyte>, more: seq<cbyte>)
    requires u != [] && ParseValue(u, nesting) == Ok(v, tail) && SkipSpace(tail) == [0x2C] + more
    ensures ParseItems(u, nesting, acc) == ParseItems(SkipSpace(more), nesting, acc + [v])
  {
    hide ParseValue, SkipSpace;
    AfterFirst(0x2C, more);
  }

  lemma ObjectText(t: Tree, rest: seq<cbyte>)
    requires t.Braced?
    ensures var s := Spell(t) + rest;
            && s != [] && s[0] == 0x7B
            && s[1..] == (if t.members == [] then t.gap else SpellEntries(t.members)) + ([0x7D] + rest)
  {
    hide SpellEntries;
    var body := if t.members == [] then t.gap else SpellEntries(t.members);
    Assoc([0x7B], body + [0x7D], rest);
    Assoc(body, [0x7D], rest);
    AfterFirst(0x7B, body + ([0x7D] + rest));
  }

  lemma GoodObject(ms: seq<Member>, nesting: nat)
    requires nesting <= MAX_NESTING
    ensures Good(Obj(ms), nesting) <==> Fresh([], ms) && MembersGood(ms, nesting + 1)
  {
  }

  lemma {:induction false} ObjectParses(t: Tree, nesting: nat, rest: seq<cbyte>)
    requires t.Braced? && Valid(t) && nesting <= MAX_NESTING
    ensures var s := Spell(t) + rest;
            && s != [] && s[0] == 0x7B
            && ParseObject(s, nesting + 1) == Outcome(Good(ValueOf(t), nesting), ValueOf(t), rest)
    decreases t, 0
  {
    GoodObject(EntryValues(t.members), nesting);
    hide ParseMembers, SkipSpace, SpellEntries, ValidEntry, Blank, Good, Fresh, MembersGood;
    var u := [0x7D] + rest;
    ObjectText(t, rest);
    hide Spell;
    if t.members == [] {
      SkipTo(t.gap, u);
      AfterFirst(0x7D, rest);
    } else {
      EntriesParse(t.members, nesting + 1, [], rest);
      EntriesStart(t.members, u);
      assert [] + EntryValues(t.members) == EntryValues(t.members);
    }
  }

  /** What remains of a member's text after its name, and after its value. */
  function EntryTail(ms: seq<Entry>, u: seq<cbyte>): seq<cbyte>
    requires ms != []
  {
    ms[0].after + if |ms| == 1 then u else [0x2C] + (SpellEntries(ms[1..]) + u)
  }

  function NameTail(ms: seq<Entry>, u: seq<cbyte>): seq<cbyte>
    requires ms != []
  {
    ms[0].beforeColon + ([0x3A] + (ms[0].afterColon + (Spell(ms[0].tree) + EntryTail(ms, u))))
  }

  lemma EntriesStart(ms: seq<Entry>, u: seq<cbyte>)
    requires ms != [] && ValidEntry(ms[0])
    ensures var s := SpellQuote(ms[0].name) + NameTail(ms, u);
            SkipSpace(SpellEntries(ms) + u) == s && s != [] && s[0] == 0x22
  {
    hide SkipSpace, Spell, Valid, Blank, SpellQuote;
    var m := ms[0];
    var more := if |ms| == 1 then [] else [0x2C] + SpellEntries(ms[1..]);
    EntryRegroup(m.before, SpellQuote(m.name), m.beforeColon, m.afterColon, Spell(m.tree), m.after, more, u);
    if |ms| > 1 {
      Assoc([0x2C], SpellEntries(ms[1..]), u);
    } else {
      assert more + u == u;
    }
    QuoteFirst(m.name);
    SkipTo(m.before, SpellQuote(m.name) + NameTail(ms, u));
  }

  lemma EntryRegroup(b: seq<cbyte>, q: seq<cbyte>, x: seq<cbyte>, y: seq<cbyte>, t: seq<cbyte>, a: seq<cbyte>,
                     more: seq<cbyte>, u: seq<cbyte>)
    ensures b + (q + (x + ([0x3A] + (y + (t + (a + more)))))) + u
            == b + (q + (x + ([0x3A] + (y + (t + (a + (more + u)))))))
  {
    Assoc(b, q + (x + ([0x3A] + (y + (t + (a + more))))), u);
    Assoc(q, x + ([0x3A] + (y + (t + (a + more)))), u);
    Assoc(x, [0x3A] + (y + (t + (a + more))), u);
    Assoc([0x3A], y + (t + (a + more)), u);
    Assoc(y, t + (a + more), u);
    Assoc(t, a + more, u);
    Assoc(a, more, u);
  }

  /** The names already there, with those to come, are distinct. */
  ghost predicate Fresh(acc: seq<Member>, ms: seq<Member>) {
    DistinctNames(ms) && forall i, j :: 0 <= i < |acc| && 0 <= j < |ms| ==> acc[i].name != ms[j].name
  }

  lemma {:induction false} EntriesParse(ms: seq<Entry>, nesting: nat, acc: seq<Member>, rest: seq<cbyte>)
    requires ms != [] && forall i :: 0 <= i < |ms| ==> ValidEntry(ms[i])
    ensures var vs := EntryValues(ms);
            ParseMembers(SkipSpace(SpellEntries(ms) + ([0x7D] + rest)), nesting, acc)
            == Outcome(Fresh(acc, vs) && MembersGood(vs, nesting), Obj(acc + vs), rest)
    decreases ms, 0
  {
    hide ParseMembers, ParseValue, SkipSpace, SpellEntries, Spell, SpellQuote, Good, MembersGood, EntryTail, NameTail;
    hide EntryValues, Valid, HasName, Fresh;
    var u, m := [0x7D] + rest, ms[0];
    var tail, s := EntryTail(ms, u), SpellQuote(m.name) + NameTail(ms, u);
    EntriesStart(ms, u);
    EntryDelimited(ms, u);
    TreeParses(m.tree, nesting, tail);
    var v, first := ValueOf(m.tree), Member(m.name.value, ValueOf(m.tree));
    EntryHead(ms, u, nesting, acc);
    EntryValuesSplit(ms, acc, nesting);
    if Good(v, nesting) && !HasName(acc, first.name) && |ms| > 1 {
      EntriesParse(ms[1..], nesting, acc + [first], rest);
      Assoc(acc, [first], EntryValues(ms[1..]));
    }
  }

  /** One turn of the member loop, given what its value parses to. */
  lemma EntryHead(ms: seq<Entry>, u: seq<cbyte>, nesting: nat, acc: seq<Member>)
    requires ms != [] && ValidEntry(ms[0]) && u != [] && u[0] == 0x7D
    requires var v, tail := ValueOf(ms[0].tree), EntryTail(ms, u);
             ParseValue(Spell(ms[0].tree) + tail, nesting) == Outcome(Good(v, nesting), v, tail)
    ensures var v := ValueOf(ms[0].tree); var first := Member(ms[0].name.value, v);
            ParseMembers(SpellQuote(ms[0].name) + NameTail(ms, u), nesting, acc)
            == if !Good(v, nesting) || HasName(acc, first.name) then Fail
               else if |ms| == 1 then Ok(Obj(acc + [first]), u[1..])
               else ParseMembers(SkipSpace(SpellEntries(ms[1..]) + u), nesting, acc + [first])
  {
    hide ParseValue, Quoted, SkipSpace, SpellEntries, Spell, SpellQuote, Good, Valid, HasName, ValidQuote, Blank;
    var m, tail := ms[0], EntryTail(ms, u);
    var c := [0x3A] + (m.afterColon + (Spell(m.tree) + tail));
    QuoteFirst(m.name);
    QuoteParses(m.name, NameTail(ms, u));
    SkipTo(m.beforeColon, c);
    AfterFirst(0x3A, m.afterColon + (Spell(m.tree) + tail));
    ParsesPastBlank(m.afterColon, Spell(m.tree) + tail, nesting);
    var w := if |ms| == 1 then u else [0x2C] + (SpellEntries(ms[1..]) + u);
    SkipTo(m.after, w);
    if |ms| > 1 { AfterFirst(0x2C, SpellEntries(ms[1..]) + u); }
  }

  lemma ParsesPastBlank(w: seq<cbyte>, s: seq<cbyte>, nesting: nat)
    requires Blank(w)
    ensures ParseValue(w + s, nesting) == ParseValue(s, nesting)
  {
    hide SkipSpace, ParseObject, ParseArray, ParseNumber, ParseString, ParseBoolean, ParseToken;
    SkipBlank(w, s);
  }

  lemma EntryDelimited(ms: seq<Entry>, u: seq<cbyte>)
    requires ms != [] && Blank(ms[0].after) && u != [] && u[0] == 0x7D
    ensures Delimited(EntryTail(ms, u))
  {
    hide SpellEntries;
    var a := ms[0].after;
    assert a != [] ==> EntryTail(ms, u)[0] == a[0];
  }

  lemma EntryValuesSplit(ms: seq<Entry>, acc: seq<Member>, nesting: nat)
    requires ms != []
    ensures var first, vs := Member(ms[0].name.value, ValueOf(ms[0].tree)), EntryValues(ms[1..]);
            && EntryValues(ms) == [first] + vs
            && (MembersGood(EntryValues(ms), nesting) <==> Good(first.value, nesting) && MembersGood(vs, nesting))
            && (Fresh(acc, EntryValues(ms)) <==> !HasName(acc, first.name) && Fresh(acc + [first], vs))
            && (|ms| == 1 ==> EntryValues(ms) == [first] && MembersGood(vs, nesting) && Fresh(acc + [first], vs))
  {
    hide Good, MembersGood, ValueOf, Fresh, HasName;
    var first, vs := Member(ms[0].name.value, ValueOf(ms[0].tree)), EntryValues(ms[1..]);
    MembersGoodSplit(first, vs, nesting);
    FreshSplit(acc, first, vs);
    if |ms| == 1 { assert ms[1..] == []; }
  }

  lemma MembersGoodSplit(m: Member, ms: seq<Member>, nesting: nat)
    ensures MembersGood([m] + ms, nesting) <==> Good(m.value, nesting) && MembersGood(ms, nesting)
    ensures ms == [] ==> MembersGood(ms, nesting)
  {
    hide Good;
    var all := [m] + ms;
    assert all[0] == m && forall i :: 0 <= i < |ms| ==> all[i + 1] == ms[i];
  }

  lemma FreshSplit(acc: seq<Member>, m: Member, ms: seq<Member>)
    ensures Fresh(acc, [m] + ms) <==> !HasName(acc, m.name) && Fresh(acc + [m], ms)
    ensures ms == [] ==> Fresh(acc + [m], ms)
  {
    var all, more := [m] + ms, acc + [m];
    assert all[0] == m && forall i :: 0 <= i < |ms| ==> all[i + 1] == ms[i];
    assert more[|acc|] == m && forall i :: 0 <= i < |acc| ==> more[i] == acc[i];
  }

  // ---------------------------------------------------------------- whole texts

  lemma {:induction false} FitsByHeight(v: Json, nesting: nat)
    ensures Fits(v, nesting) <==> nesting + Height(v) <= MAX_NESTING
    decreases v, 1
  {
    match v
    case Arr(items) => ItemsFit(items, nesting);
    case Obj(ms) => MembersFit(ms, nesting);
    case _ =>
  }

  lemma {:induction false} ItemsFit(items: seq<Json>, nesting: nat)
    ensures (nesting <= MAX_NESTING && forall i :: 0 <= i < |items| ==> Fits(items[i], nesting + 1))
            <==> nesting + HighestItem(items) <= MAX_NESTING
    decreases items, 0
  {
    if items != [] {
      FitsByHeight(items[0], nesting + 1);
      ItemsFit(items[1..], nesting);
      assert forall i :: 1 <= i < |items| ==> items[i] == items[1..][i - 1];
      assert forall i :: 0 <= i < |items| - 1 ==> items[1..][i] == items[i + 1];
    }
  }

  lemma {:induction false} MembersFit(ms: seq<Member>, nesting: nat)
    ensures (nesting <= MAX_NESTING && forall i :: 0 <= i < |ms| ==> Fits(ms[i].value, nesting + 1))
            <==> nesting + HighestMember(ms) <= MAX_NESTING
    decreases ms, 0
  {
    if ms != [] {
      FitsByHeight(ms[0].value, nesting + 1);
      MembersFit(ms[1..], nesting);
      assert forall i :: 1 <= i < |ms| ==> ms[i] == ms[1..][i - 1];
      assert forall i :: 0 <= i < |ms| - 1 ==> ms[1..][i] == ms[i + 1];
    }
  }

  /** Every text that starts with a tree, after an optional mark and white space, is parsed to the
      tree's value if no object repeats a name and at most 2048 containers enclose any value, and is
      refused otherwise. A number must be delimited. */
  lemma TextParses(s: seq<cbyte>, marked: bool, w: seq<cbyte>, t: Tree, rest: seq<cbyte>)
    requires Reads(s, marked, w, t, rest) && (t.Figured? ==> Delimited(rest))
    ensures ParseText(s) == if Distinct(ValueOf(t)) && Height(ValueOf(t)) <= 2048 then Some(ValueOf(t)) else None
  {
    hide ParseValue, Spell, Valid, ValueOf, Distinct, Height;
    var body := w + (Spell(t) + rest);
    TreeStart(t);
    if marked {
      assert s[3..] == body;
    } else {
      assert s == body;
      assert s[0] == if w == [] then Spell(t)[0] else w[0];
    }
    ParsesPastBlank(w, Spell(t) + rest, 0);
    TreeParses(t, 0, rest);
    FitsByHeight(ValueOf(t), 0);
  }
}
