/** Whatever is parsed is spelled: the text read is a tree of the syntax with the value returned. */
module JsonDenotes {
  import opened Collections
  import opened Bytes
  import opened Utf8
  import opened JsonValues
  import opened JsonSyntax
  import opened JsonStrings
  import opened JsonGrammar
  import opened JsonNumbers
  import opened JsonParser
  import opened JsonAccepts

  // ---------------------------------------------------------------- white space and strings

  lemma {:induction false} BlankSkipped(s: seq<cbyte>) returns (w: seq<cbyte>)
    ensures Blank(w) && s == w + SkipSpace(s)
  {
    if s != [] && IsSpace(s[0]) {
      w := BlankSkipped(s[1..]);
      w := [s[0]] + w;
    } else {
      w := [];
    }
  }

  lemma HexRead(s: seq<cbyte>, i: nat)
    requires Hex4(s, i) != -1
    ensures i + 4 <= |s| && Hex(s[i..i + 4], Hex4(s, i))
  {
    NibbleRead(s[i]);
    NibbleRead(s[i + 1]);
    NibbleRead(s[i + 2]);
    NibbleRead(s[i + 3]);
    var a, b, c, d := HexValue(s[i]), HexValue(s[i + 1]), HexValue(s[i + 2]), HexValue(s[i + 3]);
    hide Nibble, HexValue;
    HexDigits(a, b, c, d);
  }

  lemma NibbleRead(h: cbyte)
    ensures HexValue(h) != -1 ==> Nibble(h, HexValue(h))
  {
  }

  lemma HexDigits(a: nat, b: nat, c: nat, d: nat)
    requires a < 16 && b < 16 && c < 16 && d < 16
    ensures var n := a * 4096 + b * 256 + c * 16 + d;
            n < 0x10000 && n / 4096 == a && n / 256 % 16 == b && n / 16 % 16 == c && n % 16 == d
  {
    var n := a * 4096 + b * 256 + c * 16 + d;
    assert n / 4096 == a;
    assert n / 256 == a * 16 + b;
    assert n / 16 == (a * 16 + b) * 16 + c;
    LastHexDigit(a, b);
    LastHexDigit(a * 16 + b, c);
    LastHexDigit((a * 16 + b) * 16 + c, d);
  }

  lemma LastHexDigit(q: nat, d: nat)
    requires d < 16
    ensures (q * 16 + d) % 16 == d
  {
  }

  lemma ShortRead(letter: cbyte)
    ensures SimpleEscape(letter) != -1 ==> SimpleEscape(letter) > 0 && Shorthand(letter, SimpleEscape(letter))
  {
  }

  /** One decoded unit is one character. */
  lemma UnitRead(s: seq<cbyte>) returns (ch: Char)
    requires s != [] && s[0] != 0x22 && Unit(s).Some?
    ensures var d := Unit(s).value; ValidChar(ch) && SpellChar(ch) == s[..d.used] && CharBytes(ch) == d.octets
  {
    hide Process, DecodeUtf16, Hex, Hex4, Encode, Shorthand;
    if s[0] != 0x5C {
      ch := Plain(s[0]);
    } else if SimpleEscape(At(s, 1)) != -1 {
      ShortRead(s[1]);
      ch := Short(s[1], SimpleEscape(s[1]));
    } else {
      ch := CodeRead(s);
    }
  }

  lemma CodeRead(s: seq<cbyte>) returns (ch: Char)
    requires |s| > 1 && s[0] == 0x5C && s[1] == 0x75 && DecodeUtf16(s[1..]).Some?
    ensures var d := DecodeUtf16(s[1..]).value;
            ValidChar(ch) && SpellChar(ch) == s[..1 + d.used] && CharBytes(ch) == d.octets
  {
    hide Hex, Hex4, Encode, Store;
    HexShifted(s, 1);
    HexShifted(s, 7);
    var cp := Hex4(s, 2);
    HexRead(s, 2);
    if Scalar(cp) {
      StoreEncodes(cp);
      ch := Code(s[2..6], cp);
      assert s[..6] == [0x5C, 0x75] + s[2..6];
    } else {
      HexRead(s, 8);
      var full := Supplementary(cp, Hex4(s, 8));
      StoreEncodes(full);
      ch := Pair(s[2..6], s[8..12], full);
      assert s[6..12] == [0x5C, 0x75] + s[8..12];
      assert s[..12] == [0x5C, 0x75] + s[2..6] + s[6..12];
      SurrogateParts(cp, Hex4(s, 8));
    }
  }

  lemma SurrogateParts(lead: int, trail: int)
    requires IsLead(lead) && IsTrail(trail)
    ensures var x := Supplementary(lead, trail) - 0x10000; 0xD800 + x / 0x400 == lead && 0xDC00 + x % 0x400 == trail
  {
  }

  lemma {:induction false} CharsRead(t: seq<cbyte>, n: nat) returns (chars: seq<Char>)
    requires ScanQuote(t) == Some(n) && n <= |t| && Process(t[..n]).Some?
    ensures ValidChars(chars) && SpellChars(chars) == t[..n] && CharsBytes(chars) == Process(t[..n]).value
    decreases n
  {
    hide ScanQuote, Unit, ValidChar, SpellChar, CharBytes;
    if n == 0 {
      chars := [];
      assert t[..0] == [] && Process([]) == Some([]);
    } else {
      hide Process;
      var s := t[..n];
      ScanStops(t, 0);
      assert t[0..] == t;
      UnitKeepsScan(t, n);
      var used := Unit(s).value.used;
      var ch := UnitRead(s);
      assert s[used..] == t[used..][..n - used];
      var more := CharsRead(t[used..], n - used);
      chars := [ch] + more;
      assert chars[1..] == more;
      assert s == s[..used] + s[used..];
    }
  }

  lemma {:induction false} CStringOf(bs: seq<byte>)
    ensures CString(bs, UpToNul(bs))
  {
    if bs != [] && bs[0] != 0 {
      CStringOf(bs[1..]);
      assert bs == [bs[0]] + bs[1..];
    }
  }

  lemma QuoteRead(s: seq<cbyte>) returns (q: Quote)
    requires Quoted(s).Ok?
    ensures ValidQuote(q) && q.value == Quoted(s).value && s == SpellQuote(q) + Quoted(s).rest
  {
    hide ScanQuote, Process, UpToNul, SpellChars, CharsBytes, ValidChars, CString;
    var n := ScanQuote(s[1..]).value;
    assert s[1..][..n] == s[1..1 + n];
    var chars := CharsRead(s[1..], n);
    CStringOf(CharsBytes(chars));
    q := Quote(chars, Quoted(s).value);
    assert s == [0x22] + (s[1..1 + n] + [0x22]) + s[n + 2..];
  }

  // ---------------------------------------------------------------- values

  /** A value is spelled by a tree, or is the zero that a lone minus sign is read as. */
  ghost predicate Spelled(s: seq<cbyte>, w: seq<cbyte>, t: Option<Tree>, v: Json, rest: seq<cbyte>) {
    Blank(w) &&
    match t
    case Some(x) => Valid(x) && ValueOf(x) == v && s == w + (Spell(x) + rest)
    case None => v == Uint(0) && s == w + rest && rest != [] && rest[0] == 0x2D
  }

  lemma NumberRead(s: seq<cbyte>) returns (t: Option<Tree>)
    requires ParseNumber(s).Ok? && (At(s, 0) == 0x2D || IsDigit(At(s, 0)))
    ensures Spelled(s, [], t, ParseNumber(s).value, ParseNumber(s).rest)
  {
    hide FloatLength, IsHexLiteral, IsInfinityOrNan, IsDecimal, IntegerLength, IntegerValue, ValidNumeral, NumeralValue;
    hide SpellNumeral, ParseNumber, NumeralAt;
    assert [] + s == s;
    if FloatLength(s) == 0 {
      LoneMinus(s);
      t := None;
    } else {
      NumeralRead(s);
      t := Some(Figured(NumeralAt(s)));
      assert [] + (Spell(t.value) + ParseNumber(s).rest) == s;
    }
  }

  lemma ScalarRead(s: seq<cbyte>, nesting: nat) returns (t: Option<Tree>)
    requires s != [] && !IsSpace(s[0]) && s[0] != 0x7B && s[0] != 0x5B && ParseValue(s, nesting).Ok?
    ensures Spelled(s, [], t, ParseValue(s, nesting).value, ParseValue(s, nesting).rest)
  {
    hide Quoted, ParseNumber, SpellQuote, ValidQuote, ParseArray, ParseObject;
    assert SkipSpace(s) == s && [] + s == s;
    if s[0] == 0x22 {
      var q := QuoteRead(s);
      t := Some(Quoting(q));
    } else if s[0] == 0x66 || s[0] == 0x74 {
      t := Some(if TRUE_TOKEN <= s then WordTrue else WordFalse);
    } else if s[0] == 0x6E {
      t := Some(WordNull);
    } else {
      t := NumberRead(s);
    }
    assert t.Some? ==>
        [] + (Spell(t.value) + ParseValue(s, nesting).rest) == Spell(t.value) + ParseValue(s, nesting).rest;
  }

  lemma {:induction false} ValueRead(s: seq<cbyte>, nesting: nat) returns (w: seq<cbyte>, t: Option<Tree>)
    requires ParseValue(s, nesting).Ok?
    ensures Spelled(s, w, t, ParseValue(s, nesting).value, ParseValue(s, nesting).rest)
    decreases |s|, 2
  {
    hide ParseArray, ParseObject, Valid, Spell, ValueOf, Blank;
    w := BlankSkipped(s);
    var u, r := SkipSpace(s), ParseValue(s, nesting);
    ParsesPastBlank(w, u, nesting);
    Started(s, nesting);
    if u[0] == 0x5B {
      EntersArray(u, nesting);
      var x := ArrayRead(u, nesting + 1);
      t := Some(x);
    } else if u[0] == 0x7B {
      EntersObject(u, nesting);
      var x := ObjectRead(u, nesting + 1);
      t := Some(x);
    } else {
      hide ParseValue;
      t := ScalarRead(u, nesting);
      if t.Some? {
        assert [] + (Spell(t.value) + r.rest) == Spell(t.value) + r.rest;
      } else {
        assert [] + r.rest == r.rest;
      }
    }
  }

  lemma Started(s: seq<cbyte>, nesting: nat)
    requires ParseValue(s, nesting).Ok?
    ensures SkipSpace(s) != [] && nesting <= MAX_NESTING
  {
    hide ParseArray, ParseObject, ParseNumber, ParseString, ParseBoolean;
  }

  lemma {:induction false} ArrayRead(u: seq<cbyte>, nesting: nat) returns (t: Tree)
    requires u != [] && u[0] == 0x5B && ParseArray(u, nesting).Ok?
    ensures Valid(t) && ValueOf(t) == ParseArray(u, nesting).value && u == Spell(t) + ParseArray(u, nesting).rest
    decreases |u|, 1
  {
    hide ParseItems, SkipSpace, Blank, SpellItems, ItemValues;
    var w := BlankSkipped(u[1..]);
    var x, r := SkipSpace(u[1..]), ParseArray(u, nesting);
    assert u == [0x5B] + (w + x);
    if At(x, 0) == 0x5D {
      t := Bracketed(w, []);
      NoItems();
      assert x == [0x5D] + r.rest;
      Assoc([0x5B], w + [0x5D], r.rest);
      Assoc(w, [0x5D], r.rest);
    } else {
      var items := ItemsRead(x, w, nesting, []);
      t := Bracketed([], items);
      NoBlank();
      assert [] + ItemValues(items) == ItemValues(items);
      Assoc([0x5B], SpellItems(items) + [0x5D], r.rest);
      Assoc(SpellItems(items), [0x5D], r.rest);
    }
  }

  lemma NoBlank()
    ensures Blank([])
  {
  }

  lemma NoItems()
    ensures ItemValues([]) == [] && EntryValues([]) == []
  {
  }

  /** The items read from here on, the first of them after the white space `w`. */
  lemma {:induction false} ItemsRead(u: seq<cbyte>, w: seq<cbyte>, nesting: nat, acc: seq<Json>)
    returns (items: seq<Item>)
    requires Blank(w) && ParseItems(u, nesting, acc).Ok?
    ensures var r := ParseItems(u, nesting, acc);
            && items != [] && (forall i :: 0 <= i < |items| ==> ValidItem(items[i]))
            && r.value == Arr(acc + ItemValues(items)) && w + u == SpellItems(items) + ([0x5D] + r.rest)
    decreases |u|, 3
  {
    hide ParseValue, SkipSpace, Valid, Spell, ValueOf, Blank;
    var b, t := ValueRead(u, nesting);
    var v, rest := ParseValue(u, nesting).value, ParseValue(u, nesting).rest;
    var a := BlankSkipped(rest);
    var x := SkipSpace(rest);
    assert t.Some? by {
      if t == None { MinusStays(rest); }
    }
    BlankJoin(w, b);
    if At(x, 0) == 0x2C {
      var c := BlankSkipped(x[1..]);
      var more := ItemsRead(SkipSpace(x[1..]), c, nesting, acc + [v]);
      assert x == [0x2C] + x[1..];
      items := [Item(w + b, t.value, a)] + more;
      assert items[1..] == more;
      var r := ParseItems(u, nesting, acc);
      Assoc(acc, [v], ItemValues(more));
      ItemRegroup(w, b, Spell(t.value), a, [0x2C] + SpellItems(more), [0x5D] + r.rest);
      Assoc([0x2C], SpellItems(more), [0x5D] + r.rest);
    } else {
      var r := ParseItems(u, nesting, acc);
      assert x == [0x5D] + r.rest;
      items := [Item(w + b, t.value, a)];
      NoItems();
      assert items[1..] == [];
      ItemRegroup(w, b, Spell(t.value), a, [], x);
      assert [] + x == x;
    }
  }

  lemma MinusStays(rest: seq<cbyte>)
    requires rest != [] && rest[0] == 0x2D
    ensures SkipSpace(rest) == rest
  {
  }

  lemma BlankJoin(a: seq<cbyte>, b: seq<cbyte>)
    requires Blank(a) && Blank(b)
    ensures Blank(a + b)
  {
  }

  lemma ItemRegroup(w: seq<cbyte>, b: seq<cbyte>, t: seq<cbyte>, a: seq<cbyte>, more: seq<cbyte>, u: seq<cbyte>)
    ensures w + (b + (t + (a + (more + u)))) == w + b + (t + (a + more)) + u
  {
    Assoc(w, b, t + (a + (more + u)));
    Assoc(w + b, t + (a + more), u);
    Assoc(t, a + more, u);
    Assoc(a, more, u);
  }

  lemma {:induction false} ObjectRead(u: seq<cbyte>, nesting: nat) returns (t: Tree)
    requires u != [] && u[0] == 0x7B && ParseObject(u, nesting).Ok?
    ensures Valid(t) && ValueOf(t) == ParseObject(u, nesting).value && u == Spell(t) + ParseObject(u, nesting).rest
    decreases |u|, 1
  {
    hide ParseMembers, SkipSpace, Blank, SpellEntries, EntryValues;
    var w := BlankSkipped(u[1..]);
    var x, r := SkipSpace(u[1..]), ParseObject(u, nesting);
    assert u == [0x7B] + (w + x);
    if At(x, 0) == 0x7D {
      t := Braced(w, []);
      NoItems();
      assert x == [0x7D] + r.rest;
      Assoc([0x7B], w + [0x7D], r.rest);
      Assoc(w, [0x7D], r.rest);
    } else {
      var ms := EntriesRead(x, w, nesting, []);
      t := Braced([], ms);
      NoBlank();
      assert [] + EntryValues(ms) == EntryValues(ms);
      Assoc([0x7B], SpellEntries(ms) + [0x7D], r.rest);
      Assoc(SpellEntries(ms), [0x7D], r.rest);
    }
  }

  /** One name, its colon and its value, from the start of a member. */
  lemma {:induction false} EntryRead(u: seq<cbyte>, w: seq<cbyte>, nesting: nat) returns (m: Entry)
    requires Blank(w) && Turn(u, nesting).Ok? && At(SkipSpace(Turn(u, nesting).rest), 0) != 0x2D
    ensures var turn := Turn(u, nesting);
            && ValidEntry(m) && m.after == [] && turn.value == Member(m.name.value, ValueOf(m.tree))
            && w + u == m.before + (SpellQuote(m.name)
                 + (m.beforeColon + ([0x3A] + (m.afterColon + (Spell(m.tree) + turn.rest)))))
    decreases |u|, 3
  {
    hide ParseValue, SkipSpace, Valid, Spell, ValueOf, Blank, Quoted, SpellQuote, ValidQuote;
    var q := QuoteRead(u);
    var afterName := Quoted(u).rest;
    var b := BlankSkipped(afterName);
    var c := SkipSpace(afterName);
    var a, t := ValueRead(c[1..], nesting);
    assert t.Some? by {
      if t == None { MinusStays(ParseValue(c[1..], nesting).rest); }
    }
    assert c == [0x3A] + c[1..];
    NoBlank();
    m := Entry(w, q, b, a, t.value, []);
  }

  lemma {:induction false} EntriesRead(u: seq<cbyte>, w: seq<cbyte>, nesting: nat, acc: seq<Member>)
    returns (ms: seq<Entry>)
    requires Blank(w) && ParseMembers(u, nesting, acc).Ok?
    ensures var r := ParseMembers(u, nesting, acc);
            && ms != [] && (forall i :: 0 <= i < |ms| ==> ValidEntry(ms[i]))
            && r.value == Obj(acc + EntryValues(ms)) && w + u == SpellEntries(ms) + ([0x7D] + r.rest)
    decreases |u|, 4
  {
    hide ParseValue, SkipSpace, Valid, Spell, ValueOf, Blank, ParseMembers, Turn, HasName, SpellQuote, ValidQuote;
    if u == [] { MembersEnd(nesting, acc); }
    MembersTurn(u, nesting, acc);
    var turn, r := Turn(u, nesting), ParseMembers(u, nesting, acc);
    var a := BlankSkipped(turn.rest);
    var x := SkipSpace(turn.rest);
    var m := EntryRead(u, w, nesting);
    var first := m.(after := a);
    TurnShortens(u, nesting);
    var q, t := SpellQuote(m.name), Spell(m.tree);
    if At(x, 0) == 0x2C {
      var c := BlankSkipped(x[1..]);
      var more := EntriesRead(SkipSpace(x[1..]), c, nesting, acc + [turn.value]);
      assert x == [0x2C] + x[1..];
      ms := [first] + more;
      assert ms[1..] == more;
      Assoc(acc, [turn.value], EntryValues(more));
      EntryRegroup(m.before, q, m.beforeColon, m.afterColon, t, a, [0x2C] + SpellEntries(more), [0x7D] + r.rest);
      Assoc([0x2C], SpellEntries(more), [0x7D] + r.rest);
    } else {
      assert x == [0x7D] + r.rest;
      ms := [first];
      NoItems();
      assert ms[1..] == [];
      EntryRegroup(m.before, q, m.beforeColon, m.afterColon, t, a, [], x);
      assert [] + x == x;
    }
  }

  lemma TurnShortens(u: seq<cbyte>, nesting: nat)
    ensures Turn(u, nesting).Ok? ==> |Turn(u, nesting).rest| <= |u|
  {
    hide ParseValue, Quoted, SkipSpace;
  }

  // ---------------------------------------------------------------- whole texts

  /** Whatever the parser accepts denotes the value it returns: the text starts with a tree of that
      value, or with a minus sign that is read as zero. */
  lemma ParsedIsDenoted(s: seq<cbyte>)
    requires ParseText(s).Some?
    ensures Denotes(s, ParseText(s).value)
            || (ParseText(s).value == Uint(0) && exists marked, w, rest ::
                  Blank(w) && s == Mark(marked) + (w + ([0x2D] + rest)))
  {
    hide ParseValue, Blank, Spell, Valid, ValueOf;
    var marked := At(s, 0) == 0xEF && At(s, 1) == 0xBB && At(s, 2) == 0xBF;
    var body := if marked then s[3..] else s;
    assert s == Mark(marked) + body;
    var w, t := ValueRead(body, 0);
    var rest := ParseValue(body, 0).rest;
    if t.Some? {
      assert Reads(s, marked, w, t.value, rest);
    } else {
      assert rest == [0x2D] + rest[1..];
      assert Blank(w) && s == Mark(marked) + (w + ([0x2D] + rest[1..]));
    }
  }
}
