/** The parser of parson.c as it runs: a cursor moved through the text by loops. Positions are
    passed in and out, as the source passes `const char **string`. */
module JsonParser {
  import opened Collections
  import opened Bytes
  import opened JsonValues
  import opened JsonStrings
  import opened JsonGrammar

  /** A result and final cursor agree with what the grammar says of the remaining input. */
  predicate Agrees<T(==)>(r: Option<T>, text: seq<cbyte>, start: nat, pos: nat, p: Parse<T>) {
    match p
    case Fail => r == None
    case Ok(v, rest) => r == Some(v) && start <= pos <= |text| && text[pos..] == rest
  }

  lemma Tail<T>(text: seq<T>, p: nat, n: nat)
    requires p + n <= |text|
    ensures text[p..][n..] == text[p + n..]
  {
  }

  method SkipWhitespace(text: seq<cbyte>, start: nat) returns (pos: nat)
    requires start <= |text|
    ensures start <= pos <= |text| && text[pos..] == SkipSpace(text[start..])
  {
    pos := start;
    while pos < |text| && IsSpace(text[pos])
      invariant start <= pos <= |text|
      invariant SkipSpace(text[pos..]) == SkipSpace(text[start..])
    {
      Tail(text, pos, 1);
      pos := pos + 1;
    }
  }

  lemma ScanStep(text: seq<cbyte>, p: nat, n: nat)
    requires p + n <= |text| && p < |text| && text[p] != QUOTE && n == (if text[p] == BACKSLASH then 2 else 1)
    ensures ScanQuote(text[p..]) == Shift(n, ScanQuote(text[p + n..]))
  {
    Tail(text, p, n);
  }

  lemma ScanStops(text: seq<cbyte>, p: nat)
    requires p <= |text|
    ensures p == |text| ==> ScanQuote(text[p..]) == None
    ensures p < |text| && text[p] == QUOTE ==> ScanQuote(text[p..]) == Some(0)
    ensures p + 1 == |text| && text[p] == BACKSLASH ==> ScanQuote(text[p..]) == None
  {
  }

  method SkipQuotes(text: seq<cbyte>, start: nat) returns (ok: bool, pos: nat)
    requires start <= |text|
    ensures ok <==> start < |text| && text[start] == QUOTE && ScanQuote(text[start + 1..]).Some?
    ensures ok ==> pos == start + 2 + ScanQuote(text[start + 1..]).value <= |text| && text[pos - 1] == QUOTE
  {
    hide ScanQuote;
    pos := start;
    if pos == |text| || text[pos] != QUOTE {
      return false, pos;
    }
    pos := pos + 1;
    while pos < |text| && text[pos] != QUOTE
      invariant start + 1 <= pos <= |text|
      invariant ScanQuote(text[start + 1..]) == Shift(pos - start - 1, ScanQuote(text[pos..]))
    {
      ScanStops(text, pos);
      ghost var before := pos;
      if text[pos] == BACKSLASH {
        pos := pos + 1;
        if pos == |text| {
          return false, pos;
        }
      }
      pos := pos + 1;
      ScanStep(text, before, pos - before);
    }
    ScanStops(text, pos);
    if pos == |text| {
      return false, pos;
    }
    pos := pos + 1;
    ok := true;
  }

  /** Decoding reads the text where it lies; it never looks past the closing quote. */
  lemma HexAtText(text: seq<cbyte>, from: nat, len: nat, p: nat)
    requires from + len < |text| && text[from + len] == QUOTE && p <= len
    ensures Hex4(text, from + p) == Hex4(text[from..from + len], p)
  {
    var content := text[from..from + len];
    assert forall i :: 0 <= i < len ==> At(content, i) == text[from + i];
    if p + 4 > len {
      assert HexValue(text[from + len]) == -1 && HexValue(At(content, len)) == -1;
      assert At(text, from + p + (len - p)) == QUOTE;
    }
  }

  /** parse_utf16_hex: -1 for a failure. */
  method ParseUtf16Hex(text: seq<cbyte>, i: nat) returns (r: int)
    ensures r == Hex4(text, i)
  {
    hide HexValue, JoinHex;
    if At(text, i) == 0 || At(text, i + 1) == 0 || At(text, i + 2) == 0 || At(text, i + 3) == 0 {
      NulIsNotHex();
      return -1;
    }
    var x1, x2, x3, x4 :=
      HexValue(At(text, i)), HexValue(At(text, i + 1)), HexValue(At(text, i + 2)), HexValue(At(text, i + 3));
    if x1 == -1 || x2 == -1 || x3 == -1 || x4 == -1 {
      return -1;
    }
    HexBits(x1, x2, x3, x4);
    r := JoinHex(x1, x2, x3, x4);
  }

  lemma NulIsNotHex()
    ensures HexValue(0) == -1
  {
  }

  /** parse_utf16, from the `u` of an escape, with the octets it stores. */
  method DecodeAt(text: seq<cbyte>, from: nat, len: nat, p: nat) returns (r: Option<Decoded>)
    requires from + len < |text| && text[from + len] == QUOTE && p < len && text[from + p] == 0x75
    ensures r == DecodeUtf16(text[from + p..from + len])
  {
    hide Hex4, Store, StoreBits, Supplementary, JoinSurrogates;
    HexAtText(text, from + p, len - p, 1);
    var cp := ParseUtf16Hex(text, from + p + 1);
    if cp == -1 {
      return None;
    }
    if cp < 0xD800 || cp > 0xDFFF {
      StoredBits(cp);
      return Some(Decoded(StoreBits(cp), 5));
    }
    if cp > 0xDBFF {
      return None;
    }
    if At(text, from + p + 5) != BACKSLASH || At(text, from + p + 6) != 0x75 {
      return None;
    }
    HexAtText(text, from + p, len - p, 7);
    var trail := ParseUtf16Hex(text, from + p + 7);
    if trail < 0xDC00 || trail > 0xDFFF {
      return None;
    }
    SurrogateBits(cp, trail);
    cp := JoinSurrogates(cp, trail);
    StoredBits(cp);
    r := Some(Decoded(StoreBits(cp), 11));
  }

  lemma PrependTwice(a: seq<byte>, b: seq<byte>, r: Option<seq<byte>>)
    ensures Prepend(a, Prepend(b, r)) == Prepend(a + b, r)
  {
    if r.Some? { Assoc(a, b, r.value); }
  }

  method WriteBytes(buf: array<byte>, o: nat, bs: seq<byte>)
    requires o + |bs| <= buf.Length
    modifies buf
    ensures buf[..o + |bs|] == old(buf[..o]) + bs
  {
    var k := 0;
    while k < |bs|
      invariant 0 <= k <= |bs|
      invariant buf[..o + k] == old(buf[..o]) + bs[..k]
    {
      buf[o + k] := bs[k];
      k := k + 1;
    }
  }

  /** What one source character, escape or surrogate pair contributes: the bytes stored and the
      bytes consumed. */
  function Unit(s: seq<cbyte>): (r: Option<Decoded>)
    requires s != []
    ensures r.Some? ==> |r.value.octets| <= r.value.used <= |s| && 0 < r.value.used
    ensures Process(s) == if r.None? then None else Prepend(r.value.octets, Process(s[r.value.used..]))
  {
    if s[0] == BACKSLASH then
      if SimpleEscape(At(s, 1)) != -1 then Some(Decoded([SimpleEscape(At(s, 1))], 2))
      else if At(s, 1) == 0x75 then
        var d := DecodeUtf16(s[1..]);
        if d.None? then None else Some(Decoded(d.value.octets, 1 + d.value.used))
      else None
    else if s[0] < 0x20 then None
    else Some(Decoded([s[0]], 1))
  }

  /** The switch in process_string's loop, reading the text in place. */
  method DecodeUnit(text: seq<cbyte>, from: nat, len: nat, p: nat) returns (r: Option<Decoded>)
    requires from + len < |text| && text[from + len] == QUOTE && p < len
    requires text[from + p] == BACKSLASH ==> p + 1 < len
    ensures r == Unit(text[from + p..from + len])
  {
    hide Process, DecodeUtf16, Prepend;
    ghost var s := text[from + p..from + len];
    var c := text[from + p];
    if c == BACKSLASH {
      var e := text[from + p + 1];
      assert At(s, 1) == e;
      if SimpleEscape(e) != -1 {
        return Some(Decoded([SimpleEscape(e)], 2));
      } else if e == 0x75 {
        var d := DecodeAt(text, from, len, p + 1);
        assert s[1..] == text[from + (p + 1)..from + len];
        if d == None {
          return None;
        }
        return Some(Decoded(d.value.octets, 1 + d.value.used));
      } else {
        return None;
      }
    } else if c < 0x20 {
      return None;
    }
    r := Some(Decoded([c], 1));
  }

  lemma HexArePlain(t: seq<cbyte>, i: nat)
    requires Hex4(t, i) != -1
    ensures i + 4 <= |t| && QUOTE !in t[i..i + 4] && BACKSLASH !in t[i..i + 4]
  {
    var h := t[i..i + 4];
    assert forall k :: 0 <= k < 4 ==> h[k] == t[i + k] && At(t, i + k) == t[i + k];
  }

  /** Skipping one backslash, the `u` and four hex digits moves the scan six bytes on. */
  lemma ScanUnicode(t: seq<cbyte>, i: nat)
    requires i + 6 <= |t| && t[i] == BACKSLASH && Hex4(t, i + 2) != -1
    ensures ScanQuote(t[i..]) == Shift(6, ScanQuote(t[i + 6..]))
  {
    ScanStep(t, i, 2);
    HexArePlain(t, i + 2);
    assert t[i + 2..] == t[i + 2..i + 6] + t[i + 6..];
    ScanPlain(t[i + 2..i + 6], t[i + 6..]);
  }

  lemma HexInPrefix(t: seq<cbyte>, n: nat, i: nat)
    requires n <= |t| && Hex4(t[..n], i) != -1
    ensures i + 4 <= n && Hex4(t, i) == Hex4(t[..n], i)
  {
    assert forall k :: 0 <= k < n ==> At(t[..n], k) == t[k];
  }

  lemma HexShifted(s: seq<cbyte>, i: nat)
    requires s != []
    ensures Hex4(s[1..], i) == Hex4(s, i + 1)
  {
    assert forall k :: 0 <= k < |s| - 1 ==> s[1..][k] == s[k + 1];
  }

  /** What a unit longer than two bytes is: one `\\u` escape or two of them. */
  lemma LongUnit(s: seq<cbyte>)
    requires s != [] && Unit(s).Some? && Unit(s).value.used > 2
    ensures var used := Unit(s).value.used;
            && (used == 6 || used == 12)
            && s[0] == BACKSLASH && Hex4(s, 2) != -1
            && (used == 12 ==> s[6] == BACKSLASH && Hex4(s, 8) != -1)
  {
    hide Process, Hex4;
    HexShifted(s, 1);
    HexShifted(s, 7);
  }

  lemma ShortUnit(s: seq<cbyte>)
    requires s != [] && Unit(s).Some? && Unit(s).value.used <= 2
    ensures Unit(s).value.used == if s[0] == BACKSLASH then 2 else 1
  {
    hide Process;
  }

  /** Decoding stays in step with the scan for the closing quote. */
  lemma UnitKeepsScan(t: seq<cbyte>, n: nat)
    requires 0 < n && ScanQuote(t) == Some(n) && Unit(t[..n]).Some?
    ensures var used := Unit(t[..n]).value.used; used <= n && ScanQuote(t[used..]) == Some(n - used)
  {
    hide Unit, ScanQuote, Process, Hex4;
    var s := t[..n];
    var used := Unit(s).value.used;
    ScanStops(t, 0);
    assert t[0..] == t && s[0] == t[0];
    if used > 2 {
      LongUnit(s);
      HexInPrefix(t, n, 2);
      ScanUnicode(t, 0);
      if used == 12 {
        HexInPrefix(t, n, 8);
        ScanUnicode(t, 6);
      }
    } else {
      ShortUnit(s);
      ScanStep(t, 0, used);
    }
  }

  /** process_string: decode `len` bytes into a buffer of that size. The closing quote found by
      skip_quotes bounds it. */
  method ProcessString(text: seq<cbyte>, from: nat, len: nat) returns (r: Option<seq<byte>>)
    requires from + len < |text| && ScanQuote(text[from..]) == Some(len)
    ensures r == Process(text[from..from + len])
  {
    hide Process, ScanQuote, Unit;
    ghost var content := text[from..from + len];
    var buf := new byte[len + 1](_ => 0);
    var p, o := 0, 0;
    PrependNothing(Process(content));
    while p < len
      invariant 0 <= o <= p <= len && fresh(buf)
      invariant text[from + len] == QUOTE
      invariant ScanQuote(text[from + p..]) == Some(len - p)
      invariant Process(content) == Prepend(buf[..o], Process(text[from + p..from + len]))
    {
      ghost var s := text[from + p..from + len];
      ghost var t := text[from + p..];
      assert t[..len - p] == s;
      NotLoneBackslash(t, len - p);
      var d := DecodeUnit(text, from, len, p);
      if d == None {
        return None;
      }
      UnitKeepsScan(t, len - p);
      PrependTwice(buf[..o], d.value.octets, Process(s[d.value.used..]));
      assert s[d.value.used..] == text[from + p + d.value.used..from + len];
      assert t[d.value.used..] == text[from + p + d.value.used..];
      WriteBytes(buf, o, d.value.octets);
      o := o + |d.value.octets|;
      p := p + d.value.used;
    }
    ProcessEmpty();
    assert text[from + p..from + len] == [] && buf[..o] + [] == buf[..o];
    r := Some(buf[..o]);
  }

  lemma NotLoneBackslash(t: seq<cbyte>, n: nat)
    requires 0 < n && ScanQuote(t) == Some(n)
    ensures t[0] == BACKSLASH ==> 1 < n
  {
  }

  lemma PrependNothing(r: Option<seq<byte>>)
    ensures Prepend([], r) == r
  {
    if r.Some? { assert [] + r.value == r.value; }
  }

  lemma ProcessEmpty()
    ensures Process([]) == Some([])
  {
  }

  method GetQuotedString(text: seq<cbyte>, start: nat) returns (r: Option<seq<cbyte>>, pos: nat)
    requires start <= |text|
    ensures Agrees(r, text, start, pos, Quoted(text[start..])) && (r.Some? ==> start < pos)
  {
    hide ScanQuote, Process, UpToNul;
    var ok;
    ok, pos := SkipQuotes(text, start);
    if start < |text| { Tail(text, start, 1); }
    if !ok {
      return None, pos;
    }
    var len := pos - start - 2;
    var out := ProcessString(text, start + 1, len);
    assert text[start..][1..1 + len] == text[start + 1..start + 1 + len];
    Tail(text, start, len + 2);
    r := if out == None then None else Some(UpToNul(out.value));
  }

  method ParseStringValue(text: seq<cbyte>, start: nat) returns (r: Option<Json>, pos: nat)
    requires start <= |text|
    ensures Agrees(r, text, start, pos, ParseString(text[start..]))
  {
    hide Quoted;
    var str;
    str, pos := GetQuotedString(text, start);
    r := if str == None then None else Some(Str(str.value));
  }

  method ParseBooleanValue(text: seq<cbyte>, start: nat) returns (r: Option<Json>, pos: nat)
    requires start <= |text|
    ensures Agrees(r, text, start, pos, ParseBoolean(text[start..]))
  {
    pos := start;
    r := None;
    if TRUE_TOKEN <= text[start..] {
      pos := start + 4;
      r := Some(Bool(true));
    } else if FALSE_TOKEN <= text[start..] {
      pos := start + 5;
      r := Some(Bool(false));
    }
  }

  method ParseNullValue(text: seq<cbyte>, start: nat) returns (r: Option<Json>, pos: nat)
    requires start <= |text|
    ensures Agrees(r, text, start, pos, ParseToken(text[start..], NULL_TOKEN, Null))
  {
    pos := start;
    r := None;
    if NULL_TOKEN <= text[start..] {
      pos := start + 4;
      r := Some(Null);
    }
  }

  /** strtod, is_decimal and strtoull are taken as the grammar's functions. */
  method ParseNumberValue(text: seq<cbyte>, start: nat) returns (r: Option<Json>, pos: nat)
    requires start <= |text|
    ensures Agrees(r, text, start, pos, ParseNumber(text[start..]))
  {
    hide IsHexLiteral, IsInfinityOrNan, IsDecimal, IntegerLength, IntegerValue, FloatLength;
    var s := text[start..];
    pos := start;
    if IsHexLiteral(s) || IsInfinityOrNan(s) {
      return None, pos;
    }
    var end := FloatLength(s);
    if !IsDecimal(s[..end]) {
      return None, pos;
    }
    pos := start + end;
    Tail(text, start, end);
    if IntegerLength(s) == end && IntegerValue(s).Some? {
      r := Some(Uint(IntegerValue(s).value));
    } else {
      r := Some(Num(s[..end]));
    }
  }

  method ParseValueAt(text: seq<cbyte>, start: nat, nesting: nat) returns (r: Option<Json>, pos: nat)
    requires start <= |text|
    ensures Agrees(r, text, start, pos, ParseValue(text[start..], nesting))
    decreases |text| - start, 1
  {
    hide ParseArray, ParseObject, ParseNumber, ParseString, ParseBoolean, ParseToken, SkipSpace;
    if nesting > MAX_NESTING {
      return None, start;
    }
    pos := SkipWhitespace(text, start);
    assert At(text[pos..], 0) == At(text, pos);
    var c := At(text, pos);
    if c == LBRACE {
      r, pos := ParseObjectValue(text, pos, nesting + 1);
    } else if c == LBRACKET {
      r, pos := ParseArrayValue(text, pos, nesting + 1);
    } else if c == QUOTE {
      r, pos := ParseStringValue(text, pos);
    } else if c == 0x66 || c == 0x74 {
      r, pos := ParseBooleanValue(text, pos);
    } else if c == 0x2D || IsDigit(c) {
      r, pos := ParseNumberValue(text, pos);
    } else if c == 0x6E {
      r, pos := ParseNullValue(text, pos);
    } else {
      r := None;
    }
  }

  method ParseArrayValue(text: seq<cbyte>, start: nat, nesting: nat) returns (r: Option<Json>, pos: nat)
    requires start < |text| && text[start] == LBRACKET
    ensures Agrees(r, text, start, pos, ParseArray(text[start..], nesting))
    decreases |text| - start, 0
  {
    hide ParseValue, SkipSpace;
    Tail(text, start, 1);
    pos := SkipWhitespace(text, start + 1);
    if pos < |text| && text[pos] == RBRACKET {
      Tail(text, pos, 1);
      return Some(Arr([])), pos + 1;
    }
    var items: seq<Json> := [];
    ghost var all := ParseItems(text[pos..], nesting, []);
    while pos < |text|
      invariant start < pos <= |text|
      invariant all == ParseItems(text[pos..], nesting, items)
      decreases |text| - pos
    {
      var item;
      item, pos := ParseValueAt(text, pos, nesting);
      if item == None {
        return None, pos;
      }
      pos := SkipWhitespace(text, pos);
      if pos == |text| || text[pos] != COMMA {
        if pos == |text| || text[pos] != RBRACKET {
          return None, pos;
        }
        Tail(text, pos, 1);
        return Some(Arr(items + [item.value])), pos + 1;
      }
      items := items + [item.value];
      Tail(text, pos, 1);
      pos := SkipWhitespace(text, pos + 1);
    }
    r := None;
  }

  /** One turn of the object loop up to its value: the name and the cursor after the colon. */
  method ParseKey(text: seq<cbyte>, start: nat) returns (r: Option<seq<cbyte>>, pos: nat)
    requires start <= |text|
    ensures r.Some? ==>
              && start < pos <= |text|
              && Quoted(text[start..]).Ok? && Quoted(text[start..]).value == r.value
              && SkipSpace(Quoted(text[start..]).rest) == [COLON] + text[pos..]
    ensures r.None? ==> Quoted(text[start..]).Fail? || At(SkipSpace(Quoted(text[start..]).rest), 0) != COLON
  {
    hide Quoted, SkipSpace;
    r, pos := GetQuotedString(text, start);
    if r == None {
      return;
    }
    pos := SkipWhitespace(text, pos);
    if pos == |text| || text[pos] != COLON {
      return None, pos;
    }
    assert text[pos..] == [COLON] + text[pos + 1..];
    pos := pos + 1;
  }

  /** One name and its value. */
  function Turn(u: seq<cbyte>, nesting: nat): Parse<Member> {
    match Quoted(u)
    case Fail => Fail
    case Ok(name, afterName) =>
      var c := SkipSpace(afterName);
      if At(c, 0) != COLON then Fail
      else
        match ParseValue(c[1..], nesting)
        case Fail => Fail
        case Ok(v, rest) => Ok(Member(name, v), rest)
  }

  /** The rest of the member loop, after one name and value. */
  function AfterTurn(turn: Parse<Member>, nesting: nat, acc: seq<Member>): Parse<Json> {
    if turn.Fail? || HasName(acc, turn.value.name) then Fail
    else
      var w := SkipSpace(turn.rest);
      if At(w, 0) == COMMA then ParseMembers(SkipSpace(w[1..]), nesting, acc + [turn.value])
      else if At(w, 0) == RBRACE then Ok(Obj(acc + [turn.value]), w[1..])
      else Fail
  }

  /** The member loop, a turn at a time. */
  lemma MembersTurn(u: seq<cbyte>, nesting: nat, acc: seq<Member>)
    requires u != []
    ensures ParseMembers(u, nesting, acc) == AfterTurn(Turn(u, nesting), nesting, acc)
  {
    hide ParseValue, Quoted, SkipSpace, HasName;
  }

  method ParseMember(text: seq<cbyte>, start: nat, nesting: nat) returns (r: Option<Member>, pos: nat)
    requires start <= |text|
    ensures Agrees(r, text, start, pos, Turn(text[start..], nesting))
    ensures r.Some? ==> start < pos
    decreases |text| - start, 3
  {
    hide ParseValue, Quoted, SkipSpace;
    var name, value;
    name, pos := ParseKey(text, start);
    if name == None {
      return None, pos;
    }
    AfterFirst(COLON, text[pos..]);
    value, pos := ParseValueAt(text, pos, nesting);
    r := if value == None then None else Some(Member(name.value, value.value));
  }

  method ParseObjectValue(text: seq<cbyte>, start: nat, nesting: nat) returns (r: Option<Json>, pos: nat)
    requires start < |text| && text[start] == LBRACE
    ensures Agrees(r, text, start, pos, ParseObject(text[start..], nesting))
    decreases |text| - start, 0
  {
    hide ParseMembers, Turn, SkipSpace, HasName;
    Tail(text, start, 1);
    pos := SkipWhitespace(text, start + 1);
    if pos < |text| && text[pos] == RBRACE {
      Tail(text, pos, 1);
      return Some(Obj([])), pos + 1;
    }
    var ms: seq<Member> := [];
    ghost var all := ParseMembers(text[pos..], nesting, []);
    while pos < |text|
      invariant start < pos <= |text|
      invariant all == ParseMembers(text[pos..], nesting, ms)
      decreases |text| - pos
    {
      var m: Option<Member>;
      MembersTurn(text[pos..], nesting, ms);
      m, pos := ParseMember(text, pos, nesting);
      if m == None || HasName(ms, m.value.name) {
        return None, pos;
      }
      pos := SkipWhitespace(text, pos);
      if pos == |text| || text[pos] != COMMA {
        if pos == |text| || text[pos] != RBRACE {
          return None, pos;
        }
        Tail(text, pos, 1);
        return Some(Obj(ms + [m.value])), pos + 1;
      }
      ms := ms + [m.value];
      Tail(text, pos, 1);
      pos := SkipWhitespace(text, pos + 1);
    }
    MembersEnd(nesting, ms);
    r := None;
  }

  lemma MembersEnd(nesting: nat, acc: seq<Member>)
    ensures ParseMembers([], nesting, acc) == Fail
  {
  }

  /** json_parse_string. */
  method ParseJson(text: seq<cbyte>) returns (r: Option<Json>)
    ensures r == ParseText(text)
  {
    hide ParseValue;
    var start := if At(text, 0) == 0xEF && At(text, 1) == 0xBB && At(text, 2) == 0xBF then 3 else 0;
    assert text[0..] == text;
    var pos;
    r, pos := ParseValueAt(text, start, 0);
  }
}
