/** The two-pass serializer of parson.c: the same code sizes (null buffer) and writes. */
module JsonSerializer {
  import opened Collections
  import opened Bytes
  import opened JsonValues

  /** `s` now stands at `at`; only the byte after it, where a terminator may land, is unspecified. */
  ghost predicate Put(b0: seq<byte>, b1: seq<byte>, at: nat, s: seq<byte>) {
    && |b1| == |b0|
    && at + |s| < |b0|
    && b1[..at] == b0[..at]
    && b1[at..at + |s|] == s
    && b1[at + |s| + 1..] == b0[at + |s| + 1..]
  }

  lemma PutNothing(b: seq<byte>, at: nat)
    requires at < |b|
    ensures Put(b, b, at, [])
  {
  }

  lemma PutTwice(b0: seq<byte>, b1: seq<byte>, b2: seq<byte>, at: nat, s: seq<byte>, t: seq<byte>)
    requires Put(b0, b1, at, s) && Put(b1, b2, at + |s|, t)
    ensures Put(b0, b2, at, s + t)
  {
    var m, n := at + |s|, at + |s| + |t|;
    assert b2[..at] == b2[..m][..at] == b1[..m][..at] == b1[..at];
    assert b2[at..m] == b2[..m][at..] == b1[..m][at..] == b1[at..m];
    assert b2[at..n] == b2[at..m] + b2[m..n];
    assert b1[n + 1..] == b1[m + 1..][|t|..] == b0[m + 1..][|t|..] == b0[n + 1..];
  }

  ghost function Snapshot(buf: array?<byte>): seq<byte>
    reads buf
  {
    if buf == null then [] else buf[..]
  }

  /** With a buffer, `s` was written at `at`; without one, nothing. */
  ghost predicate Wrote(buf: array?<byte>, b0: seq<byte>, at: nat, s: seq<byte>)
    reads buf
  {
    buf != null ==> Put(b0, buf[..], at, s)
  }

  predicate Room(buf: array?<byte>, at: nat, n: nat) {
    buf != null ==> at + n < buf.Length
  }

  /** append_string: `sprintf` writes the bytes and a terminator; a null buffer only counts. */
  method AppendString(buf: array?<byte>, at: nat, s: seq<cbyte>) returns (written: nat)
    requires Room(buf, at, |s|)
    modifies buf
    ensures written == |s| && Wrote(buf, old(Snapshot(buf)), at, s)
    ensures buf != null ==> buf[at + |s|] == 0
  {
    if buf != null {
      var k := 0;
      while k < |s|
        invariant 0 <= k <= |s|
        invariant buf[..at] == old(buf[..at]) && buf[at..at + k] == s[..k]
        invariant buf[at + k..] == old(buf[at + k..])
      {
        buf[at + k] := s[k];
        k := k + 1;
      }
      buf[at + k] := 0;
    }
    written := |s|;
  }

  /** The APPEND_STRING macro: append at the cursor and advance the running total. */
  method Append(buf: array?<byte>, at: nat, total: nat, s: seq<cbyte>, ghost b0: seq<byte>, ghost done: seq<cbyte>)
    returns (total': nat)
    requires total == |done| && Wrote(buf, b0, at, done) && Room(buf, at, total + |s|)
    modifies buf
    ensures total' == |done + s| && Wrote(buf, b0, at, done + s)
    ensures buf != null ==> buf[at + total'] == 0
  {
    ghost var mid := Snapshot(buf);
    var written := AppendString(buf, at + total, s);
    if buf != null { PutTwice(b0, mid, buf[..], at, done, s); }
    total' := total + written;
  }

  lemma NothingWritten(buf: array?<byte>, at: nat)
    requires Room(buf, at, 0)
    ensures Wrote(buf, Snapshot(buf), at, [])
  {
    if buf != null { PutNothing(buf[..], at); }
  }

  /** The default case of json_serialize_string: one byte, no terminator. */
  method AppendByte(buf: array?<byte>, at: nat, total: nat, c: cbyte, ghost b0: seq<byte>, ghost done: seq<cbyte>)
    returns (total': nat)
    requires total == |done| && Wrote(buf, b0, at, done) && Room(buf, at, total + 1)
    modifies buf
    ensures total' == |done + [c]| && Wrote(buf, b0, at, done + [c])
  {
    if buf != null {
      ghost var mid := buf[..];
      buf[at + total] := c;
      assert Put(mid, buf[..], at + total, [c]);
      PutTwice(b0, mid, buf[..], at, done, [c]);
    }
    total' := total + 1;
  }

  lemma EscapeStep(s: seq<cbyte>, i: nat)
    requires i < |s|
    ensures EscapeAll(s[i..]) == Escape(s[i]) + EscapeAll(s[i + 1..])
  {
    assert s[i..][1..] == s[i + 1..];
  }

  method SerializeString(s: seq<cbyte>, buf: array?<byte>, at: nat) returns (total: nat)
    requires Room(buf, at, |StringText(s)|)
    modifies buf
    ensures total == |StringText(s)| && Wrote(buf, old(Snapshot(buf)), at, StringText(s))
    ensures buf != null ==> buf[at + total] == 0
  {
    hide EscapeAll, Escape, Put;
    ghost var b0 := Snapshot(buf);
    ghost var full := StringText(s);
    NothingWritten(buf, at);
    total := Append(buf, at, 0, [QUOTE], b0, []);
    ghost var done: seq<cbyte> := [] + [QUOTE];
    var i := 0;
    assert s[0..] == s;
    assert full == done + (EscapeAll(s) + [QUOTE]) by { Assoc([QUOTE], EscapeAll(s), [QUOTE]); }
    while i < |s|
      invariant 0 <= i <= |s|
      invariant total == |done| && Wrote(buf, b0, at, done)
      invariant full == done + (EscapeAll(s[i..]) + [QUOTE])
    {
      ghost var rest := EscapeAll(s[i + 1..]) + [QUOTE];
      EscapeStep(s, i);
      ghost var e := Escape(s[i]);
      Assoc(e, EscapeAll(s[i + 1..]), [QUOTE]);
      Assoc(done, e, rest);
      assert |full| == |done| + |e| + |rest|;
      if s[i] >= 0x20 && s[i] != QUOTE && s[i] != BACKSLASH {
        EscapePlain(s[i]);
        total := AppendByte(buf, at, total, s[i], b0, done);
      } else {
        total := Append(buf, at, total, Escape(s[i]), b0, done);
      }
      done := done + e;
      i := i + 1;
    }
    EscapeNothing();
    assert s[i..] == [];
    total := Append(buf, at, total, [QUOTE], b0, done);
    assert [] + [QUOTE] == [QUOTE];
  }

  lemma EscapePlain(c: cbyte)
    requires c >= 0x20 && c != QUOTE && c != BACKSLASH
    ensures Escape(c) == [c]
  {
  }

  lemma EscapeNothing()
    ensures EscapeAll([]) == []
  {
  }

  lemma IndentStep(n: nat)
    ensures Indent(n + 1) == Indent(n) + [SPACE, SPACE, SPACE, SPACE]
  {
    if n > 0 {
      IndentStep(n - 1);
      Assoc([SPACE, SPACE, SPACE, SPACE], Indent(n - 1), [SPACE, SPACE, SPACE, SPACE]);
    }
  }

  lemma {:induction false} IndentLength(n: nat)
    ensures |Indent(n)| == 4 * n
  {
    if n > 0 { IndentLength(n - 1); }
  }

  /** append_indent at the cursor, when pretty. */
  method AppendPad(buf: array?<byte>, at: nat, total: nat, level: nat, pretty: bool,
                   ghost b0: seq<byte>, ghost done: seq<cbyte>)
    returns (total': nat)
    requires total == |done| && Wrote(buf, b0, at, done) && Room(buf, at, total + |Pad(level, pretty)|)
    modifies buf
    ensures total' == |done + Pad(level, pretty)| && Wrote(buf, b0, at, done + Pad(level, pretty))
  {
    hide Indent, Put;
    total' := total;
    IndentZero();
    assert done + [] == done;
    if pretty {
      IndentLength(level);
      var i := 0;
      while i < level
        invariant 0 <= i <= level
        invariant total' == |done + Indent(i)| && Wrote(buf, b0, at, done + Indent(i))
      {
        IndentLength(i); IndentStep(i);
        Assoc(done, Indent(i), [SPACE, SPACE, SPACE, SPACE]);
        total' := Append(buf, at, total', [SPACE, SPACE, SPACE, SPACE], b0, done + Indent(i));
        i := i + 1;
      }
    }
  }

  lemma IndentZero()
    ensures Indent(0) == []
  {
  }

  /** json_object_get_value: the first member with the name. */
  method ObjectGet(ms: seq<Member>, name: seq<cbyte>, ghost k: nat) returns (v: Json)
    requires DistinctNames(ms) && k < |ms| && ms[k].name == name
    ensures v == ms[k].value
  {
    var i := 0;
    while ms[i].name != name
      invariant 0 <= i <= k
      decreases k - i
    {
      i := i + 1;
    }
    v := ms[i].value;
  }

  function ItemPiece(items: seq<Json>, i: nat, level: nat, pretty: bool): seq<cbyte>
    requires i < |items|
  {
    Pad(level + 1, pretty) + Text(items[i], level + 1, pretty) + Separator(i + 1 < |items|, pretty)
  }

  lemma ItemsStep(items: seq<Json>, i: nat, level: nat, pretty: bool)
    requires i < |items|
    ensures ItemsText(items[i..], level, pretty)
            == ItemPiece(items, i, level, pretty) + ItemsText(items[i + 1..], level, pretty)
  {
    assert items[i..][1..] == items[i + 1..];
  }

  function MemberPiece(ms: seq<Member>, i: nat, level: nat, pretty: bool): seq<cbyte>
    requires i < |ms|
  {
    Pad(level + 1, pretty) + KeyText(ms[i].name, pretty) + Text(ms[i].value, level + 1, pretty)
    + Separator(i + 1 < |ms|, pretty)
  }

  lemma MembersStep(ms: seq<Member>, i: nat, level: nat, pretty: bool)
    requires i < |ms|
    ensures MembersText(ms[i..], level, pretty)
            == MemberPiece(ms, i, level, pretty) + MembersText(ms[i + 1..], level, pretty)
  {
    assert ms[i..][1..] == ms[i + 1..];
  }

  /** The comma and line break after an item or member. */
  method AppendSeparator(buf: array?<byte>, at: nat, total: nat, more: bool, pretty: bool,
                         ghost b0: seq<byte>, ghost done: seq<cbyte>)
    returns (total': nat)
    requires total == |done| && Wrote(buf, b0, at, done) && Room(buf, at, total + |Separator(more, pretty)|)
    modifies buf
    ensures total' == |done + Separator(more, pretty)| && Wrote(buf, b0, at, done + Separator(more, pretty))
  {
    hide Put;
    total' := total;
    ghost var d := done;
    assert d + [] == d;
    if more {
      total' := Append(buf, at, total', [COMMA], b0, d);
      d := d + [COMMA];
    }
    if pretty {
      total' := Append(buf, at, total', [NEWLINE], b0, d);
      d := d + [NEWLINE];
    }
    assert d == done + Separator(more, pretty);
  }

  function Opening(open: cbyte, empty: bool, pretty: bool): seq<cbyte> {
    [open] + (if empty then [] else Newline(pretty))
  }

  function Closing(close: cbyte, empty: bool, level: nat, pretty: bool): seq<cbyte> {
    (if empty then [] else Pad(level, pretty)) + [close]
  }

  /** The opening bracket and, before a first item, its line break. */
  method AppendOpening(buf: array?<byte>, at: nat, open: cbyte, empty: bool, pretty: bool, ghost b0: seq<byte>)
    returns (total: nat, ghost done: seq<cbyte>)
    requires b0 == Snapshot(buf) && Room(buf, at, |Opening(open, empty, pretty)|)
    modifies buf
    ensures done == Opening(open, empty, pretty)
    ensures total == |done| && Wrote(buf, b0, at, done)
  {
    hide Put;
    NothingWritten(buf, at);
    total := Append(buf, at, 0, [open], b0, []);
    done := [open];
    assert [] + [open] == done;
    if !empty && pretty {
      total := Append(buf, at, total, [NEWLINE], b0, done);
      done := done + [NEWLINE];
    }
  }

  /** The last indentation and the closing bracket. */
  method AppendClosing(buf: array?<byte>, at: nat, total: nat, level: nat, close: cbyte, empty: bool, pretty: bool,
                       ghost b0: seq<byte>, ghost done: seq<cbyte>)
    returns (total': nat)
    requires total == |done| && Wrote(buf, b0, at, done)
    requires Room(buf, at, total + |Closing(close, empty, level, pretty)|)
    modifies buf
    ensures var s := done + Closing(close, empty, level, pretty);
            total' == |s| && Wrote(buf, b0, at, s)
    ensures buf != null ==> buf[at + total'] == 0
  {
    hide Put, Pad;
    ghost var d := done;
    total' := total;
    if !empty {
      total' := AppendPad(buf, at, total', level, pretty, b0, d);
      d := d + Pad(level, pretty);
    }
    total' := Append(buf, at, total', [close], b0, d);
    assert d + [close] == done + Closing(close, empty, level, pretty);
  }

  method SerializeValue(v: Json, buf: array?<byte>, at: nat, level: nat, pretty: bool) returns (total: nat)
    requires Distinct(v) && Room(buf, at, |Text(v, level, pretty)|)
    modifies buf
    ensures total == |Text(v, level, pretty)| && Wrote(buf, old(Snapshot(buf)), at, Text(v, level, pretty))
    ensures buf != null ==> buf[at + total] == 0
    decreases v, 2
  {
    hide Put, StringText, Decimal, ItemsText, MembersText;
    match v
    case Null => total := AppendString(buf, at, NULL_TOKEN);
    case Bool(b) => total := AppendString(buf, at, if b then TRUE_TOKEN else FALSE_TOKEN);
    case Uint(n) => total := AppendString(buf, at, Decimal(n));
    case Num(lexeme) => total := AppendString(buf, at, lexeme);
    case Str(s) => total := SerializeString(s, buf, at);
    case Arr(items) => total := SerializeArray(v, buf, at, level, pretty);
    case Obj(ms) => total := SerializeObject(v, buf, at, level, pretty);
  }

  /** Serialize a value at the cursor and advance the running total. */
  method AppendValue(v: Json, buf: array?<byte>, at: nat, total: nat, level: nat, pretty: bool,
                     ghost b0: seq<byte>, ghost done: seq<cbyte>)
    returns (total': nat)
    requires Distinct(v) && total == |done| && Wrote(buf, b0, at, done)
    requires Room(buf, at, total + |Text(v, level, pretty)|)
    modifies buf
    ensures total' == |done + Text(v, level, pretty)| && Wrote(buf, b0, at, done + Text(v, level, pretty))
    decreases v, 3
  {
    hide Text, Distinct, Put;
    ghost var mid := Snapshot(buf);
    var written := SerializeValue(v, buf, at + total, level, pretty);
    if buf != null { PutTwice(b0, mid, buf[..], at, done, Text(v, level, pretty)); }
    total' := total + written;
  }

  /** One turn of the item loop. */
  method AppendItem(v: Json, i: nat, buf: array?<byte>, at: nat, total: nat, level: nat, pretty: bool,
                    ghost b0: seq<byte>, ghost done: seq<cbyte>)
    returns (total': nat)
    requires v.Arr? && i < |v.items| && Distinct(v) && total == |done| && Wrote(buf, b0, at, done)
    requires Room(buf, at, total + |ItemPiece(v.items, i, level, pretty)|)
    modifies buf
    ensures var s := done + ItemPiece(v.items, i, level, pretty); total' == |s| && Wrote(buf, b0, at, s)
    decreases v, 0
  {
    hide Put, Pad, Text, Separator;
    ghost var p, t := Pad(level + 1, pretty), Text(v.items[i], level + 1, pretty);
    ghost var sep := Separator(i + 1 < |v.items|, pretty);
    total' := AppendPad(buf, at, total, level + 1, pretty, b0, done);
    total' := AppendValue(v.items[i], buf, at, total', level + 1, pretty, b0, done + p);
    total' := AppendSeparator(buf, at, total', i + 1 < |v.items|, pretty, b0, done + p + t);
    Assoc(done, p, t);
    Assoc(done, p + t, sep);
  }

  method SerializeArray(v: Json, buf: array?<byte>, at: nat, level: nat, pretty: bool) returns (total: nat)
    requires v.Arr? && Distinct(v) && Room(buf, at, |Text(v, level, pretty)|)
    modifies buf
    ensures total == |Text(v, level, pretty)| && Wrote(buf, old(Snapshot(buf)), at, Text(v, level, pretty))
    ensures buf != null ==> buf[at + total] == 0
    decreases v, 1
  {
    hide Put, ItemsText, Pad, Text, ItemPiece, Distinct, Closing, Separator;
    var items := v.items;
    ghost var b0, full := Snapshot(buf), Text(v, level, pretty);
    ghost var close := Closing(RBRACKET, items == [], level, pretty);
    ArrayOpens(items, level, pretty);
    ghost var done;
    total, done := AppendOpening(buf, at, LBRACKET, items == [], pretty, b0);
    hide Opening;
    var i := 0;
    while i < |items|
      invariant 0 <= i <= |items|
      invariant total == |done| && Wrote(buf, b0, at, done)
      invariant full == done + (ItemsText(items[i..], level, pretty) + close)
    {
      ItemsStep(items, i, level, pretty);
      ghost var piece := ItemPiece(items, i, level, pretty);
      Assoc(piece, ItemsText(items[i + 1..], level, pretty), close);
      Assoc(done, piece, ItemsText(items[i + 1..], level, pretty) + close);
      total := AppendItem(v, i, buf, at, total, level, pretty, b0, done);
      done := done + piece;
      i := i + 1;
    }
    ItemsDone(level, pretty);
    assert items[i..] == [] && [] + close == close;
    total := AppendClosing(buf, at, total, level, RBRACKET, items == [], pretty, b0, done);
  }

  lemma ItemsDone(level: nat, pretty: bool)
    ensures ItemsText([], level, pretty) == [] && MembersText([], level, pretty) == []
  {
  }

  /** One turn of the member loop. */
  method AppendMember(v: Json, i: nat, buf: array?<byte>, at: nat, total: nat, level: nat, pretty: bool,
                      ghost b0: seq<byte>, ghost done: seq<cbyte>)
    returns (total': nat)
    requires v.Obj? && i < |v.members| && Distinct(v) && total == |done| && Wrote(buf, b0, at, done)
    requires Room(buf, at, total + |MemberPiece(v.members, i, level, pretty)|)
    modifies buf
    ensures var s := done + MemberPiece(v.members, i, level, pretty); total' == |s| && Wrote(buf, b0, at, s)
    decreases v, 0
  {
    hide Put, Pad, Text, Separator, KeyText;
    var m := v.members[i];
    ghost var p, k, t := Pad(level + 1, pretty), KeyText(m.name, pretty), Text(m.value, level + 1, pretty);
    ghost var sep := Separator(i + 1 < |v.members|, pretty);
    total' := AppendPad(buf, at, total, level + 1, pretty, b0, done);
    total' := AppendKey(buf, at, total', m.name, pretty, b0, done + p);
    var value := ObjectGet(v.members, m.name, i);
    total' := AppendValue(value, buf, at, total', level + 1, pretty, b0, done + p + k);
    total' := AppendSeparator(buf, at, total', i + 1 < |v.members|, pretty, b0, done + p + k + t);
    Assoc(done, p, k);
    Assoc(done, p + k, t);
    Assoc(done, p + k + t, sep);
  }

  method SerializeObject(v: Json, buf: array?<byte>, at: nat, level: nat, pretty: bool) returns (total: nat)
    requires v.Obj? && Distinct(v) && Room(buf, at, |Text(v, level, pretty)|)
    modifies buf
    ensures total == |Text(v, level, pretty)| && Wrote(buf, old(Snapshot(buf)), at, Text(v, level, pretty))
    ensures buf != null ==> buf[at + total] == 0
    decreases v, 1
  {
    hide Put, MembersText, Pad, Text, MemberPiece, Distinct, Closing, Separator;
    var ms := v.members;
    ghost var b0, full := Snapshot(buf), Text(v, level, pretty);
    ghost var close := Closing(RBRACE, ms == [], level, pretty);
    ObjectOpens(ms, level, pretty);
    ghost var done;
    total, done := AppendOpening(buf, at, LBRACE, ms == [], pretty, b0);
    hide Opening;
    var i := 0;
    while i < |ms|
      invariant 0 <= i <= |ms|
      invariant total == |done| && Wrote(buf, b0, at, done)
      invariant full == done + (MembersText(ms[i..], level, pretty) + close)
    {
      MembersStep(ms, i, level, pretty);
      ghost var piece := MemberPiece(ms, i, level, pretty);
      Assoc(piece, MembersText(ms[i + 1..], level, pretty), close);
      Assoc(done, piece, MembersText(ms[i + 1..], level, pretty) + close);
      total := AppendMember(v, i, buf, at, total, level, pretty, b0, done);
      done := done + piece;
      i := i + 1;
    }
    ItemsDone(level, pretty);
    assert ms[i..] == [] && [] + close == close;
    total := AppendClosing(buf, at, total, level, RBRACE, ms == [], pretty, b0, done);
  }

  /** The quoted name, its colon and, when pretty, a space. */
  method AppendKey(buf: array?<byte>, at: nat, total: nat, name: seq<cbyte>, pretty: bool,
                   ghost b0: seq<byte>, ghost done: seq<cbyte>)
    returns (total': nat)
    requires total == |done| && Wrote(buf, b0, at, done) && Room(buf, at, total + |KeyText(name, pretty)|)
    modifies buf
    ensures total' == |done + KeyText(name, pretty)| && Wrote(buf, b0, at, done + KeyText(name, pretty))
  {
    hide Put, StringText;
    ghost var mid, q := Snapshot(buf), StringText(name);
    var written := SerializeString(name, buf, at + total);
    if buf != null { PutTwice(b0, mid, buf[..], at, done, q); }
    total' := Append(buf, at, total + written, [COLON], b0, done + q);
    assert done + q + [COLON] == done + (q + [COLON] + []);
    if pretty {
      total' := Append(buf, at, total', [SPACE], b0, done + q + [COLON]);
      assert done + q + [COLON] + [SPACE] == done + (q + [COLON] + [SPACE]);
    }
  }

  lemma OpenText(open: cbyte, empty: bool, content: seq<cbyte>, level: nat, pretty: bool, close: cbyte)
    requires empty ==> content == []
    ensures [open] + Body(empty, content, level, pretty) + [close]
            == Opening(open, empty, pretty) + (content + Closing(close, empty, level, pretty))
  {
    if !empty {
      var n, p := Newline(pretty), Pad(level, pretty);
      Assoc([open], n + content + p, [close]);
      Assoc(n + content, p, [close]);
      Assoc(n, content, p + [close]);
      Assoc([open], n, content + (p + [close]));
    }
  }

  lemma ArrayOpens(items: seq<Json>, level: nat, pretty: bool)
    ensures Text(Arr(items), level, pretty)
            == Opening(LBRACKET, items == [], pretty)
               + (ItemsText(items[0..], level, pretty) + Closing(RBRACKET, items == [], level, pretty))
  {
    assert items[0..] == items;
    ItemsDone(level, pretty);
    OpenText(LBRACKET, items == [], ItemsText(items, level, pretty), level, pretty, RBRACKET);
  }

  lemma ObjectOpens(ms: seq<Member>, level: nat, pretty: bool)
    ensures Text(Obj(ms), level, pretty)
            == Opening(LBRACE, ms == [], pretty)
               + (MembersText(ms[0..], level, pretty) + Closing(RBRACE, ms == [], level, pretty))
  {
    assert ms[0..] == ms;
    ItemsDone(level, pretty);
    OpenText(LBRACE, ms == [], MembersText(ms, level, pretty), level, pretty, RBRACE);
  }

  /** json_serialization_size and json_serialization_size_pretty. */
  method SerializationSize(v: Json, pretty: bool) returns (size: nat)
    requires Distinct(v)
    ensures size == |Text(v, 0, pretty)| + 1
  {
    var res := SerializeValue(v, null, 0, 0, pretty);
    size := res + 1;
  }

  /** json_serialize_to_buffer: refused exactly when the buffer cannot hold text and terminator. */
  method SerializeToBuffer(v: Json, buf: array<byte>, pretty: bool) returns (ok: bool)
    requires Distinct(v)
    modifies buf
    ensures ok <==> buf.Length >= |Text(v, 0, pretty)| + 1
    ensures ok ==> var n := |Text(v, 0, pretty)|;
                   buf[..n] == Text(v, 0, pretty) && buf[n] == 0 && buf[n + 1..] == old(buf[n + 1..])
    ensures !ok ==> buf[..] == old(buf[..])
  {
    hide Text, Distinct;
    var needed := SerializationSize(v, pretty);
    if buf.Length < needed {
      return false;
    }
    var written := SerializeValue(v, buf, 0, 0, pretty);
    ok := true;
  }

  /** json_serialize_to_string: a buffer of the computed size is filled exactly. */
  method SerializeToString(v: Json, pretty: bool) returns (buf: array<byte>)
    requires Distinct(v)
    ensures var n := |Text(v, 0, pretty)|;
            fresh(buf) && buf.Length == n + 1 && buf[..n] == Text(v, 0, pretty) && buf[n] == 0
  {
    hide Text, Distinct;
    var size := SerializationSize(v, pretty);
    buf := new byte[size](_ => 0);
    var ok := SerializeToBuffer(v, buf, pretty);
  }
}
