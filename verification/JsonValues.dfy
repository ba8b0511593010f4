/** JSON values as parson.c keeps them, and the text its serializer gives them. */
module JsonValues {
  import opened Bytes

  const TWO_64: int := 0x1_0000_0000_0000_0000

  type u64 = x: int | 0 <= x < 0x1_0000_0000_0000_0000

  /** Array items and object members keep their insertion order. A double is carried as its
      decimal text: its floating-point value is not modelled. */
  datatype Json =
    | Null
    | Bool(b: bool)
    | Uint(n: u64)
    | Num(lexeme: seq<cbyte>)
    | Str(s: seq<cbyte>)
    | Arr(items: seq<Json>)
    | Obj(members: seq<Member>)

  datatype Member = Member(name: seq<cbyte>, value: Json)

  const MAX_NESTING: nat := 2048

  const QUOTE: cbyte := 0x22
  const BACKSLASH: cbyte := 0x5C
  const COMMA: cbyte := 0x2C
  const COLON: cbyte := 0x3A
  const LBRACKET: cbyte := 0x5B
  const RBRACKET: cbyte := 0x5D
  const LBRACE: cbyte := 0x7B
  const RBRACE: cbyte := 0x7D
  const SPACE: cbyte := 0x20
  const NEWLINE: cbyte := 0x0A
  const NULL_TOKEN: seq<cbyte> := [0x6E, 0x75, 0x6C, 0x6C]
  const TRUE_TOKEN: seq<cbyte> := [0x74, 0x72, 0x75, 0x65]
  const FALSE_TOKEN: seq<cbyte> := [0x66, 0x61, 0x6C, 0x73, 0x65]

  predicate DistinctNames(ms: seq<Member>) {
    forall i, j :: 0 <= i < j < |ms| ==> ms[i].name != ms[j].name
  }

  /** What the object API guarantees of every tree: no object holds a name twice. */
  predicate Distinct(v: Json) {
    match v
    case Arr(items) => forall i :: 0 <= i < |items| ==> Distinct(items[i])
    case Obj(ms) => DistinctNames(ms) && forall i :: 0 <= i < |ms| ==> Distinct(ms[i].value)
    case _ => true
  }

  predicate NoDoubles(v: Json) {
    match v
    case Num(_) => false
    case Arr(items) => forall i :: 0 <= i < |items| ==> NoDoubles(items[i])
    case Obj(ms) => forall i :: 0 <= i < |ms| ==> NoDoubles(ms[i].value)
    case _ => true
  }

  /** How many containers enclose the most deeply nested value. */
  function Height(v: Json): nat
    decreases v, 1
  {
    match v
    case Arr(items) => HighestItem(items)
    case Obj(ms) => HighestMember(ms)
    case _ => 0
  }

  function HighestItem(items: seq<Json>): nat
    decreases items, 0
  {
    if items == [] then 0
    else var h, t := 1 + Height(items[0]), HighestItem(items[1..]); if h > t then h else t
  }

  function HighestMember(ms: seq<Member>): nat
    decreases ms, 0
  {
    if ms == [] then 0
    else var h, t := 1 + Height(ms[0].value), HighestMember(ms[1..]); if h > t then h else t
  }

  // ---------------------------------------------------------------- text

  function HexDigit(d: int): cbyte
    requires 0 <= d < 16
  {
    if d < 10 then 0x30 + d else 0x61 + d - 10
  }

  function Escape(c: cbyte): (bs: seq<cbyte>)
    ensures 1 <= |bs| <= 6
  {
    if c == QUOTE then [BACKSLASH, QUOTE]
    else if c == BACKSLASH then [BACKSLASH, BACKSLASH]
    else if c == 0x08 then [BACKSLASH, 0x62]
    else if c == 0x0C then [BACKSLASH, 0x66]
    else if c == 0x0A then [BACKSLASH, 0x6E]
    else if c == 0x0D then [BACKSLASH, 0x72]
    else if c == 0x09 then [BACKSLASH, 0x74]
    else if c < 0x20 then [BACKSLASH, 0x75, 0x30, 0x30, HexDigit(c / 16), HexDigit(c % 16)]
    else [c]
  }

  function EscapeAll(s: seq<cbyte>): seq<cbyte> {
    if s == [] then [] else Escape(s[0]) + EscapeAll(s[1..])
  }

  function StringText(s: seq<cbyte>): seq<cbyte> {
    [QUOTE] + EscapeAll(s) + [QUOTE]
  }

  function Decimal(n: nat): (ds: seq<cbyte>)
    ensures |ds| > 0
  {
    if n < 10 then [0x30 + n] else Decimal(n / 10) + [0x30 + n % 10]
  }

  function Indent(level: nat): seq<cbyte> {
    if level == 0 then [] else [SPACE, SPACE, SPACE, SPACE] + Indent(level - 1)
  }

  function Pad(level: nat, pretty: bool): seq<cbyte> {
    if pretty then Indent(level) else []
  }

  function Newline(pretty: bool): seq<cbyte> {
    if pretty then [NEWLINE] else []
  }

  /** The text of a value printed at an indentation level. */
  function Text(v: Json, level: nat, pretty: bool): seq<cbyte>
    decreases v, 1
  {
    match v
    case Null => NULL_TOKEN
    case Bool(b) => if b then TRUE_TOKEN else FALSE_TOKEN
    case Uint(n) => Decimal(n)
    case Num(lexeme) => lexeme
    case Str(s) => StringText(s)
    case Arr(items) =>
      [LBRACKET] + Body(items == [], ItemsText(items, level, pretty), level, pretty) + [RBRACKET]
    case Obj(ms) =>
      [LBRACE] + Body(ms == [], MembersText(ms, level, pretty), level, pretty) + [RBRACE]
  }

  function Body(empty: bool, content: seq<cbyte>, level: nat, pretty: bool): seq<cbyte> {
    if empty then [] else Newline(pretty) + content + Pad(level, pretty)
  }

  function Separator(more: bool, pretty: bool): seq<cbyte> {
    (if more then [COMMA] else []) + Newline(pretty)
  }

  function ItemsText(items: seq<Json>, level: nat, pretty: bool): seq<cbyte>
    decreases items, 0
  {
    if items == [] then []
    else Pad(level + 1, pretty) + Text(items[0], level + 1, pretty) + Separator(|items| > 1, pretty)
         + ItemsText(items[1..], level, pretty)
  }

  function KeyText(name: seq<cbyte>, pretty: bool): seq<cbyte> {
    StringText(name) + [COLON] + (if pretty then [SPACE] else [])
  }

  function MembersText(ms: seq<Member>, level: nat, pretty: bool): seq<cbyte>
    decreases ms, 0
  {
    if ms == [] then []
    else Pad(level + 1, pretty) + KeyText(ms[0].name, pretty) + Text(ms[0].value, level + 1, pretty)
         + Separator(|ms| > 1, pretty) + MembersText(ms[1..], level, pretty)
  }
}
