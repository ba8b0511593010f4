/** What the recursive-descent parser of parson.c computes, as functions of the remaining input. */
module JsonGrammar {
  import opened Collections
  import opened Bytes
  import opened JsonValues
  import opened JsonStrings

  datatype Parse<+T> = Fail | Ok(value: T, rest: seq<cbyte>)

  predicate IsSpace(c: byte) {
    c == 0x20 || 0x09 <= c <= 0x0D
  }

  function SkipSpace(s: seq<cbyte>): (r: seq<cbyte>)
    ensures |r| <= |s|
    ensures r == [] || !IsSpace(r[0])
  {
    if s != [] && IsSpace(s[0]) then SkipSpace(s[1..]) else s
  }

  function Quoted(s: seq<cbyte>): (r: Parse<seq<cbyte>>)
    ensures r.Ok? ==> |r.rest| < |s|
  {
    if At(s, 0) != QUOTE then Fail
    else
      var n := ScanQuote(s[1..]);
      if n.None? then Fail
      else
        var out := Process(s[1..1 + n.value]);
        if out.None? then Fail else Ok(UpToNul(out.value), s[n.value + 2..])
  }

  // ---------------------------------------------------------------- numbers

  predicate IsDigit(c: byte) {
    0x30 <= c <= 0x39
  }

  function Drop(s: seq<cbyte>, n: nat): seq<cbyte> {
    if n <= |s| then s[n..] else []
  }

  function DigitRun(s: seq<cbyte>): (n: nat)
    ensures n <= |s|
  {
    if s == [] || !IsDigit(s[0]) then 0 else 1 + DigitRun(s[1..])
  }

  function DigitsValue(ds: seq<cbyte>): nat
    requires forall i :: 0 <= i < |ds| ==> IsDigit(ds[i])
  {
    if ds == [] then 0
    else assert IsDigit(ds[|ds| - 1]); var last: int := ds[|ds| - 1]; DigitsValue(ds[..|ds| - 1]) * 10 + (last - 0x30)
  }

  function SignLength(s: seq<cbyte>): nat {
    if At(s, 0) == 0x2D then 1 else 0
  }

  /** How much of the input strtod takes as a decimal floating-point literal. */
  function FloatLength(s: seq<cbyte>): (n: nat)
    ensures n <= |s|
  {
    var sign := SignLength(s);
    var whole := DigitRun(Drop(s, sign));
    var dot := sign + whole;
    var frac := if At(s, dot) == 0x2E then DigitRun(Drop(s, dot + 1)) else 0;
    if whole + frac == 0 then 0
    else
      var mant := if At(s, dot) == 0x2E then dot + 1 + frac else dot;
      if At(s, mant) == 0x65 || At(s, mant) == 0x45 then
        var esign := if At(s, mant + 1) == 0x2B || At(s, mant + 1) == 0x2D then 1 else 0;
        var exp := DigitRun(Drop(s, mant + 1 + esign));
        if exp == 0 then mant else mant + 1 + esign + exp
      else mant
  }

  /** strtod also takes hexadecimal literals; is_decimal then refuses them. */
  predicate IsHexLiteral(s: seq<cbyte>) {
    var i := SignLength(s);
    && At(s, i) == 0x30
    && (At(s, i + 1) == 0x78 || At(s, i + 1) == 0x58)
    && (HexValue(At(s, i + 2)) != -1 || (At(s, i + 2) == 0x2E && HexValue(At(s, i + 3)) != -1))
  }

  function Lower(c: byte): byte {
    if 0x41 <= c <= 0x5A then c + 0x20 else c
  }

  /** `-inf` and `-nan`: strtod takes them, json_value_init_number refuses the value. */
  predicate IsInfinityOrNan(s: seq<cbyte>) {
    var a, b, c := Lower(At(s, 1)), Lower(At(s, 2)), Lower(At(s, 3));
    At(s, 0) == 0x2D && ((a == 0x69 && b == 0x6E && c == 0x66) || (a == 0x6E && b == 0x61 && c == 0x6E))
  }

  predicate IsDecimal(lexeme: seq<cbyte>) {
    && !(|lexeme| > 1 && lexeme[0] == 0x30 && lexeme[1] != 0x2E)
    && !(|lexeme| > 2 && lexeme[0] == 0x2D && lexeme[1] == 0x30 && lexeme[2] != 0x2E)
    && 0x78 !in lexeme && 0x58 !in lexeme
  }

  lemma {:induction false} DigitRunDigits(s: seq<cbyte>)
    ensures forall i :: 0 <= i < DigitRun(s) ==> IsDigit(s[i])
  {
    if s != [] && IsDigit(s[0]) {
      DigitRunDigits(s[1..]);
      assert forall i :: 1 <= i < DigitRun(s) ==> s[i] == s[1..][i - 1];
    }
  }

  /** strtoull in base 10: the bytes taken, and the value unless it is out of range.
      A minus sign negates modulo 2^64. */
  function IntegerLength(s: seq<cbyte>): nat {
    var digits := DigitRun(Drop(s, SignLength(s)));
    if digits == 0 then 0 else SignLength(s) + digits
  }

  function IntegerValue(s: seq<cbyte>): (r: Option<u64>) {
    var t := Drop(s, SignLength(s));
    DigitRunDigits(t);
    var n := DigitsValue(t[..DigitRun(t)]);
    if n >= TWO_64 then None
    else if SignLength(s) == 1 && n > 0 then Some(TWO_64 - n)
    else Some(n)
  }

  function ParseNumber(s: seq<cbyte>): (r: Parse<Json>)
    ensures r.Ok? ==> |r.rest| <= |s|
  {
    if IsHexLiteral(s) || IsInfinityOrNan(s) then Fail
    else
      var len := FloatLength(s);
      if !IsDecimal(s[..len]) then Fail
      else if IntegerLength(s) == len && IntegerValue(s).Some? then Ok(Uint(IntegerValue(s).value), s[len..])
      else Ok(Num(s[..len]), s[len..])
  }

  // ---------------------------------------------------------------- values

  function ParseToken(s: seq<cbyte>, token: seq<cbyte>, v: Json): (r: Parse<Json>)
    ensures r.Ok? ==> |r.rest| <= |s|
  {
    if token <= s then Ok(v, s[|token|..]) else Fail
  }

  function ParseBoolean(s: seq<cbyte>): (r: Parse<Json>)
    ensures r.Ok? ==> |r.rest| <= |s|
  {
    if TRUE_TOKEN <= s then Ok(Bool(true), s[|TRUE_TOKEN|..]) else ParseToken(s, FALSE_TOKEN, Bool(false))
  }

  function ParseString(s: seq<cbyte>): (r: Parse<Json>)
    ensures r.Ok? ==> |r.rest| <= |s|
  {
    match Quoted(s)
    case Fail => Fail
    case Ok(str, rest) => Ok(Str(str), rest)
  }

  function ParseValue(s: seq<cbyte>, nesting: nat): (r: Parse<Json>)
    ensures r.Ok? ==> |r.rest| <= |s|
    decreases |s|, 2
  {
    if nesting > MAX_NESTING then Fail
    else
      var t := SkipSpace(s);
      var c := At(t, 0);
      if c == LBRACE then ParseObject(t, nesting + 1)
      else if c == LBRACKET then ParseArray(t, nesting + 1)
      else if c == QUOTE then ParseString(t)
      else if c == 0x66 || c == 0x74 then ParseBoolean(t)
      else if c == 0x2D || IsDigit(c) then ParseNumber(t)
      else if c == 0x6E then ParseToken(t, NULL_TOKEN, Null)
      else Fail
  }

  function ParseArray(t: seq<cbyte>, nesting: nat): (r: Parse<Json>)
    requires At(t, 0) == LBRACKET
    ensures r.Ok? ==> |r.rest| <= |t|
    decreases |t|, 1
  {
    var u := SkipSpace(t[1..]);
    if At(u, 0) == RBRACKET then Ok(Arr([]), u[1..]) else ParseItems(u, nesting, [])
  }

  /** The item loop: `acc` holds the items added so far. */
  function ParseItems(u: seq<cbyte>, nesting: nat, acc: seq<Json>): (r: Parse<Json>)
    ensures r.Ok? ==> |r.rest| <= |u|
    decreases |u|, 3
  {
    if u == [] then Fail
    else
      match ParseValue(u, nesting)
      case Fail => Fail
      case Ok(v, rest) =>
        var w := SkipSpace(rest);
        if At(w, 0) == COMMA then ParseItems(SkipSpace(w[1..]), nesting, acc + [v])
        else if At(w, 0) == RBRACKET then Ok(Arr(acc + [v]), w[1..])
        else Fail
  }

  function ParseObject(t: seq<cbyte>, nesting: nat): (r: Parse<Json>)
    requires At(t, 0) == LBRACE
    ensures r.Ok? ==> |r.rest| <= |t|
    decreases |t|, 1
  {
    var u := SkipSpace(t[1..]);
    if At(u, 0) == RBRACE then Ok(Obj([]), u[1..]) else ParseMembers(u, nesting, [])
  }

  predicate HasName(ms: seq<Member>, name: seq<cbyte>) {
    exists i :: 0 <= i < |ms| && ms[i].name == name
  }

  /** The member loop: a name already present makes the object fail. */
  function ParseMembers(u: seq<cbyte>, nesting: nat, acc: seq<Member>): (r: Parse<Json>)
    ensures r.Ok? ==> |r.rest| <= |u|
    decreases |u|, 3
  {
    if u == [] then Fail
    else
      match Quoted(u)
      case Fail => Fail
      case Ok(name, afterName) =>
        var c := SkipSpace(afterName);
        if At(c, 0) != COLON then Fail
        else
          match ParseValue(c[1..], nesting)
          case Fail => Fail
          case Ok(v, rest) =>
            if HasName(acc, name) then Fail
            else
              var w := SkipSpace(rest);
              if At(w, 0) == COMMA then ParseMembers(SkipSpace(w[1..]), nesting, acc + [Member(name, v)])
              else if At(w, 0) == RBRACE then Ok(Obj(acc + [Member(name, v)]), w[1..])
              else Fail
  }

  /** json_parse_string: skip a byte-order mark, parse one value, ignore what follows it. */
  function ParseText(s: seq<cbyte>): Option<Json> {
    var t := if At(s, 0) == 0xEF && At(s, 1) == 0xBB && At(s, 2) == 0xBF then s[3..] else s;
    match ParseValue(t, 0)
    case Fail => None
    case Ok(v, _) => Some(v)
  }
}
