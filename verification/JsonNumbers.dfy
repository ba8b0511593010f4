/** Numbers: the parser reads exactly the numerals of the syntax, and each as its value. */
module JsonNumbers {
  import opened Collections
  import opened Bytes
  import opened JsonValues
  import opened JsonSyntax
  import opened JsonGrammar

  // ---------------------------------------------------------------- digits

  lemma {:induction false} RunOfDigits(ds: seq<cbyte>, rest: seq<cbyte>)
    requires Figures(ds) && (rest == [] || !IsDigit(rest[0]))
    ensures DigitRun(ds + rest) == |ds|
  {
    if ds == [] {
      assert ds + rest == rest;
    } else {
      assert (ds + rest)[1..] == ds[1..] + rest;
      RunOfDigits(ds[1..], rest);
    }
  }

  /** Reading digits from either end gives the same number. */
  lemma {:induction false} AmountByLast(ds: seq<cbyte>)
    requires ds != []
    ensures Amount(ds) == Amount(ds[..|ds| - 1]) * 10 + Figure(ds[|ds| - 1])
  {
    var front := ds[..|ds| - 1];
    if |ds| > 1 {
      AmountByLast(ds[1..]);
      assert ds[1..][..|ds| - 2] == front[1..];
      var d, p := Figure(ds[0]), Power10(|ds| - 2);
      assert Power10(|ds| - 1) == 10 * p;
      hide Power10;
      assert d * (10 * p) == d * p * 10;
    } else {
      assert Power10(0) == 1;
      assert front == [] && ds[1..] == [];
    }
  }

  lemma {:induction false} AmountIsValue(ds: seq<cbyte>)
    requires Figures(ds)
    ensures forall i :: 0 <= i < |ds| ==> IsDigit(ds[i])
    ensures DigitsValue(ds) == Amount(ds)
  {
    if ds != [] {
      AmountByLast(ds);
      AmountIsValue(ds[..|ds| - 1]);
    }
  }

  lemma {:induction false} DecimalDigits(n: nat)
    ensures Figures(Decimal(n)) && Amount(Decimal(n)) == n
    ensures |Decimal(n)| > 1 ==> Decimal(n)[0] != 0x30
    ensures n > 0 ==> Decimal(n)[0] != 0x30
  {
    var ds := Decimal(n);
    AmountByLast(ds);
    if n >= 10 {
      DecimalDigits(n / 10);
      assert ds[..|ds| - 1] == Decimal(n / 10);
      assert ds[0] == Decimal(n / 10)[0];
    } else {
      assert ds[..0] == [];
    }
  }

  // ---------------------------------------------------------------- positions

  lemma Behind(a: seq<cbyte>, b: seq<cbyte>)
    ensures Drop(a + b, |a|) == b && At(a + b, |a|) == At(b, 0)
    ensures (a + b)[..|a|] == a && (a + b)[|a|..] == b
  {
  }

  /** The extent of a floating-point literal, from what stands where. */
  lemma FloatExtent(s: seq<cbyte>, w: nat, dotted: bool, f: nat, e: nat)
    requires var k := SignLength(s); DigitRun(Drop(s, k)) == w && dotted == (At(s, k + w) == 0x2E)
    requires if dotted then DigitRun(Drop(s, SignLength(s) + w + 1)) == f else f == 0
    requires w + f > 0
    requires var m := SignLength(s) + w + (if dotted then 1 + f else 0);
             if At(s, m) == 0x65 || At(s, m) == 0x45 then
               var es := if At(s, m + 1) == 0x2B || At(s, m + 1) == 0x2D then 1 else 0;
               var d := DigitRun(Drop(s, m + 1 + es));
               e == if d == 0 then 0 else 1 + es + d
             else e == 0
    ensures FloatLength(s) == SignLength(s) + w + (if dotted then 1 + f else 0) + e
  {
    hide DigitRun, Drop, SignLength, At;
  }

  /** What follows the whole part is no digit. */
  lemma TailStart(n: Numeral, rest: seq<cbyte>)
    requires ValidNumeral(n) && Delimited(rest)
    ensures var e := SpellExponent(n.exponent) + rest; var tail := SpellFraction(n.fraction) + e;
            && !IsDigit(At(e, 0)) && At(e, 0) != 0x2E && !IsDigit(At(tail, 0))
            && (At(tail, 0) == 0x2E <==> n.fraction.Some?)
            && (At(e, 0) == 0x65 || At(e, 0) == 0x45 <==> n.exponent.Some?)
  {
  }

  /** Where the parts of a numeral stand in a text that starts with it. */
  lemma NumeralParts(n: Numeral, rest: seq<cbyte>)
    requires ValidNumeral(n) && Delimited(rest)
    ensures var s := SpellNumeral(n) + rest; var k, w := |Minus(n.negative)|, |n.whole|;
            var tail := SpellFraction(n.fraction) + (SpellExponent(n.exponent) + rest);
            && SignLength(s) == k && Drop(s, k) == n.whole + tail && DigitRun(Drop(s, k)) == w
            && At(s, k + w) == At(tail, 0)
            && s[..|SpellNumeral(n)|] == SpellNumeral(n) && s[|SpellNumeral(n)|..] == rest
  {
    hide SpellFraction, SpellExponent, DigitRun, Delimited;
    var m, x, f, e := Minus(n.negative), n.whole, SpellFraction(n.fraction), SpellExponent(n.exponent);
    var s := SpellNumeral(n) + rest;
    var tail := f + (e + rest);
    TailStart(n, rest);
    Regroup(m, x, f, e, rest);
    Assoc(m, x, tail);
    Behind(m, x + tail);
    RunOfDigits(x, tail);
    Behind(m + x, tail);
    Behind(SpellNumeral(n), rest);
    assert At(s, 0) == if n.negative then 0x2D else At(x + tail, 0);
  }

  lemma Regroup(m: seq<cbyte>, x: seq<cbyte>, f: seq<cbyte>, e: seq<cbyte>, rest: seq<cbyte>)
    ensures m + (x + (f + e)) + rest == m + x + (f + (e + rest))
    ensures m + (x + (f + e)) + rest == m + x + f + (e + rest)
  {
    Assoc(m, x + (f + e), rest);
    Assoc(x, f + e, rest);
    Assoc(f, e, rest);
    Assoc(m, x, f + (e + rest));
    Assoc(m + x, f, e + rest);
  }

  lemma FractionAt(n: Numeral, rest: seq<cbyte>)
    requires ValidNumeral(n) && Delimited(rest) && n.fraction.Some?
    ensures DigitRun(Drop(SpellNumeral(n) + rest, |Minus(n.negative)| + |n.whole| + 1)) == |n.fraction.value|
  {
    hide SpellExponent, DigitRun, Delimited, Minus;
    var m, x, ds, e := Minus(n.negative), n.whole, n.fraction.value, SpellExponent(n.exponent);
    TailStart(n, rest);
    Regroup(m, x, [0x2E] + ds, e, rest);
    Assoc([0x2E], ds, e + rest);
    Assoc(m + x, [0x2E], ds + (e + rest));
    Behind(m + x + [0x2E], ds + (e + rest));
    RunOfDigits(ds, e + rest);
  }

  lemma ExponentAt(n: Numeral, rest: seq<cbyte>)
    requires ValidNumeral(n) && Delimited(rest)
    ensures var s := SpellNumeral(n) + rest; var m := |Minus(n.negative)| + |n.whole| + |SpellFraction(n.fraction)|;
            && At(s, m) == At(SpellExponent(n.exponent) + rest, 0)
            && (n.exponent.Some? ==>
                  var e := n.exponent.value;
                  && (At(s, m + 1) == 0x2B || At(s, m + 1) == 0x2D <==> |e.sign| == 1)
                  && DigitRun(Drop(s, m + 1 + |e.sign|)) == |e.digits|)
  {
    hide SpellFraction, DigitRun, Minus;
    var m, x, f, e := Minus(n.negative), n.whole, SpellFraction(n.fraction), SpellExponent(n.exponent);
    Regroup(m, x, f, e, rest);
    Behind(m + x + f, e + rest);
    if n.exponent.Some? {
      ExponentPart(m + x + f, n.exponent.value, rest);
    }
  }

  lemma ExponentPart(head: seq<cbyte>, e: Exponent, rest: seq<cbyte>)
    requires e.sign == [] || e.sign == [0x2B] || e.sign == [0x2D]
    requires e.digits != [] && Figures(e.digits) && Delimited(rest)
    ensures var s, m := head + ([e.letter] + (e.sign + e.digits) + rest), |head|;
            && (At(s, m + 1) == 0x2B || At(s, m + 1) == 0x2D <==> |e.sign| == 1)
            && DigitRun(Drop(s, m + 1 + |e.sign|)) == |e.digits|
  {
    hide DigitRun;
    var l := [e.letter];
    Assoc(l, e.sign + e.digits, rest);
    Assoc(e.sign, e.digits, rest);
    Assoc(head, l, e.sign + (e.digits + rest));
    Behind(head + l, e.sign + (e.digits + rest));
    Assoc(head + l, e.sign, e.digits + rest);
    Behind(head + l + e.sign, e.digits + rest);
    RunOfDigits(e.digits, rest);
  }

  lemma NumeralExtent(n: Numeral, rest: seq<cbyte>)
    requires ValidNumeral(n) && Delimited(rest)
    ensures FloatLength(SpellNumeral(n) + rest) == |SpellNumeral(n)|
  {
    hide DigitRun, Drop, At, SignLength, FloatLength, Minus, Delimited, IsDigit;
    NumeralParts(n, rest);
    TailStart(n, rest);
    if n.fraction.Some? { FractionAt(n, rest); }
    ExponentAt(n, rest);
    FloatExtent(SpellNumeral(n) + rest, |n.whole|, n.fraction.Some?,
                if n.fraction.Some? then |n.fraction.value| else 0, |SpellExponent(n.exponent)|);
  }

  // ---------------------------------------------------------------- every numeral is read

  lemma NumeralIsDecimal(n: Numeral)
    requires ValidNumeral(n)
    ensures IsDecimal(SpellNumeral(n))
  {
    hide SpellFraction, SpellExponent;
    var l, k := SpellNumeral(n), |Minus(n.negative)|;
    var tail := SpellFraction(n.fraction) + SpellExponent(n.exponent);
    NumeralStart(n);
    NoX(n);
    assert forall i :: 0 <= i < |n.whole| ==> l[k + i] == n.whole[i];
    assert |tail| > 0 ==> l[k + |n.whole|] == tail[0];
  }

  lemma NumeralStart(n: Numeral)
    requires ValidNumeral(n)
    ensures var tail := SpellFraction(n.fraction) + SpellExponent(n.exponent);
            n.whole == [0x30] && |tail| > 0 ==> tail[0] == 0x2E
    ensures n.whole == [] ==> SpellFraction(n.fraction) != [] && SpellFraction(n.fraction)[0] == 0x2E
  {
  }

  lemma NoX(n: Numeral)
    requires ValidNumeral(n)
    ensures 0x78 !in SpellNumeral(n) && 0x58 !in SpellNumeral(n)
  {
    var f, e := SpellFraction(n.fraction), SpellExponent(n.exponent);
    assert 0x78 !in f && 0x58 !in f;
    assert 0x78 !in e && 0x58 !in e;
    hide SpellFraction, SpellExponent;
  }

  lemma NotSpecial(n: Numeral, rest: seq<cbyte>)
    requires ValidNumeral(n) && Delimited(rest)
    ensures var s := SpellNumeral(n) + rest; !IsHexLiteral(s) && !IsInfinityOrNan(s)
  {
    hide DigitRun, Delimited, SpellNumeral, ValidNumeral, Drop;
    NumeralParts(n, rest);
    FirstBytes(n, rest);
    hide SpellFraction, SpellExponent;
  }

  lemma FirstBytes(n: Numeral, rest: seq<cbyte>)
    requires ValidNumeral(n) && Delimited(rest)
    ensures var s, k := SpellNumeral(n) + rest, |Minus(n.negative)|;
            && k == (if n.negative then 1 else 0)
            && (At(s, k) == 0x2E || (0x30 <= At(s, k) <= 0x39 && At(s, k + 1) != 0x78 && At(s, k + 1) != 0x58))
  {
    NumeralParts(n, rest);
    TailStart(n, rest);
    NotXAfter(n, rest);
    hide SpellFraction, SpellExponent, DigitRun, Delimited, SpellNumeral;
    var s, k := SpellNumeral(n) + rest, |Minus(n.negative)|;
    var tail := SpellFraction(n.fraction) + (SpellExponent(n.exponent) + rest);
    assert At(s, k) == At(Drop(s, k), 0) && At(s, k + 1) == At(Drop(s, k), 1);
    WholeThen(n.whole, tail);
  }

  lemma WholeThen(x: seq<cbyte>, tail: seq<cbyte>)
    ensures At(x + tail, 0) == if x == [] then At(tail, 0) else x[0]
    ensures x != [] ==> At(x + tail, 1) == if |x| > 1 then x[1] else At(tail, 0)
  {
  }

  lemma NotXAfter(n: Numeral, rest: seq<cbyte>)
    requires ValidNumeral(n) && Delimited(rest)
    ensures var c := At(SpellFraction(n.fraction) + (SpellExponent(n.exponent) + rest), 0); c != 0x78 && c != 0x58
  {
  }

  lemma IntegerPart(n: Numeral, rest: seq<cbyte>)
    requires ValidNumeral(n) && Delimited(rest)
    ensures var s := SpellNumeral(n) + rest; var a := Amount(n.whole);
            && IntegerLength(s) == (if n.whole == [] then 0 else |Minus(n.negative)| + |n.whole|)
            && a >= 0
            && IntegerValue(s) == if a >= TWO_64 then None else Some(if n.negative && a > 0 then TWO_64 - a else a)
  {
    NumeralParts(n, rest);
    AmountIsValue(n.whole);
    var t := Drop(SpellNumeral(n) + rest, |Minus(n.negative)|);
    assert t[..|n.whole|] == n.whole;
  }

  /** Every numeral before a delimiter is read whole, as its value. */
  lemma NumeralParses(n: Numeral, rest: seq<cbyte>)
    requires ValidNumeral(n) && Delimited(rest)
    ensures ParseNumber(SpellNumeral(n) + rest) == Ok(NumeralValue(n), rest)
  {
    hide IsHexLiteral, IsInfinityOrNan, FloatLength, IsDecimal, IntegerLength, IntegerValue, DigitRun, Amount, Drop;
    NumeralParts(n, rest);
    NumeralExtent(n, rest);
    NumeralIsDecimal(n);
    NotSpecial(n, rest);
    IntegerPart(n, rest);
  }

  /** In particular every printed integer. */
  lemma ParseDecimal(n: u64, rest: seq<cbyte>)
    requires Delimited(rest)
    ensures ParseNumber(Decimal(n) + rest) == Ok(Uint(n), rest)
  {
    hide ParseNumber, Amount, Decimal;
    var x := Numeral(false, Decimal(n), None, None);
    DecimalDigits(n);
    assert SpellNumeral(x) == Decimal(n);
    NumeralParses(x, rest);
  }

  // ---------------------------------------------------------------- only numerals are read

  /** The numeral at the start of a text, cut where the parser stops. */
  function NumeralAt(s: seq<cbyte>): Numeral
    requires FloatLength(s) > 0
  {
    var k := SignLength(s);
    var w := DigitRun(Drop(s, k));
    Numeral(k == 1, Cut(s, k, w),
            if At(s, k + w) == 0x2E then Some(Cut(s, k + w + 1, DigitRun(Drop(s, k + w + 1)))) else None,
            if FloatLength(s) > Mantissa(s) then Some(ExponentAfter(s, Mantissa(s))) else None)
  }

  function Cut(s: seq<cbyte>, from: nat, n: nat): seq<cbyte> {
    if from + n <= |s| then s[from..from + n] else []
  }

  function ExponentAfter(s: seq<cbyte>, m: nat): Exponent {
    var es := SignAt(s, m + 1);
    Exponent(if m < |s| then s[m] else 0x65, Cut(s, m + 1, es), Cut(s, m + 1 + es, DigitRun(Drop(s, m + 1 + es))))
  }

  lemma CutDigits(s: seq<cbyte>, from: nat)
    requires from <= |s|
    ensures var n := DigitRun(Drop(s, from));
            from + n <= |s| && Cut(s, from, n) == s[from..from + n] && Figures(Cut(s, from, n))
  {
    DigitRunDigits(Drop(s, from));
    var n := DigitRun(Drop(s, from));
    assert forall i :: 0 <= i < n ==> s[from..][i] == s[from + i];
  }

  function SignAt(s: seq<cbyte>, i: nat): nat {
    if At(s, i) == 0x2B || At(s, i) == 0x2D then 1 else 0
  }

  lemma SignCut(s: seq<cbyte>, i: nat)
    ensures var sign := Cut(s, i, SignAt(s, i));
            && |sign| == SignAt(s, i) && (sign == [] || sign == [0x2B] || sign == [0x2D])
            && (i <= |s| ==> i + |sign| <= |s| && sign == s[i..i + |sign|])
  {
  }

  lemma Joins3(s: seq<cbyte>, a: nat, b: nat, c: nat, d: nat)
    requires a <= b <= c <= d <= |s|
    ensures s[a..d] == s[a..b] + (s[b..c] + s[c..d])
  {
  }

  lemma Joins4(s: seq<cbyte>, a: nat, b: nat, c: nat, d: nat)
    requires a <= b <= c <= d <= |s|
    ensures s[..d] == s[..a] + (s[a..b] + (s[b..c] + s[c..d]))
  {
  }

  /** What the parser takes as an exponent is one. */
  lemma ExponentTaken(s: seq<cbyte>, m: nat)
    requires m < |s| && (s[m] == 0x65 || s[m] == 0x45) && DigitRun(Drop(s, m + 1 + SignAt(s, m + 1))) > 0
    ensures var e := ExponentAfter(s, m); var len := 1 + |e.sign| + |e.digits|;
            && e.letter == s[m] && (e.sign == [] || e.sign == [0x2B] || e.sign == [0x2D])
            && e.digits != [] && Figures(e.digits)
            && |e.sign| == SignAt(s, m + 1) && |e.digits| == DigitRun(Drop(s, m + 1 + |e.sign|))
            && m + len <= |s| && s[m..m + len] == [e.letter] + (e.sign + e.digits)
  {
    hide DigitRun, Drop, At, SignAt, Cut, Figures;
    var i := m + 1;
    SignCut(s, i);
    var c := i + SignAt(s, i);
    CutDigits(s, c);
    var d := c + DigitRun(Drop(s, c));
    Joins3(s, m, i, c, d);
    assert s[m..i] == [s[m]];
  }

  /** The point and the digits after it. */
  lemma FractionTaken(s: seq<cbyte>, m: nat)
    requires m < |s| && s[m] == 0x2E
    ensures var f := DigitRun(Drop(s, m + 1));
            m + 1 + f <= |s| && Figures(Cut(s, m + 1, f)) && |Cut(s, m + 1, f)| == f
            && s[m..m + 1 + f] == [0x2E] + Cut(s, m + 1, f)
  {
    hide DigitRun, Drop, Cut, Figures;
    CutDigits(s, m + 1);
    var d := m + 1 + DigitRun(Drop(s, m + 1));
    Joins3(s, m, m + 1, m + 1, d);
    assert s[m..m + 1] == [s[m]];
  }

  /** Where the parts of a literal end: the sign, the whole part, and what precedes the exponent. */
  function Mantissa(s: seq<cbyte>): nat {
    var m := SignLength(s) + DigitRun(Drop(s, SignLength(s)));
    if At(s, m) == 0x2E then m + 1 + DigitRun(Drop(s, m + 1)) else m
  }

  lemma FloatEnds(s: seq<cbyte>)
    requires FloatLength(s) > 0
    ensures var k := SignLength(s); var w := DigitRun(Drop(s, k)); var m := Mantissa(s);
            && k + w <= m <= FloatLength(s)
            && (w == 0 ==> At(s, k) == 0x2E && DigitRun(Drop(s, k + 1)) > 0)
            && (FloatLength(s) > m ==>
                  && (At(s, m) == 0x65 || At(s, m) == 0x45) && DigitRun(Drop(s, m + 1 + SignAt(s, m + 1))) > 0
                  && FloatLength(s) == m + 1 + SignAt(s, m + 1) + DigitRun(Drop(s, m + 1 + SignAt(s, m + 1))))
  {
    hide DigitRun, Drop;
  }

  lemma ExponentSpelled(s: seq<cbyte>)
    requires FloatLength(s) > 0
    ensures var e, m := NumeralAt(s).exponent, Mantissa(s);
            && (e.Some? ==>
                  && (e.value.letter == 0x65 || e.value.letter == 0x45)
                  && (e.value.sign == [] || e.value.sign == [0x2B] || e.value.sign == [0x2D])
                  && e.value.digits != [] && Figures(e.value.digits))
            && m <= FloatLength(s) && s[m..FloatLength(s)] == SpellExponent(e)
            && (FloatLength(s) == m <==> e.None?)
  {
    hide DigitRun, Drop, Cut, Figures, ExponentAfter, FloatLength;
    FloatEnds(s);
    var m := Mantissa(s);
    hide Mantissa;
    if FloatLength(s) > m {
      ExponentTaken(s, m);
    }
  }

  lemma FractionSpelled(s: seq<cbyte>)
    requires FloatLength(s) > 0
    ensures var f := NumeralAt(s).fraction; var m := SignLength(s) + DigitRun(Drop(s, SignLength(s)));
            && (f.Some? ==> Figures(f.value)) && m <= Mantissa(s) <= |s| && s[m..Mantissa(s)] == SpellFraction(f)
            && (f.Some? <==> At(s, m) == 0x2E) && (f.Some? ==> |f.value| == DigitRun(Drop(s, m + 1)))
            && (Mantissa(s) == m <==> f.None?)
  {
    hide DigitRun, Drop, Cut, Figures, FloatLength;
    FloatEnds(s);
    var m := SignLength(s) + DigitRun(Drop(s, SignLength(s)));
    if At(s, m) == 0x2E {
      FractionTaken(s, m);
    }
  }

  /** The parts found in the text, put together, are what was taken from it. */
  lemma NumeralTaken(s: seq<cbyte>)
    requires FloatLength(s) > 0
    ensures var n, k := NumeralAt(s), SignLength(s);
            && n.negative == (k == 1) && Figures(n.whole) && |n.whole| == DigitRun(Drop(s, k))
            && k + |n.whole| <= |s| && n.whole == s[k..k + |n.whole|]
            && (n.whole == [] ==> n.fraction.Some? && n.fraction.value != [])
            && (FloatLength(s) == k + |n.whole| <==> n.fraction.None? && n.exponent.None?)
            && SpellNumeral(n) == s[..FloatLength(s)]
  {
    hide DigitRun, Drop, Cut, Figures, ExponentAfter, FloatLength, SpellFraction, SpellExponent;
    var n, k := NumeralAt(s), SignLength(s);
    assert k <= |s| && s[..k] == Minus(n.negative);
    CutDigits(s, k);
    FloatEnds(s);
    FractionSpelled(s);
    ExponentSpelled(s);
    Joins4(s, k, k + |n.whole|, Mantissa(s), FloatLength(s));
  }

  /** A literal that is read starts with a numeral, unless it is a lone minus sign. */
  lemma NumeralRead(s: seq<cbyte>)
    requires ParseNumber(s).Ok? && FloatLength(s) > 0 && (At(s, 0) == 0x2D || IsDigit(At(s, 0)))
    ensures var n := NumeralAt(s);
            ValidNumeral(n) && s == SpellNumeral(n) + ParseNumber(s).rest && NumeralValue(n) == ParseNumber(s).value
  {
    hide DigitRun, Drop, Figures, FloatLength, IsHexLiteral, IsInfinityOrNan, IsDecimal, SpellNumeral, Amount;
    hide NumeralAt, IntegerLength, IntegerValue, SpellExponent, SpellFraction;
    var n := NumeralAt(s);
    NumeralTaken(s);
    NumeralIsValid(s);
    assert s == s[..FloatLength(s)] + s[FloatLength(s)..];
    IntegerRead(s);
  }

  lemma IntegerRead(s: seq<cbyte>)
    requires FloatLength(s) > 0
    ensures var n := NumeralAt(s); var a := Amount(n.whole);
            && IntegerLength(s) == (if n.whole == [] then 0 else SignLength(s) + |n.whole|)
            && a >= 0
            && IntegerValue(s) == if a >= TWO_64 then None else Some(if n.negative && a > 0 then TWO_64 - a else a)
  {
    hide FloatLength, DigitRun, NumeralAt, SpellNumeral;
    NumeralTaken(s);
    var n, k := NumeralAt(s), SignLength(s);
    AmountIsValue(n.whole);
    assert Drop(s, k)[..|n.whole|] == n.whole;
  }

  lemma NumeralIsValid(s: seq<cbyte>)
    requires FloatLength(s) > 0 && IsDecimal(s[..FloatLength(s)]) && (At(s, 0) == 0x2D || IsDigit(At(s, 0)))
    ensures ValidNumeral(NumeralAt(s))
  {
    hide DigitRun, Drop, Figures, FloatLength, NumeralAt, SpellExponent;
    NumeralTaken(s);
    ExponentSpelled(s);
    FractionSpelled(s);
    if At(s, 0) != 0x2D { FirstDigit(s); }
    var n, k, l := NumeralAt(s), SignLength(s), s[..FloatLength(s)];
    assert forall i :: 0 <= i < |n.whole| ==> l[k + i] == n.whole[i];
    assert |l| > k + |n.whole| ==> l[k + |n.whole|] == s[k + |n.whole|];
    assert n.whole == [] ==> n.negative;
    LeadingZero(l, k, n);
    hide SpellNumeral, SpellFraction;
  }

  /** What is_decimal refuses: a zero before anything but a point. */
  lemma LeadingZero(l: seq<cbyte>, k: nat, n: Numeral)
    requires IsDecimal(l) && n.negative == (k == 1) && k <= 1 && k + |n.whole| <= |l|
    requires n.negative ==> l[0] == 0x2D
    requires forall i :: 0 <= i < |n.whole| ==> l[k + i] == n.whole[i]
    requires n.exponent.Some? ==> |l| > k + |n.whole|
    requires |l| > k + |n.whole| && n.fraction.None? ==> l[k + |n.whole|] != 0x2E
    requires Figures(n.whole)
    ensures |n.whole| > 1 ==> n.whole[0] != 0x30
    ensures n.whole == [0x30] && n.exponent.Some? ==> n.fraction.Some?
  {
    assert |n.whole| > 1 ==> 0x30 <= n.whole[1] <= 0x39;
  }

  /** A literal that starts with a digit has a whole part. */
  lemma FirstDigit(s: seq<cbyte>)
    requires IsDigit(At(s, 0))
    ensures SignLength(s) == 0 && DigitRun(Drop(s, 0)) > 0
  {
    assert Drop(s, 0) == s;
  }

  /** A minus sign that starts no numeral is read as zero, and left where it is. */
  lemma LoneMinus(s: seq<cbyte>)
    requires ParseNumber(s).Ok? && FloatLength(s) == 0 && (At(s, 0) == 0x2D || IsDigit(At(s, 0)))
    ensures At(s, 0) == 0x2D && ParseNumber(s) == Ok(Uint(0), s)
  {
    if At(s, 0) != 0x2D {
      FirstDigit(s);
    }
    var t := Drop(s, 1);
    assert t[..0] == [] && s[0..] == s;
  }
}
