/** The integer value transforms of transform.c, on 64-bit signed arithmetic. */
module Transform {
  import opened Bits

  datatype IntType = I8 | U8 | I16 | U16 | I32 | U32 | I64 | U64

  function MinOf(t: IntType): int {
    match t
    case I8 => -0x80 case I16 => -0x8000 case I32 => -0x8000_0000 case I64 => -0x8000_0000_0000_0000
    case _ => 0
  }

  function MaxOf(t: IntType): int {
    match t
    case I8 => 0x7F case U8 => 0xFF case I16 => 0x7FFF case U16 => 0xFFFF
    case I32 => 0x7FFF_FFFF case U32 => 0xFFFF_FFFF
    case I64 => 0x7FFF_FFFF_FFFF_FFFF case U64 => 0xFFFF_FFFF_FFFF_FFFF
  }

  predicate InRange(t: IntType, v: int) {
    MinOf(t) <= v <= MaxOf(t)
  }

  /** A reading: an integer of some width, or the text that replaces it. */
  datatype Data = Int(t: IntType, v: int) | Overflow

  datatype Arg = Arg(enabled: bool, ival: int)

  datatype Props = Props(mask: Arg, shift: Arg, base: Arg, scale: Arg, offset: Arg)

  const TWO_63: int := 0x8000_0000_0000_0000
  const TWO_64: int := 0x1_0000_0000_0000_0000

  /** Two's-complement wrap-around of `long long`. */
  function Wrap(x: int): int {
    (x + TWO_63) % TWO_64 - TWO_63
  }

  predicate Fits64(x: int) {
    -TWO_63 <= x < TWO_63
  }

  function Abs(x: int): nat {
    if x < 0 then -x else x
  }

  /** C's division truncates toward zero. */
  function TruncDiv(a: int, b: int): int
    requires b != 0
  {
    var q := Abs(a) / Abs(b);
    if (a < 0) == (b < 0) then q else -q
  }

  predicate TransformsOn(p: Props) {
    p.offset.enabled || p.scale.enabled || p.base.enabled || p.shift.enabled || p.mask.enabled
  }

  /** Shift amounts for which the C shifts are defined. */
  predicate ShiftDefined(p: Props) {
    p.shift.enabled ==> -64 < p.shift.ival < 64
  }

  function ShiftLeft(x: int, k: nat): int {
    Wrap(x * Pow2(k))
  }

  function ShiftRight(x: int, k: nat): int {
    x / Pow2(k)
  }

  /** setLLInt. */
  function Stored(t: IntType, x: int): (d: Data) {
    if InRange(t, x) then Int(t, x) else Overflow
  }

  /** edgex_transform_outgoing on an integer; `power` stands for `powl`. */
  function Outgoing(d: Data, p: Props, power: (int, int) -> int): Data
    requires ShiftDefined(p)
  {
    if d.Overflow? || !TransformsOn(p) then d
    else
      var r := Wrap(d.v);
      var r := if p.mask.enabled then And(r, p.mask.ival) else r;
      var r := if !p.shift.enabled then r
               else if p.shift.ival < 0 then ShiftLeft(r, -p.shift.ival) else ShiftRight(r, p.shift.ival);
      var r := if p.base.enabled then power(p.base.ival, r) else r;
      var r := if p.scale.enabled then Wrap(r * p.scale.ival) else r;
      var r := if p.offset.enabled then Wrap(r + p.offset.ival) else r;
      Stored(d.t, r)
  }

  /** edgex_transform_incoming on an integer; `log` stands for the rounded logarithm. `Overflow` is
      the null result that the caller reports. */
  function Incoming(d: Data, p: Props, log: (int, int) -> int): Data
    requires ShiftDefined(p) && (p.scale.enabled ==> p.scale.ival != 0)
  {
    if d.Overflow? || !TransformsOn(p) then d
    else
      var r := Wrap(d.v);
      var r := if p.offset.enabled then Wrap(r - p.offset.ival) else r;
      var r := if p.scale.enabled then Wrap(TruncDiv(r, p.scale.ival)) else r;
      var r := if p.base.enabled then log(p.base.ival, r) else r;
      var r := if !p.shift.enabled then r
               else if p.shift.ival < 0 then ShiftRight(r, -p.shift.ival) else ShiftLeft(r, p.shift.ival);
      var r := if p.mask.enabled then And(r, p.mask.ival) else r;
      Stored(d.t, r)
  }

  class CommandResult {
    var value: Data

    constructor (value: Data)
      ensures this.value == value
    {
      this.value := value;
    }

    /** The outgoing steps on the running `result`, which then replaces the reading: for moderate
        transforms the exact mathematical result, or overflow. */
    method TransformOutgoing(p: Props, power: (int, int) -> int)
      requires ShiftDefined(p)
      modifies this
      ensures value == Outgoing(old(value), p, power)
      ensures old(value).Int? && Moderate(old(value).t, p) && InRange(old(value).t, old(value).v) ==>
                value == Stored(old(value).t, Ideal(old(value).v, p))
    {
      if value.Int? && Moderate(value.t, p) && InRange(value.t, value.v) {
        OutgoingIsIdeal(value.t, value.v, p, power);
      }
      hide Ideal, And, Wrap;
      if value.Int? && TransformsOn(p) {
        var result := Wrap(value.v);
        if p.mask.enabled { result := And(result, p.mask.ival); }
        if p.shift.enabled {
          if p.shift.ival < 0 {
            result := ShiftLeft(result, -p.shift.ival);
          } else {
            result := ShiftRight(result, p.shift.ival);
          }
        }
        if p.base.enabled { result := power(p.base.ival, result); }
        if p.scale.enabled { result := Wrap(result * p.scale.ival); }
        if p.offset.enabled { result := Wrap(result + p.offset.ival); }
        value := Stored(value.t, result);
      }
    }

    /** The incoming steps, in the reverse order: given the outgoing result of any reading, its
        selected bits again, exactly when they fit the type and the shift lost none of them. */
    method TransformIncoming(p: Props, log: (int, int) -> int)
      requires ShiftDefined(p) && (p.scale.enabled ==> p.scale.ival != 0)
      modifies this
      ensures value == Incoming(old(value), p, log)
      ensures forall t, v :: Usable(t, v, p) && old(value) == Int(t, Ideal(v, p)) ==>
                (value == Int(t, Selected(v, p)) <==> Recoverable(t, v, p))
    {
      forall t, v | Usable(t, v, p) && value == Int(t, Ideal(v, p))
        ensures Incoming(value, p, log) == Int(t, Selected(v, p)) <==> Recoverable(t, v, p)
      {
        IncomingOfIdeal(t, v, p, log);
      }
      hide Usable, Recoverable, Ideal, Selected, And, Wrap, TruncDiv, Pow2;
      if value.Int? && TransformsOn(p) {
        var result := Wrap(value.v);
        if p.offset.enabled { result := Wrap(result - p.offset.ival); }
        if p.scale.enabled { result := Wrap(TruncDiv(result, p.scale.ival)); }
        if p.base.enabled { result := log(p.base.ival, result); }
        if p.shift.enabled {
          if p.shift.ival < 0 {
            result := ShiftRight(result, -p.shift.ival);
          } else {
            result := ShiftLeft(result, p.shift.ival);
          }
        }
        if p.mask.enabled { result := And(result, p.mask.ival); }
        value := Stored(value.t, result);
      }
    }
  }

  // ---------------------------------------------------------------- exactness

  /** Types up to 32 bits, no base, an unsigned 32-bit mask, a right shift, 32-bit scale and offset. */
  predicate Moderate(t: IntType, p: Props) {
    && t != I64 && t != U64 && !p.base.enabled
    && (p.mask.enabled ==> 0 <= p.mask.ival < 0x1_0000_0000)
    && (p.shift.enabled ==> 0 <= p.shift.ival < 64)
    && (p.scale.enabled ==> -0x8000_0000 <= p.scale.ival < 0x8000_0000)
    && (p.offset.enabled ==> -0x8000_0000 <= p.offset.ival < 0x8000_0000)
  }

  /** The bits of the reading that the mask selects. */
  function Selected(v: int, p: Props): int {
    if p.mask.enabled then And(v, p.mask.ival) else v
  }

  function Shift(p: Props): nat
    requires p.shift.enabled ==> p.shift.ival >= 0
  {
    if p.shift.enabled then p.shift.ival else 0
  }

  function Scale(p: Props): int {
    if p.scale.enabled then p.scale.ival else 1
  }

  function Offset(p: Props): int {
    if p.offset.enabled then p.offset.ival else 0
  }

  /** The transform in unbounded arithmetic. */
  function Ideal(v: int, p: Props): int
    requires p.shift.enabled ==> p.shift.ival >= 0
  {
    Selected(v, p) / Pow2(Shift(p)) * Scale(p) + Offset(p)
  }

  lemma WrapIsIdentity(x: int)
    requires Fits64(x)
    ensures Wrap(x) == x
  {
  }

  lemma SelectedBounds(t: IntType, v: int, p: Props)
    requires Moderate(t, p) && InRange(t, v)
    ensures -0x8000_0000 <= Selected(v, p) <= 0xFFFF_FFFF
  {
    if p.mask.enabled { AndBounds(v, p.mask.ival); }
  }

  lemma ShiftBounds(x: int, k: nat)
    requires -0x8000_0000 <= x <= 0xFFFF_FFFF
    ensures -0x8000_0000 <= x / Pow2(k) <= 0xFFFF_FFFF
  {
    var p := Pow2(k);
    hide Pow2;
    var q, r := x / p, x % p;
    assert x == p * q + r;
    if q > 0 { MulAtLeastOne(p, q); } else if q < 0 { MulAtMostMinusOne(p, q, r); }
  }

  lemma MulAtLeastOne(p: int, q: int)
    requires p > 0 && q > 0
    ensures p * q >= q
  {
  }

  lemma MulAtMostMinusOne(p: int, q: int, r: int)
    requires p > 0 && q < 0 && 0 <= r < p
    ensures p * q + r <= q
  {
    if q < -1 { MulAtLeastOne(p, -(q + 1)); }
    assert p * -(q + 1) == -(p * q) - p;
  }

  /** The extremes of a scaled 32-bit quantity fit 64 bits, exactly. */
  lemma ScaledBounds(x: int, scale: int)
    requires -0x8000_0000 <= x <= 0xFFFF_FFFF && -0x8000_0000 <= scale < 0x8000_0000
    ensures -TWO_63 + 0x8000_0000 <= x * scale < TWO_63 - 0x8000_0000
  {
    MulBounds(x, scale, 0xFFFF_FFFF, 0x8000_0000);
    if x < 0 { MulBounds(x, scale, 0x8000_0000, 0x8000_0000); }
    else if scale >= 0 { MulBounds(x, scale, 0xFFFF_FFFF, 0x7FFF_FFFF); }
  }

  lemma MulBounds(x: int, y: int, a: int, b: int)
    requires 0 <= a && 0 <= b && -a <= x <= a && -b <= y <= b
    ensures -(a * b) <= x * y <= a * b
  {
    var m, n := if x < 0 then -x else x, if y < 0 then -y else y;
    MulMonotone(m, n, b);
    MulMonotone(b, m, a);
    assert m * n <= a * b;
  }

  /** The outgoing transform is the ideal one, or reports overflow: nothing wraps on the way. */
  lemma OutgoingIsIdeal(t: IntType, v: int, p: Props, power: (int, int) -> int)
    requires Moderate(t, p) && InRange(t, v)
    ensures Outgoing(Int(t, v), p, power) == Stored(t, Ideal(v, p))
  {
    hide And, Wrap;
    SelectedBounds(t, v, p);
    var m := Selected(v, p);
    ShiftBounds(m, Shift(p));
    var x := m / Pow2(Shift(p));
    assert Pow2(0) == 1;
    ScaledBounds(x, Scale(p));
    WrapIsIdentity(v);
    WrapIsIdentity(x * Scale(p));
    WrapIsIdentity(x * Scale(p) + Offset(p));
  }

  // ---------------------------------------------------------------- inversion

  lemma TruncDivUndoesMul(x: int, s: int)
    requires s != 0
    ensures TruncDiv(x * s, s) == x
  {
    AbsOfProduct(x, s);
    DivModUnique(Abs(s) * Abs(x), Abs(s), Abs(x), 0);
  }

  lemma AbsOfProduct(x: int, s: int)
    ensures Abs(x * s) == Abs(s) * Abs(x)
    ensures x != 0 && s != 0 ==> (x * s < 0 <==> (x < 0) != (s < 0))
  {
  }

  lemma RemainderBounds(m: int, k: nat)
    requires -0x8000_0000 <= m <= 0xFFFF_FFFF && k < 64
    ensures Fits64(m - m % Pow2(k))
  {
    Pow2Values();
    var p := Pow2(k);
    if m >= 0 {
      hide Pow2;
      RemainderBelow(m, p);
    } else if k < 63 {
      assert Pow2(63) == 2 * Pow2(62);
      Pow2Monotone(k, 62);
      hide Pow2;
    } else {
      hide Pow2;
      DivModUnique(m, p, -1, m + p);
    }
  }

  /** Shifting right and left again clears the bits shifted out, without leaving 64 bits. */
  lemma ShiftedBack(m: int, k: nat)
    requires -0x8000_0000 <= m <= 0xFFFF_FFFF && k < 64
    ensures ShiftLeft(ShiftRight(m, k), k) == m - m % Pow2(k)
  {
    hide Pow2, Wrap;
    RemainderBounds(m, k);
    var p := Pow2(k);
    var x, r := m / p, m % p;
    assert m == p * x + r && x * p == p * x;
    WrapIsIdentity(m - r);
  }

  /** Offset and scale come off the ideal result again, without leaving 64 bits. */
  lemma ScalingUndone(t: IntType, v: int, p: Props)
    requires Moderate(t, p) && InRange(t, v) && (p.scale.enabled ==> p.scale.ival != 0)
    ensures var x, y := Selected(v, p) / Pow2(Shift(p)), Wrap(Ideal(v, p));
            var y := if p.offset.enabled then Wrap(y - p.offset.ival) else y;
            (if p.scale.enabled then Wrap(TruncDiv(y, p.scale.ival)) else y) == x
  {
    hide And, Wrap, TruncDiv, Pow2;
    SelectedBounds(t, v, p);
    var m, k := Selected(v, p), Shift(p);
    var x := m / Pow2(k);
    ShiftBounds(m, k);
    ScaledBounds(x, Scale(p));
    WrapIsIdentity(Ideal(v, p));
    WrapIsIdentity(x * Scale(p));
    TruncDivUndoesMul(x, Scale(p));
    WrapIsIdentity(x);
  }

  /** A moderate transform of a reading of its type, with a scale that can be divided by. */
  predicate Usable(t: IntType, v: int, p: Props) {
    Moderate(t, p) && InRange(t, v) && (p.scale.enabled ==> p.scale.ival != 0)
  }

  /** Nothing is lost: the selected bits fit the type, and the shift drops none of them. */
  predicate Recoverable(t: IntType, v: int, p: Props)
    requires p.shift.enabled ==> p.shift.ival >= 0
  {
    InRange(t, Selected(v, p)) && Selected(v, p) % Pow2(Shift(p)) == 0
  }

  /** The value that the incoming steps leave before they store it. */
  lemma IncomingSteps(t: IntType, v: int, p: Props, log: (int, int) -> int)
    requires Usable(t, v, p) && TransformsOn(p)
    ensures var back := Selected(v, p) - Selected(v, p) % Pow2(Shift(p));
            Incoming(Int(t, Ideal(v, p)), p, log) == Stored(t, if p.mask.enabled then And(back, p.mask.ival) else back)
  {
    hide And, Wrap, TruncDiv, ShiftLeft, Ideal, Selected, Stored, InRange;
    ScalingUndone(t, v, p);
    SelectedBounds(t, v, p);
    ShiftedBack(Selected(v, p), Shift(p));
    assert Pow2(0) == 1;
    hide Pow2;
  }

  /** Coming back in from the ideal result returns the selected bits exactly when they fit the type
      and the shift lost none. */
  lemma IncomingOfIdeal(t: IntType, v: int, p: Props, log: (int, int) -> int)
    requires Usable(t, v, p)
    ensures Incoming(Int(t, Ideal(v, p)), p, log) == Int(t, Selected(v, p)) <==> Recoverable(t, v, p)
  {
    hide And, Pow2, Ideal, Selected;
    Unchanged(v, p);
    if TransformsOn(p) {
      IncomingSteps(t, v, p, log);
      Remasked(v, p);
      hide Incoming;
    }
  }

  /** Sending a reading out and back returns the selected bits exactly when the outgoing result does
      not overflow, the selected bits fit the type, and the shift loses none of them. */
  lemma IncomingUndoesOutgoing(t: IntType, v: int, p: Props, power: (int, int) -> int, log: (int, int) -> int)
    requires Usable(t, v, p)
    ensures Incoming(Outgoing(Int(t, v), p, power), p, log) == Int(t, Selected(v, p))
            <==> InRange(t, Ideal(v, p)) && Recoverable(t, v, p)
  {
    hide Outgoing, Ideal, Selected, Pow2, Recoverable;
    OutgoingIsIdeal(t, v, p, power);
    IncomingOfIdeal(t, v, p, log);
  }

  /** A mask as wide as the type, and the least offset. */
  function FullMask(t: IntType): Props {
    Props(Arg(true, 2 * MaxOf(t) + 1), Arg(false, 0), Arg(false, 0), Arg(false, 0), Arg(true, MinOf(t)))
  }

  /** The sign bit of a negative reading, selected by a full mask, does not fit the type again: every
      such reading goes out without overflow or shift and cannot come back. */
  lemma MaskedSignLost(t: IntType, v: int, power: (int, int) -> int, log: (int, int) -> int)
    requires t in {I8, I16, I32} && InRange(t, v) && v < 0
    ensures var p := FullMask(t);
            && Usable(t, v, p) && Selected(v, p) % Pow2(Shift(p)) == 0
            && Outgoing(Int(t, v), p, power) == Int(t, v - MinOf(t))
            && Incoming(Outgoing(Int(t, v), p, power), p, log) == Overflow
  {
    var p := FullMask(t);
    hide And, Wrap;
    assert Pow2(0) == 1;
    hide Pow2, Incoming, Outgoing;
    SignSelected(t, v);
    OutgoingIsIdeal(t, v, p, power);
    IncomingSteps(t, v, p, log);
    Remasked(v, p);
  }

  /** A mask as wide as the type turns a negative reading into its unsigned counterpart. */
  lemma SignSelected(t: IntType, v: int)
    requires t in {I8, I16, I32} && InRange(t, v) && v < 0
    ensures And(v, 2 * MaxOf(t) + 1) == v + 2 * MaxOf(t) + 2
  {
    hide And;
    assert Pow2(8) == 256;
    Pow2Add(8, 8);
    Pow2Values();
    hide Pow2;
    AndLowMask(v, if t == I8 then 8 else if t == I16 then 16 else 32);
  }

  /** With no transform enabled the ideal result is the reading itself. */
  lemma Unchanged(v: int, p: Props)
    requires p.shift.enabled ==> p.shift.ival >= 0
    ensures !TransformsOn(p) ==> Ideal(v, p) == Selected(v, p) == v && Selected(v, p) % Pow2(Shift(p)) == 0
  {
    assert Pow2(0) == 1;
  }

  /** Masking again changes nothing exactly when nothing was shifted out. */
  lemma Remasked(v: int, p: Props)
    requires (p.mask.enabled ==> p.mask.ival >= 0) && (p.shift.enabled ==> p.shift.ival >= 0)
    ensures var m, r := Selected(v, p), Selected(v, p) % Pow2(Shift(p));
            (if p.mask.enabled then And(m - r, p.mask.ival) else m - r) == m <==> r == 0
  {
    if p.mask.enabled {
      AndBounds(v, p.mask.ival);
      AndIdempotent(v, p.mask.ival);
      var m := And(v, p.mask.ival);
      var r := m % Pow2(Shift(p));
      hide And, Pow2;
      RemainderBelow(m, Pow2(Shift(p)));
      AndBelow(m - r, p.mask.ival);
    }
  }

  lemma RemainderBelow(m: nat, p: nat)
    requires p > 0
    ensures m % p <= m
  {
    hide *;
    var q, r := m / p, m % p;
    assert m == p * q + r;
    if q < 0 { MulAtMostMinusOne(p, q, r); }
  }

  /** A mask whose shifted-out bits are clear never loses any. */
  lemma AlignedMaskLosesNothing(v: int, p: Props)
    requires p.mask.enabled && p.mask.ival >= 0 && (p.shift.enabled ==> p.shift.ival >= 0)
    requires p.mask.ival % Pow2(Shift(p)) == 0
    ensures Selected(v, p) % Pow2(Shift(p)) == 0
  {
    AndKeepsMultiple(v, p.mask.ival, Shift(p));
  }

  // ---------------------------------------------------------------- every width, base and direction of shift

  /** The reading as the arithmetic sees it: unsigned 64-bit readings of 2^63 and more become negative. */
  function Seen(v: int): int {
    if v >= TWO_63 then v - TWO_64 else v
  }

  lemma SeenIsWrapped(t: IntType, v: int)
    requires InRange(t, v)
    ensures Wrap(v) == Seen(v)
  {
  }

  /** A right shift divides and rounds down; a left one multiplies. */
  function Shifted(x: int, k: int): int {
    if k >= 0 then x / Pow2(k) else x * Pow2(-k)
  }

  /** Mask, shift, base, scale and offset in unbounded arithmetic: each stage, in that order. */
  function Stages(v: int, p: Props, power: (int, int) -> int): (int, int, int) {
    var m := Selected(Seen(v), p);
    var x := if p.shift.enabled then Shifted(m, p.shift.ival) else m;
    var y := if p.base.enabled then power(p.base.ival, x) else x;
    (x, y * Scale(p), y * Scale(p) + Offset(p))
  }

  /** For every type, base and shift: if no stage leaves 64 bits, the outgoing result is exactly what
      the stages give, or overflow. */
  lemma OutgoingExact(t: IntType, v: int, p: Props, power: (int, int) -> int)
    requires InRange(t, v) && ShiftDefined(p)
    ensures var (x, y, z) := Stages(v, p, power);
            Fits64(x) && Fits64(y) && Fits64(z) ==>
              Outgoing(Int(t, v), p, power)
              == if !p.mask.enabled && !p.shift.enabled && !p.base.enabled && !p.scale.enabled && !p.offset.enabled
                 then Int(t, v) else Stored(t, z)
  {
    hide And, Pow2, InRange, Stored;
    SeenIsWrapped(t, v);
    var (x, y, z) := Stages(v, p, power);
    if Fits64(x) && Fits64(y) && Fits64(z) {
      WrapIsIdentity(x);
      WrapIsIdentity(y);
      WrapIsIdentity(z);
      hide Wrap;
    }
  }

  /** C's division truncates toward zero: the remainder is smaller than the divisor and has the sign of
      the dividend. */
  lemma TruncDivTruncates(a: int, b: int)
    requires b != 0
    ensures var r := a - TruncDiv(a, b) * b; Abs(r) < Abs(b) && (r != 0 ==> (r < 0 <==> a < 0))
  {
    var q, r := Abs(a) / Abs(b), Abs(a) % Abs(b);
    assert Abs(a) == Abs(b) * q + r;
    if b < 0 {
      assert Abs(b) * q == -(b * q);
    } else {
      assert Abs(b) * q == b * q;
    }
    assert q * b == b * q && (-q) * b == -(b * q);
  }

  /** Offset, scale, base, shift and mask undone in unbounded arithmetic, each stage. */
  function BackStages(v: int, p: Props, log: (int, int) -> int): (int, int, int)
    requires p.scale.enabled ==> p.scale.ival != 0
  {
    var a := Seen(v) - Offset(p);
    var b := if p.scale.enabled then TruncDiv(a, p.scale.ival) else a;
    var c := if p.base.enabled then log(p.base.ival, b) else b;
    (a, b, if p.shift.enabled then Shifted(c, -p.shift.ival) else c)
  }

  /** And so is the incoming result. */
  lemma IncomingExact(t: IntType, v: int, p: Props, log: (int, int) -> int)
    requires InRange(t, v) && ShiftDefined(p) && (p.scale.enabled ==> p.scale.ival != 0)
    ensures var (a, b, x) := BackStages(v, p, log);
            Fits64(a) && Fits64(b) && Fits64(x) ==>
              Incoming(Int(t, v), p, log)
              == if !p.mask.enabled && !p.shift.enabled && !p.base.enabled && !p.scale.enabled && !p.offset.enabled
                 then Int(t, v) else Stored(t, Selected(x, p))
  {
    hide And, Pow2, InRange, Stored, TruncDiv;
    SeenIsWrapped(t, v);
    var (a, b, x) := BackStages(v, p, log);
    if Fits64(a) && Fits64(b) && Fits64(x) {
      WrapIsIdentity(a);
      WrapIsIdentity(b);
      hide Wrap;
      if p.shift.enabled {
        ShiftIsExact(if p.base.enabled then log(p.base.ival, b) else b, p.shift.ival);
      }
      hide Shifted, ShiftLeft, ShiftRight;
    }
  }

  lemma ShiftIsExact(x: int, k: int)
    requires Fits64(Shifted(x, -k))
    ensures (if k < 0 then ShiftRight(x, -k) else ShiftLeft(x, k)) == Shifted(x, -k)
  {
    assert Pow2(0) == 1;
    hide Pow2;
    WrapIsIdentity(Shifted(x, -k));
  }

  function Width(t: IntType): nat {
    match t
    case I8 | U8 => 8
    case I16 | U16 => 16
    case I32 | U32 => 32
    case I64 | U64 => 64
  }

  /** The ranges are those of two's complement: all the bits of the width, from zero for an unsigned
      type and from half as far below zero for a signed one. */
  lemma Ranges(t: IntType, v: int)
    ensures InRange(t, v) <==>
            if t.U8? || t.U16? || t.U32? || t.U64? then 0 <= v < Pow2(Width(t))
            else 0 <= 2 * v + Pow2(Width(t)) < 2 * Pow2(Width(t))
  {
    assert Pow2(8) == 256;
    hide Pow2;
    Pow2Add(8, 8);
    Pow2Values();
  }
}
