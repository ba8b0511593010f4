/** Two's-complement bit operations on unbounded integers, as the C operators `&`, `|`, `<<`
    and `>>` compute them, and the arithmetic they amount to. */
module Bits {

  function Pow2(k: nat): (r: nat)
    ensures r > 0
  {
    if k == 0 then 1 else 2 * Pow2(k - 1)
  }

  function Magnitude(x: int): nat {
    if x < 0 then -1 - x else x
  }

  /** C's `x & y` on two's-complement integers of any common width. */
  function And(x: int, y: int): int
    decreases Magnitude(x) + Magnitude(y)
  {
    if x == 0 || y == 0 then 0
    else if x == -1 then y
    else if y == -1 then x
    else 2 * And(x / 2, y / 2) + (if x % 2 == 1 && y % 2 == 1 then 1 else 0)
  }

  /** C's `x | y` on unsigned integers. */
  function Or(x: nat, y: nat): nat {
    if x == 0 then y
    else if y == 0 then x
    else 2 * Or(x / 2, y / 2) + (if x % 2 + y % 2 == 0 then 0 else 1)
  }

  /** C's `x ^ y` on unsigned integers. */
  function Xor(x: nat, y: nat): nat
    decreases x + y
  {
    if x == 0 then y
    else if y == 0 then x
    else 2 * Xor(x / 2, y / 2) + (x + y) % 2
  }

  lemma {:induction false} XorBound(x: nat, y: nat, k: nat)
    requires x < Pow2(k) && y < Pow2(k)
    ensures Xor(x, y) < Pow2(k)
    decreases k
  {
    if k > 0 {
      XorBound(x / 2, y / 2, k - 1);
    }
  }

  /** The shortcuts in `And` are only there for termination: it is bitwise at every integer. */
  lemma {:induction false} AndStep(x: int, y: int)
    ensures And(x, y) == 2 * And(x / 2, y / 2) + (if x % 2 == 1 && y % 2 == 1 then 1 else 0)
  {
  }

  lemma OrStep(x: nat, y: nat)
    ensures Or(x, y) == 2 * Or(x / 2, y / 2) + (if x % 2 + y % 2 == 0 then 0 else 1)
  {
  }

  lemma {:induction false} Pow2Add(a: nat, b: nat)
    ensures Pow2(a + b) == Pow2(a) * Pow2(b)
  {
    if a > 0 { Pow2Add(a - 1, b); }
  }

  lemma Pow2Values()
    ensures Pow2(31) == 0x8000_0000 && Pow2(32) == 0x1_0000_0000
    ensures Pow2(63) == 0x8000_0000_0000_0000 && Pow2(64) == 0x1_0000_0000_0000_0000
  {
    assert Pow2(8) == 256;
    Pow2Add(8, 8); Pow2Add(16, 16); Pow2Add(32, 32);
  }

  lemma {:induction false} Pow2Monotone(a: nat, b: nat)
    requires a <= b
    ensures Pow2(a) <= Pow2(b)
  {
    if a < b { Pow2Monotone(a, b - 1); }
  }

  lemma {:induction false} AndBounds(x: int, m: nat)
    ensures 0 <= And(x, m) <= m
    decreases m
  {
    if m > 0 {
      AndStep(x, m);
      AndBounds(x / 2, m / 2);
    }
  }

  /** `x & (2^k - 1)` is the remainder by 2^k, for negative `x` as well. */
  lemma {:induction false} AndLowMask(x: int, k: nat)
    ensures And(x, Pow2(k) - 1) == x % Pow2(k)
    decreases k
  {
    if k > 0 {
      AndOddDouble(x, Pow2(k - 1) - 1);
      AndLowMask(x / 2, k - 1);
      hide And;
      ModTwice(x, Pow2(k - 1));
    }
  }

  lemma ModTwice(x: int, p: nat)
    requires p > 0
    ensures x % (2 * p) == 2 * ((x / 2) % p) + x % 2
  {
    var q, r := x / 2 / p, (x / 2) % p;
    assert x == 2 * (p * q + r) + x % 2;
    assert x == (2 * p) * q + (2 * r + x % 2) by { assert 2 * (p * q) == (2 * p) * q; }
    DivModUnique(x, 2 * p, q, 2 * r + x % 2);
  }

  lemma DivModUnique(x: int, d: nat, q: int, r: int)
    requires d > 0 && 0 <= r < d && x == d * q + r
    ensures x / d == q && x % d == r
  {
    var q', r' := x / d, x % d;
    assert x == d * q' + r' && 0 <= r' < d;
    if q > q' {
      MulAtLeast(d, q - q');
    } else if q < q' {
      MulAtLeast(d, q' - q);
    }
  }

  lemma DivBelow(x: nat, d: nat, q: nat)
    requires d > 0 && x < d * q
    ensures x / d < q
  {
    if x / d >= q {
      MulMonotone(d, q, x / d);
    }
  }

  lemma MulMonotone(d: nat, a: nat, b: nat)
    requires a <= b
    ensures d * a <= d * b
  {
  }

  lemma MulAtLeast(d: nat, n: nat)
    requires n > 0
    ensures d * n >= d
  {
  }

  /** Masking with shifted-up bits looks only at the bits above the shift. */
  lemma {:induction false} AndHighMask(x: int, m: nat, k: nat)
    ensures And(x, m * Pow2(k)) == And(x / Pow2(k), m) * Pow2(k)
    decreases k
  {
    if k > 0 {
      hide And;
      var p := Pow2(k - 1);
      MulDouble(m, p);
      AndDouble(x, m * p);
      AndHighMask(x / 2, m, k - 1);
      DivTwice(x, p);
      MulDouble(And(x / (2 * p), m), p);
    }
  }

  lemma AndDouble(x: int, n: nat)
    ensures And(x, 2 * n) == 2 * And(x / 2, n)
  {
    AndStep(x, 2 * n);
  }

  lemma AndOddDouble(x: int, n: nat)
    ensures And(x, 2 * n + 1) == 2 * And(x / 2, n) + x % 2
  {
    AndStep(x, 2 * n + 1);
  }

  lemma OrDouble(n: nat, y: nat)
    ensures Or(2 * n, y) == 2 * Or(n, y / 2) + y % 2
  {
    hide Or;
    OrStep(2 * n, y);
  }

  lemma MulDouble(a: int, b: int)
    ensures a * (2 * b) == 2 * (a * b)
  {
  }

  lemma DivTwice(x: int, p: nat)
    requires p > 0
    ensures x / 2 / p == x / (2 * p)
  {
    var q, r := x / 2 / p, (x / 2) % p;
    assert x == (2 * p) * q + (2 * r + x % 2) by { assert 2 * (p * q) == (2 * p) * q; }
    DivModUnique(x, 2 * p, q, 2 * r + x % 2);
  }

  /** `|` of bits above and bits below position k is addition. */
  lemma {:induction false} OrDisjoint(x: nat, y: nat, k: nat)
    requires y < Pow2(k)
    ensures Or(x * Pow2(k), y) == x * Pow2(k) + y
  {
    if k > 0 {
      MulDouble(x, Pow2(k - 1));
      OrDouble(x * Pow2(k - 1), y);
      OrDisjoint(x, y / 2, k - 1);
      hide Or;
    }
  }

  lemma {:induction false} OrCommutes(x: nat, y: nat)
    ensures Or(x, y) == Or(y, x)
    decreases x + y
  {
    if x + y > 0 {
      OrCommutes(x / 2, y / 2);
      OrStep(x, y);
      OrStep(y, x);
    }
  }

  /** `(x & mask) | tag`. */
  function Tagged(x: int, mask: nat, tag: nat): nat {
    AndBounds(x, mask);
    Or(And(x, mask), tag)
  }

  /** Tagging the low k bits, with a tag that leaves them clear. */
  lemma TaggedLowBits(x: int, tag: nat, k: nat)
    ensures Tagged(x, Pow2(k) - 1, tag * Pow2(k)) == x % Pow2(k) + tag * Pow2(k)
  {
    hide And, Or;
    AndLowMask(x, k);
    OrDisjoint(tag, x % Pow2(k), k);
    OrCommutes(x % Pow2(k), tag * Pow2(k));
  }

  lemma {:induction false} AndIdempotent(x: int, m: nat)
    ensures And(And(x, m), m) == And(x, m)
    decreases m
  {
    AndBounds(x, m);
    if m > 0 {
      AndIdempotent(x / 2, m / 2);
      AndHalves(x, m);
      AndHalves(And(x, m), m);
      hide And;
    }
  }

  /** The low bit and the rest of a conjunction, separately. */
  lemma AndHalves(x: int, y: int)
    ensures And(x, y) / 2 == And(x / 2, y / 2)
    ensures And(x, y) % 2 == if x % 2 == 1 && y % 2 == 1 then 1 else 0
  {
    AndStep(x, y);
  }

  lemma OrHalves(x: nat, y: nat)
    ensures Or(x, y) / 2 == Or(x / 2, y / 2)
    ensures Or(x, y) % 2 == if x % 2 == 1 || y % 2 == 1 then 1 else 0
  {
    OrStep(x, y);
  }

  lemma {:induction false} AndBelow(x: nat, m: nat)
    ensures And(x, m) <= x
    decreases m
  {
    if m > 0 {
      AndBelow(x / 2, m / 2);
      AndHalves(x, m);
    }
  }

  /** A mask without bits below k selects a multiple of 2^k. */
  lemma AndKeepsMultiple(x: int, m: nat, k: nat)
    requires m % Pow2(k) == 0
    ensures And(x, m) % Pow2(k) == 0
  {
    hide And, Pow2;
    var p := Pow2(k);
    var q, a := m / p, And(x / p, m / p);
    assert m == q * p;
    AndHighMask(x, q, k);
    AndBounds(x / p, q);
    DivModUnique(p * a, p, a, 0);
    assert a * p == p * a;
  }

  /** Sign-extending from k bits does not change what a k-bit mask selects. */
  lemma {:induction false} AndSignExtended(x: int, m: nat, k: nat)
    requires m < Pow2(k)
    ensures And(x - Pow2(k), m) == And(x, m)
    decreases k
  {
    if k > 0 {
      AndSignExtended(x / 2, m / 2, k - 1);
      AndHalves(x, m);
      AndHalves(x - Pow2(k), m);
      hide And;
    } else {
      assert m == 0;
    }
  }

  lemma AndCons(x: int, a: int, y: int, b: int)
    requires 0 <= a <= 1 && 0 <= b <= 1
    ensures And(2 * x + a, 2 * y + b) == 2 * And(x, y) + (if a == 1 && b == 1 then 1 else 0)
  {
    hide And;
    AndStep(2 * x + a, 2 * y + b);
    assert (2 * x + a) / 2 == x && (2 * y + b) / 2 == y;
  }

  lemma OrCons(x: nat, a: int, y: nat, b: int)
    requires 0 <= a <= 1 && 0 <= b <= 1
    ensures Or(2 * x + a, 2 * y + b) == 2 * Or(x, y) + (if a == 1 || b == 1 then 1 else 0)
  {
    hide Or;
    OrStep(2 * x + a, 2 * y + b);
    assert (2 * x + a) / 2 == x && (2 * y + b) / 2 == y;
  }

  /** C's `(d & ~m) | w` at k bits. */
  function Replaced(d: nat, m: nat, w: nat, k: nat): nat
    requires m < Pow2(k)
  {
    AndBounds(d, Pow2(k) - 1 - m);
    Or(And(d, Pow2(k) - 1 - m), w)
  }

  lemma ReplacedCons(d: nat, db: int, m: nat, mb: int, w: nat, wb: int, k: nat)
    requires 0 <= db <= 1 && 0 <= mb <= 1 && 0 <= wb <= 1 && m < Pow2(k)
    ensures Replaced(2 * d + db, 2 * m + mb, 2 * w + wb, k + 1)
            == 2 * Replaced(d, m, w, k) + (if wb == 1 || (db == 1 && mb == 0) then 1 else 0)
  {
    hide And, Or;
    var c := Pow2(k) - 1 - m;
    assert Pow2(k + 1) - 1 - (2 * m + mb) == 2 * c + (1 - mb);
    AndCons(d, db, c, 1 - mb);
    AndBounds(d, c);
    OrCons(And(d, c), if db == 1 && mb == 0 then 1 else 0, w, wb);
  }

  /** Clearing a field's bits with the complement of its mask and or-ing in a value within the mask
      sets the field and leaves every disjoint mask's bits alone. */
  lemma {:induction false} FieldWrite(d: nat, m: nat, w: nat, g: nat, k: nat)
    requires d < Pow2(k) && m < Pow2(k) && w < Pow2(k) && g < Pow2(k)
    requires And(w, m) == w && And(m, g) == 0
    ensures And(Replaced(d, m, w, k), m) == w
    ensures And(Replaced(d, m, w, k), g) == And(d, g)
    decreases k
  {
    hide And, Or, Replaced;
    if k == 0 {
      AndZero(Replaced(d, m, w, k)); AndZero(d);
    } else {
      var d', db, m', mb := d / 2, d % 2, m / 2, m % 2;
      var w', wb, g', gb := w / 2, w % 2, g / 2, g % 2;
      AndCons(w', wb, m', mb);
      AndCons(m', mb, g', gb);
      FieldWrite(d', m', w', g', k - 1);
      var r := Replaced(d', m', w', k - 1);
      var rb := if wb == 1 || (db == 1 && mb == 0) then 1 else 0;
      ReplacedCons(d', db, m', mb, w', wb, k - 1);
      AndCons(r, rb, m', mb);
      AndCons(r, rb, g', gb);
      AndCons(d', db, g', gb);
    }
  }

  lemma AndZero(x: int)
    ensures And(x, 0) == 0 && And(0, x) == 0
  {
  }

  /** Low bits that are clear stay clear under a mask. */
  lemma {:induction false} AndOfMultiple(x: int, m: nat, k: nat)
    requires x % Pow2(k) == 0
    ensures And(x, m) % Pow2(k) == 0
    decreases k
  {
    if k > 0 {
      var p := Pow2(k - 1);
      ModTwice(x, p);
      ModTwice(And(x, m), p);
      AndHalves(x, m);
      hide And, Pow2;
      AndOfMultiple(x / 2, m / 2, k - 1);
    }
  }

  /** `~` on 64 bits, held as an unsigned number. */
  function Complement64(x: int): (r: nat)
    ensures 0 <= x < 0x1_0000_0000_0000_0000 ==> r == 0x1_0000_0000_0000_0000 - 1 - x
  {
    (-1 - x) % 0x1_0000_0000_0000_0000
  }

  /** A mask and its complement share no bit and have every bit between them. */
  lemma {:induction false} ComplementSplits(m: nat, k: nat)
    requires m < Pow2(k)
    ensures And(Pow2(k) - 1 - m, m) == 0 && Or(Pow2(k) - 1 - m, m) == Pow2(k) - 1
    decreases k
  {
    if k > 0 {
      var p := Pow2(k - 1);
      var c := 2 * p - 1 - m;
      ComplementSplits(m / 2, k - 1);
      AndStep(c, m);
      OrStep(c, m);
      hide And, Or, Pow2;
      assert c / 2 == p - 1 - m / 2 && c % 2 == 1 - m % 2;
    }
  }

  lemma Complement64Splits(x: int)
    ensures var m := x % 0x1_0000_0000_0000_0000;
            And(Complement64(x), m) == 0 && Or(Complement64(x), m) == 0xFFFF_FFFF_FFFF_FFFF
  {
    hide And, Or;
    Pow2Values();
    hide Pow2;
    ComplementSplits(x % 0x1_0000_0000_0000_0000, 64);
  }
}
