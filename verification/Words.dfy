/** Machine integers and the bitwise operations of the C sources, on naturals.

    A word is the natural number its bits spell; `>>` and `<<` are division and
    multiplication by a power of two. Working on naturals lets the codec lemmas hold
    for any number of groups instead of one machine width. */
module Words {
  const TWO8 := 0x100
  const TWO16 := 0x1_0000
  const TWO32 := 0x1_0000_0000
  const TWO63 := 0x8000_0000_0000_0000
  const TWO64 := 0x1_0000_0000_0000_0000

  type U8 = x: int | 0 <= x < 0x100
  type U16 = x: int | 0 <= x < 0x1_0000
  type U32 = x: int | 0 <= x < 0x1_0000_0000
  type U64 = x: int | 0 <= x < 0x1_0000_0000_0000_0000

  function Min(a: nat, b: nat): nat {
    if a <= b then a else b
  }

  /** One more on a 32-bit counter, which wraps. */
  function Increment(c: U32): U32 {
    if c == TWO32 - 1 then 0 else c + 1
  }

  lemma IncrementIs(total: nat)
    ensures Increment(total % TWO32) == (total + 1) % TWO32
  {
  }

  /** `b` to the power `e`. */
  function Pow(b: nat, e: nat): nat {
    if e == 0 then 1 else b * Pow(b, e - 1)
  }

  lemma {:induction false} PowPositive(b: nat, e: nat)
    requires b > 0
    ensures Pow(b, e) > 0
  {
    if e > 0 {
      PowPositive(b, e - 1);
    }
  }

  lemma DivDiv(a: nat, m: nat, b: nat)
    requires m > 0 && b > 0
    ensures b * m > 0 && a / (b * m) == a / m / b
  {
    var q, r := a / m, a % m;
    assert a == m * q + r;
    MixedRadix(m, b, q, r);
    DivUnique(a, b * m, q / b, m * (q % b) + r);
  }

  lemma MixedRadix(m: nat, b: nat, q: nat, r: nat)
    requires r < m && b > 0
    ensures b * m > 0 && 0 <= m * (q % b) + r < b * m
    ensures m * q + r == (b * m) * (q / b) + (m * (q % b) + r)
  {
    var hi, lo := q / b, q % b;
    assert q == b * hi + lo;
    Distribute(m, b, hi, lo);
    MulOrder(m, lo, b - 1);
    assert m * (b - 1) == b * m - m;
  }

  lemma Distribute(m: nat, b: nat, hi: nat, lo: nat)
    ensures m * (b * hi + lo) == (b * m) * hi + m * lo
  {
    assert m * (b * hi) == (b * m) * hi;
  }

  lemma MulOrder(m: nat, x: nat, y: nat)
    requires x <= y
    ensures m * x <= m * y
  {
  }

  lemma DivUnique(a: int, m: int, q: int, r: int)
    requires m > 0 && a == m * q + r && 0 <= r < m
    ensures a / m == q && a % m == r
  {
    var d := a / m - q;
    assert m * (a / m) - m * q == m * d;
    assert -m < m * d < m;
    assert d == 0;
  }

  // ---------------- Bitwise operations ----------------

  /** Number of set bits. */
  function Pop(a: nat): nat {
    if a == 0 then 0 else a % 2 + Pop(a / 2)
  }

  function Or(a: nat, b: nat): nat
    decreases a + b
  {
    if a == 0 && b == 0 then 0
    else (if a % 2 == 1 || b % 2 == 1 then 1 else 0) + 2 * Or(a / 2, b / 2)
  }

  function And(a: nat, b: nat): nat {
    if a == 0 then 0
    else (if a % 2 == 1 && b % 2 == 1 then 1 else 0) + 2 * And(a / 2, b / 2)
  }

  function Xor(a: nat, b: nat): nat
    decreases a + b
  {
    if a == 0 && b == 0 then 0
    else (if a % 2 == b % 2 then 0 else 1) + 2 * Xor(a / 2, b / 2)
  }

  /** Every bit set in `a` is set in `b`. */
  predicate SubMask(a: nat, b: nat) {
    a == 0 || (a % 2 <= b % 2 && SubMask(a / 2, b / 2))
  }

  lemma {:induction false} PopZero(a: nat)
    ensures Pop(a) == 0 <==> a == 0
  {
    if a != 0 {
      PopZero(a / 2);
    }
  }

  lemma {:induction false} SubMaskReflexive(a: nat)
    ensures SubMask(a, a)
  {
    if a != 0 {
      SubMaskReflexive(a / 2);
    }
  }

  lemma {:induction false} SubMaskTransitive(a: nat, b: nat, c: nat)
    requires SubMask(a, b) && SubMask(b, c)
    ensures SubMask(a, c)
  {
    if a != 0 {
      SubMaskTransitive(a / 2, b / 2, c / 2);
    }
  }

  /** A sub-mask is no larger, has no more set bits, and is the whole mask as soon as
      it has as many. */
  lemma {:induction false} SubMaskPop(a: nat, b: nat)
    requires SubMask(a, b)
    ensures a <= b && Pop(a) <= Pop(b)
    ensures Pop(a) == Pop(b) ==> a == b
  {
    if a == 0 {
      PopZero(b);
    } else {
      SubMaskPop(a / 2, b / 2);
    }
  }

  /** Exclusive-or keeps the parity of the number of set bits. */
  lemma {:induction false} XorParity(a: nat, b: nat)
    ensures Pop(Xor(a, b)) % 2 == (Pop(a) + Pop(b)) % 2
    decreases a + b
  {
    if a != 0 || b != 0 {
      XorParity(a / 2, b / 2);
      PopHalves(a);
      PopHalves(b);
      XorHalves(a, b);
      PopHalves(Xor(a, b));
      ParityStep(a % 2, b % 2, Pop(a / 2), Pop(b / 2), Pop(Xor(a / 2, b / 2)));
    }
  }

  lemma ParityStep(x: nat, y: nat, pa: nat, pb: nat, px: nat)
    requires x < 2 && y < 2 && px % 2 == (pa + pb) % 2
    ensures ((if x == y then 0 else 1) + px) % 2 == (x + pa + (y + pb)) % 2
  {
  }

  lemma PopHalves(a: nat)
    ensures Pop(a) == a % 2 + Pop(a / 2)
  {
  }

  lemma XorHalves(a: nat, b: nat)
    ensures Xor(a, b) / 2 == Xor(a / 2, b / 2)
    ensures Xor(a, b) % 2 == if a % 2 == b % 2 then 0 else 1
  {
  }

  /** Line `i` of a word. */
  predicate IsHigh(a: nat, i: nat) {
    if i == 0 then a % 2 == 1 else IsHigh(a / 2, i - 1)
  }

  /** Exclusive-or is decided line by line. */
  lemma {:induction false} XorLine(a: nat, b: nat, i: nat)
    ensures IsHigh(Xor(a, b), i) <==> IsHigh(a, i) != IsHigh(b, i)
  {
    XorHalves(a, b);
    if i > 0 {
      XorLine(a / 2, b / 2, i - 1);
    }
  }

  /** Words with the same lines are the same. */
  lemma {:induction false} SameLines(a: nat, b: nat)
    requires forall i: nat :: IsHigh(a, i) <==> IsHigh(b, i)
    ensures a == b
    decreases a + b
  {
    assert IsHigh(a, 0) <==> IsHigh(b, 0);
    if a != 0 || b != 0 {
      forall i: nat ensures IsHigh(a / 2, i) <==> IsHigh(b / 2, i) {
        assert IsHigh(a, i + 1) <==> IsHigh(b, i + 1);
      }
      SameLines(a / 2, b / 2);
    }
  }

  lemma XorTwice(a: nat, b: nat)
    ensures Xor(Xor(a, b), b) == a && Xor(a, Xor(a, b)) == b
  {
    forall i: nat ensures IsHigh(Xor(Xor(a, b), b), i) <==> IsHigh(a, i) {
      XorLine(Xor(a, b), b, i);
      XorLine(a, b, i);
    }
    SameLines(Xor(Xor(a, b), b), a);
    forall i: nat ensures IsHigh(Xor(a, Xor(a, b)), i) <==> IsHigh(b, i) {
      XorLine(a, Xor(a, b), i);
      XorLine(a, b, i);
    }
    SameLines(Xor(a, Xor(a, b)), b);
  }

  // ---------------- Four-line groups ----------------

  /** Four halvings are one division by 16, and the bits they shed are the low group. */
  lemma Halvings(a: nat)
    ensures a / 2 / 2 / 2 / 2 == a / 16
    ensures a % 16 / 2 / 2 / 2 / 2 == 0
    ensures a % 16 % 2 == a % 2
    ensures a % 16 / 2 % 2 == a / 2 % 2
    ensures a % 16 / 2 / 2 % 2 == a / 2 / 2 % 2
    ensures a % 16 / 2 / 2 / 2 % 2 == a / 2 / 2 / 2 % 2
  {
  }

  lemma FromHalvings(a: nat)
    ensures a % 16 == a % 2 + 2 * (a / 2 % 2) + 4 * (a / 2 / 2 % 2) + 8 * (a / 2 / 2 / 2 % 2)
  {
    var b, c, d := a / 2, a / 2 / 2, a / 2 / 2 / 2;
    var low := a % 2 + 2 * (b % 2) + 4 * (c % 2) + 8 * (d % 2);
    assert a == 2 * b + a % 2 && b == 2 * c + b % 2 && c == 2 * d + c % 2 && d == 2 * (d / 2) + d % 2;
    DivUnique(a, 16, d / 2, low);
  }

  lemma PopFour(a: nat)
    ensures Pop(a) == a % 2 + a / 2 % 2 + a / 2 / 2 % 2 + a / 2 / 2 / 2 % 2 + Pop(a / 2 / 2 / 2 / 2)
  {
    PopHalves(a);
    PopHalves(a / 2);
    PopHalves(a / 2 / 2);
    PopHalves(a / 2 / 2 / 2);
  }

  lemma PopGroup(a: nat)
    ensures Pop(a) == Pop(a % 16) + Pop(a / 16)
  {
    PopFour(a);
    PopFour(a % 16);
    Halvings(a);
    PopZero(0);
  }

  lemma XorGroup(a: nat, b: nat)
    ensures Xor(a, b) % 16 == Xor(a % 16, b % 16)
    ensures Xor(a, b) / 16 == Xor(a / 16, b / 16)
  {
    var x, y := Xor(a, b), Xor(a % 16, b % 16);
    XorFour(a, b);
    XorFour(a % 16, b % 16);
    Halvings(a);
    Halvings(b);
    Halvings(x);
    Halvings(y);
    FromHalvings(x);
    FromHalvings(y);
    assert y / 16 == Xor(0, 0) == 0;
  }

  ghost predicate XorBit(x: nat, a: nat, b: nat) {
    x % 2 == if a % 2 == b % 2 then 0 else 1
  }

  lemma XorFour(a: nat, b: nat)
    ensures var x := Xor(a, b);
      && XorBit(x, a, b)
      && XorBit(x / 2, a / 2, b / 2)
      && XorBit(x / 2 / 2, a / 2 / 2, b / 2 / 2)
      && XorBit(x / 2 / 2 / 2, a / 2 / 2 / 2, b / 2 / 2 / 2)
      && x / 2 / 2 / 2 / 2 == Xor(a / 2 / 2 / 2 / 2, b / 2 / 2 / 2 / 2)
  {
    XorHalves(a, b);
    XorHalves(a / 2, b / 2);
    XorHalves(a / 2 / 2, b / 2 / 2);
    XorHalves(a / 2 / 2 / 2, b / 2 / 2 / 2);
  }

  /** Exclusive-or of words below a power of 16 stays below it. */
  lemma {:induction false} XorBelow(a: nat, b: nat, n: nat)
    requires a < Pow(16, n) && b < Pow(16, n)
    ensures Xor(a, b) < Pow(16, n)
  {
    if n > 0 {
      XorBelow(a / 16, b / 16, n - 1);
      XorGroup(a, b);
    }
  }

  /** Or-ing in a field above everything already set is adding it. */
  lemma {:induction false} OrAbove(a: nat, s: nat, e: nat)
    requires a < Pow(2, e)
    ensures Or(a, s * Pow(2, e)) == a + s * Pow(2, e)
  {
    if e == 0 {
      OrZero(s);
    } else {
      var hi := s * Pow(2, e - 1);
      assert s * Pow(2, e) == 2 * hi by {
        assert s * (2 * Pow(2, e - 1)) == 2 * (s * Pow(2, e - 1));
      }
      OrAbove(a / 2, s, e - 1);
      OrHalves(a, 2 * hi);
    }
  }

  lemma {:induction false} OrZero(s: nat)
    ensures Or(0, s) == s
  {
    if s > 0 {
      OrZero(s / 2);
    }
  }

  lemma OrHalves(a: nat, b: nat)
    ensures Or(a, b) == (if a % 2 == 1 || b % 2 == 1 then 1 else 0) + 2 * Or(a / 2, b / 2)
  {
  }

  lemma {:induction false} Pow4Is(e: nat)
    ensures Pow(4, e) == Pow(2, 2 * e)
  {
    if e > 0 {
      Pow4Is(e - 1);
      assert Pow(2, 2 * e) == 2 * (2 * Pow(2, 2 * e - 2));
    }
  }

  lemma {:induction false} Pow16Is(e: nat)
    ensures Pow(16, e) == Pow(2, 4 * e)
  {
    if e > 0 {
      Pow16Is(e - 1);
      assert Pow(2, 4 * e) == 2 * (2 * (2 * (2 * Pow(2, 4 * e - 4)))) by {
        assert Pow(2, 4 * e) == 2 * Pow(2, 4 * e - 1);
        assert Pow(2, 4 * e - 1) == 2 * Pow(2, 4 * e - 2);
        assert Pow(2, 4 * e - 2) == 2 * Pow(2, 4 * e - 3);
        assert Pow(2, 4 * e - 3) == 2 * Pow(2, 4 * e - 4);
      }
    }
  }
}
