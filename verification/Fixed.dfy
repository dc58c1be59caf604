/**
  I80F48 fixed point (include/fixedp.h): 128-bit integers scaled by 2^48, with the
  multiplication and division that are used when there is no wider type.
 */
module Fixed {
  import opened Bits
  import opened Numerals

  const ONE: int := 0x1_0000_0000_0000 // 2^48
  const LOW_LIMIT: int := 0x1_0000_0000_0000_0000_0000 // 2^80
  const I128_LIMIT: int := 0x8000_0000_0000_0000_0000_0000_0000_0000 // 2^127
  const U128_LIMIT: int := 0x1_0000_0000_0000_0000_0000_0000_0000_0000 // 2^128

  type U128 = n: int | 0 <= n < 0x1_0000_0000_0000_0000_0000_0000_0000_0000

  predicate IsI128(x: int) {
    -I128_LIMIT <= x < I128_LIMIT
  }

  function Abs(x: int): (r: int)
    ensures r >= 0
  {
    if x < 0 then -x else x
  }

  // ----- 128 bits -----

  /** The signed number with the given 128 bits. */
  function ToSigned(u: nat): (x: int)
    ensures u < U128_LIMIT ==> IsI128(x)
  {
    if u < I128_LIMIT then u else u - U128_LIMIT
  }

  /** What 128 signed bits keep of a result. */
  function Wrapped(x: int): (r: int)
    ensures IsI128(r) && (r == x <==> IsI128(x))
  {
    ToSigned(x % 0x1_0000_0000_0000_0000_0000_0000_0000_0000)
  }

  /** Wrapping drops a multiple of 2^128, and only that. */
  lemma WrapDrops(x: int) returns (k: int)
    ensures Wrapped(x) == x + k * U128_LIMIT
  {
    k := -(x / 0x1_0000_0000_0000_0000_0000_0000_0000_0000);
    if Wrapped(x) < 0 {
      k := k - 1;
    }
  }

  lemma WrapIgnores(x: int, k: int)
    ensures Wrapped(x + k * U128_LIMIT) == Wrapped(x)
  {
  }

  lemma WrapLeft(x: int, y: int)
    ensures Wrapped(Wrapped(x) + y) == Wrapped(x + y)
  {
    hide Wrapped;
    var k := WrapDrops(x);
    WrapIgnores(x + y, k);
  }

  lemma WrapSum(x: int, y: int)
    ensures Wrapped(Wrapped(x) + Wrapped(y)) == Wrapped(x + y)
  {
    hide Wrapped;
    WrapLeft(x, Wrapped(y));
    WrapLeft(y, x);
  }

  lemma WrapNegated(x: int)
    ensures Wrapped(-Wrapped(x)) == Wrapped(-x)
  {
    hide Wrapped;
    var k := WrapDrops(x);
    WrapIgnores(-x, -k);
  }

  lemma WrapScale(x: int)
    ensures Wrapped(Wrapped(x) * ONE) == Wrapped(x * ONE)
  {
    hide Wrapped;
    var k := WrapDrops(x);
    WrapIgnores(x * ONE, k * ONE);
  }

  // ----- Division -----

  datatype DivideResult = Quotient(raw: int) | DivideByZero

  /** The low 48 bits of a quotient, from a remainder and divisor cut to fit 128 bits. */
  function LowBits(l1: nat, l2: nat): nat
    requires l1 <= l2 && l2 > 0
  {
    if l1 >= LOW_LIMIT then LowBits(l1 / 2, l2 / 2) else Quot(l1 * ONE, l2)
  }

  /** The magnitude that division puts together, in 128 unsigned bits. */
  function Magnitude(n: nat, d: nat): nat
    requires d > 0
  {
    Or(Shl(Quot(n, d), 48) % 0x1_0000_0000_0000_0000_0000_0000_0000_0000, LowBits(Rem(n, d), d))
  }

  function Divided(a: int, b: int): int
    requires b != 0
  {
    var q := ToSigned(Magnitude(Abs(a), Abs(b)));
    if (a < 0) != (b < 0) then Wrapped(-q) else q
  }

  /** Doubles the divisor until it exceeds n or its top bit is set. */
  method Align(n: U128, d0: U128) returns (x: U128, d: U128, ghost k: nat)
    requires 0 < d0 && n <= I128_LIMIT
    ensures x == Pow(2, k) && d == Shl(d0, k) && (n < d || n == d == I128_LIMIT)
  {
    x, d, k := 1, d0, 0;
    while n >= d && d < I128_LIMIT
      invariant x == Pow(2, k) && d == Shl(d0, k) && x <= d
      decreases n - d
    {
      x := x * 2;
      d := d * 2;
      k := k + 1;
    }
  }

  /** The Egyptian division loop. */
  method Subtract(n0: U128, d0: U128, x0: U128, e0: U128, ghost k0: nat) returns (n: U128, answer: U128)
    requires 0 < d0 && x0 == Pow(2, k0) && e0 == Shl(d0, k0) && n0 < 2 * (e0 as int)
    ensures answer == Quot(n0, d0) && n == Rem(n0, d0)
  {
    var x, d := x0, e0;
    n, answer := n0, 0;
    ghost var k: int := k0;
    while x != 0
      invariant k >= -1
      invariant if k >= 0 then x == Pow(2, k) && d == Shl(d0, k) && n < 2 * (d as int) else x == 0 && n < d0
      invariant answer * d0 + n == n0
      decreases x
    {
      if n >= d {
        Taken(answer, x, d0, k);
        Within(answer + x, d0, n0);
        n := n - d;
        answer := answer + x;
      }
      Halved(d0, k);
      x := x / 2;
      d := d / 2;
      k := k - 1;
    }
    DivisionUnique(n0, d0, answer, n);
  }

  lemma Taken(answer: nat, x: nat, d0: nat, k: nat)
    requires x == Pow(2, k)
    ensures (answer + x) * d0 == answer * d0 + Shl(d0, k)
  {
    ShlIsProduct(d0, k);
  }

  lemma Within(a: nat, d: nat, n: nat)
    requires d > 0
    ensures a * d <= n ==> a <= n
  {
    MulMono(a, 1, d);
  }

  lemma Halved(d0: nat, k: nat)
    ensures k == 0 ==> Pow(2, k) / 2 == 0 && Shl(d0, k) == d0
    ensures k > 0 ==> Pow(2, k) / 2 == Pow(2, k - 1) && Shl(d0, k) == 2 * Shl(d0, k - 1)
  {
  }

  /** divide */
  method Divide(numerator: int, denominator: int) returns (r: DivideResult)
    requires IsI128(numerator) && IsI128(denominator)
    ensures r == if denominator == 0 then DivideByZero else Quotient(Divided(numerator, denominator))
    ensures r.Quotient? ==> IsI128(r.raw)
  {
    if denominator == 0 {
      return DivideByZero;
    }
    var sign := false;
    var num, den := numerator, denominator;
    if num < 0 {
      sign := !sign;
      num := Wrapped(-num);
    }
    if den < 0 {
      sign := !sign;
      den := Wrapped(-den);
    }
    AbsoluteBits(numerator);
    AbsoluteBits(denominator);
    var n0: U128, d0: U128 := ToUnsigned(num), ToUnsigned(den);
    var x, d, k := Align(n0, d0);
    var n, answer := Subtract(n0, d0, x, d, k);
    var lo := LowQuotient(n, d0);
    var bits := Or(Shl(answer, 48) % 0x1_0000_0000_0000_0000_0000_0000_0000_0000, lo);
    BitsFit(Shl(answer, 48), lo);
    var quotient := ToSigned(bits);
    if sign {
      quotient := Wrapped(-quotient);
    }
    return Quotient(quotient);
  }

  method LowQuotient(n: U128, den: U128) returns (lo: U128)
    requires n < den
    ensures lo == LowBits(n, den) && lo <= ONE
  {
    var l1: U128, l2: U128 := n, den;
    while l1 >= LOW_LIMIT
      invariant l1 <= l2 && l2 > 0
      invariant LowBits(l1, l2) == LowBits(n, den)
    {
      l1 := l1 / 2;
      l2 := l2 / 2;
    }
    var shifted: U128 := (l1 as int) * ONE;
    QuotRem(shifted, l2);
    AtMostOne(l1, l2);
    lo := shifted / l2;
  }

  /** The 128 bits of a signed number; after its negation they hold the absolute value, even of -2^127. */
  function ToUnsigned(x: int): (u: U128) {
    x % 0x1_0000_0000_0000_0000_0000_0000_0000_0000
  }

  lemma AbsoluteBits(x: int)
    requires IsI128(x)
    ensures ToUnsigned(if x < 0 then Wrapped(-x) else x) == Abs(x)
  {
  }

  lemma BitsFit(high: nat, lo: nat)
    requires lo <= ONE
    ensures Or(high % 0x1_0000_0000_0000_0000_0000_0000_0000_0000, lo) < U128_LIMIT
  {
    hide Or, Pow;
    PowersOfTwo();
    PowAdd(2, 32, 32);
    PowAdd(2, 64, 64);
    OrBelow(high % 0x1_0000_0000_0000_0000_0000_0000_0000_0000, lo, 128);
  }

  // ----- What division computes -----

  /** The quotient rounded towards zero. */
  function Exact(a: int, b: int): int
    requires b != 0
  {
    var q: int := Quot(Abs(a) * ONE, Abs(b));
    if (a < 0) != (b < 0) then -q else q
  }

  lemma AtMostOne(l1: nat, l2: nat)
    requires l1 <= l2 && l2 > 0
    ensures Quot(l1 * ONE, l2) <= ONE
  {
    DivisionEquation(l1 * ONE, l2);
    MulMono(ONE, l1, l2);
    if Quot(l1 * ONE, l2) > ONE {
      MulMono(l2, ONE + 1, Quot(l1 * ONE, l2));
    }
  }

  lemma LowBitsAtMostOne(l1: nat, l2: nat)
    requires l1 <= l2 && l2 > 0
    ensures LowBits(l1, l2) <= ONE
  {
    if l1 >= LOW_LIMIT {
      LowBitsAtMostOne(l1 / 2, l2 / 2);
    } else {
      AtMostOne(l1, l2);
    }
  }

  /** The low bits are or-ed into place, which adds them unless they carry into an odd integer part. */
  lemma OrAdds(answer: nat, lo: nat)
    requires lo <= ONE
    ensures Or(Shl(answer, 48), lo) == answer * ONE + if lo == ONE && answer % 2 == 1 then 0 else lo
  {
    hide Or, Shl;
    Scale();
    ShlIsProduct(answer, 48);
    ShlZero(48);
    if lo < ONE {
      OrSplit(answer, 0, 0, lo, 48);
      OrZero(answer);
      OrZero(lo);
      ShlZero(48);
    } else {
      ShlOne(48);
      OrSplit(answer, 0, 1, 0, 48);
      OrZero(0);
      OrWithOne(answer);
      ShlIsProduct(Or(answer, 1), 48);
    }
  }

  lemma OrWithOne(a: nat)
    ensures Or(a, 1) == if a % 2 == 1 then a else a + 1
  {
    OrStep(a, 1);
    OrZero(a / 2);
  }

  lemma Scale()
    ensures Pow(2, 48) == ONE
  {
    PowersOfTwo();
    PowAdd(2, 32, 16);
  }

  /** The magnitude before it is cut to 128 bits. */
  function Computed(n: nat, d: nat): nat
    requires d > 0
  {
    var lo := LowBits(Rem(n, d), d);
    Quot(n, d) * ONE + if lo == ONE && Quot(n, d) % 2 == 1 then 0 else lo
  }

  lemma MagnitudeIs(n: nat, d: nat)
    requires 0 < d
    ensures Magnitude(n, d) == Computed(n, d) % 0x1_0000_0000_0000_0000_0000_0000_0000_0000
  {
    hide Or, Shl, Quot, Rem, LowBits;
    var answer, lo := Quot(n, d), LowBits(Rem(n, d), d);
    var low := answer % 0x1_0000_0000_0000_0000_0000;
    LowBitsAtMostOne(Rem(n, d), d);
    Scale();
    ShlIsProduct(answer, 48);
    ShlIsProduct(low, 48);
    CutHigh(answer, if lo == ONE && answer % 2 == 1 then 0 else lo);
    OrAdds(low, lo);
  }

  /** Cutting a shifted number cuts its own high bits. */
  lemma CutHigh(answer: nat, lo: nat)
    requires lo <= ONE && (lo == ONE ==> answer % 2 == 0)
    ensures var low := answer % 0x1_0000_0000_0000_0000_0000;
            && low % 2 == answer % 2
            && answer * ONE % 0x1_0000_0000_0000_0000_0000_0000_0000_0000 == low * ONE
            && (answer * ONE + lo) % 0x1_0000_0000_0000_0000_0000_0000_0000_0000 == low * ONE + lo
  {
    var high, low := answer / 0x1_0000_0000_0000_0000_0000, answer % 0x1_0000_0000_0000_0000_0000;
    assert answer == high * 0x1_0000_0000_0000_0000_0000 + low;
    LowPart(answer * ONE, high, low * ONE);
    LowPart(answer * ONE + lo, high, low * ONE + lo);
  }

  lemma LowPart(x: nat, high: nat, low: nat)
    requires x == high * U128_LIMIT + low && low < U128_LIMIT
    ensures x % 0x1_0000_0000_0000_0000_0000_0000_0000_0000 == low
  {
  }

  /** The integer part and the true low bits make up the true quotient. */
  lemma QuotientSplits(n: nat, d: nat)
    requires d > 0
    ensures Quot(n * ONE, d) == Quot(n, d) * ONE + Quot(Rem(n, d) * ONE, d)
  {
    hide Quot, Rem;
    var q, r := Quot(n, d), Rem(n, d);
    var f := Quot(r * ONE, d);
    DivisionEquation(n, d);
    DivisionEquation(r * ONE, d);
    Distribute(q * d, r, ONE);
    Distribute(q * ONE, f, d);
    DivisionUnique(n * ONE, d, q * ONE + f, Rem(r * ONE, d));
  }

  /** Halving both operands keeps the top bits equal: the case in which the low bits reach 2^48. */
  predicate SameTop(l1: nat, l2: nat) {
    if l1 >= LOW_LIMIT then SameTop(l1 / 2, l2 / 2) else l1 == l2
  }

  lemma LowBitsOverflow(l1: nat, l2: nat)
    requires l1 <= l2 && l2 > 0
    ensures LowBits(l1, l2) == ONE <==> SameTop(l1, l2)
  {
    if l1 < LOW_LIMIT {
      DivisionEquation(l1 * ONE, l2);
      if l1 == l2 {
        DivisionUnique(l1 * ONE, l2, ONE, 0);
      }
    }
  }

  /** The number of bits that are cut off both operands. */
  function CutBits(l1: nat): nat {
    if l1 >= LOW_LIMIT then CutBits(l1 / 2) + 1 else 0
  }

  lemma {:induction false} LowBitsCut(l1: nat, l2: nat)
    requires l1 <= l2 && l2 > 0
    ensures var k := CutBits(l1);
            0 < Shr(l2, k) && Shr(l1, k) <= Shr(l2, k) && LowBits(l1, l2) == Quot(Shr(l1, k) * ONE, Shr(l2, k))
    ensures l1 >= LOW_LIMIT ==> Shr(l2, CutBits(l1)) >= ONE
  {
    if l1 >= LOW_LIMIT {
      LowBitsCut(l1 / 2, l2 / 2);
    }
  }

  /** The true low bits exceed those of the cut operands by at most one. */
  lemma CutNotFarBelow(r: nat, d: nat, l1: nat, l2: nat, c: nat)
    requires d > 0 && l2 >= ONE && c > 0
    requires r < (l1 + 1) * c && l2 * c <= d
    ensures Quot(r * ONE, d) <= Quot(l1 * ONE, l2) + 1
  {
    var q, lo := Quot(r * ONE, d), Quot(l1 * ONE, l2);
    DivisionEquation(r * ONE, d);
    DivisionEquation(l1 * ONE, l2);
    if q >= lo + 2 {
      MulMono(d, lo + 2, q);
      MulMono(lo + 2, l2 * c, d);
      MulSwap(lo + 2, l2, c);
      MulSwap(l1 + 1, c, ONE);
      MulSwap(l1 + 1, ONE, c);
      var below, above := (lo + 2) * l2, (l1 + 1) * ONE;
      assert below * c < above * c;
      assert above <= below by { Distribute(lo, 2, l2); }
      MulMono(c, above, below);
      assert false;
    }
  }

  /** The low bits of the cut operands exceed the true ones by at most one. */
  lemma CutNotFarAbove(r: nat, d: nat, l1: nat, l2: nat, c: nat)
    requires d > 0 && l2 >= ONE && c > 0 && l1 <= l2
    requires l1 * c <= r && d < (l2 + 1) * c
    ensures Quot(l1 * ONE, l2) <= Quot(r * ONE, d) + 1
  {
    var q, lo := Quot(r * ONE, d), Quot(l1 * ONE, l2);
    DivisionEquation(r * ONE, d);
    DivisionEquation(l1 * ONE, l2);
    if lo >= q + 2 {
      AtMostOne(l1, l2);
      var m := lo - 1;
      var below, above := lo * l2, m * (l2 + 1);
      assert r * ONE < m * d by {
        Distribute(q, 1, d);
        MulMono(d, q + 1, m);
      }
      assert m * d <= above * c by {
        MulMono(m, d, (l2 + 1) * c);
        MulSwap(m, l2 + 1, c);
      }
      assert below * c <= r * ONE by {
        MulMono(c, below, l1 * ONE);
        MulSwap(l1, ONE, c);
        MulSwap(l1, c, ONE);
      }
      assert above <= below by {
        Distribute(m, 1, l2);
      }
      MulMono(c, above, below);
      assert false;
    }
  }

  /** The low bits are the true ones for a small remainder, and off by at most one otherwise. */
  lemma LowBitsClose(r: nat, d: nat)
    requires r < d
    ensures r < LOW_LIMIT ==> LowBits(r, d) == Quot(r * ONE, d)
    ensures Quot(r * ONE, d) - 1 <= LowBits(r, d) <= Quot(r * ONE, d) + 1
  {
    if r >= LOW_LIMIT {
      var k := CutBits(r);
      var c, l1, l2 := Pow(2, k), Shr(r, k), Shr(d, k);
      LowBitsCut(r, d);
      Parts(r, k);
      Parts(d, k);
      ShlIsProduct(l1, k);
      ShlIsProduct(l2, k);
      Distribute(l1, 1, c);
      Distribute(l2, 1, c);
      CutNotFarBelow(r, d, l1, l2, c);
      CutNotFarAbove(r, d, l1, l2, c);
    }
  }

  /** The quotient as it is put together, before it is cut to 128 bits. */
  function Unwrapped(a: int, b: int): int
    requires b != 0
  {
    var q: int := Computed(Abs(a), Abs(b));
    if (a < 0) != (b < 0) then -q else q
  }

  lemma DividedIs(a: int, b: int)
    requires b != 0
    ensures Divided(a, b) == Wrapped(Unwrapped(a, b))
  {
    hide Magnitude, Computed;
    MagnitudeIs(Abs(a), Abs(b));
    WrapNegated(Computed(Abs(a), Abs(b)));
  }

  /** The quotient fits 128 bits. */
  predicate QuotientFits(a: int, b: int)
    requires b != 0
  {
    IsI128(Unwrapped(a, b))
  }

  /** It does if its integer part has at most 79 bits; the only other case is the one of -2^127. */
  lemma QuotientFitsIff(a: int, b: int)
    requires b != 0
    ensures var n, d := Abs(a), Abs(b);
            QuotientFits(a, b) <==>
              Quot(n, d) < 0x8000_0000_0000_0000_0000
              || (Quot(n, d) == 0x8000_0000_0000_0000_0000 && LowBits(Rem(n, d), d) == 0 && (a < 0) != (b < 0))
  {
    hide Quot, Rem, LowBits;
    LowBitsAtMostOne(Rem(Abs(a), Abs(b)), Abs(b));
  }

  /** The low bits come out as a whole unit, which is lost on an odd integer part. */
  predicate CarryLost(a: int, b: int)
    requires b != 0
  {
    Quot(Abs(a), Abs(b)) % 2 == 1 && SameTop(Rem(Abs(a), Abs(b)), Abs(b))
  }

  lemma LowBitsBelowOne(r: nat, d: nat)
    requires r < d
    ensures Quot(r * ONE, d) < ONE
    ensures r < LOW_LIMIT ==> LowBits(r, d) < ONE
  {
    DivisionEquation(r * ONE, d);
    MulMono(ONE, r + 1, d);
    if Quot(r * ONE, d) >= ONE {
      MulMono(d, ONE, Quot(r * ONE, d));
    }
  }

  /** Before it is cut, the size of the quotient is exact, or off by one, or short of a unit by a lost carry. */
  lemma UnwrappedClose(a: int, b: int)
    requires b != 0
    ensures Rem(Abs(a), Abs(b)) < LOW_LIMIT ==> Unwrapped(a, b) == Exact(a, b) && !CarryLost(a, b)
    ensures if CarryLost(a, b) then Abs(Exact(a, b)) == Abs(Unwrapped(a, b)) + ONE - 1
            else Exact(a, b) - 1 <= Unwrapped(a, b) <= Exact(a, b) + 1
    ensures Exact(a, b) - ONE < Unwrapped(a, b) < Exact(a, b) + ONE
  {
    hide Quot, Rem, LowBits, SameTop;
    var n, d := Abs(a), Abs(b);
    var r := Rem(n, d);
    QuotientSplits(n, d);
    LowBitsAtMostOne(r, d);
    LowBitsClose(r, d);
    LowBitsBelowOne(r, d);
    LowBitsOverflow(r, d);
  }

  /** For a remainder below 2^80, division is exact, rounding towards zero, whenever the quotient fits. */
  lemma DivideExact(a: int, b: int)
    requires b != 0 && Rem(Abs(a), Abs(b)) < LOW_LIMIT
    ensures Divided(a, b) == Exact(a, b) <==> QuotientFits(a, b)
  {
    hide Divided, Unwrapped, Exact, Wrapped;
    DividedIs(a, b);
    UnwrappedClose(a, b);
  }

  /** Any quotient is within one raw unit of the exact one, exactly if it fits and does not lose the carry. */
  lemma DivideClose(a: int, b: int)
    requires b != 0
    ensures Exact(a, b) - 1 <= Divided(a, b) <= Exact(a, b) + 1 <==> QuotientFits(a, b) && !CarryLost(a, b)
  {
    hide Divided, Unwrapped, Exact, Wrapped, CarryLost;
    DividedIs(a, b);
    UnwrappedClose(a, b);
    var k := WrapDrops(Unwrapped(a, b));
  }

  /** A lost carry takes a raw unit less than one off the size of the quotient. */
  lemma CarryLostCosts(a: int, b: int)
    requires b != 0 && QuotientFits(a, b) && CarryLost(a, b)
    ensures Abs(Exact(a, b)) == Abs(Divided(a, b)) + ONE - 1
    ensures Rem(Abs(a), Abs(b)) >= LOW_LIMIT
  {
    hide Divided, Unwrapped, Exact, Wrapped, CarryLost;
    DividedIs(a, b);
    UnwrappedClose(a, b);
  }

  /** (2^81 + 1) / (2^80 + 1) is just short of 2, but the carry is lost and 1 comes out. */
  lemma CarryLostWitness()
    ensures var a, b := 2 * LOW_LIMIT + 1, LOW_LIMIT + 1;
            CarryLost(a, b) && Divided(a, b) == ONE && Exact(a, b) == 2 * ONE - 1
  {
    var a: nat, b: nat := 2 * LOW_LIMIT + 1, LOW_LIMIT + 1;
    DivisionUnique(a, b, 1, LOW_LIMIT);
    DividedIs(a, b);
    assert SameTop(LOW_LIMIT / 2, b / 2);
    LowBitsOverflow(LOW_LIMIT, b);
    DivisionUnique(a * ONE, b, 2 * ONE - 1, b - ONE);
  }

  // ----- Multiplication -----

  /** The four partial products of the halves, in unbounded integers; the high halves are signed. */
  function Mul(a: int, b: int): int {
    var aHi, bHi := a / 0x1_0000_0000_0000, b / 0x1_0000_0000_0000;
    var aLo, bLo := a % 0x1_0000_0000_0000, b % 0x1_0000_0000_0000;
    var x1, x2, x3, x4 := aHi * bHi, aHi * bLo, aLo * bHi, aLo * bLo;
    x1 * ONE + (x3 + x2) + x4 / 0x1_0000_0000_0000
  }

  lemma Halves48(a: int) returns (hi: int, lo: nat)
    ensures hi == a / 0x1_0000_0000_0000 && lo == a % 0x1_0000_0000_0000
    ensures a == hi * ONE + lo && lo < ONE
  {
    hi, lo := a / 0x1_0000_0000_0000, a % 0x1_0000_0000_0000;
  }

  /** The partial products add up to the product, rounded down. */
  lemma MulIsFloor(a: int, b: int)
    ensures Mul(a, b) * ONE <= a * b < (Mul(a, b) + 1) * ONE
  {
    var aHi, aLo := Halves48(a);
    var bHi, bLo := Halves48(b);
    var x4 := aLo * bLo;
    PartialProducts(aHi, aLo, bHi, bLo);
    var hi, lo := Halves48(x4);
  }

  lemma PartialProducts(aHi: int, aLo: int, bHi: int, bLo: int)
    ensures (aHi * ONE + aLo) * (bHi * ONE + bLo)
         == (aHi * bHi * ONE + (aLo * bHi + aHi * bLo)) * ONE + aLo * bLo
  {
    var p, q := aHi * ONE, bHi * ONE;
    assert (p + aLo) * (q + bLo) == p * q + p * bLo + aLo * q + aLo * bLo;
    assert p * q == (aHi * bHi * ONE) * ONE;
    assert p * bLo == (aHi * bLo) * ONE;
    assert aLo * q == (aLo * bHi) * ONE;
  }

  lemma MulUnique(a: int, b: int, m: int)
    requires m * ONE <= a * b < (m + 1) * ONE
    ensures Mul(a, b) == m
  {
    MulIsFloor(a, b);
  }

  /** Every intermediate result of the multiplication is a 128-bit integer. */
  predicate PartialsFit(a: int, b: int) {
    var aHi, bHi := a / 0x1_0000_0000_0000, b / 0x1_0000_0000_0000;
    var aLo, bLo := a % 0x1_0000_0000_0000, b % 0x1_0000_0000_0000;
    && IsI128(aHi * bHi) && IsI128(aHi * bLo) && IsI128(aLo * bHi) && IsI128(aLo * bLo)
    && IsI128(aHi * bHi * ONE) && IsI128(aLo * bHi + aHi * bLo)
    && IsI128(aHi * bHi * ONE + (aLo * bHi + aHi * bLo)) && IsI128(Mul(a, b))
  }

  /** multiply, with every intermediate result cut to 128 bits */
  function Multiplied(a: int, b: int): int {
    var aHi, bHi := a / 0x1_0000_0000_0000, b / 0x1_0000_0000_0000;
    var aLo, bLo := a % 0x1_0000_0000_0000, b % 0x1_0000_0000_0000;
    var x1, x2, x3, x4 := Wrapped(aHi * bHi), Wrapped(aHi * bLo), Wrapped(aLo * bHi), Wrapped(aLo * bLo);
    Wrapped(Wrapped(Wrapped(x1 * ONE) + Wrapped(x3 + x2)) + x4 / 0x1_0000_0000_0000)
  }

  /** Only a result that does not fit comes out wrong, whatever the partial products do. */
  lemma MultipliedIsMul(a: int, b: int)
    ensures Multiplied(a, b) == Wrapped(Mul(a, b))
    ensures Multiplied(a, b) == Mul(a, b) <==> IsI128(Mul(a, b))
  {
    hide Wrapped;
    var aHi, aLo := Halves48(a);
    var bHi, bLo := Halves48(b);
    ProductBound(aLo, bLo, ONE, ONE);
    SumWraps(aHi * bHi, aLo * bHi, aHi * bLo, aLo * bLo / 0x1_0000_0000_0000);
  }

  lemma SumWraps(x1: int, x3: int, x2: int, y: int)
    ensures Wrapped(Wrapped(Wrapped(Wrapped(x1) * ONE) + Wrapped(Wrapped(x3) + Wrapped(x2))) + y)
         == Wrapped(x1 * ONE + (x3 + x2) + y)
  {
    hide Wrapped;
    WrapScale(x1);
    WrapSum(x3, x2);
    WrapSum(x1 * ONE, x3 + x2);
    WrapLeft(x1 * ONE + (x3 + x2), y);
  }

  /** Nothing overflows for factors below 2^(48+p) and 2^(48+q) with p + q <= 77. */
  lemma MulDoesNotOverflow(a: int, b: int, p: nat, q: nat)
    requires Abs(a) < Pow(2, p) * ONE && Abs(b) < Pow(2, q) * ONE && p + q <= 77
    ensures PartialsFit(a, b)
  {
    hide Pow;
    var aHi, aLo := Halves48(a);
    var bHi, bLo := Halves48(b);
    var u, v := Pow(2, p), Pow(2, q);
    PowAdd(2, p, q);
    PowMono(2, p + q, 77);
    PowMono(2, p, 77);
    PowMono(2, q, 77);
    Pow77();
    ProductBound(aHi, bHi, u, v);
    ProductBound(aHi, bLo, u, ONE);
    ProductBound(aLo, bHi, ONE, v);
    ProductBound(aLo, bLo, ONE, ONE);
  }

  lemma Pow77()
    ensures Pow(2, 77) == 0x2000_0000_0000_0000_0000
  {
    PowersOfTwo();
    PowAdd(2, 32, 32);
    PowAdd(2, 10, 64);
    assert Pow(2, 3) == 8;
    PowAdd(2, 3, 74);
  }

  lemma ProductBound(x: int, y: int, u: int, v: int)
    requires -u <= x <= u && -v <= y <= v
    ensures -(u * v) <= x * y <= u * v
  {
    var s: int, t: int := Abs(x), Abs(y);
    MulMono(s, t, v);
    MulMono(v, s, u);
    assert x * y == s * t || x * y == -(s * t);
  }

  /** Multiplying an exact quotient by the divisor loses at most the divisor's share of a unit. */
  lemma MulOfQuotient(a: int, b: int)
    requires a >= 0 && b > 0 && QuotientFits(a, b) && Rem(a, b) < LOW_LIMIT
    ensures a - (b + ONE - 1) / 0x1_0000_0000_0000 <= Mul(Divided(a, b), b) <= a
  {
    hide Mul, Divided;
    DivideExact(a, b);
    var q := Divided(a, b);
    DivisionEquation(a * ONE, b);
    MulIsFloor(q, b);
    var m := Mul(q, b);
    assert m * ONE <= a * ONE;
    assert (a - m - 1) * ONE < b;
  }
}
