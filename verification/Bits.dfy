/** Bitwise or and shifts on natural numbers. */
module Bits {
  import opened Numerals

  /** Bitwise or. */
  function Or(a: nat, b: nat): (r: nat)
    ensures r >= a && r >= b
    decreases a, b
  {
    if a == 0 then b else if b == 0 then a else
      2 * Or(a / 2, b / 2) + if a % 2 == 1 || b % 2 == 1 then 1 else 0
  }

  lemma {:induction false} OrZero(a: nat)
    ensures Or(a, 0) == a && Or(0, a) == a
  {
  }

  lemma {:induction false} OrBelow(a: nat, b: nat, k: nat)
    requires a < Pow(2, k) && b < Pow(2, k)
    ensures Or(a, b) < Pow(2, k)
  {
    if a != 0 && b != 0 {
      assert k > 0;
      OrBelow(a / 2, b / 2, k - 1);
    }
  }

  /** a << k */
  function Shl(a: nat, k: nat): nat
    decreases k, a
  {
    if k == 0 then a else 2 * Shl(a, k - 1)
  }

  lemma {:induction false} ShlIsProduct(a: nat, k: nat)
    ensures Shl(a, k) == a * Pow(2, k)
  {
    if k > 0 {
      ShlIsProduct(a, k - 1);
      assert a * (2 * Pow(2, k - 1)) == 2 * (a * Pow(2, k - 1));
    }
  }

  /** Or works on the bits above and below position k separately. */
  lemma {:induction false} OrSplit(ah: nat, al: nat, bh: nat, bl: nat, k: nat)
    requires al < Pow(2, k) && bl < Pow(2, k)
    ensures k == 0 ==> al == bl == 0
    ensures Or(Shl(ah, k) + al, Shl(bh, k) + bl) == Shl(Or(ah, bh), k) + Or(al, bl)
    decreases k
  {
    hide Or;
    if k == 0 {
      OrZero(0);
    } else {
      var x, s, y, t := al / 2, al % 2, bl / 2, bl % 2;
      OrSplit(ah, x, bh, y, k - 1);
      OrBit(Shl(ah, k - 1) + x, s, Shl(bh, k - 1) + y, t);
      OrBit(x, s, y, t);
      assert Shl(ah, k) + al == 2 * (Shl(ah, k - 1) + x) + s && al == 2 * x + s;
      assert Shl(bh, k) + bl == 2 * (Shl(bh, k - 1) + y) + t && bl == 2 * y + t;
    }
  }

  lemma OrBit(x: nat, s: nat, y: nat, t: nat)
    requires s < 2 && t < 2
    ensures Or(2 * x + s, 2 * y + t) == 2 * Or(x, y) + if s == 1 || t == 1 then 1 else 0
  {
    OrStep(2 * x + s, 2 * y + t);
  }

  lemma OrStep(a: nat, b: nat)
    ensures Or(a, b) == 2 * Or(a / 2, b / 2) + if a % 2 == 1 || b % 2 == 1 then 1 else 0
  {
  }

  /** Or with the all-ones number absorbs. */
  lemma {:induction false} OrOnes(a: nat, k: nat)
    requires a < Pow(2, k)
    ensures Or(a, Pow(2, k) - 1) == Pow(2, k) - 1
  {
    if k > 0 && a > 0 {
      OrOnes(a / 2, k - 1);
    }
  }

  /** a >> k */
  function Shr(a: nat, k: nat): nat
    decreases k, a
  {
    if k == 0 then a else Shr(a / 2, k - 1)
  }

  /** The k low bits of a. */
  function Low(a: nat, k: nat): (l: nat)
    ensures l < Pow(2, k)
    decreases k, a
  {
    if k == 0 then 0 else 2 * Low(a / 2, k - 1) + a % 2
  }

  lemma {:induction false} Parts(a: nat, k: nat)
    ensures a == Shl(Shr(a, k), k) + Low(a, k)
    decreases k
  {
    if k > 0 {
      Parts(a / 2, k - 1);
    }
  }

  lemma {:induction false} PartsUnique(h: nat, l: nat, k: nat)
    requires l < Pow(2, k)
    ensures Shr(Shl(h, k) + l, k) == h && Low(Shl(h, k) + l, k) == l
    decreases k
  {
    if k > 0 {
      PartsUnique(h, l / 2, k - 1);
      var a := Shl(h, k) + l;
      assert a / 2 == Shl(h, k - 1) + l / 2 && a % 2 == l % 2;
    }
  }

  lemma {:induction false} ShlMono(a: nat, b: nat, k: nat)
    ensures a < b <==> Shl(a, k) < Shl(b, k)
    ensures Shl(a, k) >= a
  {
    if k > 0 {
      ShlMono(a, b, k - 1);
    }
  }

  /** Shl(a, k) + Shl(b, k) == Shl(a + b, k), and shifts add up. */
  lemma {:induction false} ShlAdd(a: nat, b: nat, k: nat)
    ensures Shl(a + b, k) == Shl(a, k) + Shl(b, k)
  {
    if k > 0 {
      ShlAdd(a, b, k - 1);
    }
  }

  lemma {:induction false} ShlShl(a: nat, j: nat, k: nat)
    ensures Shl(Shl(a, j), k) == Shl(a, j + k)
    decreases k
  {
    if k > 0 {
      ShlShl(a, j, k - 1);
    }
  }

  lemma {:induction false} ShlOne(k: nat)
    ensures Shl(1, k) == Pow(2, k)
  {
    if k > 0 {
      ShlOne(k - 1);
    }
  }

  lemma PowAsShl(j: nat, k: nat)
    ensures Shl(Pow(2, j), k) == Pow(2, j + k)
  {
    ShlOne(j);
    ShlShl(1, j, k);
    ShlOne(j + k);
  }

  /** k ones above j zeros are 2^(j+k) - 2^j. */
  lemma OnesAbove(k: nat, j: nat)
    ensures Shl(Pow(2, k) - 1, j) == Pow(2, k + j) - Pow(2, j)
  {
    ShlAdd(Pow(2, k) - 1, 1, j);
    ShlOne(j);
    PowAsShl(k, j);
  }

  /** The top t of the len bits of n are ones (all of them when t >= len). */
  ghost predicate TopOnes(n: nat, len: nat, t: nat) {
    Pow(2, len) - Pow(2, if t < len then len - t else 0) <= n < Pow(2, len)
  }

  lemma TopParts(n: nat, len: nat, t: nat)
    requires t <= len && TopOnes(n, len, t)
    ensures n == Shl(Pow(2, t) - 1, len - t) + Low(n, len - t)
  {
    hide Shl, Shr, Low, Pow;
    var k := len - t;
    Parts(n, k);
    OnesAbove(t, k);
    PowAsShl(t, k);
    var h := Shr(n, k);
    ShlMono(h, Pow(2, t), k);
    ShlMono(h, Pow(2, t) - 1, k);
    if h < Pow(2, t) - 1 {
      ShlMono(h + 1, Pow(2, t) - 1, k);
      ShlMono(Pow(2, t) - 1, h + 1, k);
      ShlAdd(h, 1, k);
      ShlOne(k);
    }
  }

  lemma ShrOfShl(a: nat, l: nat, j: nat, t: nat)
    requires l < Pow(2, j + t)
    ensures Shr(Shl(a, j + t) + l, t) == Shl(a, j) + Shr(l, t) && Shr(l, t) < Pow(2, j)
  {
    hide Shl, Shr, Low, Pow;
    ShlShl(a, j, t);
    Parts(l, t);
    ShlAdd(Shl(a, j), Shr(l, t), t);
    PartsUnique(Shl(a, j) + Shr(l, t), Low(l, t), t);
    PowAsShl(j, t);
    ShlMono(Shr(l, t), Pow(2, j), t);
  }

  /** n |= n >> t doubles the run of ones at the top. */
  lemma Smear(n: nat, len: nat, t: nat)
    requires t > 0 && TopOnes(n, len, t)
    ensures TopOnes(Or(n, Shr(n, t)), len, 2 * t)
  {
    if t >= len {
      SmearDone(n, len, t);
    } else if 2 * t >= len {
      SmearRest(n, len, t);
    } else {
      SmearMiddle(n, len, t);
    }
  }

  lemma SmearDone(n: nat, len: nat, t: nat)
    requires t >= len && n == Pow(2, len) - 1
    ensures Or(n, Shr(n, t)) == n
  {
    PowMono(2, len, t);
    PartsUnique(0, n, t);
    ShlZero(t);
    OrZero(n);
  }

  lemma {:induction false} ShlZero(k: nat)
    ensures Shl(0, k) == 0
  {
    if k > 0 {
      ShlZero(k - 1);
    }
  }

  /** At most 2t bits: the shifted copy fills all the bits below the run. */
  lemma SmearRest(n: nat, len: nat, t: nat)
    requires t < len <= 2 * t && TopOnes(n, len, t)
    ensures Or(n, Shr(n, t)) == Pow(2, len) - 1
  {
    hide Or, Shl, Shr, Low, Pow;
    var k := len - t;
    var ones, low := Pow(2, t) - 1, Low(n, k);
    TopParts(n, len, t);
    // n >> t: the top k bits of n, which are ones
    OnesAbove(t, k);
    OnesAbove(k, t);
    PowMono(2, k, t);
    var rest := n - Shl(Pow(2, k) - 1, t);
    PartsUnique(Pow(2, k) - 1, rest, t);
    ShlZero(k);
    OrSplit(ones, low, 0, Pow(2, k) - 1, k);
    OrZero(ones);
    OrOnes(low, k);
  }

  /** More than 2t bits: the run meets its shifted copy. */
  lemma SmearMiddle(n: nat, len: nat, t: nat)
    requires 2 * t < len && TopOnes(n, len, t)
    ensures TopOnes(Or(n, Shr(n, t)), len, 2 * t)
  {
    hide Or, Shl, Shr, Low, Pow;
    var m := len - 2 * t;
    var ones, low := Pow(2, t) - 1, Low(n, len - t);
    TopParts(n, len, t);
    ShrOfShl(ones, low, m, t);
    var u, v, w := Shr(low, m), Low(low, m), Shr(low, t);
    Parts(low, m);
    PowAsShl(t, m);
    ShlMono(u, Pow(2, t), m);
    ShlShl(ones, t, m);
    ShlAdd(Shl(ones, t), u, m);
    // n is [ones][u][v] and n >> t is [ones][w] above m places
    OrSplit(Shl(ones, t) + u, v, ones, w, m);
    ShlZero(t);
    OrSplit(ones, u, 0, ones, t);
    OrZero(ones);
    OrOnes(u, t);
    OnesAbove(t, t);
    OnesAbove(2 * t, m);
    OrBelow(v, w, m);
  }

  lemma PowersOfTwo()
    ensures Pow(2, 5) == 0x20 && Pow(2, 10) == 0x400 && Pow(2, 15) == 0x8000
    ensures Pow(2, 16) == 0x1_0000 && Pow(2, 32) == 0x1_0000_0000
  {
    assert Pow(2, 5) == 0x20;
    PowAdd(2, 5, 5);
    PowAdd(2, 10, 5);
    PowAdd(2, 15, 1);
    PowAdd(2, 16, 16);
  }
}
