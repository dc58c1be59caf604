/**
  Positional numerals, most significant digit first.  The base-58 codec, the
  limb arithmetic behind it and the fixed-point routines all state what they
  compute in these terms.
 */
module Numerals {
  type Byte = x: int | 0 <= x < 0x100
  type Bytes = seq<Byte>
  type U32 = x: int | 0 <= x < 0x1_0000_0000

  function Pow(base: nat, n: nat): (p: nat)
    ensures base > 0 ==> p > 0
  {
    if n == 0 then 1 else
      var q := Pow(base, n - 1);
      assert base > 0 ==> base * q > 0;
      base * q
  }

  /**
    Division with remainder by repeated subtraction.  QuotRem says it is / and %
    on naturals; the recursive form spares the proofs the solver's heuristics for
    division by a variable.
   */
  function Quot(v: nat, base: nat): nat
    requires base > 0
  {
    if v < base then 0 else Quot(v - base, base) + 1
  }

  function Rem(v: nat, base: nat): (r: nat)
    requires base > 0
    ensures r < base
  {
    if v < base then v else Rem(v - base, base)
  }

  lemma MulMono(a: nat, x: int, y: int)
    requires x <= y
    ensures a * x <= a * y && x * a <= y * a
  {
  }

  lemma MulSwap(a: nat, b: nat, c: nat)
    ensures a * (b * c) == b * (a * c) == (a * b) * c
  {
  }

  lemma Distribute(x: int, y: int, p: int)
    ensures (x + y) * p == x * p + y * p
  {
  }

  lemma {:induction false} DivisionEquation(v: nat, base: nat)
    requires base > 0
    ensures v == Quot(v, base) * base + Rem(v, base)
  {
    if v >= base {
      DivisionEquation(v - base, base);
      var q := Quot(v - base, base);
      assert (q + 1) * base == q * base + base;
    }
  }

  /** Quotient and remainder are determined by the division equation. */
  lemma DivisionUnique(v: nat, base: nat, q: nat, r: nat)
    requires v == q * base + r && r < base
    ensures q == Quot(v, base) && r == Rem(v, base)
  {
    DivisionEquation(v, base);
    var q0, r0 := Quot(v, base), Rem(v, base);
    if q < q0 {
      MulMono(base, q + 1, q0);
    } else if q0 < q {
      MulMono(base, q0 + 1, q);
    }
  }

  lemma QuotRem(v: nat, base: nat)
    requires base > 0
    ensures Quot(v, base) == v / base && Rem(v, base) == v % base
  {
    DivisionUnique(v, base, v / base, v % base);
  }

  lemma QuotShrinks(v: nat, base: nat)
    requires base >= 2 && v > 0
    ensures Quot(v, base) < v
  {
    DivisionEquation(v, base);
    MulMono(Quot(v, base), 2, base);
  }

  ghost predicate DigitsBelow(ds: seq<nat>, base: nat) {
    forall i :: 0 <= i < |ds| ==> ds[i] < base
  }

  /** The number that the digits ds denote. */
  function Value(ds: seq<nat>, base: nat): nat {
    if ds == [] then 0 else Value(ds[..|ds| - 1], base) * base + ds[|ds| - 1]
  }

  /** The n lowest digits of v. */
  function FixedWidth(v: nat, base: nat, n: nat): (ds: seq<nat>)
    requires base > 0
    ensures |ds| == n
    ensures DigitsBelow(ds, base)
    decreases n, v
  {
    if n == 0 then [] else FixedWidth(Quot(v, base), base, n - 1) + [Rem(v, base)]
  }

  /** The digits of v without a leading zero. */
  function Minimal(v: nat, base: nat): (ds: seq<nat>)
    requires base >= 2
    ensures DigitsBelow(ds, base)
    ensures ds != [] ==> ds[0] > 0
    ensures v == 0 <==> ds == []
  {
    if v == 0 then [] else
      QuotShrinks(v, base);
      Minimal(Quot(v, base), base) + [Rem(v, base)]
  }

  function LeadingZeros(ds: seq<nat>): (n: nat)
    ensures n <= |ds|
    ensures forall i :: 0 <= i < n ==> ds[i] == 0
    ensures n < |ds| ==> ds[n] != 0
  {
    if ds == [] || ds[0] != 0 then 0 else
      var m := LeadingZeros(ds[1..]);
      assert forall i :: 0 < i < |ds| ==> ds[i] == ds[1..][i - 1];
      m + 1
  }

  lemma {:induction false} PowAdd(base: nat, a: nat, b: nat)
    ensures Pow(base, a + b) == Pow(base, a) * Pow(base, b)
  {
    if b > 0 {
      PowAdd(base, a, b - 1);
      MulSwap(base, Pow(base, a), Pow(base, b - 1));
    }
  }

  lemma {:induction false} PowMono(base: nat, a: nat, b: nat)
    requires base > 0 && a <= b
    ensures Pow(base, a) <= Pow(base, b)
  {
    if a < b {
      PowMono(base, a, b - 1);
      MulMono(Pow(base, b - 1), 1, base);
    }
  }

  lemma {:induction false} PowPow(base: nat, a: nat, b: nat)
    ensures Pow(Pow(base, a), b) == Pow(base, a * b)
  {
    if b == 0 {
      assert a * b == 0;
    } else {
      PowPow(base, a, b - 1);
      assert a * b == a + a * (b - 1);
      PowAdd(base, a, a * (b - 1));
    }
  }

  lemma RoomForDigit(v: nat, d: nat, base: nat, p: nat)
    requires v < p && d < base
    ensures v * base + d < base * p
  {
    MulMono(base, v + 1, p);
  }

  lemma {:induction false} ValueBound(ds: seq<nat>, base: nat)
    requires DigitsBelow(ds, base)
    ensures Value(ds, base) < Pow(base, |ds|)
  {
    if ds != [] {
      var init := ds[..|ds| - 1];
      ValueBound(init, base);
      RoomForDigit(Value(init, base), ds[|ds| - 1], base, Pow(base, |ds| - 1));
    }
  }

  lemma ShiftSum(x: nat, y: nat, p: nat, base: nat)
    ensures (x * p + y) * base == x * (base * p) + y * base
  {
    MulSwap(base, x, p);
  }

  lemma {:induction false} ValueConcat(a: seq<nat>, b: seq<nat>, base: nat)
    ensures Value(a + b, base) == Value(a, base) * Pow(base, |b|) + Value(b, base)
  {
    if b == [] {
      assert a + b == a;
    } else {
      var init := b[..|b| - 1];
      ValueConcat(a, init, base);
      assert (a + b)[..|a + b| - 1] == a + init;
      ShiftSum(Value(a, base), Value(init, base), Pow(base, |b| - 1), base);
    }
  }

  lemma ValueSnoc(a: seq<nat>, d: nat, base: nat)
    ensures Value(a + [d], base) == Value(a, base) * base + d
  {
    assert (a + [d])[..|a|] == a;
  }

  lemma ValueCons(d: nat, a: seq<nat>, base: nat)
    ensures Value([d] + a, base) == d * Pow(base, |a|) + Value(a, base)
  {
    ValueConcat([d], a, base);
    assert [d][..0] == [];
    assert Value([d], base) == Value([], base) * base + d;
  }

  lemma {:induction false} ValueInjective(a: seq<nat>, b: seq<nat>, base: nat)
    requires |a| == |b| && DigitsBelow(a, base) && DigitsBelow(b, base)
    requires Value(a, base) == Value(b, base)
    ensures a == b
  {
    if a != [] {
      var n := |a| - 1;
      var v := Value(a, base);
      DivisionUnique(v, base, Value(a[..n], base), a[n]);
      DivisionUnique(v, base, Value(b[..n], base), b[n]);
      ValueInjective(a[..n], b[..n], base);
      assert a == a[..n] + [a[n]] && b == b[..n] + [b[n]];
    }
  }

  lemma {:induction false} ValueFixedWidth(v: nat, base: nat, n: nat)
    requires base > 0 && v < Pow(base, n)
    ensures Value(FixedWidth(v, base, n), base) == v
  {
    if n > 0 {
      var q, p := Quot(v, base), Pow(base, n - 1);
      DivisionEquation(v, base);
      if q >= p {
        MulMono(base, p, q);
      }
      ValueFixedWidth(q, base, n - 1);
      ValueSnoc(FixedWidth(q, base, n - 1), Rem(v, base), base);
    }
  }

  lemma {:induction false} ValueMinimal(v: nat, base: nat)
    requires base >= 2
    ensures Value(Minimal(v, base), base) == v
    decreases v
  {
    if v > 0 {
      QuotShrinks(v, base);
      DivisionEquation(v, base);
      ValueMinimal(Quot(v, base), base);
      ValueSnoc(Minimal(Quot(v, base), base), Rem(v, base), base);
    }
  }

  /** The minimal expansion is the only one without a leading zero. */
  lemma {:induction false} MinimalUnique(ds: seq<nat>, base: nat)
    requires base >= 2 && DigitsBelow(ds, base)
    requires ds != [] ==> ds[0] > 0
    ensures Minimal(Value(ds, base), base) == ds
  {
    if ds != [] {
      var n := |ds| - 1;
      var v := Value(ds, base);
      MinimalUnique(ds[..n], base);
      DivisionUnique(v, base, Value(ds[..n], base), ds[n]);
      assert v > 0 by {
        if n > 0 { PositiveValue(ds, base); }
      }
      assert ds == ds[..n] + [ds[n]];
    }
  }

  lemma {:induction false} PositiveValue(ds: seq<nat>, base: nat)
    requires base > 0 && ds != [] && ds[0] > 0
    ensures Value(ds, base) >= Pow(base, |ds| - 1)
  {
    ValueCons(ds[0], ds[1..], base);
    assert ds == [ds[0]] + ds[1..];
    MulMono(Pow(base, |ds| - 1), 1, ds[0]);
  }

  /** Dropping leading zeros turns any expansion into the minimal one. */
  lemma {:induction false} StripZeros(ds: seq<nat>, k: nat, base: nat)
    requires base >= 2 && DigitsBelow(ds, base)
    requires k <= |ds| && (forall i :: 0 <= i < k ==> ds[i] == 0)
    ensures Value(ds[k..], base) == Value(ds, base)
    ensures (k < |ds| ==> ds[k] != 0) ==> ds[k..] == Minimal(Value(ds, base), base)
  {
    assert ds == ds[..k] + ds[k..];
    ValueConcat(ds[..k], ds[k..], base);
    ZeroValue(ds[..k], base);
    if k < |ds| ==> ds[k] != 0 {
      MinimalUnique(ds[k..], base);
    }
  }

  lemma {:induction false} ZeroValue(ds: seq<nat>, base: nat)
    requires forall i :: 0 <= i < |ds| ==> ds[i] == 0
    ensures Value(ds, base) == 0
  {
    if ds != [] {
      ZeroValue(ds[..|ds| - 1], base);
    }
  }

  /** The minimal expansion of a number below base^n has at most n digits. */
  lemma MinimalLength(v: nat, base: nat, n: nat)
    requires base >= 2 && v < Pow(base, n)
    ensures |Minimal(v, base)| <= n
  {
    var ds := Minimal(v, base);
    if |ds| > n {
      ValueMinimal(v, base);
      PositiveValue(ds, base);
      PowMono(base, n, |ds| - 1);
    }
  }
}
