/** Epoch arithmetic (include/solana.hpp:91-149, lib/solana.cpp:99-120). */
module Epochs {
  import opened Bits
  import opened Numerals

  const MINIMUM_SLOT_PER_EPOCH: nat := 32
  /** Slots below this bound survive the conversion to double and back. */
  const EXACT: nat := 0x20_0000_0000_0000

  type U64 = n: int | 0 <= n < 0x1_0000_0000_0000_0000

  // ----- Powers of two -----

  function BitLength(n: nat): nat {
    if n == 0 then 0 else BitLength(n / 2) + 1
  }

  lemma {:induction false} BitLengthBounds(n: nat)
    ensures n < Pow(2, BitLength(n))
    ensures n > 0 ==> BitLength(n) > 0 && Pow(2, BitLength(n) - 1) <= n
  {
    if n > 0 {
      BitLengthBounds(n / 2);
    }
  }

  lemma BitLengthUnique(n: nat, k: nat)
    requires k > 0 && Pow(2, k - 1) <= n < Pow(2, k)
    ensures BitLength(n) == k
  {
    BitLengthBounds(n);
    var len := BitLength(n);
    if len < k {
      PowMono(2, len, k - 1);
    } else if len > k {
      PowMono(2, k, len - 1);
    }
  }

  function LeastPower(n: nat): nat {
    if n == 0 then 1 else Pow(2, BitLength(n - 1))
  }

  /** LeastPower(n) is the least power of two that is not below n. */
  lemma LeastPowerIsLeast(n: nat, k: nat)
    ensures LeastPower(n) >= n
    ensures Pow(2, k) >= n ==> Pow(2, k) >= LeastPower(n)
  {
    if n > 0 {
      BitLengthBounds(n - 1);
      if k < BitLength(n - 1) {
        PowMono(2, k, BitLength(n - 1) - 1);
      } else {
        PowMono(2, BitLength(n - 1), k);
      }
    } else {
      PowMono(2, 0, k);
    }
  }

  /** nextPowerOfTwo: the bit smearing computes the least power, which wraps to 0 above 2^63. */
  method NextPowerOfTwo(m: U64) returns (r: U64)
    ensures m <= 0x8000_0000_0000_0000 ==> r == LeastPower(m)
    ensures m > 0x8000_0000_0000_0000 ==> r == 0
  {
    hide Or, Shr, Pow;
    if m == 0 {
      return 1;
    }
    var n: nat := m - 1;
    ghost var len := BitLength(n);
    SmearStart(n);
    Smear(n, len, 1);
    n := Or(n, Shr(n, 1));
    Smear(n, len, 2);
    n := Or(n, Shr(n, 2));
    Smear(n, len, 4);
    n := Or(n, Shr(n, 4));
    Smear(n, len, 8);
    n := Or(n, Shr(n, 8));
    Smear(n, len, 16);
    n := Or(n, Shr(n, 16));
    Smear(n, len, 32);
    n := Or(n, Shr(n, 32));
    SmearEnd(m - 1, n);
    return (n + 1) % 0x1_0000_0000_0000_0000;
  }

  lemma SmearStart(n: nat)
    ensures TopOnes(n, BitLength(n), 1)
  {
    BitLengthBounds(n);
  }

  lemma SmearEnd(m: nat, n: nat)
    requires m < 0xFFFF_FFFF_FFFF_FFFF && TopOnes(n, BitLength(m), 64)
    ensures n + 1 == Pow(2, BitLength(m))
    ensures m < 0x8000_0000_0000_0000 ==> n + 1 <= 0x8000_0000_0000_0000
    ensures m >= 0x8000_0000_0000_0000 ==> n + 1 == 0x1_0000_0000_0000_0000
  {
    BitLengthBounds(m);
    WordPowers();
    if BitLength(m) > 64 {
      PowMono(2, 64, BitLength(m) - 1);
    }
    if m < Pow(2, 63) && BitLength(m) == 64 {
      BitLengthBounds(m);
    }
    if BitLength(m) <= 63 {
      PowMono(2, BitLength(m), 63);
    }
  }

  lemma WordPowers()
    ensures Pow(2, 63) == 0x8000_0000_0000_0000 && Pow(2, 64) == 0x1_0000_0000_0000_0000
  {
    PowersOfTwo();
    PowAdd(2, 32, 32);
    PowAdd(2, 16, 15);
    PowAdd(2, 32, 31);
  }

  /** What the loop of trailingZeros computes: the floor of the logarithm, 0 for 0. */
  function FloorLog(n: nat): nat {
    if n <= 1 then 0 else FloorLog(n / 2) + 1
  }

  method TrailingZeros(m: U64) returns (trailingsZeros: nat)
    ensures trailingsZeros == FloorLog(m)
  {
    var n: nat := m;
    trailingsZeros := 0;
    while n > 1
      invariant trailingsZeros + FloorLog(n) == FloorLog(m)
    {
      n := n / 2;
      trailingsZeros := trailingsZeros + 1;
    }
  }

  lemma {:induction false} FloorLogOfPower(k: nat)
    ensures FloorLog(Pow(2, k)) == k
  {
    if k > 0 {
      FloorLogOfPower(k - 1);
    }
  }

  /** The number of zero bits below the lowest one. */
  function ZerosBelow(n: nat): nat
    requires n > 0
  {
    if n % 2 == 1 then 0 else ZerosBelow(n / 2) + 1
  }

  /** trailingZeros lives up to its name on the powers of two and nowhere else. */
  lemma {:induction false} TrailingZerosOfPower(n: nat)
    requires n > 0
    ensures FloorLog(n) == ZerosBelow(n) <==> n == Pow(2, FloorLog(n))
  {
    if n > 1 {
      TrailingZerosOfPower(n / 2);
      if n % 2 == 1 {
        assert Pow(2, FloorLog(n)) == 2 * Pow(2, FloorLog(n / 2));
      }
    }
  }

  // ----- Schedules -----

  datatype EpochSchedule = EpochSchedule(
    firstNormalEpoch: nat,
    firstNormalSlot: nat,
    leaderScheduleSlotOffset: nat,
    slotsPerEpoch: nat,
    warmup: bool)
  {
    function SlotsInEpoch(epoch: nat): nat {
      if epoch < firstNormalEpoch then Pow(2, epoch + FloorLog(MINIMUM_SLOT_PER_EPOCH)) else slotsPerEpoch
    }

    function FirstSlotInEpoch(epoch: nat): nat {
      if epoch <= firstNormalEpoch then (Pow(2, epoch) - 1) * MINIMUM_SLOT_PER_EPOCH
      else (epoch - firstNormalEpoch) * slotsPerEpoch + firstNormalSlot
    }

    function LastSlotInEpoch(epoch: nat): int {
      FirstSlotInEpoch(epoch) + SlotsInEpoch(epoch) - 1
    }

    function EpochAndSlotIndex(slot: nat): (int, int)
      requires slotsPerEpoch > 0
    {
      if slot < firstNormalSlot then
        var epoch := FloorLog(LeastPower(slot + MINIMUM_SLOT_PER_EPOCH + 1)) - FloorLog(MINIMUM_SLOT_PER_EPOCH) - 1;
        var epochLen := SlotsInEpoch(if epoch >= 0 then epoch else 0);
        (epoch, slot - (epochLen - MINIMUM_SLOT_PER_EPOCH))
      else
        var normalSlotIndex := slot - firstNormalSlot;
        (firstNormalEpoch + Quot(normalSlotIndex, slotsPerEpoch), Rem(normalSlotIndex, slotsPerEpoch))
    }

    /** The shifts stay within an int. */
    predicate InRange() {
      firstNormalEpoch <= 26 && slotsPerEpoch > 0
    }

    /** The first normal slot is where the doubling epochs of the warm-up end. */
    predicate Consistent() {
      InRange() && firstNormalSlot == (Pow(2, firstNormalEpoch) - 1) * MINIMUM_SLOT_PER_EPOCH
    }
  }

  lemma MinimumEpoch(k: nat)
    ensures FloorLog(MINIMUM_SLOT_PER_EPOCH) == 5
    ensures Pow(2, k + 5) == Pow(2, k) * MINIMUM_SLOT_PER_EPOCH
    ensures Pow(2, k + 1) == 2 * Pow(2, k) && Pow(2, 0) == 1
  {
    assert FloorLog(32) == 5;
    PowersOfTwo();
    PowAdd(2, k, 5);
  }

  lemma WarmupLength(s: EpochSchedule, epoch: nat)
    requires epoch < s.firstNormalEpoch
    ensures s.SlotsInEpoch(epoch) == Pow(2, epoch) * MINIMUM_SLOT_PER_EPOCH == Pow(2, epoch + 5)
  {
    MinimumEpoch(epoch);
  }

  /** Epochs start at slot 0 with 32 slots and double until the first normal one, from which on all are of one length. */
  lemma EpochLengths(s: EpochSchedule, epoch: nat)
    ensures s.FirstSlotInEpoch(0) == 0 && (s.firstNormalEpoch > 0 ==> s.SlotsInEpoch(0) == 32)
    ensures epoch + 1 < s.firstNormalEpoch ==> s.SlotsInEpoch(epoch + 1) == 2 * s.SlotsInEpoch(epoch)
    ensures epoch >= s.firstNormalEpoch ==> s.SlotsInEpoch(epoch) == s.slotsPerEpoch
  {
    hide FloorLog;
    MinimumEpoch(epoch);
    MinimumEpoch(0);
    if epoch + 1 < s.firstNormalEpoch {
      WarmupLength(s, epoch);
      WarmupLength(s, epoch + 1);
    }
  }

  /** The shifts of an in-range schedule do not leave the int type. */
  lemma ShiftsFit(s: EpochSchedule, epoch: nat)
    requires s.InRange()
    ensures epoch < s.firstNormalEpoch ==> s.SlotsInEpoch(epoch) < 0x8000_0000
    ensures epoch <= s.firstNormalEpoch ==> s.FirstSlotInEpoch(epoch) < 0x8000_0000
  {
    PowersOfTwo();
    PowAdd(2, 10, 16);
    if epoch <= s.firstNormalEpoch {
      PowMono(2, epoch, 26);
    }
    if epoch < s.firstNormalEpoch {
      WarmupLength(s, epoch);
      PowMono(2, epoch + 1, 26);
    }
  }

  /** Each epoch ends right before the next begins, exactly for the consistent schedules. */
  lemma EpochsTile(s: EpochSchedule)
    requires s.InRange()
    ensures (forall epoch: nat :: s.LastSlotInEpoch(epoch) + 1 == s.FirstSlotInEpoch(epoch + 1)) <==> s.Consistent()
  {
    if s.Consistent() {
      forall epoch: nat ensures s.LastSlotInEpoch(epoch) + 1 == s.FirstSlotInEpoch(epoch + 1) {
        NextEpochFollows(s, epoch);
      }
    } else {
      var e := s.firstNormalEpoch;
      assert s.FirstSlotInEpoch(e + 1) == 1 * s.slotsPerEpoch + s.firstNormalSlot;
      assert s.LastSlotInEpoch(e) + 1 != s.FirstSlotInEpoch(e + 1);
    }
  }

  lemma NextEpochFollows(s: EpochSchedule, epoch: nat)
    requires s.Consistent()
    ensures s.LastSlotInEpoch(epoch) + 1 == s.FirstSlotInEpoch(epoch + 1)
  {
    if epoch < s.firstNormalEpoch {
      WarmupLength(s, epoch);
      assert Pow(2, epoch + 1) == 2 * Pow(2, epoch);
    } else {
      var k := epoch - s.firstNormalEpoch;
      assert (k + 1) * s.slotsPerEpoch == k * s.slotsPerEpoch + s.slotsPerEpoch;
    }
  }

  /** A warm-up slot lies in the epoch whose power of two brackets slot + 32. */
  lemma WarmupSlot(s: EpochSchedule, slot: nat, epoch: nat)
    requires s.Consistent() && epoch < s.firstNormalEpoch
    requires Pow(2, epoch + 5) <= slot + MINIMUM_SLOT_PER_EPOCH < Pow(2, epoch + 6)
    ensures slot < s.firstNormalSlot
    ensures s.EpochAndSlotIndex(slot) == (epoch, slot - s.FirstSlotInEpoch(epoch))
  {
    hide Pow, FloorLog, BitLength;
    BitLengthUnique(slot + MINIMUM_SLOT_PER_EPOCH, epoch + 6);
    FloorLogOfPower(epoch + 6);
    WarmupLength(s, epoch);
    PowMono(2, epoch + 6, s.firstNormalEpoch + 5);
    MinimumEpoch(epoch);
    MinimumEpoch(s.firstNormalEpoch);
  }

  /** getEpochAndSlotIndex finds an epoch that contains the slot, and the place in it. */
  lemma SlotIsCovered(s: EpochSchedule, slot: nat)
    requires s.Consistent() && slot < EXACT
    ensures var (epoch, index) := s.EpochAndSlotIndex(slot);
            epoch >= 0 && 0 <= index < s.SlotsInEpoch(epoch) && s.FirstSlotInEpoch(epoch) + index == slot
  {
    if slot < s.firstNormalSlot {
      var k := BitLength(slot + MINIMUM_SLOT_PER_EPOCH);
      WarmupBracket(s, slot);
      WarmupSlot(s, slot, k - 6);
      WarmupLength(s, k - 6);
      assert Pow(2, k) == 2 * Pow(2, k - 1);
    } else {
      DivisionEquation(slot - s.firstNormalSlot, s.slotsPerEpoch);
    }
  }

  lemma WarmupBracket(s: EpochSchedule, slot: nat)
    requires s.Consistent() && slot < s.firstNormalSlot
    ensures var k := BitLength(slot + MINIMUM_SLOT_PER_EPOCH);
            6 <= k < s.firstNormalEpoch + 6 && Pow(2, k - 1) <= slot + MINIMUM_SLOT_PER_EPOCH < Pow(2, k)
  {
    hide FloorLog, BitLength, Pow;
    var k := BitLength(slot + MINIMUM_SLOT_PER_EPOCH);
    BitLengthBounds(slot + MINIMUM_SLOT_PER_EPOCH);
    MinimumEpoch(0);
    MinimumEpoch(s.firstNormalEpoch);
    if k <= 5 {
      PowMono(2, k, 5);
    }
    if k >= s.firstNormalEpoch + 6 {
      PowMono(2, s.firstNormalEpoch + 5, k - 1);
    }
  }

  /** The slot at an index of an epoch is mapped back to that epoch and index. */
  lemma EpochIsFound(s: EpochSchedule, epoch: nat, index: nat)
    requires s.Consistent() && index < s.SlotsInEpoch(epoch)
    requires s.FirstSlotInEpoch(epoch) + index < EXACT
    ensures s.EpochAndSlotIndex(s.FirstSlotInEpoch(epoch) + index) == (epoch, index)
  {
    hide Pow, FloorLog, BitLength;
    if epoch < s.firstNormalEpoch {
      WarmupLength(s, epoch);
      MinimumEpoch(epoch + 5);
      MinimumEpoch(epoch);
      WarmupSlot(s, s.FirstSlotInEpoch(epoch) + index, epoch);
    } else {
      DivisionUnique((epoch - s.firstNormalEpoch) * s.slotsPerEpoch + index, s.slotsPerEpoch, epoch - s.firstNormalEpoch, index);
    }
  }
}
