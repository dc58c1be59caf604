/** The base-58 codec (include/base58.hpp:17-150, 165-176). */
module Base58 {
  import opened Numerals

  const LIMB: nat := 0x1_0000_0000
  const ONE_CHAR: Byte := 49 // '1', the digit zero

  // ----- Alphabet -----

  /** The 128-entry table b58digits_map, written as its runs; -1 marks an invalid character. */
  function DigitOf(c: Byte): (d: int)
    ensures -1 <= d < 58
  {
    if 49 <= c <= 57 then c - 49
    else if 65 <= c <= 72 then c - 56
    else if 74 <= c <= 78 then c - 57
    else if 80 <= c <= 90 then c - 58
    else if 97 <= c <= 107 then c - 64
    else if 109 <= c <= 122 then c - 65
    else -1
  }

  /** The string b58digits_ordered, written as its runs. */
  function CharOf(d: nat): (c: Byte)
    requires d < 58
    ensures DigitOf(c) == d
  {
    if d < 9 then d + 49
    else if d < 17 then d + 56
    else if d < 22 then d + 57
    else if d < 33 then d + 58
    else if d < 44 then d + 64
    else d + 65
  }

  lemma CharOfDigit(c: Byte)
    requires DigitOf(c) != -1
    ensures CharOf(DigitOf(c)) == c
  {
  }

  const ALPHABET: string := "123456789" + "ABCDEFGHJKLMNPQRSTUVWXYZ" + "abcdefghijkmnopqrstuvwxyz"

  /** The digits are the characters of this alphabet in its order, and no others. */
  lemma Alphabet()
    ensures |ALPHABET| == 58 && (forall d: nat :: d < 58 ==> CharOf(d) as char == ALPHABET[d])
    ensures forall c: Byte :: DigitOf(c) != -1 <==> exists d: nat :: d < 58 && CharOf(d) == c
  {
    hide CharOf, DigitOf;
    DigitsAndCapitals();
    SmallLetters();
    forall c: Byte ensures DigitOf(c) != -1 <==> exists d: nat :: d < 58 && CharOf(d) == c {
      if DigitOf(c) != -1 { CharOfDigit(c); }
    }
  }

  lemma DigitsAndCapitals()
    ensures forall d: nat :: d < 33 ==> CharOf(d) as char == ("123456789" + "ABCDEFGHJKLMNPQRSTUVWXYZ")[d]
  {
  }

  lemma SmallLetters()
    ensures forall d: nat :: 33 <= d < 58 ==> CharOf(d) as char == "abcdefghijkmnopqrstuvwxyz"[d - 33]
  {
  }

  predicate IsText(s: Bytes) {
    forall i :: 0 <= i < |s| ==> DigitOf(s[i]) != -1
  }

  function DigitsOf(s: Bytes): (ds: seq<nat>)
    requires IsText(s)
    ensures |ds| == |s| && (forall i :: 0 <= i < |s| ==> ds[i] == DigitOf(s[i]))
  {
    seq(|s|, i requires 0 <= i < |s| => DigitOf(s[i]) as nat)
  }

  function CharsOf(ds: seq<nat>): (s: Bytes)
    requires forall i :: 0 <= i < |ds| ==> ds[i] < 58
    ensures |s| == |ds| && (forall i :: 0 <= i < |ds| ==> s[i] == CharOf(ds[i]))
  {
    seq(|ds|, i requires 0 <= i < |ds| => CharOf(ds[i]))
  }

  /** The number that a base-58 text denotes. */
  function TextValue(s: Bytes): nat
    requires IsText(s)
  {
    Value(DigitsOf(s), 58)
  }

  /** The number of leading '1' characters. */
  function Ones(s: Bytes): (n: nat)
    ensures n <= |s|
    ensures forall i :: 0 <= i < n ==> s[i] == ONE_CHAR
    ensures n < |s| ==> s[n] != ONE_CHAR
  {
    if s == [] || s[0] != ONE_CHAR then 0 else
      var m := Ones(s[1..]);
      assert forall i :: 0 < i < |s| ==> s[i] == s[1..][i - 1];
      m + 1
  }

  lemma {:induction false} OnesUnique(s: Bytes, n: nat)
    requires n <= |s| && (forall i :: 0 <= i < n ==> s[i] == ONE_CHAR)
    requires n < |s| ==> s[n] != ONE_CHAR
    ensures Ones(s) == n
  {
  }

  /** What c_str() hands to the decoder: the characters before the first NUL. */
  function CStr(s: Bytes): (t: Bytes)
    ensures t <= s && 0 !in t
    ensures t == s <==> 0 !in s
    ensures t != s ==> s[|t|] == 0
  {
    if s == [] || s[0] == 0 then [] else [s[0]] + CStr(s[1..])
  }

  // ----- Decoding -----

  /** s decodes into a buffer of n bytes. */
  ghost predicate Decodable(s: Bytes, n: nat) {
    IsText(s) && TextValue(s) < Pow(256, n)
  }

  /** The bytes that decoding leaves in a buffer of n bytes. */
  function Decoded(s: Bytes, n: nat): (bs: Bytes)
    requires IsText(s)
    ensures |bs| == n
  {
    FixedWidth(TextValue(s), 256, n)
  }

  /** The size that decoding reports; the count of leading '1's is a 32-bit unsigned. */
  function DecodedSize(s: Bytes, n: nat): int
    requires IsText(s)
  {
    n - LeadingZeros(Decoded(s, n)) + Ones(s) % 0x1_0000_0000
  }

  /** What follows the leading zeros of a buffer that holds v are its significant bytes. */
  lemma SignificantBytes(v: nat, n: nat)
    ensures v < Pow(256, n) <==> |Minimal(v, 256)| <= n
    ensures v < Pow(256, n) ==> n - LeadingZeros(FixedWidth(v, 256, n)) == |Minimal(v, 256)|
  {
    ValueMinimal(v, 256);
    if |Minimal(v, 256)| <= n {
      ValueBound(Minimal(v, 256), 256);
      PowMono(256, |Minimal(v, 256)|, n);
    }
    if v < Pow(256, n) {
      var bs := FixedWidth(v, 256, n);
      MinimalLength(v, 256, n);
      ValueFixedWidth(v, 256, n);
      StripZeros(bs, LeadingZeros(bs), 256);
    }
  }

  lemma NoNul(s: Bytes)
    requires IsText(s)
    ensures 0 !in s
  {
  }

  lemma OnesText(n: nat)
    ensures var s: Bytes := seq(n, _ => ONE_CHAR);
            IsText(s) && CStr(s) == s && TextValue(s) == 0 && Ones(s) == n
  {
    var s: Bytes := seq(n, _ => ONE_CHAR);
    OnesUnique(s, n);
    ZeroValue(DigitsOf(s), 58);
    NoNul(s);
  }

  /** A prefix never denotes more than the whole text, so rejecting early is final. */
  lemma {:induction false} PrefixRejects(s: Bytes, i: nat, n: nat)
    requires i <= |s| && !Decodable(s[..i], n)
    ensures !Decodable(s, n)
  {
    if IsText(s) {
      assert IsText(s[..i]);
      var a, b := DigitsOf(s[..i]), DigitsOf(s[i..]);
      assert DigitsOf(s) == a + b;
      ValueConcat(a, b, 58);
      MulMono(Value(a, 58), 1, Pow(58, |b|));
    }
  }

  lemma SnocText(s: Bytes, i: nat)
    requires i < |s| && IsText(s[..i]) && DigitOf(s[i]) != -1
    ensures IsText(s[..i + 1])
    ensures TextValue(s[..i + 1]) == TextValue(s[..i]) * 58 + DigitOf(s[i])
  {
    assert DigitsOf(s[..i + 1]) == DigitsOf(s[..i]) + [DigitOf(s[i]) as nat];
    ValueSnoc(DigitsOf(s[..i]), DigitOf(s[i]), 58);
  }

  /** The bytes of an n-byte buffer that the first limb holds. */
  function FirstBytes(n: nat): (k: nat)
    ensures k <= 4
  {
    if n % 4 == 0 then 4 else n % 4
  }

  lemma LeadingPartDecides(x: nat, l: nat, p: nat, rest: nat)
    requires rest < p
    ensures x * p + rest < l * p <==> x < l
  {
    if x < l {
      MulMono(p, x + 1, l);
    } else {
      MulMono(p, l, x);
    }
  }

  lemma BytesOfLimbs(left: nat, k: nat)
    ensures Pow(256, left + 4 * k) == Pow(256, left) * Pow(LIMB, k)
  {
    assert Pow(256, 4) == LIMB;
    PowPow(256, 4, k);
    PowAdd(256, left, 4 * k);
  }

  /** The limbs are short of 256^n exactly when the first one is short of its share. */
  lemma FirstLimbDecides(limbs: seq<nat>, left: nat, n: nat)
    requires limbs != [] && DigitsBelow(limbs, LIMB)
    requires n == left + 4 * (|limbs| - 1)
    ensures Value(limbs, LIMB) < Pow(256, n) <==> limbs[0] < Pow(256, left)
  {
    hide Pow, Value;
    var tail := limbs[1..];
    assert limbs == [limbs[0]] + tail;
    ValueCons(limbs[0], tail, LIMB);
    ValueBound(tail, LIMB);
    BytesOfLimbs(left, |tail|);
    LeadingPartDecides(limbs[0], Pow(256, left), Pow(LIMB, |tail|), Value(tail, LIMB));
  }

  lemma NothingDone(base: nat)
    ensures Value([], base) == 0 && Pow(base, 0) == 1
  {
  }

  lemma PowSucc(base: nat, k: nat)
    ensures Pow(base, k + 1) == base * Pow(base, k)
  {
  }

  lemma CarryAlgebra(c0: nat, w: nat, c: nat, o: nat, p: nat, base: nat, m: nat, x: nat)
    requires c0 + m * w == c * base + o
    ensures c * (base * p) + (o * p + x) == c0 * p + x + (w * p) * m
  {
    MulSwap(base, c, p);
    MulSwap(p, m, w);
    Distribute(c0, m * w, p);
    Distribute(c * base, o, p);
  }

  /**
    The carry equation of a multiply-and-add moves on by one place: before, the carry
    and the places done equal m times the old places plus b, and so they do after.
   */
  lemma CarryMoves(c0: nat, w: nat, was: seq<nat>, c: nat, o: nat, done: seq<nat>, base: nat, m: nat, b: nat)
    requires |was| == |done| && c0 + m * w == c * base + o
    requires c0 * Pow(base, |done|) + Value(done, base) == Value(was, base) * m + b
    ensures c * Pow(base, |done| + 1) + Value([o] + done, base) == Value([w] + was, base) * m + b
  {
    hide Pow, Value;
    var p := Pow(base, |done|);
    PowSucc(base, |done|);
    ValueCons(o, done, base);
    ValueCons(w, was, base);
    CarryAlgebra(c0, w, c, o, p, base, m, Value(done, base));
    Distribute(w * p, Value(was, base), m);
  }

  /** One round of multiply-by-58-and-add over the limbs, from the last to the first. */
  method MultiplyAdd(outi: array<U32>, digit: nat) returns (c: U32)
    requires digit < 58
    modifies outi
    ensures c <= 57
    ensures c * Pow(LIMB, outi.Length) + Value(outi[..], LIMB)
         == old(Value(outi[..], LIMB)) * 58 + digit
  {
    hide Pow, Value;
    ghost var was: seq<nat> := outi[..];
    c := digit;
    var j := outi.Length;
    assert was[j..] == [] && outi[j..] == [];
    NothingDone(LIMB);
    while j != 0
      invariant 0 <= j <= outi.Length
      invariant c <= 57
      invariant outi[..j] == was[..j]
      invariant c * Pow(LIMB, outi.Length - j) + Value(outi[j..], LIMB) == Value(was[j..], LIMB) * 58 + digit
    {
      ghost var tail: seq<nat> := outi[j..];
      j := j - 1;
      var t := outi[j] * 58 + c;
      assert t < 0x1_0000_0000_0000_0000;
      ghost var c0 := c;
      c := t / 0x1_0000_0000;
      outi[j] := t % 0x1_0000_0000;
      assert outi[j..] == [outi[j]] + tail;
      assert was[j..] == [was[j]] + was[j + 1..];
      CarryMoves(c0, was[j], was[j + 1..], c, outi[j], tail, LIMB, 58, digit);
    }
    assert outi[0..] == outi[..] && was[0..] == was;
  }

  /** limb >> 8 * i */
  function ShiftRight(limb: U32, i: nat): nat
    requires i <= 4
  {
    if i == 0 then limb else if i == 1 then limb / 0x100
    else if i == 2 then limb / 0x1_0000 else if i == 3 then limb / 0x100_0000 else 0
  }

  lemma ShiftedOut(limb: U32, i: nat)
    requires i <= 4
    ensures ShiftRight(limb, i) == 0 <==> limb < Pow(256, i)
  {
    assert Pow(256, 0) == 1 && Pow(256, 1) == 0x100;
    assert Pow(256, 2) == 0x1_0000 && Pow(256, 3) == 0x100_0000;
    assert Pow(256, 4) == LIMB;
  }

  lemma ByteStep(pre: seq<nat>, done: seq<nat>, limb: U32, i: nat, k: nat)
    requires 1 <= i <= 4
    requires Value(done, 256) == Value(pre, 256) * Pow(256, k) + ShiftRight(limb, i)
    ensures Value(done + [ShiftRight(limb, i - 1) % 256], 256)
         == Value(pre, 256) * Pow(256, k + 1) + ShiftRight(limb, i - 1)
  {
    hide Pow, Value;
    ValueSnoc(done, ShiftRight(limb, i - 1) % 256, 256);
    PowSucc(256, k);
    MulSwap(256, Value(pre, 256), Pow(256, k));
  }

  /** Writes the count low bytes of a limb, most significant first. */
  method StoreLimb(binu: array<Byte>, at: nat, limb: U32, count: nat)
    requires count <= 4 && limb < Pow(256, count) && at + count <= binu.Length
    modifies binu
    ensures binu[..at] == old(binu[..at])
    ensures Value(binu[..at + count], 256) == Value(old(binu[..at]), 256) * Pow(256, count) + limb
  {
    hide Pow, Value;
    ghost var pre: seq<nat> := binu[..at];
    ShiftedOut(limb, count);
    NothingDone(256);
    var i := count;
    while i > 0
      invariant 0 <= i <= count
      invariant binu[..at] == pre
      invariant Value(binu[..at + count - i], 256) == Value(pre, 256) * Pow(256, count - i) + ShiftRight(limb, i)
    {
      ghost var done: seq<nat> := binu[..at + count - i];
      binu[at + count - i] := ShiftRight(limb, i - 1) % 256;
      assert binu[..at + count - i + 1] == done + [binu[at + count - i]];
      ByteStep(pre, done, limb, i, count - i);
      i := i - 1;
    }
  }

  /** After one round, the carry and the first limb tell whether the prefix still fits. */
  lemma RoundDecides(s: Bytes, i: nat, before: seq<U32>, c: U32, limbs: seq<U32>, left: nat, n: nat)
    requires i < |s| && IsText(s[..i]) && DigitOf(s[i]) != -1
    requires limbs != [] && |before| == |limbs| && 1 <= left <= 4 && n == left + 4 * (|limbs| - 1)
    requires Value(before, LIMB) == TextValue(s[..i])
    requires c * Pow(LIMB, |limbs|) + Value(limbs, LIMB) == Value(before, LIMB) * 58 + DigitOf(s[i])
    ensures IsText(s[..i + 1])
    ensures Decodable(s[..i + 1], n) <==> c == 0 && limbs[0] < Pow(256, left)
    ensures c == 0 ==> Value(limbs, LIMB) == TextValue(s[..i + 1])
  {
    SnocText(s, i);
    FirstLimbDecides(limbs, left, n);
    if c != 0 {
      CarryOverflows(c, |limbs|, Value(limbs, LIMB), n);
    }
  }

  /** Feeds one digit into the limbs and checks that the number still fits n bytes. */
  method FeedDigit(outi: array<U32>, b58: Bytes, i: nat, n: nat) returns (fits: bool)
    requires n > 0 && outi.Length == (n + 3) / 4
    requires i < |b58| && IsText(b58[..i]) && DigitOf(b58[i]) != -1
    requires Value(outi[..], LIMB) == TextValue(b58[..i])
    modifies outi
    ensures fits <==> Decodable(b58[..i + 1], n)
    ensures fits ==> Value(outi[..], LIMB) == TextValue(b58[..i + 1])
  {
    var bytesleft := n % 4;
    ghost var before, left := outi[..], FirstBytes(n);
    var c := MultiplyAdd(outi, DigitOf(b58[i]));
    RoundDecides(b58, i, before, c, outi[..], left, n);
    ShiftedOut(outi[0], left);
    if c != 0 {
      return false;
    }
    // outi[0] & zeromask: the mask is zero when the buffer is a whole number of limbs
    return bytesleft == 0 || ShiftRight(outi[0], bytesleft) == 0;
  }

  /** Feeds the characters from start on into the limbs, stopping at the first that fails. */
  method ReadDigits(outi: array<U32>, b58: Bytes, start: nat, n: nat) returns (ok: bool)
    requires n > 0 && outi.Length == (n + 3) / 4 && (forall k :: 0 <= k < outi.Length ==> outi[k] == 0)
    requires start <= |b58| && (forall k :: 0 <= k < start ==> b58[k] == ONE_CHAR)
    modifies outi
    ensures ok <==> Decodable(b58, n)
    ensures ok ==> Value(outi[..], LIMB) == TextValue(b58)
  {
    var i := start;
    ZeroValue(DigitsOf(b58[..i]), 58);
    ZeroValue(outi[..], LIMB);
    while i < |b58|
      invariant start <= i <= |b58|
      invariant Decodable(b58[..i], n)
      invariant Value(outi[..], LIMB) == TextValue(b58[..i])
    {
      if b58[i] >= 0x80 || DigitOf(b58[i]) == -1 {
        return false;
      }
      var fits := FeedDigit(outi, b58, i, n);
      if !fits {
        PrefixRejects(b58, i + 1, n);
        return false;
      }
      i := i + 1;
    }
    assert b58[..i] == b58;
    return true;
  }

  /**
    b58tobin, on the characters up to the terminating NUL.  A false result leaves
    the buffer as it was.
   */
  method B58ToBin(binu: array<Byte>, b58: Bytes) returns (ok: bool, size: int)
    requires binu.Length > 0
    modifies binu
    ensures ok <==> Decodable(b58, binu.Length)
    ensures ok ==> binu[..] == Decoded(b58, binu.Length)
    ensures ok ==> size == DecodedSize(b58, binu.Length)
    ensures !ok ==> binu[..] == old(binu[..])
  {
    hide Pow, Value, FixedWidth, DigitOf, LeadingZeros, Ones, DigitsOf, IsText;
    var binsz := binu.Length;
    var outi := new U32[(binsz + 3) / 4](_ => 0);
    var zerocount: U32 := 0;
    size := binsz;
    var i := 0;
    while i < |b58| && b58[i] == ONE_CHAR
      invariant 0 <= i <= |b58|
      invariant forall k :: 0 <= k < i ==> b58[k] == ONE_CHAR
      invariant zerocount == i % 0x1_0000_0000
    {
      zerocount := (zerocount + 1) % 0x1_0000_0000;
      i := i + 1;
    }
    OnesUnique(b58, i);
    ok := ReadDigits(outi, b58, i, binsz);
    if !ok {
      return;
    }
    FirstLimbDecides(outi[..], FirstBytes(binsz), binsz);
    StoreLimbs(binu, outi);
    StoredIsDecoded(binu[..], outi[..], b58);
    i := 0;
    while i < binsz && binu[i] == 0
      invariant 0 <= i <= binsz && size == binsz - i
      invariant forall k :: 0 <= k < i ==> binu[k] == 0
    {
      size := size - 1;
      i := i + 1;
    }
    LeadingZerosUnique(binu[..], i);
    size := size + zerocount;
  }

  lemma {:induction false} LeadingZerosUnique(ds: seq<nat>, n: nat)
    requires n <= |ds| && (forall i :: 0 <= i < n ==> ds[i] == 0)
    requires n < |ds| ==> ds[n] != 0
    ensures LeadingZeros(ds) == n
  {
  }

  lemma CarryOverflows(c: nat, limbs: nat, rest: nat, n: nat)
    requires c > 0 && n <= 4 * limbs
    ensures c * Pow(LIMB, limbs) + rest >= Pow(256, n)
  {
    assert Pow(256, 4) == LIMB;
    PowPow(256, 4, limbs);
    PowMono(256, n, 4 * limbs);
    MulMono(Pow(LIMB, limbs), 1, c);
  }

  lemma FourBytes()
    ensures Pow(256, 4) == LIMB
  {
  }

  lemma LimbStep(pre: seq<nat>, post: seq<nat>, limbs: seq<nat>, j: nat)
    requires j < |limbs| && Value(pre, 256) == Value(limbs[..j], LIMB)
    requires Value(post, 256) == Value(pre, 256) * Pow(256, 4) + limbs[j]
    ensures Value(post, 256) == Value(limbs[..j + 1], LIMB)
  {
    FourBytes();
    ValueSnoc(limbs[..j], limbs[j], LIMB);
    assert limbs[..j + 1] == limbs[..j] + [limbs[j]];
  }

  /** Writes all limbs; the first one takes the bytes that do not fill a limb. */
  method StoreLimbs(binu: array<Byte>, outi: array<U32>)
    requires outi.Length > 0 && binu.Length == FirstBytes(binu.Length) + 4 * (outi.Length - 1)
    requires outi[0] < Pow(256, FirstBytes(binu.Length))
    modifies binu
    ensures Value(binu[..], 256) == Value(outi[..], LIMB)
  {
    hide Pow, Value;
    var firstBytes := FirstBytes(binu.Length);
    assert binu[..0] == [];
    NothingDone(256);
    NothingDone(LIMB);
    FourBytes();
    StoreLimb(binu, 0, outi[0], firstBytes);
    ghost var limbs: seq<nat> := outi[..];
    var j := 1;
    ValueSnoc([], outi[0], LIMB);
    assert limbs[..1] == [] + [outi[0]];
    while j < outi.Length
      invariant 1 <= j <= outi.Length
      invariant Value(binu[..firstBytes + 4 * (j - 1)], 256) == Value(limbs[..j], LIMB)
    {
      ghost var at := firstBytes + 4 * (j - 1);
      ghost var pre: seq<nat> := binu[..at];
      StoreLimb(binu, firstBytes + 4 * (j - 1), outi[j], 4);
      LimbStep(pre, binu[..at + 4], limbs, j);
      j := j + 1;
    }
    assert limbs[..j] == limbs && binu[..binu.Length] == binu[..];
  }

  lemma StoredIsDecoded(binu: seq<Byte>, limbs: seq<U32>, s: Bytes)
    requires Value(binu, 256) == Value(limbs, LIMB)
    requires Decodable(s, |binu|) && Value(limbs, LIMB) == TextValue(s)
    ensures binu == Decoded(s, |binu|)
  {
    ValueFixedWidth(TextValue(s), 256, |binu|);
    ValueInjective(binu, Decoded(s, |binu|), 256);
  }

  // ----- Encoding -----

  /** One '1' for each leading zero byte, then the minimal base-58 expansion. */
  function Encoded(bin: Bytes): (s: Bytes)
  {
    seq(LeadingZeros(bin), _ => ONE_CHAR) + CharsOf(Minimal(Value(bin, 256), 58))
  }

  function BufferSize(n: nat): nat {
    n * 138 / 100 + 1
  }

  /** 138/100 is enough cells per byte: 256^n < 58^(138 n / 100 + 1). */
  lemma {:induction false} BufferHolds(n: nat)
    ensures Pow(256, n) < Pow(58, BufferSize(n))
  {
    hide Pow;
    if n < 8 {
      SmallBufferHolds(n);
    } else {
      BufferHolds(n - 8);
      var m := BufferSize(n - 8);
      PowAdd(256, n - 8, 8);
      PowAdd(58, m, 11);
      PowMono(58, m + 11, BufferSize(n));
      EightBytes();
      ProductLess(Pow(256, n - 8), Pow(58, m), Pow(256, 8), Pow(58, 11));
    }
  }

  lemma ProductLess(p: nat, q: nat, a: nat, b: nat)
    requires p < q && a < b
    ensures p * a < q * b
  {
    MulMono(a, p, q);
    MulMono(q, a + 1, b);
  }

  lemma PowSquare(base: nat, n: nat, v: nat)
    requires Pow(base, n) == v
    ensures Pow(base, 2 * n) == v * v
  {
    PowAdd(base, n, n);
  }

  lemma EightBytes()
    ensures Pow(256, 8) == 18446744073709551616
    ensures Pow(58, 11) == 24986644000165537792
  {
    assert Pow(256, 2) == 65536;
    PowSquare(256, 2, 65536);
    PowSquare(256, 4, 4294967296);
    SmallPowers();
    PowAdd(58, 5, 6);
  }

  lemma SmallPowers()
    ensures Pow(58, 1) == 58 && Pow(58, 2) == 3364 && Pow(58, 3) == 195112
    ensures Pow(58, 5) == 656356768 && Pow(58, 6) == 38068692544
  {
    assert Pow(58, 1) == 58 && Pow(58, 2) == 3364 && Pow(58, 3) == 195112;
    PowAdd(58, 2, 3);
    PowAdd(58, 3, 3);
  }

  lemma SmallBufferHolds(n: nat)
    requires n < 8
    ensures Pow(256, n) < Pow(58, BufferSize(n))
  {
    hide Pow;
    SmallPowers();
    SmallBytePowers();
    if n == 5 {
      PowAdd(58, 1, 6);
    } else if n == 6 {
      PowAdd(58, 3, 6);
    } else if n == 7 {
      PowAdd(58, 5, 5);
    }
  }

  lemma SmallBytePowers()
    ensures Pow(256, 0) == Pow(58, 0) == 1 && Pow(256, 1) == 256 && Pow(256, 2) == 0x1_0000
    ensures Pow(256, 3) == 0x100_0000 && Pow(256, 4) == 0x1_0000_0000
    ensures Pow(256, 5) == 0x100_0000_0000 && Pow(256, 6) == 0x1_0000_0000_0000
    ensures Pow(256, 7) == 0x100_0000_0000_0000
  {
    assert Pow(256, 1) == 256 && Pow(256, 2) == 0x1_0000 && Pow(256, 3) == 0x100_0000;
    PowAdd(256, 2, 2);
    PowAdd(256, 2, 3);
    PowAdd(256, 3, 3);
    PowAdd(256, 3, 4);
  }

  /** While input is left, the number read so far leaves the first cell free. */
  lemma FirstCellFree(read: nat, n: nat)
    requires read < n
    ensures Pow(256, read) < Pow(58, BufferSize(n) - 1)
  {
    BufferHolds(read);
    PowMono(58, BufferSize(read), BufferSize(n) - 1);
  }

  /**
    One round of the in-place conversion: multiply by 256 and add a byte.  Cells up
    to high are known to be zero, and the round stops there once the carry is spent.
   */
  method AddByte(buf: array<Byte>, b: Byte, high: nat) returns (j: nat)
    requires high < buf.Length && DigitsBelow(buf[..], 58)
    requires forall k :: 0 <= k <= high ==> buf[k] == 0
    requires Value(buf[..], 58) * 256 + b < Pow(58, buf.Length)
    modifies buf
    ensures j <= high && DigitsBelow(buf[..], 58)
    ensures Value(buf[..], 58) == old(Value(buf[..], 58)) * 256 + b
    ensures forall k :: 0 <= k < j ==> buf[k] == 0
    ensures Value(buf[..], 58) < Pow(58, buf.Length - 1) ==> buf[j] == 0
  {
    hide Pow, Value;
    ghost var was: seq<nat>, size := buf[..], buf.Length;
    var carry: int := b;
    j := buf.Length - 1;
    ghost var from := j + 1;
    assert was[from..] == [] && buf[from..] == [];
    NothingDone(58);
    while j > high || carry != 0
      invariant j < size && from == j + 1
      invariant 0 <= carry <= 255
      invariant buf[..from] == was[..from]
      invariant DigitsBelow(buf[..], 58)
      invariant carry * Pow(58, size - from) + Value(buf[from..], 58) == Value(was[from..], 58) * 256 + b
      decreases j
    {
      ghost var c0, tail: seq<nat> := carry, buf[from..];
      carry := carry + 256 * (buf[j] as int);
      buf[j] := carry % 58;
      carry := carry / 58;
      from := j;
      assert buf[j..] == [buf[j]] + tail && was[j..] == [was[j]] + was[j + 1..];
      CarryMoves(c0, was[j], was[j + 1..], carry, buf[j], tail, 58, 256, b);
      if j == 0 {
        break;
      }
      j := j - 1;
    }
    RoundEnds(was, buf[..], from, carry, b);
  }

  lemma RoundEnds(was: seq<nat>, now: seq<nat>, from: nat, carry: nat, b: Byte)
    requires |was| == |now| > 0 && from <= |was| && now[..from] == was[..from]
    requires DigitsBelow(now, 58) && (forall k :: 0 <= k < from ==> was[k] == 0)
    requires from > 0 ==> carry == 0
    requires carry * Pow(58, |was| - from) + Value(now[from..], 58) == Value(was[from..], 58) * 256 + b
    requires Value(was, 58) * 256 + b < Pow(58, |was|)
    ensures Value(now, 58) == Value(was, 58) * 256 + b
    ensures now[0] != 0 ==> Value(now, 58) >= Pow(58, |now| - 1)
  {
    hide Pow, Value;
    assert now == now[..from] + now[from..] && was == was[..from] + was[from..];
    ZeroValue(now[..from], 58);
    ValueConcat(now[..from], now[from..], 58);
    ValueConcat(was[..from], was[from..], 58);
    if carry != 0 {
      MulMono(Pow(58, |was|), 1, carry);
    }
    if now[0] != 0 {
      PositiveValue(now, 58);
    }
  }

  /** Runs the conversion over the bytes from zcount on. */
  method ConvertBytes(bin: Bytes, zcount: nat) returns (buf: array<Byte>)
    requires zcount <= |bin|
    ensures fresh(buf) && buf.Length == BufferSize(|bin| - zcount)
    ensures DigitsBelow(buf[..], 58) && Value(buf[..], 58) == Value(bin[zcount..], 256)
  {
    hide Pow, Value, Minimal;
    ghost var n := |bin| - zcount;
    var size := (|bin| - zcount) * 138 / 100 + 1;
    buf := new Byte[size](_ => 0);
    var i, high := zcount, size - 1;
    ZeroValue(buf[..], 58);
    NothingDone(256);
    assert bin[zcount..i] == [];
    while i < |bin|
      invariant zcount <= i <= |bin|
      invariant 0 <= high < size && DigitsBelow(buf[..], 58)
      invariant Value(buf[..], 58) == Value(bin[zcount..i], 256)
      invariant i < |bin| ==> forall k :: 0 <= k <= high ==> buf[k] == 0
    {
      NextByteFits(bin, zcount, i);
      high := AddByte(buf, bin[i], high);
      i := i + 1;
      if i < |bin| {
        FirstCellFree(i - zcount, n);
        ValueBound(bin[zcount..i], 256);
      }
    }
    assert bin[zcount..i] == bin[zcount..];
  }

  lemma NextByteFits(bin: Bytes, from: nat, i: nat)
    requires from <= i < |bin|
    ensures Value(bin[from..i + 1], 256) == Value(bin[from..i], 256) * 256 + bin[i]
    ensures Value(bin[from..i + 1], 256) < Pow(58, BufferSize(|bin| - from))
  {
    assert bin[from..i + 1] == bin[from..i] + [bin[i]];
    ValueSnoc(bin[from..i], bin[i], 256);
    ValueBound(bin[from..i + 1], 256);
    BufferHolds(i + 1 - from);
    PowMono(58, BufferSize(i + 1 - from), BufferSize(|bin| - from));
  }

  /** The cells after the leading zeros spell the significant part of the text. */
  lemma CellsSpell(bin: Bytes, zcount: nat, cells: seq<nat>, j: nat)
    requires zcount == LeadingZeros(bin) && DigitsBelow(cells, 58)
    requires Value(cells, 58) == Value(bin[zcount..], 256)
    requires j <= |cells| && (forall k :: 0 <= k < j ==> cells[k] == 0)
    requires j < |cells| ==> cells[j] != 0
    ensures Minimal(Value(bin, 256), 58) == cells[j..]
    ensures |Encoded(bin)| == zcount + |cells| - j
  {
    StripZeros(bin, zcount, 256);
    StripZeros(cells, j, 58);
  }

  lemma TextWritten(bin: Bytes, zcount: nat, cells: seq<Byte>, first: nat, now: Bytes, was: Bytes)
    requires first <= |cells| && zcount == LeadingZeros(bin) && DigitsBelow(cells, 58)
    requires Minimal(Value(bin, 256), 58) == cells[first..]
    requires |was| == |now| > zcount + |cells| - first
    requires forall k :: 0 <= k < zcount ==> now[k] == ONE_CHAR
    requires forall k :: first <= k < |cells| ==> now[zcount + k - first] == CharOf(cells[k])
    requires now[zcount + |cells| - first] == 0
    requires forall k :: zcount + |cells| - first < k < |now| ==> now[k] == was[k]
    ensures now == Encoded(bin) + [0] + was[|Encoded(bin)| + 1..]
  {
    hide Encoded, CharOf;
    var text, n := Encoded(bin), zcount + |cells| - first;
    SpelledLength(bin);
    forall k | 0 <= k < n ensures now[k] == text[k] {
      SpelledAt(bin, zcount, cells, first, k);
      if k >= zcount {
        assert now[zcount + (first + k - zcount) - first] == now[k];
      }
    }
    assert now[..n] == text;
    assert now == now[..n] + [now[n]] + now[n + 1..];
  }

  lemma SpelledAt(bin: Bytes, zcount: nat, cells: seq<Byte>, first: nat, k: nat)
    requires first <= |cells| && zcount == LeadingZeros(bin) && DigitsBelow(cells, 58)
    requires Minimal(Value(bin, 256), 58) == cells[first..]
    requires k < zcount + |cells| - first
    ensures |Encoded(bin)| == zcount + |cells| - first
    ensures Encoded(bin)[k] == if k < zcount then ONE_CHAR else CharOf(cells[first + k - zcount])
  {
    if k >= zcount {
      assert cells[first..][k - zcount] == cells[first + k - zcount];
    }
  }

  lemma SpelledLength(bin: Bytes)
    ensures |Encoded(bin)| == LeadingZeros(bin) + |Minimal(Value(bin, 256), 58)|
  {
  }

  /**
    b58enc with room for cap characters: it succeeds exactly when the text and a NUL
    fit, and reports the room needed either way.
   */
  method B58Enc(b58: array<Byte>, cap: nat, bin: Bytes) returns (ok: bool, b58sz: nat)
    requires cap <= b58.Length
    modifies b58
    ensures ok <==> |Encoded(bin)| < cap
    ensures b58sz == |Encoded(bin)| + 1
    ensures ok ==> b58[..] == Encoded(bin) + [0] + old(b58[|Encoded(bin)| + 1..])
    ensures !ok ==> b58[..] == old(b58[..])
  {
    hide Value, Minimal, CharOf;
    var zcount := 0;
    while zcount < |bin| && bin[zcount] == 0
      invariant 0 <= zcount <= |bin|
      invariant forall k :: 0 <= k < zcount ==> bin[k] == 0
    {
      zcount := zcount + 1;
    }
    LeadingZerosUnique(bin, zcount);
    var buf := ConvertBytes(bin, zcount);
    var size := buf.Length;
    var j := 0;
    while j < size && buf[j] == 0
      invariant 0 <= j <= size
      invariant forall k :: 0 <= k < j ==> buf[k] == 0
    {
      j := j + 1;
    }
    CellsSpell(bin, zcount, buf[..], j);
    if cap <= zcount + size - j {
      return false, zcount + size - j + 1;
    }
    WriteText(b58, zcount, buf, j);
    TextWritten(bin, zcount, buf[..], j, b58[..], old(b58[..]));
    return true, zcount + size - j + 1;
  }

  /** Writes zcount '1's, the characters of the cells from first on and the NUL. */
  method WriteText(b58: array<Byte>, zcount: nat, buf: array<Byte>, first: nat)
    requires b58 != buf && first <= buf.Length && DigitsBelow(buf[..], 58)
    requires zcount + buf.Length - first < b58.Length
    modifies b58
    ensures forall k :: 0 <= k < zcount ==> b58[k] == ONE_CHAR
    ensures forall k :: first <= k < buf.Length ==> b58[zcount + k - first] == CharOf(buf[k])
    ensures b58[zcount + buf.Length - first] == 0
    ensures forall k :: zcount + buf.Length - first < k < b58.Length ==> b58[k] == old(b58[k])
  {
    var i := 0;
    while i < zcount
      invariant 0 <= i <= zcount
      invariant forall k :: 0 <= k < i ==> b58[k] == ONE_CHAR
      invariant forall k :: i <= k < b58.Length ==> b58[k] == old(b58[k])
    {
      b58[i] := ONE_CHAR;
      i := i + 1;
    }
    var j := first;
    while j < buf.Length
      invariant first <= j <= buf.Length && i == zcount + j - first
      invariant forall k :: 0 <= k < buf.Length ==> buf[k] == old(buf[k])
      invariant forall k :: 0 <= k < zcount ==> b58[k] == ONE_CHAR
      invariant forall k :: zcount <= k < i ==> b58[k] == CharOf(buf[first + k - zcount])
      invariant forall k :: i <= k < b58.Length ==> b58[k] == old(b58[k])
    {
      b58[i] := CharOf(buf[j]);
      i := i + 1;
      j := j + 1;
    }
    b58[i] := 0;
  }

  /** b58encode: the buffer is sized by the same estimate, without room to spare. */
  method B58Encode(str: Bytes) returns (r: Bytes)
    ensures r == if |Encoded(str)| <= |str| * 138 / 100 then Encoded(str) else []
  {
    var b58Size := |str| * 138 / 100 + 1;
    var b58 := new Byte[b58Size](_ => 0);
    var ok, sz := B58Enc(b58, b58Size, str);
    if ok {
      r := b58[..sz - 1];
    } else {
      r := [];
    }
  }

  // ----- Decoding and encoding are inverse -----

  lemma OnesOfEncoded(bin: Bytes)
    ensures IsText(Encoded(bin)) && Ones(Encoded(bin)) == LeadingZeros(bin)
  {
    OnesUnique(Encoded(bin), LeadingZeros(bin));
  }

  /** The text of bin denotes the same number as bin. */
  lemma EncodedValue(bin: Bytes)
    ensures IsText(Encoded(bin)) && TextValue(Encoded(bin)) == Value(bin, 256)
  {
    var s, z := Encoded(bin), LeadingZeros(bin);
    var ds, sig := DigitsOf(s), Minimal(Value(bin, 256), 58);
    assert ds[z..] == sig;
    StripZeros(ds, z, 58);
    ValueMinimal(Value(bin, 256), 58);
  }

  /** Decoding the text of bin into a buffer of its own size gives bin back. */
  lemma DecodeEncoded(bin: Bytes)
    ensures Decodable(Encoded(bin), |bin|) && Decoded(Encoded(bin), |bin|) == bin
  {
    EncodedValue(bin);
    ValueBound(bin, 256);
    ValueFixedWidth(Value(bin, 256), 256, |bin|);
    ValueInjective(Decoded(Encoded(bin), |bin|), bin, 256);
  }

  lemma DecodeEncodedSize(bin: Bytes)
    requires LeadingZeros(bin) < LIMB
    ensures DecodedSize(Encoded(bin), |bin|) == |bin|
  {
    DecodeEncoded(bin);
    OnesOfEncoded(bin);
    Uint32Count(LeadingZeros(bin));
  }

  lemma Uint32Count(n: nat)
    ensures n % 0x1_0000_0000 <= n
    ensures n % 0x1_0000_0000 == n <==> n < LIMB
  {
  }

  lemma CharsOfDigits(s: Bytes)
    requires IsText(s)
    ensures CharsOf(DigitsOf(s)) == s
  {
    forall i | 0 <= i < |s| ensures CharsOf(DigitsOf(s))[i] == s[i] {
      CharOfDigit(s[i]);
    }
  }

  lemma ZeroDigits(s: Bytes)
    requires IsText(s)
    ensures forall i :: 0 <= i < Ones(s) ==> DigitsOf(s)[i] == 0
    ensures Ones(s) < |s| ==> DigitsOf(s)[Ones(s)] != 0
  {
    if Ones(s) < |s| {
      CharOfDigit(s[Ones(s)]);
    }
  }

  /** A text is its leading '1's and the minimal digits of its number. */
  lemma TextSplits(s: Bytes)
    requires IsText(s)
    ensures s == seq(Ones(s), _ => ONE_CHAR) + CharsOf(Minimal(TextValue(s), 58))
  {
    hide Minimal, Value, DigitOf, CharOf, Ones, TextValue;
    var z := Ones(s);
    SignificantDigits(s);
    CharsOfDigits(s[z..]);
    assert s[..z] == seq(z, _ => ONE_CHAR);
    assert s == s[..z] + s[z..];
  }

  lemma SignificantDigits(s: Bytes)
    requires IsText(s)
    ensures DigitsOf(s[Ones(s)..]) == Minimal(TextValue(s), 58)
  {
    hide Value, Minimal, DigitOf;
    var z, ds := Ones(s), DigitsOf(s);
    ZeroDigits(s);
    StripZeros(ds, z, 58);
    assert DigitsOf(s[z..]) == ds[z..];
  }

  /**
    A text that fills its buffer exactly comes back from the bytes, unless its
    leading '1's overflow the 32-bit counter.
   */
  lemma EncodeDecoded(s: Bytes, n: nat)
    requires Decodable(s, n) && DecodedSize(s, n) == n
    ensures Encoded(Decoded(s, n)) == s <==> Ones(s) < LIMB
  {
    TextSplits(s);
    ValueFixedWidth(TextValue(s), 256, n);
    OnesOfEncoded(Decoded(s, n));
    Uint32Count(Ones(s));
  }
}
