/** The string wrappers of the base-58 codec, which size their own buffers (include/base58.hpp:152-176). */
module Base58Strings {
  import opened Base58
  import opened Numerals

  /** A decoded string; the empty string of a failure; or a result that starts before the buffer. */
  datatype Outcome = String(bytes: Bytes) | Failed | Undefined

  function DecodeBufferSize(n: nat): (k: nat)
    ensures k > 0
  {
    n * 733 / 1000 + 1
  }

  lemma ScaledLess(p: nat, a: nat, q: nat, b: nat, r: nat, c: nat, s: nat, d: nat)
    requires p * a < q * b && r * c < s * d
    ensures (p * r) * (a * c) < (q * s) * (b * d)
  {
    ProductLess(p * a, q * b, r * c, s * d);
    Regroup(p, a, r, c);
    Regroup(q, b, s, d);
  }

  lemma Regroup(p: nat, a: nat, r: nat, c: nat)
    ensures (p * a) * (r * c) == (p * r) * (a * c)
  {
    MulSwap(p * a, r, c);
    MulSwap(r, p, a);
    MulSwap(p * r, a, c);
  }

  lemma FifteenDigits()
    ensures Pow(58, 15) * 1000 < Pow(256, 11) * 916
  {
    EightBytes();
    SmallPowers();
    assert Pow(256, 3) == 0x100_0000;
    PowAdd(58, 5, 5);
    PowAdd(58, 10, 5);
    PowAdd(256, 3, 8);
  }

  lemma SeventyOneDigits()
    ensures Pow(58, 71) < Pow(256, 52)
  {
    hide Pow;
    FifteenDigits();
    EightBytes();
    var p, q := Pow(58, 15), Pow(256, 11);
    PowAdd(58, 15, 15);
    PowAdd(256, 11, 11);
    ScaledLess(p, 1000, q, 916, p, 1000, q, 916);
    var p2, q2 := Pow(58, 30), Pow(256, 22);
    PowAdd(58, 30, 30);
    PowAdd(256, 22, 22);
    ScaledLess(p2, 1000000, q2, 839056, p2, 1000000, q2, 839056);
    var p4, q4 := Pow(58, 60), Pow(256, 44);
    PowAdd(58, 60, 11);
    PowAdd(256, 44, 8);
    ScaledLess(p4, 1000000000000, q4, 704014971136, Pow(58, 11), 1000, Pow(256, 8), 1355);
    assert Pow(58, 71) * 1000000000000000 < Pow(256, 52) * 953940285889280;
  }

  /** 733/1000 is enough bytes per character: 58^n < 256^(733 n / 1000 + 1). */
  lemma {:induction false} DecodeBufferHolds(n: nat)
    ensures Pow(58, n) < Pow(256, DecodeBufferSize(n))
  {
    hide Pow, DecodeBufferSize;
    if n < 16 {
      SmallDecodeBufferHolds(n);
    } else if n < 71 {
      DecodeBufferHolds(n - 15);
      FifteenDigits();
      GrowsByEleven(n);
      DecodeBufferGrows(n, DecodeBufferSize(n - 15), 15, 11);
    } else {
      DecodeBufferHolds(n - 71);
      SeventyOneDigits();
      GrowsByFiftyTwo(n);
      DecodeBufferGrows(n, DecodeBufferSize(n - 71), 71, 52);
    }
  }

  lemma GrowsByEleven(n: nat)
    requires 16 <= n < 71
    ensures DecodeBufferSize(n - 15) + 11 <= DecodeBufferSize(n)
  {
    var k := (n - 15) * 733 / 1000;
    assert k * 1000 <= (n - 15) * 733;
    assert (k + 11) * 1000 <= n * 733 by {
      if n * 733 < (k + 11) * 1000 {
        assert (k + 11) * 1000 - n * 733 <= 5;
        NearMiss(n, k + 11);
      }
    }
  }

  /** 733 n falls short of a multiple of 1000 by five or less for no n of these. */
  lemma NearMiss(n: nat, k: nat)
    requires 16 <= n < 71
    ensures !(1 <= k * 1000 - n * 733 <= 5)
  {
  }

  lemma GrowsByFiftyTwo(n: nat)
    requires n >= 71
    ensures DecodeBufferSize(n - 71) + 52 <= DecodeBufferSize(n)
  {
  }

  lemma DecodeBufferGrows(n: nat, k: nat, s: nat, t: nat)
    requires s <= n && Pow(58, n - s) < Pow(256, k) && Pow(58, s) < Pow(256, t) && k + t <= DecodeBufferSize(n)
    ensures Pow(58, n) < Pow(256, DecodeBufferSize(n))
  {
    hide Pow, DecodeBufferSize;
    PowAdd(58, n - s, s);
    PowAdd(256, k, t);
    ProductLess(Pow(58, n - s), Pow(256, k), Pow(58, s), Pow(256, t));
    PowMono(256, k + t, DecodeBufferSize(n));
  }

  lemma SmallDecodeBufferHolds(n: nat)
    requires n < 16
    ensures Pow(58, n) < Pow(256, DecodeBufferSize(n))
  {
    hide Pow;
    SmallDigits(if n < 8 then n else n - 8);
    if n >= 8 {
      SmallDigits(8);
      SmallDigits(7);
      FifteenDigits();
      EightDigits(n);
    }
  }

  /** The smallest number of bytes that holds n digits. */
  lemma SmallDigits(n: nat)
    requires n <= 8
    ensures Pow(58, n) < Pow(256, DecodeBufferSize(n))
    ensures Pow(58, 8) == 128063081718016 && Pow(256, 6) == 281474976710656
  {
    hide Pow;
    SmallPowers();
    SmallBytePowers();
    PowAdd(58, 1, 3);
    PowAdd(58, 1, 6);
    PowAdd(58, 2, 6);
  }

  lemma EightDigits(n: nat)
    requires 8 <= n < 16
    ensures Pow(58, n) < Pow(256, DecodeBufferSize(n))
  {
    hide Pow;
    SmallPowers();
    SmallBytePowers();
    SmallDigits(8);
    FifteenDigits();
    EightBytes();
    PowAdd(58, 3, 6);
    PowAdd(58, 5, 5);
    PowAdd(58, 6, 6);
    PowAdd(58, 5, 8);
    PowAdd(58, 6, 8);
    PowAdd(256, 3, 6);
    PowAdd(256, 3, 7);
    PowAdd(256, 3, 8);
  }

  // ----- b58encode -----

  /** b58encode succeeds exactly when the number stays below what the remaining characters of its buffer can spell. */
  lemma EncodeSucceeds(str: Bytes)
    ensures var room := |str| * 138 / 100;
            |Encoded(str)| <= room <==> LeadingZeros(str) <= room && Value(str, 256) < Pow(58, room - LeadingZeros(str))
  {
    hide Pow, Value, LeadingZeros, Encoded;
    SpelledLength(str);
    var z, room := LeadingZeros(str), |str| * 138 / 100;
    if z <= room {
      DigitsFit(Value(str, 256), room - z);
    }
  }

  lemma DigitsFit(v: nat, n: nat)
    ensures |Minimal(v, 58)| <= n <==> v < Pow(58, n)
  {
    hide Pow, Value;
    ValueMinimal(v, 58);
    if |Minimal(v, 58)| <= n {
      ValueBound(Minimal(v, 58), 58);
      PowMono(58, |Minimal(v, 58)|, n);
    }
    if v < Pow(58, n) {
      MinimalLength(v, 58, n);
    }
  }

  /** The text of the byte 255 is "5Q", and its buffer has no room for the NUL after it. */
  lemma ShortEncodeWitness()
    ensures Encoded([255]) == [53, 81] && BufferSize(1) == 2
  {
    hide Minimal, Value;
    DigitsOf255();
    assert LeadingZeros([255]) == 0;
    assert CharOf(4) == 53 && CharOf(23) == 81;
    assert CharsOf([4, 23]) == [53, 81];
  }

  lemma DigitsOf255()
    ensures Minimal(Value([255], 256), 58) == [4, 23]
  {
    hide Minimal;
    ValueSnoc([], 255, 256);
    assert [] + [255] == [255];
    ValueSnoc([], 4, 58);
    ValueSnoc([4], 23, 58);
    assert [] + [4] == [4] && [4] + [23] == [4, 23];
    MinimalUnique([4, 23], 58);
  }

  // ----- b58decode -----

  /**
    What b58decode makes of a string: the bytes of the buffer from its last leading
    zero that a '1' stands for.  More '1's than the buffer has room for put the start
    of the result before the buffer.
   */
  function DecodedString(s: Bytes): Outcome {
    var t, size := CStr(s), DecodeBufferSize(|s|);
    if !IsText(t) then Failed
    else if DecodedSize(t, size) > size then Undefined
    else String(Decoded(t, size)[size - DecodedSize(t, size)..])
  }

  /** A text never denotes more than its buffer holds. */
  lemma TextFitsBuffer(s: Bytes)
    ensures IsText(CStr(s)) <==> Decodable(CStr(s), DecodeBufferSize(|s|))
  {
    hide Pow;
    var t := CStr(s);
    if IsText(t) {
      ValueBound(DigitsOf(t), 58);
      DecodeBufferHolds(|t|);
      BufferSizeMono(|t|, |s|);
      PowMono(256, DecodeBufferSize(|t|), DecodeBufferSize(|s|));
    }
  }

  lemma BufferSizeMono(m: nat, n: nat)
    requires m <= n
    ensures DecodeBufferSize(m) <= DecodeBufferSize(n)
  {
  }

  method B58Decode(b58: Bytes) returns (r: Outcome)
    ensures r == DecodedString(b58)
  {
    hide IsText, Decodable, Decoded;
    var size := |b58| * 733 / 1000 + 1;
    var decoded := new Byte[size](_ => 0);
    var ok, decodedSize := B58ToBin(decoded, CStr(b58));
    TextFitsBuffer(b58);
    if !ok {
      return Failed;
    }
    var offset := size - decodedSize;
    if offset < 0 {
      return Undefined;
    }
    return String(decoded[offset..offset + decodedSize]);
  }

  /**
    What b58decode makes of any string, by its leading '1's, counted modulo 2^32, and the
    significant bytes of its number: nothing for other characters, no result if they do
    not fit the buffer, and otherwise a zero byte for each '1' and those bytes.
   */
  lemma DecodedStringIs(s: Bytes)
    ensures var t := CStr(s);
            if !IsText(t) then DecodedString(s) == Failed else
              var ones, digits := Ones(t) % 0x1_0000_0000, Minimal(TextValue(t), 256);
              DecodedString(s) == if ones + |digits| > |s| * 733 / 1000 + 1 then Undefined else String(seq(ones, _ => 0) + digits)
  {
    hide Pow, Value, FixedWidth, Minimal, LeadingZeros, Ones, IsText, TextValue;
    var t := CStr(s);
    if IsText(t) {
      TextFitsBuffer(s);
      PaddedDigits(TextValue(t), DecodeBufferSize(|s|), Ones(t) % 0x1_0000_0000);
    }
  }

  /** The bytes of a number in a buffer, from m bytes before its significant ones. */
  lemma PaddedDigits(v: nat, size: nat, m: nat)
    requires v < Pow(256, size)
    ensures var bs, digits := FixedWidth(v, 256, size), Minimal(v, 256);
            && size - LeadingZeros(bs) == |digits|
            && (m + |digits| <= size ==> bs[size - (m + |digits|)..] == seq(m, _ => 0) + digits)
  {
    hide Pow, Value, FixedWidth, Minimal, LeadingZeros;
    var bs, z := FixedWidth(v, 256, size), LeadingZeros(FixedWidth(v, 256, size));
    SignificantBytes(v, size);
    ValueFixedWidth(v, 256, size);
    StripZeros(bs, z, 256);
    if m + |Minimal(v, 256)| <= size {
      assert bs[z - m..] == bs[z - m..z] + bs[z..];
    }
  }

  /** Four '1's ask for four zero bytes, and the buffer has three. */
  lemma ManyOnesDecodeWitness()
    ensures DecodedString([ONE_CHAR, ONE_CHAR, ONE_CHAR, ONE_CHAR]) == Undefined
  {
    hide DecodedString, IsText, Ones, TextValue, CStr, Minimal;
    var s := seq(4, _ => ONE_CHAR);
    assert s == [ONE_CHAR, ONE_CHAR, ONE_CHAR, ONE_CHAR];
    OnesText(4);
    DecodedStringIs(s);
  }

  /**
    b58decode undoes an encoding exactly when the buffer it sizes from the text has room for
    the original bytes, leading zeros included, and these are fewer than 2^32.
   */
  lemma DecodedStringOfEncoded(x: Bytes)
    ensures var room := |x| <= |Encoded(x)| * 733 / 1000 + 1;
            && (DecodedString(Encoded(x)) == String(x) <==> room && LeadingZeros(x) < LIMB)
            && (LeadingZeros(x) < LIMB && !room ==> DecodedString(Encoded(x)) == Undefined)
  {
    hide Pow, Value, FixedWidth, Minimal, LeadingZeros, Ones, DigitsOf, CharOf, DigitOf, Encoded, DecodedString;
    var t := Encoded(x);
    EncodedValue(x);
    OnesOfEncoded(x);
    NoNul(t);
    DecodedStringIs(t);
    Uint32Count(Ones(t));
    var digits := Minimal(Value(x, 256), 256);
    StripZeros(x, LeadingZeros(x), 256);
    assert x == x[..LeadingZeros(x)] + digits;
    assert x == seq(LeadingZeros(x), _ => 0) + digits;
  }
}
