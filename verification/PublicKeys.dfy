/** The text form of 32-byte public keys (lib/solana.cpp:30-46). */
module PublicKeys {
  import opened Base58
  import opened Numerals

  const SIZE: nat := 32

  type Key = bs: Bytes | |bs| == SIZE witness seq(SIZE, _ => 0)

  /** key == PublicKey::empty() */
  predicate IsEmpty(key: Key) {
    forall i :: 0 <= i < SIZE ==> key[i] == 0
  }

  datatype Parsed = Ok(key: Key) | InvalidBase58 | WrongSize(size: int)

  ghost function Parse(s: Bytes): Parsed {
    var t := CStr(s);
    if !Decodable(t, SIZE) then InvalidBase58
    else if DecodedSize(t, SIZE) != SIZE then WrongSize(DecodedSize(t, SIZE))
    else Ok(Decoded(t, SIZE))
  }

  method FromBase58(b58: Bytes) returns (r: Parsed)
    ensures r == Parse(b58)
  {
    var data := new Byte[SIZE](_ => 0);
    var ok, decodedSize := B58ToBin(data, CStr(b58));
    if !ok {
      return InvalidBase58;
    }
    if decodedSize != SIZE {
      return WrongSize(decodedSize);
    }
    return Ok(data[..]);
  }

  /** The estimate used for the buffer is always enough for a key and its NUL. */
  lemma KeyTextFits(key: Key)
    ensures |Encoded(key)| < BufferSize(SIZE)
  {
    var z := LeadingZeros(key);
    StripZeros(key, z, 256);
    ValueBound(key[z..], 256);
    if z == 0 {
      KeyBound();
      MinimalLength(Value(key, 256), 58, 44);
    } else {
      BufferHolds(SIZE - z);
      MinimalLength(Value(key, 256), 58, BufferSize(SIZE - z));
    }
  }

  lemma KeyBound()
    ensures Pow(256, 32) < Pow(58, 44)
  {
    EightBytes();
    PowPow(256, 8, 4);
    PowPow(58, 11, 4);
    ProductLess(Pow(256, 8), Pow(58, 11), Pow(256, 8), Pow(58, 11));
    PowAdd(256, 8, 8);
    PowAdd(58, 11, 11);
    ProductLess(Pow(256, 16), Pow(58, 22), Pow(256, 16), Pow(58, 22));
    PowAdd(256, 16, 16);
    PowAdd(58, 22, 22);
  }

  method ToBase58(key: Key) returns (r: Bytes)
    ensures r == Encoded(key)
  {
    KeyTextFits(key);
    r := B58Encode(key);
  }

  /** fromBase58(toBase58(k)) == k */
  lemma KeyRoundTrip(key: Key)
    ensures Parse(Encoded(key)) == Ok(key)
  {
    DecodeEncoded(key);
    DecodeEncodedSize(key);
    assert 0 !in Encoded(key) by { NoNul(Encoded(key)); }
  }

  lemma KeyTextInjective(a: Key, b: Key)
    requires Encoded(a) == Encoded(b)
    ensures a == b
  {
    KeyRoundTrip(a);
    KeyRoundTrip(b);
  }

  /**
    A string is accepted exactly when its part before the first NUL is a text whose
    leading '1's and significant bytes make up 32, the '1's counted modulo 2^32.  It is
    not base 58 for other characters or more than 32 significant bytes, and otherwise of
    the wrong size.
   */
  lemma Accepted(s: Bytes)
    ensures Parse(s).Ok? <==>
            IsText(CStr(s)) && |Minimal(TextValue(CStr(s)), 256)| + Ones(CStr(s)) % 0x1_0000_0000 == SIZE
    ensures Parse(s).InvalidBase58? <==> !IsText(CStr(s)) || |Minimal(TextValue(CStr(s)), 256)| > SIZE
    ensures Parse(s).WrongSize? ==>
            Parse(s).size == |Minimal(TextValue(CStr(s)), 256)| + Ones(CStr(s)) % 0x1_0000_0000
  {
    var t := CStr(s);
    if IsText(t) {
      SignificantBytes(TextValue(t), SIZE);
    }
  }

  /**
    toBase58(fromBase58(s)) == s for an accepted s, exactly when s has no NUL and
    fewer than 2^32 leading '1's.
   */
  lemma TextRoundTrip(s: Bytes)
    requires Parse(s).Ok?
    ensures Encoded(Parse(s).key) == s <==> 0 !in s && Ones(s) < LIMB
  {
    EncodeDecoded(CStr(s), SIZE);
    OnesOfEncoded(Parse(s).key);
    NoNul(Encoded(Parse(s).key));
  }

  /** 32 characters '1' and a NUL are accepted, as the zero key, but come back without the NUL. */
  lemma NulWitness()
    ensures var s: Bytes := seq(SIZE, _ => ONE_CHAR) + [0];
            Parse(s).Ok? && Encoded(Parse(s).key) != s
  {
    var ones: Bytes := seq(SIZE, _ => ONE_CHAR);
    var s := ones + [0];
    OnesText(SIZE);
    CutAtNul(ones);
    Accepted(s);
    TextRoundTrip(s);
    assert s[SIZE] == 0;
  }

  lemma {:induction false} CutAtNul(t: Bytes)
    requires 0 !in t
    ensures CStr(t + [0]) == t
  {
    if t != [] {
      CutAtNul(t[1..]);
      assert (t + [0])[1..] == t[1..] + [0];
    }
  }

  /** So are 2^32 + 32 characters '1', whose count wraps around. */
  lemma ManyOnesWitness()
    ensures var s: Bytes := seq(LIMB + SIZE, _ => ONE_CHAR);
            Parse(s).Ok? && Encoded(Parse(s).key) != s
  {
    var s: Bytes := seq(LIMB + SIZE, _ => ONE_CHAR);
    OnesText(LIMB + SIZE);
    Accepted(s);
    TextRoundTrip(s);
  }
}
