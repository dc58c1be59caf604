/** The base64 codec (include/base64.hpp), on std::string arguments. */
module Base64 {
  import opened Numerals

  const PAD: Byte := 61 // '='
  const ZERO: Byte := 65 // 'A', the character of index 0

  /** The string B64chars, written as its runs. */
  function CharFor(i: nat): (c: Byte)
    requires i < 64
    ensures c != PAD && IndexOf(c) == i
  {
    if i < 26 then i + 65 else if i < 52 then i + 71 else if i < 62 then i - 4
    else if i == 62 then 43 else 47
  }

  /** The 256-entry table B64index; every character outside both alphabets reads as 0. */
  function IndexOf(c: Byte): (i: nat)
    ensures i < 64
  {
    if c == 43 || c == 45 || c == 46 then 62
    else if c == 44 || c == 47 || c == 95 then 63
    else if 48 <= c <= 57 then c + 4
    else if 65 <= c <= 90 then c - 65
    else if 97 <= c <= 122 then c - 71
    else 0
  }

  const UPPER: string := "ABCDEFGHIJKLMNOPQRSTUVWXYZ"
  const LOWER: string := "abcdefghijklmnopqrstuvwxyz"
  const DIGITS: string := "0123456789"

  /** The alphabet of section 4 of RFC 4648. */
  const ALPHABET: string := UPPER + LOWER + DIGITS + "+/"

  /** Encoding uses that alphabet, in its order, and '=' for padding. */
  lemma Alphabet()
    ensures |ALPHABET| == 64 && (forall i: nat :: i < 64 ==> CharFor(i) as char == ALPHABET[i])
    ensures PAD as char == '='
  {
    hide CharFor;
    Runs();
    forall i: nat | i < 64 ensures CharFor(i) as char == ALPHABET[i] {
      LastRuns(i);
    }
  }

  lemma Runs()
    ensures forall i: nat :: i < 26 ==> CharFor(i) as char == UPPER[i]
    ensures forall i: nat :: i < 26 ==> CharFor(i + 26) as char == LOWER[i]
  {
  }

  lemma LastRuns(i: nat)
    requires i < 64
    ensures 26 <= i < 52 ==> CharFor(i) == CharFor(i - 26 + 26)
    ensures 52 <= i < 62 ==> CharFor(i) as char == DIGITS[i - 52]
    ensures i == 62 ==> CharFor(i) as char == '+'
    ensures i == 63 ==> CharFor(i) as char == '/'
  {
  }

  /** Decoding reads two more characters as '+' and two as '/', and what else is in no alphabet as 0. */
  lemma Indices(c: Byte)
    ensures c as char in "-." ==> IndexOf(c) == 62
    ensures c as char in ",_" ==> IndexOf(c) == 63
    ensures c as char !in "-.,_" && IndexOf(c) != 0 ==> CharFor(IndexOf(c)) == c
  {
  }

  // ----- Specification -----

  function CharsFor(ds: seq<nat>): (s: Bytes)
    requires forall i :: 0 <= i < |ds| ==> ds[i] < 64
    ensures |s| == |ds| && (forall i :: 0 <= i < |ds| ==> s[i] == CharFor(ds[i]))
  {
    seq(|ds|, i requires 0 <= i < |ds| => CharFor(ds[i]))
  }

  function IndicesOf(s: Bytes): (ds: seq<nat>)
    ensures |ds| == |s| && (forall i :: 0 <= i < |s| ==> ds[i] == IndexOf(s[i]))
  {
    seq(|s|, i requires 0 <= i < |s| => IndexOf(s[i]))
  }

  /** The four characters of three bytes: their 24-bit number in base 64. */
  function Group(x: Bytes): (g: Bytes)
    requires |x| == 3
    ensures |g| == 4
  {
    CharsFor(FixedWidth(Value(x, 256), 64, 4))
  }

  /** The three bytes of four characters. */
  function Triple(s: Bytes): (t: Bytes)
    requires |s| == 4
    ensures |t| == 3
  {
    FixedWidth(Value(IndicesOf(s), 64), 256, 3)
  }

  /**
    The encoding of section 4 of RFC 4648: the last group is filled up with zero bits,
    and padding stands for the characters that carry none of the input.
   */
  function Encoded(x: Bytes): Bytes {
    if |x| == 0 then []
    else if |x| == 1 then Group(x + [0, 0])[..2] + [PAD, PAD]
    else if |x| == 2 then Group(x + [0])[..3] + [PAD]
    else Group(x[..3]) + Encoded(x[3..])
  }

  /** Four characters that stand for themselves in the standard alphabet. */
  predicate IsGroup(s: Bytes) {
    |s| == 4 && (forall i :: 0 <= i < 4 ==> CharFor(IndexOf(s[i])) == s[i])
  }

  /** A last group with one or two padding characters whose unused bits are zero. */
  predicate IsPaddedGroup(s: Bytes) {
    && |s| == 4 && s[3] == PAD
    && CharFor(IndexOf(s[0])) == s[0] && CharFor(IndexOf(s[1])) == s[1]
    && if s[2] == PAD then IndexOf(s[1]) % 16 == 0
       else CharFor(IndexOf(s[2])) == s[2] && IndexOf(s[2]) % 4 == 0
  }

  /** The padded canonical texts of section 4 of RFC 4648. */
  predicate Canonical(s: Bytes) {
    s == [] || (|s| >= 4 &&
      if |s| == 4 then IsGroup(s) || IsPaddedGroup(s)
      else IsGroup(s[..4]) && Canonical(s[4..]))
  }

  /** The character at i of a std::string, which ends in a NUL. */
  function At(s: Bytes, i: nat): Byte
    requires i <= |s|
  {
    if i == |s| then 0 else s[i]
  }

  /** The inputs on which decoding reads no character outside the string. */
  predicate Readable(s: Bytes) {
    |s| % 4 == 1 ==> |s| >= 5 && s[|s| - 2] == PAD
  }

  function Pad1(s: Bytes): nat
    requires s != []
  {
    if |s| % 4 != 0 || s[|s| - 1] == PAD then 1 else 0
  }

  function Pad2(s: Bytes): nat
    requires s != [] && Readable(s)
  {
    if Pad1(s) == 1 && (|s| % 4 > 2 || s[|s| - 2] != PAD) then 1 else 0
  }

  /** The number of groups that are decoded whole. */
  function WholeGroups(s: Bytes): (k: nat)
    requires s != [] && Readable(s)
    ensures Pad1(s) == 1 ==> 4 * k + 1 + Pad2(s) <= |s|
    ensures Pad1(s) == 0 ==> 4 * k == |s|
  {
    (|s| - Pad1(s)) / 4
  }

  function Groups(s: Bytes): Bytes {
    if |s| < 4 then [] else Triple(s[..4]) + Groups(s[4..])
  }

  /** The characters of the last, padded group; the missing ones count as zero. */
  function LastGroup(s: Bytes): (g: Bytes)
    requires s != [] && Readable(s) && Pad1(s) == 1
    ensures |g| == 4
  {
    var last := 4 * WholeGroups(s);
    [s[last], At(s, last + 1), if Pad2(s) == 1 then At(s, last + 2) else ZERO, ZERO]
  }

  function Decoded(s: Bytes): (x: Bytes)
    requires Readable(s)
  {
    if s == [] then []
    else if Pad1(s) == 0 then Groups(s)
    else Groups(s[..4 * WholeGroups(s)]) + Triple(LastGroup(s))[..1 + Pad2(s)]
  }

  // ----- 24-bit numbers -----

  function Pack8(a: nat, b: nat, c: nat): nat {
    a * 0x1_0000 + b * 0x100 + c
  }

  function Pack6(a: nat, b: nat, c: nat, d: nat): nat {
    a * 0x4_0000 + b * 0x1000 + c * 64 + d
  }

  lemma Value3(a: nat, b: nat, c: nat)
    ensures Value([a, b, c], 256) == Pack8(a, b, c)
  {
    ValueSnoc([], a, 256);
    ValueSnoc([a], b, 256);
    ValueSnoc([a, b], c, 256);
    assert [] + [a] == [a] && [a] + [b] == [a, b] && [a, b] + [c] == [a, b, c];
  }

  lemma Value4(a: nat, b: nat, c: nat, d: nat)
    ensures Value([a, b, c, d], 64) == Pack6(a, b, c, d)
  {
    ValueSnoc([], a, 64);
    ValueSnoc([a], b, 64);
    ValueSnoc([a, b], c, 64);
    ValueSnoc([a, b, c], d, 64);
    assert [] + [a] == [a] && [a] + [b] == [a, b] && [a, b] + [c] == [a, b, c] && [a, b, c] + [d] == [a, b, c, d];
  }

  lemma Powers24()
    ensures Pow(64, 4) == 0x100_0000 && Pow(256, 3) == 0x100_0000
  {
    assert Pow(64, 1) == 64 && Pow(64, 2) == 4096 && Pow(64, 3) == 262144 && Pow(64, 4) == 16777216;
    assert Pow(256, 1) == 256 && Pow(256, 2) == 65536 && Pow(256, 3) == 16777216;
  }

  /** The digits a, b, c, d are the base-64 digits of their number. */
  lemma Digits64(a: nat, b: nat, c: nat, d: nat)
    requires a < 64 && b < 64 && c < 64 && d < 64
    ensures FixedWidth(Pack6(a, b, c, d), 64, 4) == [a, b, c, d]
    ensures Pack6(a, b, c, d) < 0x100_0000
  {
    Powers24();
    Value4(a, b, c, d);
    ValueBound([a, b, c, d], 64);
    ValueFixedWidth(Pack6(a, b, c, d), 64, 4);
    ValueInjective(FixedWidth(Pack6(a, b, c, d), 64, 4), [a, b, c, d], 64);
  }

  /** A field of a number, from the part above it and the part below it. */
  lemma Field(n: nat, m: nat, high: nat, f: nat, low: nat, width: nat)
    requires m in {1, 0x40, 0x100, 0x1000, 0x1_0000, 0x4_0000} && width in {0x40, 0x100}
    requires f < width && low < m
    requires n == (high * width + f) * m + low
    ensures n / m == high * width + f && n / m % width == f
  {
    assert (width == 0x40 ==> (high * 0x40 + f) % 0x40 == f) && (width == 0x100 ==> (high * 0x100 + f) % 0x100 == f);
  }

  lemma Fields64(a: nat, b: nat, c: nat, d: nat)
    requires a < 64 && b < 64 && c < 64 && d < 64
    ensures var n := Pack6(a, b, c, d);
            n / 0x4_0000 == a && n / 0x1000 % 64 == b && n / 64 % 64 == c && n % 64 == d
  {
    var n := Pack6(a, b, c, d);
    Field(n, 0x4_0000, 0, a, b * 0x1000 + c * 64 + d, 64);
    Field(n, 0x1000, a, b, c * 64 + d, 64);
    Field(n, 64, 64 * a + b, c, d, 64);
    Field(n, 1, 0x1000 * a + 64 * b + c, d, 0, 64);
  }

  lemma Fields256(a: nat, b: nat, c: nat)
    requires a < 256 && b < 256 && c < 256
    ensures var n := Pack8(a, b, c); n / 0x1_0000 == a && n / 0x100 % 0x100 == b && n % 0x100 == c
  {
    var n := Pack8(a, b, c);
    Field(n, 0x1_0000, 0, a, b * 0x100 + c, 0x100);
    Field(n, 0x100, a, b, c, 0x100);
    Field(n, 1, 0x100 * a + b, c, 0, 0x100);
  }

  /** A 24-bit number is packed from its base-64 digits, and from its bytes. */
  lemma Unpack64(n: nat)
    requires n < 0x100_0000
    ensures var q := FixedWidth(n, 64, 4);
            n == Pack6(q[0], q[1], q[2], q[3])
            && n / 0x4_0000 == q[0] && n / 0x1000 % 64 == q[1] && n / 64 % 64 == q[2] && n % 64 == q[3]
  {
    var q := FixedWidth(n, 64, 4);
    Powers24();
    ValueFixedWidth(n, 64, 4);
    assert q == [q[0], q[1], q[2], q[3]];
    Value4(q[0], q[1], q[2], q[3]);
    Fields64(q[0], q[1], q[2], q[3]);
  }

  lemma Unpack256(n: nat)
    requires n < 0x100_0000
    ensures var t := FixedWidth(n, 256, 3);
            n == Pack8(t[0], t[1], t[2])
            && n / 0x1_0000 == t[0] && n / 0x100 % 0x100 == t[1] && n % 0x100 == t[2]
  {
    var t := FixedWidth(n, 256, 3);
    Powers24();
    ValueFixedWidth(n, 256, 3);
    assert t == [t[0], t[1], t[2]];
    Value3(t[0], t[1], t[2]);
    Fields256(t[0], t[1], t[2]);
  }

  // ----- Encoding -----

  method EncodeGroup(str: array<Byte>, j: nat, x: Bytes)
    requires j + 4 <= str.Length && |x| == 3
    modifies str
    ensures str[..j] == old(str[..j]) && str[j + 4..] == old(str[j + 4..])
    ensures str[j..j + 4] == Group(x)
  {
    var n := Pack8(x[0], x[1], x[2]);
    GroupChars(x);
    str[j] := CharFor(n / 0x4_0000);
    str[j + 1] := CharFor(n / 0x1000 % 64);
    str[j + 2] := CharFor(n / 64 % 64);
    str[j + 3] := CharFor(n % 64);
  }

  lemma GroupChars(x: Bytes)
    requires |x| == 3
    ensures var n := Pack8(x[0], x[1], x[2]);
            && n < 0x100_0000 && n / 0x4_0000 < 64
            && Group(x) == [CharFor(n / 0x4_0000), CharFor(n / 0x1000 % 64), CharFor(n / 64 % 64), CharFor(n % 64)]
  {
    Value3(x[0], x[1], x[2]);
    assert x == [x[0], x[1], x[2]];
    Unpack64(Pack8(x[0], x[1], x[2]));
  }

  method B64Encode(p: Bytes) returns (result: array<Byte>)
    ensures fresh(result) && result[..] == Encoded(p)
  {
    hide Group, Triple, CharFor, IndexOf, Encoded;
    NothingEncoded();
    var len := |p|;
    var size := (len + 2) / 3 * 4;
    result := new Byte[size](_ => PAD);
    var pad, j := len % 3, 0;
    var last := len - pad;
    ghost var groups := len / 3;
    assert last == 3 * groups && 0 <= pad <= 2;
    assert size == 4 * groups + if pad == 0 then 0 else 4;
    j := EncodeGroups(result, p, last, groups);
    if pad != 0 {
      ghost var done := result[..j];
      EncodeTail(result, j, p, last);
      assert result[..] == done + result[j..];
    } else {
      assert p[last..] == [] && result[..j] == result[..];
    }
  }

  lemma NothingEncoded()
    ensures Encoded([]) == []
  {
  }

  /** The loop over the whole groups. */
  method EncodeGroups(str: array<Byte>, p: Bytes, last: nat, ghost groups: nat) returns (j: nat)
    requires last == 3 * groups <= |p| && 4 * groups <= str.Length
    requires forall k :: 0 <= k < str.Length ==> str[k] == PAD
    modifies str
    ensures j == 4 * groups
    ensures Encoded(p) == str[..j] + Encoded(p[last..])
    ensures forall k :: j <= k < str.Length ==> str[k] == PAD
  {
    hide Group, Triple, CharFor, IndexOf, Encoded;
    var i := 0;
    j := 0;
    ghost var g := 0;
    assert p[0..] == p;
    while i < last
      invariant 0 <= g <= groups && i == 3 * g && j == 4 * g
      invariant Encoded(p) == str[..j] + Encoded(p[i..])
      invariant forall k :: j <= k < str.Length ==> str[k] == PAD
    {
      ghost var done, rest := str[..j], str[j + 4..];
      EncodeGroup(str, j, p[i..i + 3]);
      assert str[..j + 4] == done + Group(p[i..i + 3]);
      EncodedStep(p, i, done);
      assert forall k :: j + 4 <= k < str.Length ==> str[k] == rest[k - j - 4];
      i := i + 3;
      j := j + 4;
      g := g + 1;
    }
  }

  lemma EncodedStep(p: Bytes, i: nat, done: Bytes)
    requires i + 3 <= |p| && Encoded(p) == done + Encoded(p[i..])
    ensures Encoded(p) == done + Group(p[i..i + 3]) + Encoded(p[i + 3..])
  {
    hide Group, Encoded;
    var rest := p[i..];
    EncodedOfCons(p[i..i + 3], p[i + 3..]);
    assert rest == p[i..i + 3] + p[i + 3..];
    assert done + (Group(p[i..i + 3]) + Encoded(p[i + 3..])) == done + Group(p[i..i + 3]) + Encoded(p[i + 3..]);
  }

  /** The last one or two bytes; the rest of the buffer holds padding already. */
  method EncodeTail(str: array<Byte>, j: nat, p: Bytes, last: nat)
    requires last < |p| <= last + 2 && str.Length == j + 4
    requires str[j + 3] == PAD
    modifies str
    ensures str[..j] == old(str[..j])
    ensures str[j..] == Encoded(p[last..])
  {
    if |p| == last + 2 {
      var n := Pack8(0, p[last], p[last + 1]);
      TwoBytes(p[last], p[last + 1]);
      assert p[last..] == [p[last], p[last + 1]];
      assert p[last..] + [0] == [p[last], p[last + 1], 0];
      str[j] := CharFor(n / 0x400 % 64);
      str[j + 1] := CharFor(n / 16 % 64);
      str[j + 2] := CharFor(n * 4 % 64);
    } else {
      var n: nat := p[last];
      OneByte(p[last]);
      assert p[last..] == [p[last]];
      assert p[last..] + [0, 0] == [p[last], 0, 0];
      str[j] := CharFor(n / 4);
      str[j + 1] := CharFor(n * 16 % 64);
      str[j + 2] := PAD;
    }
  }

  lemma OneByte(a: Byte)
    ensures var n: nat := a; Group([a, 0, 0]) == CharsFor([n / 4, n * 16 % 64, 0, 0])
  {
    var n: nat := a;
    Value3(a, 0, 0);
    assert Pack6(n / 4, n * 16 % 64, 0, 0) == Pack8(a, 0, 0);
    Digits64(n / 4, n * 16 % 64, 0, 0);
  }

  lemma TwoBytes(a: Byte, b: Byte)
    ensures var n := Pack8(0, a, b);
            Group([a, b, 0]) == CharsFor([n / 0x400 % 64, n / 16 % 64, n * 4 % 64, 0])
  {
    var n := Pack8(0, a, b);
    Value3(a, b, 0);
    TwoByteBits(a, b);
    Digits64(n / 0x400 % 64, n / 16 % 64, n * 4 % 64, 0);
  }

  lemma TwoByteBits(a: Byte, b: Byte)
    ensures var n := Pack8(0, a, b);
            Pack6(n / 0x400 % 64, n / 16 % 64, n * 4 % 64, 0) == Pack8(a, b, 0)
  {
    var n := Pack8(0, a, b);
    assert n / 0x400 == n / 16 / 64 && n / 16 / 64 < 64;
    assert n / 16 == n / 16 / 64 * 64 + n / 16 % 64;
    assert n * 4 % 64 == 4 * (n % 16);
  }

  /** The characters that carry only fill bits, and the fill bits of the one before. */
  lemma FillBits(a: Byte, b: Byte)
    ensures var g := Group([a, 0, 0]); g[2] == ZERO && g[3] == ZERO && IndexOf(g[1]) % 16 == 0
    ensures var g := Group([a, b, 0]); g[3] == ZERO && IndexOf(g[2]) % 4 == 0
  {
    OneByte(a);
    TwoBytes(a, b);
    UnusedInEncoded(a);
    UnusedInEncoded(Pack8(0, a, b));
  }

  lemma UnusedInEncoded(n: nat)
    ensures n * 16 % 64 % 16 == 0 && n * 4 % 64 % 4 == 0
  {
  }

  /** The texts of "f", "fo" and "foo" in section 10 of RFC 4648: "Zg==", "Zm8=" and "Zm9v". */
  lemma Examples()
    ensures Encoded([102]) == [90, 103, 61, 61]
    ensures Encoded([102, 111]) == [90, 109, 56, 61]
    ensures Encoded([102, 111, 111]) == [90, 109, 57, 118]
  {
    hide Group, IndexOf, CharFor, Encoded;
    ExampleGroups();
    EncodedThrough([102]);
    EncodedThrough([102, 111]);
    EncodedThrough([102, 111, 111]);
    assert [102] + [0, 0] == [102, 0, 0] && [102, 111] + [0] == [102, 111, 0];
  }

  lemma ExampleGroups()
    ensures Group([102, 0, 0]) == [90, 103, 65, 65]
    ensures Group([102, 111, 0]) == [90, 109, 56, 65]
    ensures Group([102, 111, 111]) == [90, 109, 57, 118]
  {
    hide Group, CharFor;
    ExampleGroup(0, 0, 65, 103, 65);
    ExampleGroup(111, 0, 65, 109, 56);
    ExampleGroup(111, 111, 118, 109, 57);
  }

  /** The groups that begin with "f", by their last three characters. */
  lemma ExampleGroup(b: Byte, c: Byte, last: Byte, second: Byte, third: Byte)
    requires (b, c, last, second, third) in {(0, 0, 65, 103, 65), (111, 0, 65, 109, 56), (111, 111, 118, 109, 57)}
    ensures Group([102, b, c]) == [90, second, third, last]
  {
    hide Group, IndexOf;
    GroupChars([102, b, c]);
  }

  // ----- Decoding -----

  method DecodeGroup(str: array<Byte>, j: nat, s: Bytes)
    requires j + 3 <= str.Length && |s| == 4
    modifies str
    ensures str[..j] == old(str[..j])
    ensures str[j..j + 3] == Triple(s)
  {
    var n := Pack6(IndexOf(s[0]), IndexOf(s[1]), IndexOf(s[2]), IndexOf(s[3]));
    TripleBytes(s);
    str[j] := n / 0x1_0000;
    str[j + 1] := n / 0x100 % 0x100;
    str[j + 2] := n % 0x100;
  }

  lemma TripleBytes(s: Bytes)
    requires |s| == 4
    ensures var n := Pack6(IndexOf(s[0]), IndexOf(s[1]), IndexOf(s[2]), IndexOf(s[3]));
            n < 0x100_0000 && Triple(s) == [n / 0x1_0000, n / 0x100 % 0x100, n % 0x100]
  {
    var ds := IndicesOf(s);
    assert ds == [ds[0], ds[1], ds[2], ds[3]];
    Value4(ds[0], ds[1], ds[2], ds[3]);
    Unpack256(Pack6(ds[0], ds[1], ds[2], ds[3]));
  }

  method B64Decode(p: Bytes) returns (result: array<Byte>)
    requires Readable(p)
    ensures fresh(result) && result[..] == Decoded(p)
  {
    if |p| == 0 {
      result := new Byte[0];
      return;
    }
    var groups, pad1, pad2 := WholeGroups(p), Pad1(p), Pad2(p);
    result := new Byte[3 * groups + pad1 + pad2](_ => 0);
    DecodeGroups(result, p, groups);
    var j := 3 * groups;
    if pad1 == 1 {
      ghost var done := result[..j];
      DecodeTail(result, j, p);
      assert result[..] == done + result[j..];
    } else {
      assert p[..4 * groups] == p && result[..j] == result[..];
    }
  }

  /** The loop over the whole groups. */
  method DecodeGroups(str: array<Byte>, p: Bytes, groups: nat)
    requires 4 * groups <= |p| && 3 * groups <= str.Length
    modifies str
    ensures str[..3 * groups] == Groups(p[..4 * groups])
  {
    var i, j := 0, 0;
    ghost var g := 0;
    while i < 4 * groups
      invariant 0 <= g <= groups && i == 4 * g && j == 3 * g
      invariant str[..j] == Groups(p[..i])
    {
      ghost var done := str[..j];
      DecodeGroup(str, j, p[i..i + 4]);
      GroupsSnoc(p, g);
      assert str[..j + 3] == done + Triple(p[i..i + 4]);
      i := i + 4;
      j := j + 3;
      g := g + 1;
    }
  }

  method DecodeTail(str: array<Byte>, j: nat, p: Bytes)
    requires p != [] && Readable(p) && Pad1(p) == 1 && str.Length == j + 1 + Pad2(p)
    modifies str
    ensures str[..j] == old(str[..j])
    ensures str[j..] == Triple(LastGroup(p))[..1 + Pad2(p)]
  {
    var last, pad2 := 4 * WholeGroups(p), Pad2(p);
    var n := Pack6(IndexOf(p[last]), IndexOf(At(p, last + 1)), 0, 0);
    TripleBytes(LastGroup(p));
    LowBits(IndexOf(p[last]), IndexOf(At(p, last + 1)), IndexOf(LastGroup(p)[2]));
    str[j] := n / 0x1_0000;
    if pad2 == 1 {
      n := n + IndexOf(At(p, last + 2)) * 64;
      str[j + 1] := n / 0x100 % 0x100;
    }
  }

  /** The third character does not reach the first byte. */
  lemma LowBits(a: nat, b: nat, c: nat)
    requires a < 64 && b < 64 && c < 64
    ensures Pack6(a, b, c, 0) / 0x1_0000 == Pack6(a, b, 0, 0) / 0x1_0000
    ensures Pack6(a, b, 0, 0) < 0x100_0000
  {
    var high, low := 4 * a + b / 16, b % 16 * 0x1000;
    assert b == 16 * (b / 16) + b % 16;
    Above(Pack6(a, b, c, 0), high, low + c * 64);
    Above(Pack6(a, b, 0, 0), high, low);
  }

  lemma Above(n: nat, high: nat, low: nat)
    requires n == high * 0x1_0000 + low && low < 0x1_0000
    ensures n / 0x1_0000 == high
  {
  }

  lemma {:induction false} GroupsConcat(a: Bytes, k: nat, b: Bytes)
    requires |a| == 4 * k
    ensures Groups(a + b) == Groups(a) + Groups(b)
  {
    hide Triple;
    if k == 0 {
      assert a + b == b;
    } else {
      GroupsConcat(a[4..], k - 1, b);
      assert (a + b)[..4] == a[..4] && (a + b)[4..] == a[4..] + b;
    }
  }

  lemma GroupsSnoc(p: Bytes, k: nat)
    requires 4 * k + 4 <= |p|
    ensures Groups(p[..4 * k + 4]) == Groups(p[..4 * k]) + Triple(p[4 * k..4 * k + 4])
  {
    var g := p[4 * k..4 * k + 4];
    GroupsConcat(p[..4 * k], k, g);
    assert p[..4 * k + 4] == p[..4 * k] + g;
    assert g[..4] == g && g[4..] == [];
  }

  // ----- Round trips -----

  lemma TripleOfGroup(x: Bytes)
    requires |x| == 3
    ensures Triple(Group(x)) == x
  {
    var v := Value(x, 256);
    Powers24();
    ValueBound(x, 256);
    ValueFixedWidth(v, 64, 4);
    assert IndicesOf(Group(x)) == FixedWidth(v, 64, 4);
    ValueFixedWidth(v, 256, 3);
    ValueInjective(FixedWidth(v, 256, 3), x, 256);
  }

  lemma GroupOfTriple(s: Bytes)
    requires IsGroup(s)
    ensures Group(Triple(s)) == s
  {
    var ds := IndicesOf(s);
    var v := Value(ds, 64);
    Powers24();
    ValueBound(ds, 64);
    ValueFixedWidth(v, 256, 3);
    ValueFixedWidth(v, 64, 4);
    ValueInjective(FixedWidth(v, 64, 4), ds, 64);
  }

  lemma PadsOfRest(s: Bytes)
    requires |s| % 4 != 1 && |s| > 4
    ensures Readable(s) && |s[4..]| % 4 == |s| % 4 && Pad1(s) == Pad1(s[4..]) && Pad2(s) == Pad2(s[4..])
    ensures WholeGroups(s) == WholeGroups(s[4..]) + 1
  {
  }

  /** All but the last group decode on their own. */
  lemma DecodedCons(s: Bytes)
    requires |s| % 4 != 1 && |s| > 4
    ensures |s[4..]| % 4 == |s| % 4 && Decoded(s) == Triple(s[..4]) + Decoded(s[4..])
  {
    PadsOfRest(s);
    var r, k := s[4..], WholeGroups(s[4..]);
    assert s[..4 * k + 4][4..] == r[..4 * k] && s[..4 * k + 4][..4] == s[..4];
    assert Pad1(s) == 1 ==> LastGroup(s) == LastGroup(r);
  }

  /** A single group decodes to the first bytes of its triple. */
  lemma DecodedLast(s: Bytes, full: Bytes, n: nat)
    requires |s| == 4 && |full| == 4 && 1 <= n <= 3
    requires s[..n + 1] == full[..n + 1] && (forall k :: n + 1 <= k < 4 ==> s[k] == PAD && full[k] == ZERO)
    requires s[n] != PAD
    ensures Decoded(s) == Triple(full)[..n]
  {
    assert s[..0] == [];
    if n == 3 {
      assert s[..4] == s == full && s[4..] == [];
      assert Pad1(s) == 0;
      assert Groups(s) == Triple(s[..4]) + Groups(s[4..]);
      assert Groups(s[4..]) == [];
      assert Triple(full) + [] == Triple(full)[..3];
    } else {
      assert Pad1(s) == 1 && Pad2(s) == n - 1 && WholeGroups(s) == 0;
      assert LastGroup(s) == full;
    }
  }

  /** The group that an input of at most three bytes is encoded through. */
  function Filled(x: Bytes): (full: Bytes)
    requires 1 <= |x| <= 3
    ensures |full| == 3 && full[..|x|] == x
  {
    if |x| == 1 then x + [0, 0] else if |x| == 2 then x + [0] else x
  }

  function Padding(n: nat): Bytes
    requires 1 <= n <= 3
  {
    if n == 1 then [PAD, PAD] else if n == 2 then [PAD] else []
  }

  lemma EncodedShort(x: Bytes)
    requires 1 <= |x| <= 3
    ensures Encoded(x) == Group(Filled(x))[..|x| + 1] + Padding(|x|)
    ensures forall k :: |x| + 1 <= k < 4 ==> Group(Filled(x))[k] == ZERO
  {
    hide Group, Triple, CharFor, IndexOf, Encoded, Filled;
    UnusedChars(x);
    EncodedThrough(x);
    if |x| == 3 {
      assert Group(Filled(x))[..4] == Group(Filled(x));
    }
  }

  lemma UnusedChars(x: Bytes)
    requires 1 <= |x| <= 3
    ensures forall k :: |x| + 1 <= k < 4 ==> Group(Filled(x))[k] == ZERO
  {
    hide Group, CharFor, IndexOf, Filled;
    FilledBits(x);
  }

  lemma EncodedThrough(x: Bytes)
    requires 1 <= |x| <= 3
    ensures var g := Group(Filled(x));
            Encoded(x) == if |x| == 1 then g[..2] + [PAD, PAD] else if |x| == 2 then g[..3] + [PAD] else g
  {
    hide Group;
    if |x| == 3 {
      assert x[..3] == x && x[3..] == [];
    }
  }

  lemma FilledBits(x: Bytes)
    requires 1 <= |x| <= 3
    ensures var g := Group(Filled(x));
            && (|x| == 1 ==> g[2] == ZERO && g[3] == ZERO && IndexOf(g[1]) % 16 == 0)
            && (|x| == 2 ==> g[3] == ZERO && IndexOf(g[2]) % 4 == 0)
  {
    if |x| == 1 {
      FillBits(x[0], 0);
      assert Filled(x) == [x[0], 0, 0];
    } else if |x| == 2 {
      FillBits(x[0], x[1]);
      assert Filled(x) == [x[0], x[1], 0];
    }
  }

  lemma DecodeShort(x: Bytes)
    requires 1 <= |x| <= 3
    ensures |Encoded(x)| == 4 && Decoded(Encoded(x)) == x
  {
    EncodedShort(x);
    TripleOfGroup(Filled(x));
    DecodedLast(Encoded(x), Group(Filled(x)), |x|);
  }

  /** Encoding takes four characters for every three bytes or part of three. */
  lemma {:induction false} EncodedLength(x: Bytes)
    ensures |Encoded(x)| == (|x| + 2) / 3 * 4
  {
    if |x| > 3 {
      EncodedLength(x[3..]);
    } else if |x| > 0 {
      EncodedShort(x);
    }
  }

  lemma EncodedCons(x: Bytes)
    requires |x| > 3
    ensures Encoded(x)[..4] == Group(x[..3]) && Encoded(x)[4..] == Encoded(x[3..])
  {
    hide Group;
  }

  /** b64decode(b64encode(x)) == x */
  lemma {:induction false} DecodeEncoded(x: Bytes)
    ensures |Encoded(x)| % 4 == 0 && Decoded(Encoded(x)) == x
  {
    hide Group, Triple, CharFor, IndexOf;
    if 1 <= |x| <= 3 {
      DecodeShort(x);
    } else if |x| > 3 {
      DecodeEncoded(x[3..]);
      TripleOfGroup(x[..3]);
      EncodedLength(x);
      EncodedCons(x);
      DecodedCons(Encoded(x));
      assert x == x[..3] + x[3..];
    }
  }

  lemma GroupIsGroup(x: Bytes)
    requires |x| == 3
    ensures IsGroup(Group(x))
  {
  }

  lemma ShortIsCanonical(x: Bytes)
    requires 1 <= |x| <= 3
    ensures Canonical(Encoded(x))
  {
    hide Group, CharFor, IndexOf;
    EncodedShort(x);
    GroupIsGroup(Filled(x));
    FilledBits(x);
  }

  lemma {:induction false} EncodedIsCanonical(x: Bytes)
    ensures Canonical(Encoded(x))
  {
    if 1 <= |x| <= 3 {
      ShortIsCanonical(x);
    } else if |x| > 3 {
      EncodedIsCanonical(x[3..]);
      EncodedCons(x);
      GroupIsGroup(x[..3]);
    }
  }

  lemma EncodeLastGroup(s: Bytes)
    requires IsGroup(s) || IsPaddedGroup(s)
    ensures Encoded(Decoded(s)) == s
  {
    hide Group, Triple;
    var n := if s[3] != PAD then 3 else if s[2] != PAD then 2 else 1;
    var full := s[..n + 1] + seq(3 - n, _ => ZERO);
    assert IsGroup(full);
    DecodedLast(s, full, n);
    GroupOfTriple(full);
    UnusedBits(full, n);
    var x := Triple(full)[..n];
    assert Filled(x) == Triple(full);
    EncodedShort(x);
  }

  /** The bytes that padding leaves out are zero. */
  lemma UnusedBits(full: Bytes, n: nat)
    requires |full| == 4 && 1 <= n <= 3 && (n < 3 ==> full[3] == ZERO) && (n < 2 ==> full[2] == ZERO)
    requires n == 1 ==> IndexOf(full[1]) % 16 == 0
    requires n == 2 ==> IndexOf(full[2]) % 4 == 0
    ensures forall k :: n <= k < 3 ==> Triple(full)[k] == 0
  {
    hide IndexOf, Triple, Pack6;
    TripleBytes(full);
    ZeroIndex();
    var a, b, c := IndexOf(full[0]), IndexOf(full[1]), IndexOf(full[2]);
    if n == 1 {
      ZeroFields(a, b / 16, 0);
      assert b == 16 * (b / 16);
    } else if n == 2 {
      ZeroFields(a, b, c / 4);
      assert c == 4 * (c / 4);
    }
  }

  lemma ZeroIndex()
    ensures IndexOf(ZERO) == 0
  {
  }

  lemma ZeroFields(a: nat, b: nat, c: nat)
    ensures Pack6(a, b, 4 * c, 0) % 0x100 == 0
    ensures Pack6(a, 16 * b, 0, 0) / 0x100 % 0x100 == 0 && Pack6(a, 16 * b, 0, 0) % 0x100 == 0
  {
    Field(Pack6(a, b, 4 * c, 0), 1, 0x400 * a + 16 * b + c, 0, 0, 0x100);
    Field(Pack6(a, 16 * b, 0, 0), 0x100, 4 * a + b, 0, 0, 0x100);
    Field(Pack6(a, 16 * b, 0, 0), 1, 0x100 * (4 * a + b), 0, 0, 0x100);
  }

  lemma {:induction false} CanonicalLength(s: Bytes)
    requires Canonical(s)
    ensures |s| % 4 == 0
  {
    if |s| > 4 {
      CanonicalLength(s[4..]);
    }
  }

  lemma {:induction false} EncodeDecoded(s: Bytes)
    requires Canonical(s)
    ensures Readable(s) && Encoded(Decoded(s)) == s
  {
    CanonicalLength(s);
    if |s| == 4 {
      EncodeLastGroup(s);
    } else if |s| > 4 {
      EncodeDecoded(s[4..]);
      GroupOfTriple(s[..4]);
      DecodedCons(s);
      EncodedOfCons(Triple(s[..4]), Decoded(s[4..]));
      assert s == s[..4] + s[4..];
    }
  }

  lemma EncodedOfCons(t: Bytes, x: Bytes)
    requires |t| == 3
    ensures Encoded(t + x) == Group(t) + Encoded(x)
  {
    assert (t + x)[..3] == t && (t + x)[3..] == x;
  }

  /** b64encode(b64decode(s)) == s holds for the canonical texts and no others. */
  lemma TextRoundTrip(s: Bytes)
    requires Readable(s)
    ensures Encoded(Decoded(s)) == s <==> Canonical(s)
  {
    if Canonical(s) {
      EncodeDecoded(s);
    }
    EncodedIsCanonical(Decoded(s));
  }

  // ----- Unpadded texts -----

  /** A text without its trailing padding characters. */
  function Unpadded(s: Bytes): (u: Bytes)
    ensures u <= s && (u != [] ==> u[|u| - 1] != PAD)
    ensures forall k :: |u| <= k < |s| ==> s[k] == PAD
  {
    if s == [] || s[|s| - 1] != PAD then s else Unpadded(s[..|s| - 1])
  }

  lemma UnpaddedUnique(s: Bytes, n: nat)
    requires n <= |s| && (forall k :: n <= k < |s| ==> s[k] == PAD) && (n > 0 ==> s[n - 1] != PAD)
    ensures Unpadded(s) == s[..n]
  {
    var u := Unpadded(s);
    assert u == s[..|u|];
  }

  /** The characters of at most three bytes, without padding. */
  lemma UnpaddedShort(x: Bytes)
    requires 1 <= |x| <= 3
    ensures Unpadded(Encoded(x)) == Group(Filled(x))[..|x| + 1]
  {
    hide Group, Unpadded;
    EncodedShort(x);
    GroupHasNoPad(Filled(x));
    UnpaddedUnique(Encoded(x), |x| + 1);
    assert Encoded(x)[..|x| + 1] == Group(Filled(x))[..|x| + 1];
  }

  lemma GroupHasNoPad(x: Bytes)
    requires |x| == 3
    ensures PAD !in Group(x)
  {
  }

  /** The last characters of a text without padding, as those of its padded form. */
  lemma DecodedUnpadded(u: Bytes, full: Bytes)
    requires 2 <= |u| <= 3 && |full| == 4 && PAD !in u
    requires full[..|u|] == u && (forall k :: |u| <= k < 4 ==> full[k] == ZERO)
    ensures Readable(u) && Decoded(u) == Triple(full)[..2]
  {
    hide Triple;
    var g := LastGroup(u);
    assert u[..0] == [];
    assert Pad1(u) == 1 && Pad2(u) == 1 && WholeGroups(u) == 0;
    assert IndicesOf(g) == IndicesOf(full);
    SameIndices(g, full);
  }

  lemma SameIndices(s: Bytes, t: Bytes)
    requires |s| == |t| == 4 && IndicesOf(s) == IndicesOf(t)
    ensures Triple(s) == Triple(t)
  {
  }

  lemma UnpaddedDecodesShort(x: Bytes)
    requires 1 <= |x| <= 3
    ensures var u := Unpadded(Encoded(x));
            |u| == |x| + 1 && Readable(u) && Decoded(u) == if |x| == 1 then x + [0] else x
  {
    hide Group, Triple, Unpadded;
    var full := Group(Filled(x));
    EncodedShort(x);
    UnpaddedShort(x);
    GroupHasNoPad(Filled(x));
    TripleOfGroup(Filled(x));
    if |x| == 3 {
      assert full[..4] == full && Encoded(x) == full;
      DecodeShort(x);
    } else {
      DecodedUnpadded(full[..|x| + 1], full);
    }
  }

  lemma UnpaddedConcat(g: Bytes, r: Bytes)
    requires g != [] && g[|g| - 1] != PAD
    ensures Unpadded(g + r) == g + Unpadded(r)
  {
    hide Unpadded;
    var s, u := g + r, Unpadded(r);
    var n := |g| + |u|;
    forall k | n <= k < |s| ensures s[k] == PAD {
      assert s[k] == r[k - |g|];
    }
    assert s[n - 1] == if u == [] then g[|g| - 1] else u[|u| - 1];
    UnpaddedUnique(s, n);
    assert s[..n] == g + r[..|u|];
  }

  lemma UnpaddedCons(x: Bytes)
    requires |x| > 3
    ensures Unpadded(Encoded(x)) == Group(x[..3]) + Unpadded(Encoded(x[3..]))
  {
    hide Group, Unpadded, Encoded;
    EncodedOfCons(x[..3], x[3..]);
    assert x[..3] + x[3..] == x;
    GroupHasNoPad(x[..3]);
    UnpaddedConcat(Group(x[..3]), Encoded(x[3..]));
  }

  lemma DecodedAfterGroup(x: Bytes, r: Bytes)
    requires |x| == 3 && r != [] && |r| % 4 != 1
    ensures |Group(x) + r| % 4 == |r| % 4 && Readable(Group(x) + r)
    ensures Decoded(Group(x) + r) == x + Decoded(r)
  {
    hide Group, Triple, Decoded;
    var u := Group(x) + r;
    TripleOfGroup(x);
    assert u[..4] == Group(x) && u[4..] == r;
    DecodedCons(u);
  }

  lemma ThreeMore(m: nat, n: nat)
    requires m == n + 3
    ensures m % 3 == n % 3
  {
  }

  /** What an encoding without its padding is decoded to. */
  lemma {:induction false} UnpaddedDecodesTo(x: Bytes)
    ensures var u := Unpadded(Encoded(x));
            && |u| % 4 != 1 && Readable(u) && (|u| % 4 == 2 <==> |x| % 3 == 1)
            && Decoded(u) == if |x| % 3 == 1 then x + [0] else x
  {
    hide Group, Triple, Encoded, Unpadded, Decoded;
    if x == [] {
      UnpaddedEmpty();
    } else if |x| <= 3 {
      UnpaddedDecodesShort(x);
    } else {
      var t, r := x[3..], Unpadded(Encoded(x[3..]));
      UnpaddedDecodesTo(t);
      UnpaddedCons(x);
      UnpaddedNotEmpty(t);
      DecodedAfterGroup(x[..3], r);
      ThreeMore(|x|, |t|);
      assert x == x[..3] + t;
      assert x[..3] + (t + [0]) == x + [0];
    }
  }

  /**
    Without its padding an encoding is decoded to the original bytes exactly when its
    length is not 2 modulo 4; then a zero byte follows them.
   */
  lemma UnpaddedDecodes(x: Bytes)
    ensures var u := Unpadded(Encoded(x));
            && Readable(u) && (Decoded(u) == x <==> |u| % 4 != 2)
            && (|u| % 4 == 2 ==> Decoded(u) == x + [0])
            && (|u| % 4 == 2 <==> |x| % 3 == 1)
  {
    hide Encoded, Unpadded, Decoded;
    UnpaddedDecodesTo(x);
    assert |x + [0]| == |x| + 1;
  }

  lemma UnpaddedEmpty()
    ensures Unpadded(Encoded([])) == [] && Decoded([]) == []
  {
  }

  lemma UnpaddedNotEmpty(x: Bytes)
    requires x != []
    ensures Unpadded(Encoded(x)) != []
  {
    hide Group;
    if |x| <= 3 { UnpaddedShort(x); } else { UnpaddedCons(x); }
  }

  /** The unpadded text "QQ" decodes to "A" and a stray zero byte. */
  lemma UnpaddedWitness()
    ensures Readable([81, 81]) && Decoded([81, 81]) == [65, 0]
  {
    hide Triple;
    TripleBytes([81, 81, ZERO, ZERO]);
    DecodedUnpadded([81, 81], [81, 81, ZERO, ZERO]);
    assert Pack6(16, 16, 0, 0) == 0x41_0000;
  }
}
