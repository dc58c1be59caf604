/** The wire format of transactions (lib/solana.cpp:446-466, 485-489, 553-591). */
module Wire {
  import opened Numerals
  import opened PublicKeys
  import opened Wrappers
  import Base64

  type U16 = n: int | 0 <= n < 0x1_0000

  const SIGNATURE_BYTES: nat := 64

  type Signature = s: Bytes | |s| == SIGNATURE_BYTES witness seq(SIGNATURE_BYTES, _ => 0)

  datatype Blockhash = Blockhash(publicKey: Key, lastValidBlockHeight: nat)

  datatype CompiledInstruction = CompiledInstruction(programIdIndex: Byte, accountIndices: Bytes, data: Bytes)

  datatype CompiledTransaction = CompiledTransaction(
    recentBlockhash: Blockhash,
    accounts: seq<Key>,
    instructions: seq<CompiledInstruction>,
    requiredSignatures: Byte,
    readOnlySignedAccounts: Byte,
    readOnlyUnsignedAccounts: Byte)
  {
    /** What goes on the wire; the last valid block height stays behind. */
    function ToMessage(): Message {
      Message(requiredSignatures, readOnlySignedAccounts, readOnlyUnsignedAccounts, accounts, recentBlockhash.publicKey, instructions)
    }
  }

  datatype Message = Message(
    requiredSignatures: Byte,
    readOnlySignedAccounts: Byte,
    readOnlyUnsignedAccounts: Byte,
    accounts: seq<Key>,
    recentBlockhash: Key,
    instructions: seq<CompiledInstruction>)

  /** A std::vector of bytes that the writers append to. */
  class ByteVector {
    var bytes: Bytes

    constructor ()
      ensures bytes == []
    {
      bytes := [];
    }

    method PushBack(b: Byte)
      modifies this
      ensures bytes == old(bytes) + [b]
    {
      bytes := bytes + [b];
    }

    /** back() |= 0x80 on a byte whose high bit is clear */
    method MarkBack()
      requires bytes != [] && bytes[|bytes| - 1] < 0x80
      modifies this
      ensures bytes == old(bytes[..|bytes| - 1]) + [old(bytes[|bytes| - 1]) + 0x80]
    {
      bytes := bytes[|bytes| - 1 := bytes[|bytes| - 1] + 0x80];
    }

    method Insert(v: Bytes)
      modifies this
      ensures bytes == old(bytes) + v
    {
      bytes := bytes + v;
    }
  }

  // ----- compact-u16 -----

  function CompactU16(n: U16): Bytes {
    if n < 0x80 then [n]
    else if n < 0x4000 then [n % 0x80 + 0x80, n / 0x80]
    else [n % 0x80 + 0x80, n / 0x80 % 0x80 + 0x80, n / 0x4000]
  }

  method EncodeU16(n: U16, buffer: ByteVector)
    modifies buffer
    ensures buffer.bytes == old(buffer.bytes) + CompactU16(n)
  {
    var num: nat := n;
    buffer.PushBack(num % 0x80);
    num := num / 0x80;
    if num == 0 {
      return;
    }
    buffer.MarkBack();
    buffer.PushBack(num % 0x80);
    num := num / 0x80;
    if num == 0 {
      return;
    }
    buffer.MarkBack();
    buffer.PushBack(num % 4);
  }

  /** Reads a compact-u16 in its shortest form: its value and its length. */
  function ReadU16(b: Bytes): Option<(nat, nat)> {
    if |b| >= 1 && b[0] < 0x80 then Some((b[0], 1))
    else if |b| >= 2 && 0 < b[1] < 0x80 then Some((b[0] - 0x80 + (b[1] as int) * 0x80, 2))
    else if |b| >= 3 && b[1] >= 0x80 && 0 < b[2] < 4 then
      Some((b[0] - 0x80 + (b[1] - 0x80) * 0x80 + (b[2] as int) * 0x4000, 3))
    else None
  }

  /** Reading inverts encoding, and accepts nothing but encodings. */
  lemma ReadsCompactU16(b: Bytes, n: nat, k: nat)
    ensures ReadU16(b) == Some((n, k)) <==> n < 0x1_0000 && k == |CompactU16(n)| && CompactU16(n) <= b
  {
    if ReadU16(b) == Some((n, k)) {
      SplitU16(n, b);
    }
  }

  lemma SplitU16(n: nat, b: Bytes)
    requires ReadU16(b).Some? && ReadU16(b).value.0 == n
    ensures n < 0x1_0000 && |CompactU16(n)| == ReadU16(b).value.1 && CompactU16(n) <= b
  {
  }

  /** The ends of the three lengths. */
  lemma CompactU16Examples()
    ensures CompactU16(0) == [0] && CompactU16(0x7F) == [0x7F]
    ensures CompactU16(0x80) == [0x80, 1] && CompactU16(0x3FFF) == [0xFF, 0x7F]
    ensures CompactU16(0x4000) == [0x80, 0x80, 1] && CompactU16(0xFFFF) == [0xFF, 0xFF, 3]
  {
  }

  /** No encoding is a prefix of another. */
  lemma CompactU16PrefixFree(m: U16, n: U16)
    requires CompactU16(m) <= CompactU16(n)
    ensures m == n
  {
    ReadsCompactU16(CompactU16(n), m, |CompactU16(m)|);
    ReadsCompactU16(CompactU16(n), n, |CompactU16(n)|);
  }

  /** The length of a vector as the encoder sees it: a 16-bit argument. */
  function Length16(n: nat): U16 {
    n % 0x1_0000
  }

  // ----- Vectors and instructions -----

  function CompactVec(v: Bytes): Bytes {
    CompactU16(Length16(|v|)) + v
  }

  method EncodeVec(v: Bytes, buffer: ByteVector)
    modifies buffer
    ensures buffer.bytes == old(buffer.bytes) + CompactVec(v)
  {
    EncodeU16(Length16(|v|), buffer);
    buffer.Insert(v);
  }

  function ReadVec(b: Bytes): Option<(Bytes, Bytes)> {
    match ReadU16(b)
    case None => None
    case Some((n, k)) => if k + n <= |b| then Some((b[k..k + n], b[k + n..])) else None
  }

  lemma ReadsVec(b: Bytes, v: Bytes, rest: Bytes)
    ensures ReadVec(b) == Some((v, rest)) <==> |v| < 0x1_0000 && b == CompactVec(v) + rest
  {
    hide ReadU16, CompactU16;
    if ReadVec(b) == Some((v, rest)) {
      var (n, k) := ReadU16(b).value;
      ReadsCompactU16(b, n, k);
      assert b == b[..k] + b[k..k + n] + b[k + n..];
    }
    if |v| < 0x1_0000 && b == CompactVec(v) + rest {
      var k := |CompactU16(|v|)|;
      assert CompactU16(|v|) <= b;
      ReadsCompactU16(b, |v|, k);
      assert b[k..k + |v|] == v && b[k + |v|..] == rest;
    }
  }

  /** A vector of 65536 bytes is written with the length 0, and reads back as empty. */
  lemma LongVectorIsLost(v: Bytes)
    requires |v| == 0x1_0000
    ensures ReadVec(CompactVec(v)) == Some(([], v))
  {
    assert CompactVec(v) == CompactVec([]) + v;
    ReadsVec(CompactVec(v), [], v);
  }

  function SerializedInstruction(ix: CompiledInstruction): Bytes {
    [ix.programIdIndex] + CompactVec(ix.accountIndices) + CompactVec(ix.data)
  }

  method SerializeInstructionTo(ix: CompiledInstruction, buffer: ByteVector)
    modifies buffer
    ensures buffer.bytes == old(buffer.bytes) + SerializedInstruction(ix)
  {
    hide CompactVec;
    buffer.PushBack(ix.programIdIndex);
    EncodeVec(ix.accountIndices, buffer);
    EncodeVec(ix.data, buffer);
  }

  predicate InstructionFits(ix: CompiledInstruction) {
    |ix.accountIndices| < 0x1_0000 && |ix.data| < 0x1_0000
  }

  function ReadInstruction(b: Bytes): Option<(CompiledInstruction, Bytes)> {
    if b == [] then None else
      match ReadVec(b[1..])
      case None => None
      case Some((accounts, b')) =>
        match ReadVec(b')
        case None => None
        case Some((data, rest)) => Some((CompiledInstruction(b[0], accounts, data), rest))
  }

  lemma ReadsInstruction(b: Bytes, ix: CompiledInstruction, rest: Bytes)
    ensures ReadInstruction(b) == Some((ix, rest)) <==> InstructionFits(ix) && b == SerializedInstruction(ix) + rest
  {
    hide ReadVec, CompactVec;
    var middle := CompactVec(ix.data) + rest;
    if ReadInstruction(b) == Some((ix, rest)) {
      var (accounts, b') := ReadVec(b[1..]).value;
      ReadsVec(b[1..], accounts, b');
      ReadsVec(b', ix.data, rest);
      assert b == [b[0]] + b[1..];
    }
    if InstructionFits(ix) && b == SerializedInstruction(ix) + rest {
      assert b[1..] == CompactVec(ix.accountIndices) + middle;
      ReadsVec(b[1..], ix.accountIndices, middle);
      ReadsVec(middle, ix.data, rest);
    }
  }

  function SerializedInstructions(ixs: seq<CompiledInstruction>): Bytes {
    if ixs == [] then [] else SerializedInstruction(ixs[0]) + SerializedInstructions(ixs[1..])
  }

  function ReadInstructions(b: Bytes, n: nat): Option<(seq<CompiledInstruction>, Bytes)> {
    if n == 0 then Some(([], b)) else
      match ReadInstruction(b)
      case None => None
      case Some((ix, b')) =>
        match ReadInstructions(b', n - 1)
        case None => None
        case Some((ixs, rest)) => Some(([ix] + ixs, rest))
  }

  predicate InstructionsFit(ixs: seq<CompiledInstruction>) {
    forall i :: 0 <= i < |ixs| ==> InstructionFits(ixs[i])
  }

  lemma {:induction false} ReadsInstructions(b: Bytes, n: nat, ixs: seq<CompiledInstruction>, rest: Bytes)
    ensures ReadInstructions(b, n) == Some((ixs, rest)) <==>
            |ixs| == n && InstructionsFit(ixs) && b == SerializedInstructions(ixs) + rest
    decreases n
  {
    hide ReadInstruction, SerializedInstruction, InstructionFits;
    if n > 0 {
      if ReadInstructions(b, n) == Some((ixs, rest)) {
        var (ix, b') := ReadInstruction(b).value;
        assert ixs[0] == ix;
        ReadsInstruction(b, ix, b');
        ReadsInstructions(b', n - 1, ixs[1..], rest);
        assert b == SerializedInstruction(ix) + (SerializedInstructions(ixs[1..]) + rest);
        assert forall i :: 0 < i < |ixs| ==> ixs[i] == ixs[1..][i - 1];
      }
      if |ixs| == n && InstructionsFit(ixs) && b == SerializedInstructions(ixs) + rest {
        var b' := SerializedInstructions(ixs[1..]) + rest;
        assert b == SerializedInstruction(ixs[0]) + b';
        ReadsInstruction(b, ixs[0], b');
        ReadsInstructions(b', n - 1, ixs[1..], rest);
        assert ixs == [ixs[0]] + ixs[1..];
      }
    } else {
      assert [] + rest == rest;
    }
  }

  function SerializedKeys(keys: seq<Key>): Bytes {
    if keys == [] then [] else keys[0] + SerializedKeys(keys[1..])
  }

  function ReadKeys(b: Bytes, n: nat): Option<(seq<Key>, Bytes)> {
    if n == 0 then Some(([], b))
    else if |b| < SIZE then None
    else match ReadKeys(b[SIZE..], n - 1)
      case None => None
      case Some((keys, rest)) => Some(([b[..SIZE]] + keys, rest))
  }

  lemma {:induction false} ReadsKeys(b: Bytes, n: nat, keys: seq<Key>, rest: Bytes)
    ensures ReadKeys(b, n) == Some((keys, rest)) <==> |keys| == n && b == SerializedKeys(keys) + rest
    decreases n
  {
    if n > 0 {
      if ReadKeys(b, n) == Some((keys, rest)) {
        ReadsKeys(b[SIZE..], n - 1, keys[1..], rest);
        assert b == b[..SIZE] + b[SIZE..];
      }
      if |keys| == n && b == SerializedKeys(keys) + rest {
        assert b == keys[0] + (SerializedKeys(keys[1..]) + rest);
        assert b[..SIZE] == keys[0] && b[SIZE..] == SerializedKeys(keys[1..]) + rest;
        ReadsKeys(b[SIZE..], n - 1, keys[1..], rest);
        assert keys == [keys[0]] + keys[1..];
      }
    } else {
      assert [] + rest == rest;
    }
  }

  // ----- Messages -----

  function Serialized(m: Message): Bytes {
    [m.requiredSignatures, m.readOnlySignedAccounts, m.readOnlyUnsignedAccounts]
    + (CompactU16(Length16(|m.accounts|)) + (SerializedKeys(m.accounts)
    + (m.recentBlockhash + (CompactU16(Length16(|m.instructions|)) + SerializedInstructions(m.instructions)))))
  }

  method SerializeTo(tx: CompiledTransaction, buffer: ByteVector)
    modifies buffer
    ensures buffer.bytes == old(buffer.bytes) + Serialized(tx.ToMessage())
  {
    hide CompactU16, SerializedKeys, SerializedInstructions;
    ghost var start := buffer.bytes;
    buffer.PushBack(tx.requiredSignatures);
    buffer.PushBack(tx.readOnlySignedAccounts);
    buffer.PushBack(tx.readOnlyUnsignedAccounts);
    EncodeU16(Length16(|tx.accounts|), buffer);
    AppendKeys(tx.accounts, buffer);
    buffer.Insert(tx.recentBlockhash.publicKey);
    EncodeU16(Length16(|tx.instructions|), buffer);
    AppendInstructions(tx.instructions, buffer);
    assert buffer.bytes == start + Serialized(tx.ToMessage());
  }

  method AppendKeys(keys: seq<Key>, buffer: ByteVector)
    modifies buffer
    ensures buffer.bytes == old(buffer.bytes) + SerializedKeys(keys)
  {
    var i := 0;
    while i < |keys|
      invariant 0 <= i <= |keys|
      invariant buffer.bytes + SerializedKeys(keys[i..]) == old(buffer.bytes) + SerializedKeys(keys)
    {
      ghost var before := buffer.bytes;
      assert keys[i..][1..] == keys[i + 1..];
      buffer.Insert(keys[i]);
      assert buffer.bytes + SerializedKeys(keys[i + 1..]) == before + (keys[i] + SerializedKeys(keys[i + 1..]));
      i := i + 1;
    }
  }

  method AppendInstructions(ixs: seq<CompiledInstruction>, buffer: ByteVector)
    modifies buffer
    ensures buffer.bytes == old(buffer.bytes) + SerializedInstructions(ixs)
  {
    hide SerializedInstruction;
    var i := 0;
    while i < |ixs|
      invariant 0 <= i <= |ixs|
      invariant buffer.bytes + SerializedInstructions(ixs[i..]) == old(buffer.bytes) + SerializedInstructions(ixs)
    {
      ghost var before := buffer.bytes;
      assert ixs[i..][1..] == ixs[i + 1..];
      SerializeInstructionTo(ixs[i], buffer);
      assert buffer.bytes + SerializedInstructions(ixs[i + 1..])
          == before + (SerializedInstruction(ixs[i]) + SerializedInstructions(ixs[i + 1..]));
      i := i + 1;
    }
  }

  /** The vectors of a message are short enough for their 16-bit lengths. */
  predicate Fits(m: Message) {
    |m.accounts| < 0x1_0000 && |m.instructions| < 0x1_0000 && InstructionsFit(m.instructions)
  }

  /** A count, as a compact-u16, and what follows it. */
  function ReadCount(b: Bytes): Option<(nat, Bytes)> {
    match ReadU16(b)
    case None => None
    case Some((n, k)) => if k <= |b| then Some((n, b[k..])) else None
  }

  lemma ReadsCount(b: Bytes, n: nat, rest: Bytes)
    ensures ReadCount(b) == Some((n, rest)) <==> n < 0x1_0000 && b == CompactU16(n) + rest
  {
    hide ReadU16, CompactU16;
    if ReadCount(b) == Some((n, rest)) {
      var (m, k) := ReadU16(b).value;
      ReadsCompactU16(b, n, k);
      assert b == b[..k] + b[k..];
    }
    if n < 0x1_0000 && b == CompactU16(n) + rest {
      ReadsCompactU16(b, n, |CompactU16(n)|);
      assert b[|CompactU16(n)|..] == rest;
    }
  }

  /** The part of a message after its accounts. */
  function ReadBody(b: Bytes): Option<(Key, seq<CompiledInstruction>, Bytes)> {
    if |b| < SIZE then None else
      match ReadCount(b[SIZE..])
      case None => None
      case Some((n, b')) =>
        match ReadInstructions(b', n)
        case None => None
        case Some((ixs, rest)) => Some((b[..SIZE], ixs, rest))
  }

  /** A specification-level parser for messages. */
  function ReadMessage(b: Bytes): Option<(Message, Bytes)> {
    if |b| < 3 then None else
      match ReadCount(b[3..])
      case None => None
      case Some((n, b')) =>
        match ReadKeys(b', n)
        case None => None
        case Some((keys, b'')) =>
          match ReadBody(b'')
          case None => None
          case Some((hash, ixs, rest)) => Some((Message(b[0], b[1], b[2], keys, hash, ixs), rest))
  }

  lemma ReadsBody(b: Bytes, hash: Key, ixs: seq<CompiledInstruction>, rest: Bytes)
    ensures ReadBody(b) == Some((hash, ixs, rest)) <==>
            |ixs| < 0x1_0000 && InstructionsFit(ixs)
            && b == hash + (CompactU16(Length16(|ixs|)) + (SerializedInstructions(ixs) + rest))
  {
    hide ReadCount, CompactU16, ReadInstructions, SerializedInstructions, InstructionsFit;
    var tail := SerializedInstructions(ixs) + rest;
    if ReadBody(b) == Some((hash, ixs, rest)) {
      var (n, b') := ReadCount(b[SIZE..]).value;
      ReadsCount(b[SIZE..], n, b');
      ReadsInstructions(b', n, ixs, rest);
      assert b == b[..SIZE] + b[SIZE..];
    }
    if |ixs| < 0x1_0000 && InstructionsFit(ixs) && b == hash + (CompactU16(Length16(|ixs|)) + tail) {
      assert b[..SIZE] == hash && b[SIZE..] == CompactU16(|ixs|) + tail;
      ReadsCount(b[SIZE..], |ixs|, tail);
      ReadsInstructions(tail, |ixs|, ixs, rest);
    }
  }

  /** The bytes of a message followed by rest, bracketed the way they are read. */
  function SerializedThen(m: Message, rest: Bytes): Bytes {
    [m.requiredSignatures, m.readOnlySignedAccounts, m.readOnlyUnsignedAccounts]
    + (CompactU16(Length16(|m.accounts|)) + (SerializedKeys(m.accounts)
    + (m.recentBlockhash + (CompactU16(Length16(|m.instructions|)) + (SerializedInstructions(m.instructions) + rest)))))
  }

  lemma SerializedThenIs(m: Message, rest: Bytes)
    ensures SerializedThen(m, rest) == Serialized(m) + rest
  {
    hide CompactU16, SerializedKeys, SerializedInstructions;
  }

  /**
    The parser returns m and rest exactly on the serialization of m followed by rest,
    provided the vectors of m fit their lengths.
   */
  lemma ReadsMessage(b: Bytes, m: Message, rest: Bytes)
    ensures ReadMessage(b) == Some((m, rest)) <==> Fits(m) && b == Serialized(m) + rest
  {
    hide ReadCount, CompactU16, ReadKeys, SerializedKeys, ReadBody, SerializedInstructions, InstructionsFit, Serialized;
    SerializedThenIs(m, rest);
    var body := m.recentBlockhash + (CompactU16(Length16(|m.instructions|)) + (SerializedInstructions(m.instructions) + rest));
    if ReadMessage(b) == Some((m, rest)) {
      var (n, b') := ReadCount(b[3..]).value;
      var (keys, b'') := ReadKeys(b', n).value;
      ReadsCount(b[3..], n, b');
      ReadsKeys(b', n, keys, b'');
      ReadsBody(b'', m.recentBlockhash, m.instructions, rest);
      assert b == [b[0], b[1], b[2]] + b[3..];
    }
    if Fits(m) && b == SerializedThen(m, rest) {
      assert b[3..] == CompactU16(|m.accounts|) + (SerializedKeys(m.accounts) + body);
      ReadsCount(b[3..], |m.accounts|, SerializedKeys(m.accounts) + body);
      ReadsKeys(SerializedKeys(m.accounts) + body, |m.accounts|, m.accounts, body);
      ReadsBody(body, m.recentBlockhash, m.instructions, rest);
    }
  }

  /** What serializeTo writes is read back, whatever follows it, exactly when every vector is shorter than 65536. */
  lemma SerializationRoundTrip(m: Message, suffix: Bytes)
    ensures ReadMessage(Serialized(m) + suffix) == Some((m, suffix)) <==> Fits(m)
  {
    ReadsMessage(Serialized(m) + suffix, m, suffix);
  }

  /** Where the parts of a message lie, by their offsets. */
  lemma Layout(tx: CompiledTransaction)
    ensures var b, n := Serialized(tx.ToMessage()), |tx.accounts|;
            var keys := 3 + |CompactU16(Length16(n))|;
            && |b| >= keys + 32 * n + 32
            && b[..3] == [tx.requiredSignatures, tx.readOnlySignedAccounts, tx.readOnlyUnsignedAccounts]
            && b[3..keys] == CompactU16(Length16(n))
            && (forall i :: 0 <= i < n ==> b[keys + 32 * i..keys + 32 * i + 32] == tx.accounts[i])
            && b[keys + 32 * n..keys + 32 * n + 32] == tx.recentBlockhash.publicKey
            && b[keys + 32 * n + 32..] == CompactU16(Length16(|tx.instructions|)) + SerializedInstructions(tx.instructions)
  {
    hide CompactU16, SerializedKeys, SerializedInstructions;
    var b, n := Serialized(tx.ToMessage()), |tx.accounts|;
    var count, tail := CompactU16(Length16(n)), CompactU16(Length16(|tx.instructions|)) + SerializedInstructions(tx.instructions);
    var keys := 3 + |count|;
    KeysLieInOrder(tx.accounts);
    var head := [tx.requiredSignatures, tx.readOnlySignedAccounts, tx.readOnlyUnsignedAccounts] + count;
    assert b == head + SerializedKeys(tx.accounts) + tx.recentBlockhash.publicKey + tail;
    assert b[keys..keys + 32 * n] == SerializedKeys(tx.accounts);
    forall i | 0 <= i < n ensures b[keys + 32 * i..keys + 32 * i + 32] == tx.accounts[i] {
      assert b[keys + 32 * i..keys + 32 * i + 32] == b[keys..keys + 32 * n][32 * i..32 * i + 32];
    }
  }

  lemma {:induction false} KeysLieInOrder(keys: seq<Key>)
    ensures |SerializedKeys(keys)| == 32 * |keys|
    ensures forall i :: 0 <= i < |keys| ==> SerializedKeys(keys)[32 * i..32 * i + 32] == keys[i]
  {
    if keys != [] {
      KeysLieInOrder(keys[1..]);
      forall i | 0 <= i < |keys| ensures SerializedKeys(keys)[32 * i..32 * i + 32] == keys[i] {
        if i > 0 {
          assert SerializedKeys(keys)[32 * i..32 * i + 32] == SerializedKeys(keys[1..])[32 * (i - 1)..32 * (i - 1) + 32];
        }
      }
    }
  }

  // ----- Signed transactions -----

  function Signed(signature: Signature, tx: Bytes): Bytes {
    CompactU16(1) + signature + tx
  }

  /** signTransaction, with the signature as input */
  method SignTransaction(signature: Signature, tx: Bytes) returns (signedTx: ByteVector)
    ensures fresh(signedTx) && signedTx.bytes == Signed(signature, tx)
  {
    signedTx := new ByteVector();
    EncodeU16(1, signedTx);
    signedTx.Insert(signature);
    signedTx.Insert(tx);
  }

  function ReadSigned(b: Bytes): Option<(Signature, Message)> {
    match ReadCount(b)
    case None => None
    case Some((n, b')) =>
      if n != 1 || |b'| < SIGNATURE_BYTES then None else
        match ReadMessage(b'[SIGNATURE_BYTES..])
        case None => None
        case Some((m, rest)) => if rest == [] then Some((b'[..SIGNATURE_BYTES], m)) else None
  }

  /** The base64 text that is sent decodes to the signature and the message. */
  lemma SentTransactionReadsBack(signature: Signature, m: Message)
    requires Fits(m)
    ensures var text := Base64.Encoded(Signed(signature, Serialized(m)));
            Base64.Readable(text) && ReadSigned(Base64.Decoded(text)) == Some((signature, m))
  {
    hide ReadCount, CompactU16, Serialized, ReadMessage, Base64.Encoded, Base64.Decoded;
    var b := Signed(signature, Serialized(m));
    Base64.DecodeEncoded(b);
    var b' := signature + Serialized(m);
    assert b == CompactU16(1) + b';
    ReadsCount(b, 1, b');
    assert b'[..SIGNATURE_BYTES] == signature && b'[SIGNATURE_BYTES..] == Serialized(m);
    ReadsMessage(Serialized(m), m, []);
    assert Serialized(m) + [] == Serialized(m);
  }
}
