/** Compiling instructions to a transaction (lib/solana.cpp:144-148, 470-483, 493-551). */
module Compile {
  import opened Numerals
  import opened PublicKeys
  import opened Wire

  datatype AccountMeta = AccountMeta(pubkey: Key, isSigner: bool, isWritable: bool)

  datatype Instruction = Instruction(programId: Key, accounts: seq<AccountMeta>, data: Bytes)

  // ----- Collecting and merging -----

  /** The metas of one instruction, its program last. */
  function MetasOf(ix: Instruction): seq<AccountMeta> {
    ix.accounts + [AccountMeta(ix.programId, false, false)]
  }

  function Collected(ixs: seq<Instruction>): seq<AccountMeta> {
    if ixs == [] then [] else Collected(ixs[..|ixs| - 1]) + MetasOf(ixs[|ixs| - 1])
  }

  function AllMetas(ixs: seq<Instruction>, payer: Key): seq<AccountMeta> {
    [AccountMeta(payer, true, true)] + Collected(ixs)
  }

  ghost predicate Distinct(metas: seq<AccountMeta>) {
    forall i, j :: 0 <= i < j < |metas| ==> metas[i].pubkey != metas[j].pubkey
  }

  ghost predicate Mentions(metas: seq<AccountMeta>, key: Key) {
    exists i :: 0 <= i < |metas| && metas[i].pubkey == key
  }

  ghost predicate SignsIn(metas: seq<AccountMeta>, key: Key) {
    exists i :: 0 <= i < |metas| && metas[i].pubkey == key && metas[i].isSigner
  }

  ghost predicate WritableIn(metas: seq<AccountMeta>, key: Key) {
    exists i :: 0 <= i < |metas| && metas[i].pubkey == key && metas[i].isWritable
  }

  /** u holds every key of metas once, with the union of its privileges. */
  ghost predicate IsMerge(u: seq<AccountMeta>, metas: seq<AccountMeta>) {
    && Distinct(u)
    && (forall key: Key :: Mentions(u, key) <==> Mentions(metas, key))
    && (forall i :: 0 <= i < |u| ==>
         (u[i].isSigner <==> SignsIn(metas, u[i].pubkey)) && (u[i].isWritable <==> WritableIn(metas, u[i].pubkey)))
  }

  /** find_if on the public key */
  function Find(u: seq<AccountMeta>, key: Key): (i: nat)
    ensures i <= |u| && (i < |u| ==> u[i].pubkey == key)
    ensures forall j :: 0 <= j < i ==> u[j].pubkey != key
  {
    if u == [] || u[0].pubkey == key then 0 else
      var i := Find(u[1..], key) + 1;
      assert forall j :: 0 < j < i ==> u[j] == u[1..][j - 1];
      i
  }

  /** One step of the merge loop. */
  function MergeOne(u: seq<AccountMeta>, m: AccountMeta): seq<AccountMeta> {
    var dup := Find(u, m.pubkey);
    if dup == |u| then u + [m]
    else u[dup := AccountMeta(m.pubkey, u[dup].isSigner || m.isSigner, u[dup].isWritable || m.isWritable)]
  }

  lemma Extended(metas: seq<AccountMeta>, m: AccountMeta, key: Key)
    ensures Mentions(metas + [m], key) <==> Mentions(metas, key) || m.pubkey == key
    ensures SignsIn(metas + [m], key) <==> SignsIn(metas, key) || (m.pubkey == key && m.isSigner)
    ensures WritableIn(metas + [m], key) <==> WritableIn(metas, key) || (m.pubkey == key && m.isWritable)
  {
    var all := metas + [m];
    assert all[|metas|] == m;
    if Mentions(metas, key) {
      var i :| 0 <= i < |metas| && metas[i].pubkey == key;
      assert all[i] == metas[i];
    }
    if SignsIn(metas, key) {
      var i :| 0 <= i < |metas| && metas[i].pubkey == key && metas[i].isSigner;
      assert all[i] == metas[i];
    }
    if WritableIn(metas, key) {
      var i :| 0 <= i < |metas| && metas[i].pubkey == key && metas[i].isWritable;
      assert all[i] == metas[i];
    }
  }

  /** A key that is not mentioned has no privileges. */
  lemma Unmentioned(metas: seq<AccountMeta>, key: Key)
    requires !Mentions(metas, key)
    ensures !SignsIn(metas, key) && !WritableIn(metas, key)
  {
  }

  /** The merge step keeps the merge of what was read so far. */
  lemma MergeStep(u: seq<AccountMeta>, metas: seq<AccountMeta>, m: AccountMeta)
    requires IsMerge(u, metas)
    ensures IsMerge(MergeOne(u, m), metas + [m])
  {
    var dup, v, all := Find(u, m.pubkey), MergeOne(u, m), metas + [m];
    MergeKeys(u, m);
    assert Mentions(u, m.pubkey) <==> dup < |u|;
    forall key: Key ensures Mentions(v, key) <==> Mentions(all, key) {
      Extended(metas, m, key);
      assert Mentions(u, key) <==> Mentions(metas, key);
    }
    forall i | 0 <= i < |v|
      ensures (v[i].isSigner <==> SignsIn(all, v[i].pubkey)) && (v[i].isWritable <==> WritableIn(all, v[i].pubkey))
    {
      Extended(metas, m, v[i].pubkey);
      if i == |u| {
        assert !Mentions(metas, m.pubkey);
        Unmentioned(metas, m.pubkey);
      }
    }
  }

  lemma MergeKeys(u: seq<AccountMeta>, m: AccountMeta)
    requires Distinct(u)
    ensures var v := MergeOne(u, m);
            Distinct(v) && (forall key: Key :: Mentions(v, key) <==> Mentions(u, key) || key == m.pubkey)
    ensures Find(u, m.pubkey) < |u| <==> Mentions(u, m.pubkey)
  {
    hide Find;
    var dup, v := Find(u, m.pubkey), MergeOne(u, m);
    assert forall i :: 0 <= i < |u| ==> v[i].pubkey == u[i].pubkey;
    assert v[dup].pubkey == m.pubkey;
    forall key: Key ensures Mentions(v, key) <==> Mentions(u, key) || key == m.pubkey {
      if Mentions(u, key) {
        var i :| 0 <= i < |u| && u[i].pubkey == key;
        assert v[i].pubkey == key;
      }
    }
  }

  method MergeMetas(allMetas: seq<AccountMeta>) returns (uniqueMetas: seq<AccountMeta>)
    ensures IsMerge(uniqueMetas, allMetas)
  {
    uniqueMetas := [];
    var i := 0;
    while i < |allMetas|
      invariant 0 <= i <= |allMetas|
      invariant IsMerge(uniqueMetas, allMetas[..i])
    {
      var meta := allMetas[i];
      var dup := Find(uniqueMetas, meta.pubkey);
      MergeStep(uniqueMetas, allMetas[..i], meta);
      assert allMetas[..i + 1] == allMetas[..i] + [meta];
      if dup == |uniqueMetas| {
        uniqueMetas := uniqueMetas + [meta];
      } else {
        var u := uniqueMetas[dup];
        uniqueMetas := uniqueMetas[dup := AccountMeta(u.pubkey, u.isSigner || meta.isSigner, u.isWritable || meta.isWritable)];
      }
      i := i + 1;
    }
    assert allMetas[..i] == allMetas;
  }

  // ----- Ordering -----

  /** AccountMeta::operator< */
  predicate Less(a: AccountMeta, b: AccountMeta) {
    (a.isSigner && !b.isSigner) || (a.isWritable && !b.isWritable)
  }

  predicate Incomparable(a: AccountMeta, b: AccountMeta) {
    !Less(a, b) && !Less(b, a)
  }

  /** What std::sort demands of the comparator on the elements of a vector. */
  ghost predicate StrictWeakOrder(s: seq<AccountMeta>) {
    && (forall a :: a in s ==> !Less(a, a))
    && (forall a, b :: a in s && b in s && Less(a, b) ==> !Less(b, a))
    && (forall a, b, c :: a in s && b in s && c in s && Less(a, b) && Less(b, c) ==> Less(a, c))
    && (forall a, b, c :: a in s && b in s && c in s && Incomparable(a, b) && Incomparable(b, c) ==> Incomparable(a, c))
  }

  predicate ReadOnlySigner(m: AccountMeta) {
    m.isSigner && !m.isWritable
  }

  predicate WritableNonSigner(m: AccountMeta) {
    !m.isSigner && m.isWritable
  }

  /** A read-only signer next to a writable account that does not sign. */
  ghost predicate Mixed(s: seq<AccountMeta>) {
    (exists a :: a in s && ReadOnlySigner(a)) && (exists b :: b in s && WritableNonSigner(b))
  }

  /** operator< is a strict weak order exactly when the two middle tiers do not both occur. */
  lemma OrderIffUnmixed(s: seq<AccountMeta>)
    ensures StrictWeakOrder(s) <==> !Mixed(s)
  {
    if Mixed(s) {
      var a :| a in s && ReadOnlySigner(a);
      var b :| b in s && WritableNonSigner(b);
      assert Less(a, b) && Less(b, a);
    }
  }

  ghost predicate Sorted(s: seq<AccountMeta>) {
    forall i, j :: 0 <= i < j < |s| ==> !Less(s[j], s[i])
  }

  /** With both middle tiers present no arrangement at all is sorted. */
  lemma MixedIsNeverSorted(s: seq<AccountMeta>)
    requires Mixed(s)
    ensures !Sorted(s)
  {
    var a :| a in s && ReadOnlySigner(a);
    var b :| b in s && WritableNonSigner(b);
    var i :| 0 <= i < |s| && s[i] == a;
    var j :| 0 <= j < |s| && s[j] == b;
    assert Less(s[i], s[j]) && Less(s[j], s[i]);
  }

  ghost predicate IsPermutation(a: seq<AccountMeta>, b: seq<AccountMeta>) {
    multiset(a) == multiset(b)
  }

  /**
    std::sort: some permutation, sorted if the comparator is a strict weak order.  The
    callers rely on this contract alone; the body is one way to meet it.
   */
  method StdSort(s: seq<AccountMeta>) returns (r: seq<AccountMeta>)
    ensures IsPermutation(r, s)
    ensures StrictWeakOrder(s) ==> Sorted(r)
  {
    OrderIffUnmixed(s);
    r := [];
    var i := 0;
    while i < |s|
      invariant 0 <= i <= |s|
      invariant IsPermutation(r, s[..i])
      invariant !Mixed(s) ==> Sorted(r)
    {
      var k := InsertionPoint(r, s[i]);
      Inserted(s, i, r, k);
      r := r[..k] + [s[i]] + r[k..];
      i := i + 1;
    }
    assert s[..i] == s;
  }

  function InsertionPoint(r: seq<AccountMeta>, m: AccountMeta): (k: nat)
    ensures k <= |r| && (k < |r| ==> Less(m, r[k]))
    ensures forall j :: 0 <= j < k ==> !Less(m, r[j])
  {
    if r == [] || Less(m, r[0]) then 0 else
      var k := InsertionPoint(r[1..], m) + 1;
      assert forall j :: 0 < j < k ==> r[j] == r[1..][j - 1];
      k
  }

  lemma Inserted(s: seq<AccountMeta>, i: nat, r: seq<AccountMeta>, k: nat)
    requires i < |s| && IsPermutation(r, s[..i]) && k == InsertionPoint(r, s[i])
    ensures IsPermutation(r[..k] + [s[i]] + r[k..], s[..i + 1])
    ensures !Mixed(s) && Sorted(r) ==> Sorted(r[..k] + [s[i]] + r[k..])
  {
    hide Sorted, Mixed, InsertionPoint;
    InsertedPermutes(r, s[i], k);
    assert s[..i + 1] == s[..i] + [s[i]];
    if !Mixed(s) && Sorted(r) {
      forall j | 0 <= j < |r| ensures r[j] in s {
        PermutationMember(r, s[..i], r[j]);
      }
      InsertedSorted(s, r, s[i], k);
    }
  }

  lemma InsertedPermutes(r: seq<AccountMeta>, m: AccountMeta, k: nat)
    requires k <= |r|
    ensures multiset(r[..k] + [m] + r[k..]) == multiset(r) + multiset{m}
  {
    assert r == r[..k] + r[k..];
  }

  lemma PermutationMember(r: seq<AccountMeta>, s: seq<AccountMeta>, m: AccountMeta)
    requires IsPermutation(r, s)
    ensures m in r <==> m in s
  {
    assert m in multiset(r) <==> m in multiset(s);
  }

  lemma InsertedSorted(s: seq<AccountMeta>, r: seq<AccountMeta>, m: AccountMeta, k: nat)
    requires !Mixed(s) && m in s && (forall j :: 0 <= j < |r| ==> r[j] in s)
    requires Sorted(r) && k == InsertionPoint(r, m)
    ensures Sorted(r[..k] + [m] + r[k..])
  {
    OrderIffUnmixed(s);
    var t := r[..k] + [m] + r[k..];
    forall p, q | 0 <= p < q < |t| ensures !Less(t[q], t[p]) {
      if p == k {
        var b := r[q - 1];
        assert t[q] == b && b in s;
        assert q - 1 > k ==> !Less(b, r[k]) && r[k] in s;
      }
    }
  }

  // ----- Permutations of a merge -----

  lemma {:induction false} TwoPlaces(u: seq<AccountMeta>, m: AccountMeta)
    requires multiset(u)[m] >= 2
    ensures exists p, q :: 0 <= p < q < |u| && u[p] == m && u[q] == m
  {
    var n := |u| - 1;
    assert u == u[..n] + [u[n]];
    if u[n] == m {
      assert m in multiset(u[..n]);
      var p :| 0 <= p < n && u[..n][p] == m;
      assert u[p] == m && u[n] == m;
    } else {
      TwoPlaces(u[..n], m);
      var p, q :| 0 <= p < q < n && u[..n][p] == m && u[..n][q] == m;
      assert u[p] == m && u[q] == m;
    }
  }

  lemma PermutationDistinct(r: seq<AccountMeta>, u: seq<AccountMeta>)
    requires IsPermutation(r, u) && Distinct(u)
    ensures Distinct(r)
  {
    forall i, j | 0 <= i < j < |r| ensures r[i].pubkey != r[j].pubkey {
      PermutationMember(r, u, r[i]);
      PermutationMember(r, u, r[j]);
      if r[i] == r[j] {
        assert r == r[..i] + [r[i]] + r[i + 1..j] + [r[j]] + r[j + 1..];
        TwoPlaces(u, r[i]);
      }
    }
  }

  /** Sorting does not disturb the merge. */
  lemma PermutedMerge(r: seq<AccountMeta>, u: seq<AccountMeta>, metas: seq<AccountMeta>)
    requires IsPermutation(r, u) && IsMerge(u, metas)
    ensures IsMerge(r, metas)
  {
    PermutationDistinct(r, u);
    forall key: Key ensures Mentions(r, key) <==> Mentions(u, key) {
      if Mentions(r, key) {
        var i :| 0 <= i < |r| && r[i].pubkey == key;
        PermutationMember(r, u, r[i]);
      }
      if Mentions(u, key) {
        var i :| 0 <= i < |u| && u[i].pubkey == key;
        PermutationMember(r, u, u[i]);
      }
    }
    forall i | 0 <= i < |r|
      ensures (r[i].isSigner <==> SignsIn(metas, r[i].pubkey)) && (r[i].isWritable <==> WritableIn(metas, r[i].pubkey))
    {
      PermutationMember(r, u, r[i]);
    }
  }

  // ----- Header -----

  /** The number of metas with the given privileges. */
  function Count(s: seq<AccountMeta>, signer: bool, writable: bool): (n: nat)
    ensures n <= |s|
  {
    if s == [] then 0 else
      var m := s[|s| - 1];
      Count(s[..|s| - 1], signer, writable) + if m.isSigner == signer && m.isWritable == writable then 1 else 0
  }

  /** The distinct keys that end up with the given privileges. */
  ghost function Tier(metas: seq<AccountMeta>, signer: bool, writable: bool): set<Key> {
    set i | 0 <= i < |metas| && SignsIn(metas, metas[i].pubkey) == signer && WritableIn(metas, metas[i].pubkey) == writable
      :: metas[i].pubkey
  }

  ghost function KeysWith(u: seq<AccountMeta>, signer: bool, writable: bool): set<Key> {
    set i | 0 <= i < |u| && u[i].isSigner == signer && u[i].isWritable == writable :: u[i].pubkey
  }

  lemma KeysWithSnoc(u: seq<AccountMeta>, m: AccountMeta, signer: bool, writable: bool)
    requires Distinct(u + [m])
    ensures Distinct(u) && m.pubkey !in KeysWith(u, signer, writable)
    ensures KeysWith(u + [m], signer, writable) ==
            KeysWith(u, signer, writable) + if m.isSigner == signer && m.isWritable == writable then {m.pubkey} else {}
  {
    var v := u + [m];
    assert v[|u|] == m && forall i :: 0 <= i < |u| ==> v[i] == u[i];
    forall key | key in KeysWith(u, signer, writable) ensures key in KeysWith(v, signer, writable) {
      var i :| 0 <= i < |u| && u[i].isSigner == signer && u[i].isWritable == writable && u[i].pubkey == key;
      assert v[i] == u[i];
    }
  }

  lemma {:induction false} CountIsCardinality(u: seq<AccountMeta>, signer: bool, writable: bool)
    requires Distinct(u)
    ensures Count(u, signer, writable) == |KeysWith(u, signer, writable)|
  {
    hide Distinct, KeysWith;
    if u == [] {
      NoKeys(signer, writable);
    } else {
      var n := |u| - 1;
      assert u == u[..n] + [u[n]];
      KeysWithSnoc(u[..n], u[n], signer, writable);
      CountIsCardinality(u[..n], signer, writable);
    }
  }

  lemma NoKeys(signer: bool, writable: bool)
    ensures KeysWith([], signer, writable) == {}
  {
  }

  lemma CountIsTier(u: seq<AccountMeta>, metas: seq<AccountMeta>, signer: bool, writable: bool)
    requires IsMerge(u, metas)
    ensures Count(u, signer, writable) == |Tier(metas, signer, writable)|
  {
    CountIsCardinality(u, signer, writable);
    forall key ensures key in KeysWith(u, signer, writable) <==> key in Tier(metas, signer, writable) {
      if key in KeysWith(u, signer, writable) {
        assert Mentions(u, key);
        var i :| 0 <= i < |metas| && metas[i].pubkey == key;
      }
      if key in Tier(metas, signer, writable) {
        var i :| 0 <= i < |metas| && metas[i].pubkey == key;
        assert Mentions(metas, key) && Mentions(u, key);
        var j :| 0 <= j < |u| && u[j].pubkey == key;
      }
    }
    assert KeysWith(u, signer, writable) == Tier(metas, signer, writable);
  }

  /** How the runtime reads the header: signers come first, and each half ends with its read-only accounts. */
  predicate HeaderSigner(i: nat, signatures: nat) {
    i < signatures
  }

  predicate HeaderWritable(i: nat, n: nat, signatures: nat, readOnlySigned: nat, readOnlyUnsigned: nat) {
    if i < signatures then i < signatures - readOnlySigned else i < n - readOnlyUnsigned
  }

  /** In a sorted vector the three counts delimit the privilege tiers. */
  lemma {:induction false} CountsDelimit(s: seq<AccountMeta>)
    requires Sorted(s)
    ensures var readOnlySigned, readOnlyUnsigned := Count(s, true, false), Count(s, false, false);
            var signatures := Count(s, true, true) + readOnlySigned;
            signatures + readOnlyUnsigned <= |s|
            && forall i :: 0 <= i < |s| ==>
                 (s[i].isSigner <==> HeaderSigner(i, signatures))
                 && (s[i].isWritable <==> HeaderWritable(i, |s|, signatures, readOnlySigned, readOnlyUnsigned))
  {
    hide Less;
    if s != [] {
      var n := |s| - 1;
      var t, m := s[..n], s[n];
      CountsDelimit(t);
      assert forall i :: 0 <= i < n ==> t[i] == s[i] && !Less(m, s[i]);
      LastTier(t, m);
    }
  }

  /** A signer at the end means that all are signers, and a writable one that all are writable. */
  lemma LastTier(t: seq<AccountMeta>, m: AccountMeta)
    requires forall i :: 0 <= i < |t| ==> !Less(m, t[i])
    ensures m.isSigner ==> Count(t, false, true) == Count(t, false, false) == 0
    ensures m.isWritable ==> Count(t, true, false) == Count(t, false, false) == 0
    ensures Count(t, true, true) + Count(t, true, false) + Count(t, false, true) + Count(t, false, false) == |t|
  {
    if t != [] {
      LastTier(t[..|t| - 1], m);
    }
  }

  // ----- Dictionary encoding -----

  /** std::find: the first position of key, or the length. */
  function IndexOf(keys: seq<Key>, key: Key): (i: nat)
    ensures i <= |keys| && (i < |keys| ==> keys[i] == key)
    ensures key in keys <==> i < |keys|
    ensures forall j :: 0 <= j < i ==> keys[j] != key
  {
    if keys == [] || keys[0] == key then 0 else
      var i := IndexOf(keys[1..], key) + 1;
      assert forall j :: 0 < j < i ==> keys[j] == keys[1..][j - 1];
      i
  }

  /** The conversion to uint8_t. */
  function ToByte(n: nat): Byte {
    n % 256
  }

  lemma CutToByte(n: nat)
    ensures n < 256 ==> ToByte(n) == n
    ensures n >= 256 ==> ToByte(n) < n
  {
  }

  lemma NextByte(n: nat)
    ensures ToByte(n + 1) == (ToByte(n) + 1) % 256
  {
  }

  /** The position of a key, cut to a byte. */
  function ByteIndex(keys: seq<Key>, key: Key): Byte {
    ToByte(IndexOf(keys, key))
  }

  function CompiledOf(ix: Instruction, accounts: seq<Key>): (r: CompiledInstruction)
    ensures |r.accountIndices| == |ix.accounts|
  {
    CompiledInstruction(
      ByteIndex(accounts, ix.programId),
      seq(|ix.accounts|, i requires 0 <= i < |ix.accounts| => ByteIndex(accounts, ix.accounts[i].pubkey)),
      ix.data)
  }

  method FromInstruction(ix: Instruction, accounts: seq<Key>) returns (r: CompiledInstruction)
    ensures r == CompiledOf(ix, accounts)
  {
    hide IndexOf;
    var programIdIndex := ToByte(IndexOf(accounts, ix.programId));
    var accountIndices: Bytes := [];
    var i := 0;
    while i < |ix.accounts|
      invariant 0 <= i <= |ix.accounts| && |accountIndices| == i
      invariant forall k :: 0 <= k < i ==> accountIndices[k] == ByteIndex(accounts, ix.accounts[k].pubkey)
    {
      accountIndices := accountIndices + [ToByte(IndexOf(accounts, ix.accounts[i].pubkey))];
      i := i + 1;
    }
    return CompiledInstruction(programIdIndex, accountIndices, ix.data);
  }

  /** Byte b stands for key in the dictionary. */
  predicate LooksUp(accounts: seq<Key>, b: Byte, key: Key) {
    b < |accounts| && accounts[b] == key
  }

  /** Looking up the indices of a compiled instruction gives back the original one. */
  predicate Restores(r: CompiledInstruction, accounts: seq<Key>, ix: Instruction) {
    && LooksUp(accounts, r.programIdIndex, ix.programId)
    && |r.accountIndices| == |ix.accounts|
    && (forall i :: 0 <= i < |ix.accounts| ==> LooksUp(accounts, r.accountIndices[i], ix.accounts[i].pubkey))
    && r.data == ix.data
  }

  ghost predicate DistinctKeys(keys: seq<Key>) {
    forall i, j :: 0 <= i < j < |keys| ==> keys[i] != keys[j]
  }

  lemma ByteIndexLooksUp(accounts: seq<Key>, key: Key)
    requires DistinctKeys(accounts) && key in accounts
    ensures LooksUp(accounts, ByteIndex(accounts, key), key) <==> IndexOf(accounts, key) < 256
  {
    hide IndexOf, ToByte;
    CutToByte(IndexOf(accounts, key));
  }

  /** The meaning of an instruction survives exactly when its keys are among the first 256 accounts. */
  lemma MeaningPreserved(ix: Instruction, accounts: seq<Key>)
    requires DistinctKeys(accounts) && (forall i :: 0 <= i < |MetasOf(ix)| ==> MetasOf(ix)[i].pubkey in accounts)
    ensures Restores(CompiledOf(ix, accounts), accounts, ix) <==>
            forall i :: 0 <= i < |MetasOf(ix)| ==> IndexOf(accounts, MetasOf(ix)[i].pubkey) < 256
  {
    hide LooksUp, IndexOf, ByteIndex, DistinctKeys;
    var all, n := MetasOf(ix), |ix.accounts|;
    assert all[n].pubkey == ix.programId && forall i :: 0 <= i < n ==> all[i] == ix.accounts[i];
    ByteIndexLooksUp(accounts, ix.programId);
    forall i | 0 <= i < n
      ensures LooksUp(accounts, ByteIndex(accounts, all[i].pubkey), all[i].pubkey) <==> IndexOf(accounts, all[i].pubkey) < 256
    {
      assert all[i].pubkey in accounts;
      ByteIndexLooksUp(accounts, all[i].pubkey);
    }
    assert forall i :: 0 <= i < n ==> CompiledOf(ix, accounts).accountIndices[i] == ByteIndex(accounts, all[i].pubkey);
  }

  // ----- The compiler -----

  /** Merging leaves both a read-only signer and a writable account that does not sign. */
  ghost predicate MixedTiers(metas: seq<AccountMeta>) {
    (exists a :: Mentions(metas, a) && SignsIn(metas, a) && !WritableIn(metas, a))
    && (exists b :: Mentions(metas, b) && !SignsIn(metas, b) && WritableIn(metas, b))
  }

  lemma MixedMerge(u: seq<AccountMeta>, metas: seq<AccountMeta>)
    requires IsMerge(u, metas)
    ensures Mixed(u) ==> MixedTiers(metas)
  {
    if Mixed(u) {
      var a :| a in u && ReadOnlySigner(a);
      var b :| b in u && WritableNonSigner(b);
      assert Mentions(u, a.pubkey) && Mentions(u, b.pubkey);
    }
  }

  method CollectMetas(ixs: seq<Instruction>, payer: Key) returns (allMetas: seq<AccountMeta>)
    ensures allMetas == AllMetas(ixs, payer)
  {
    allMetas := [AccountMeta(payer, true, true)];
    var i := 0;
    while i < |ixs|
      invariant 0 <= i <= |ixs|
      invariant allMetas == AllMetas(ixs[..i], payer)
    {
      assert ixs[..i + 1][..i] == ixs[..i];
      allMetas := allMetas + ixs[i].accounts;
      allMetas := allMetas + [AccountMeta(ixs[i].programId, false, false)];
      i := i + 1;
    }
    assert ixs[..i] == ixs;
  }

  lemma NothingCounted(metas: seq<AccountMeta>)
    requires metas == []
    ensures forall signer, writable :: Count(metas, signer, writable) == 0
    ensures ToByte(0) == 0
  {
  }

  /** The counts after one more meta, and the byte counters that follow them. */
  lemma CountNext(metas: seq<AccountMeta>, i: nat)
    requires i < |metas|
    ensures forall signer, writable ::
              Count(metas[..i + 1], signer, writable) == Count(metas[..i], signer, writable)
              + (if metas[i].isSigner == signer && metas[i].isWritable == writable then 1 else 0)
    ensures ToByte(Count(metas[..i], true, true) + Count(metas[..i], true, false) + 1)
         == (ToByte(Count(metas[..i], true, true) + Count(metas[..i], true, false)) + 1) % 256
    ensures ToByte(Count(metas[..i], true, false) + 1) == (ToByte(Count(metas[..i], true, false)) + 1) % 256
    ensures ToByte(Count(metas[..i], false, false) + 1) == (ToByte(Count(metas[..i], false, false)) + 1) % 256
  {
    hide ToByte;
    assert metas[..i + 1][..i] == metas[..i];
    NextByte(Count(metas[..i], true, true) + Count(metas[..i], true, false));
    NextByte(Count(metas[..i], true, false));
    NextByte(Count(metas[..i], false, false));
  }

  /** The loop over the sorted metas: the accounts, and the three counters of a byte each. */
  method CountTiers(metas: seq<AccountMeta>)
    returns (accounts: seq<Key>, requiredSignatures: Byte, readOnlySigned: Byte, readOnlyUnsigned: Byte)
    ensures |accounts| == |metas| && (forall i :: 0 <= i < |metas| ==> accounts[i] == metas[i].pubkey)
    ensures requiredSignatures == ToByte(Count(metas, true, true) + Count(metas, true, false))
    ensures readOnlySigned == ToByte(Count(metas, true, false))
    ensures readOnlyUnsigned == ToByte(Count(metas, false, false))
  {
    hide Count, ToByte;
    accounts, requiredSignatures, readOnlySigned, readOnlyUnsigned := [], 0, 0, 0;
    var i := 0;
    NothingCounted(metas[..i]);
    while i < |metas|
      invariant 0 <= i <= |metas| && |accounts| == i
      invariant forall k :: 0 <= k < i ==> accounts[k] == metas[k].pubkey
      invariant requiredSignatures == ToByte(Count(metas[..i], true, true) + Count(metas[..i], true, false))
      invariant readOnlySigned == ToByte(Count(metas[..i], true, false))
      invariant readOnlyUnsigned == ToByte(Count(metas[..i], false, false))
    {
      var meta := metas[i];
      CountNext(metas, i);
      accounts := accounts + [meta.pubkey];
      if meta.isSigner {
        requiredSignatures := (requiredSignatures + 1) % 256;
        if !meta.isWritable {
          readOnlySigned := (readOnlySigned + 1) % 256;
        }
      } else if !meta.isWritable {
        readOnlyUnsigned := (readOnlyUnsigned + 1) % 256;
      }
      i := i + 1;
    }
    assert metas[..i] == metas;
  }

  /** accounts is exactly the keys of metas, each once. */
  ghost predicate IsDictionary(accounts: seq<Key>, metas: seq<AccountMeta>) {
    DistinctKeys(accounts) && (forall key: Key :: key in accounts <==> Mentions(metas, key))
  }

  /** The header counts the tiers, as bytes. */
  ghost predicate CountsTiers(tx: CompiledTransaction, metas: seq<AccountMeta>) {
    && tx.requiredSignatures == ToByte(|Tier(metas, true, true)| + |Tier(metas, true, false)|)
    && tx.readOnlySignedAccounts == ToByte(|Tier(metas, true, false)|)
    && tx.readOnlyUnsignedAccounts == ToByte(|Tier(metas, false, false)|)
  }

  /** The header, read the way the runtime reads it, gives every account its merged privileges. */
  ghost predicate HeaderDelimits(tx: CompiledTransaction, metas: seq<AccountMeta>) {
    forall i :: 0 <= i < |tx.accounts| ==>
      (HeaderSigner(i, tx.requiredSignatures) <==> SignsIn(metas, tx.accounts[i]))
      && (HeaderWritable(i, |tx.accounts|, tx.requiredSignatures, tx.readOnlySignedAccounts, tx.readOnlyUnsignedAccounts)
          <==> WritableIn(metas, tx.accounts[i]))
  }

  /** The signers, and the read-only accounts that do not sign, can be counted in a byte. */
  ghost predicate CountsFit(metas: seq<AccountMeta>) {
    |Tier(metas, true, true)| + |Tier(metas, true, false)| < 256 && |Tier(metas, false, false)| < 256
  }

  ghost predicate CompilesEach(tx: CompiledTransaction, ixs: seq<Instruction>) {
    |tx.instructions| == |ixs| && (forall i :: 0 <= i < |ixs| ==> tx.instructions[i] == CompiledOf(ixs[i], tx.accounts))
  }

  // ----- Privileges, by the instructions themselves -----

  /** Some instruction lists the key as a signer, or as writable. */
  ghost predicate ListsSigner(ixs: seq<Instruction>, key: Key) {
    exists i, j :: 0 <= i < |ixs| && 0 <= j < |ixs[i].accounts| && ixs[i].accounts[j].pubkey == key && ixs[i].accounts[j].isSigner
  }

  ghost predicate ListsWritable(ixs: seq<Instruction>, key: Key) {
    exists i, j :: 0 <= i < |ixs| && 0 <= j < |ixs[i].accounts| && ixs[i].accounts[j].pubkey == key && ixs[i].accounts[j].isWritable
  }

  /** Some instruction lists the key, or runs it as its program. */
  ghost predicate Uses(ixs: seq<Instruction>, key: Key) {
    (exists i :: 0 <= i < |ixs| && ixs[i].programId == key)
    || (exists i, j :: 0 <= i < |ixs| && 0 <= j < |ixs[i].accounts| && ixs[i].accounts[j].pubkey == key)
  }

  /** The payer signs and is writable; other accounts have what some instruction lists; running a program grants nothing. */
  lemma PrivilegesAre(ixs: seq<Instruction>, payer: Key, key: Key)
    ensures Mentions(AllMetas(ixs, payer), key) <==> key == payer || Uses(ixs, key)
    ensures SignsIn(AllMetas(ixs, payer), key) <==> key == payer || ListsSigner(ixs, key)
    ensures WritableIn(AllMetas(ixs, payer), key) <==> key == payer || ListsWritable(ixs, key)
  {
    hide Collected;
    CollectedPrivileges(ixs, key);
    var all := AllMetas(ixs, payer);
    assert all[0] == AccountMeta(payer, true, true);
    assert forall i :: 0 < i < |all| ==> all[i] == Collected(ixs)[i - 1];
    assert forall i :: 0 <= i < |Collected(ixs)| ==> Collected(ixs)[i] == all[i + 1];
  }

  lemma {:induction false} CollectedPrivileges(ixs: seq<Instruction>, key: Key)
    ensures Mentions(Collected(ixs), key) <==> Uses(ixs, key)
    ensures SignsIn(Collected(ixs), key) <==> ListsSigner(ixs, key)
    ensures WritableIn(Collected(ixs), key) <==> ListsWritable(ixs, key)
  {
    if ixs != [] {
      var n := |ixs| - 1;
      CollectedPrivileges(ixs[..n], key);
      PrivilegesOfOne(ixs[n], Collected(ixs[..n]), key);
      LastInstruction(ixs, key);
    }
  }

  ghost predicate OneLists(ix: Instruction, key: Key) {
    exists j :: 0 <= j < |ix.accounts| && ix.accounts[j].pubkey == key
  }

  ghost predicate OneListsSigner(ix: Instruction, key: Key) {
    exists j :: 0 <= j < |ix.accounts| && ix.accounts[j].pubkey == key && ix.accounts[j].isSigner
  }

  ghost predicate OneListsWritable(ix: Instruction, key: Key) {
    exists j :: 0 <= j < |ix.accounts| && ix.accounts[j].pubkey == key && ix.accounts[j].isWritable
  }

  /** What the metas of one more instruction add. */
  lemma PrivilegesOfOne(ix: Instruction, metas: seq<AccountMeta>, key: Key)
    ensures Mentions(metas + MetasOf(ix), key) <==> Mentions(metas, key) || ix.programId == key || OneLists(ix, key)
    ensures SignsIn(metas + MetasOf(ix), key) <==> SignsIn(metas, key) || OneListsSigner(ix, key)
    ensures WritableIn(metas + MetasOf(ix), key) <==> WritableIn(metas, key) || OneListsWritable(ix, key)
  {
    var all, n := metas + MetasOf(ix), |metas|;
    assert forall i :: 0 <= i < n ==> metas[i] == all[i];
    assert forall i :: n <= i < n + |ix.accounts| ==> all[i] == ix.accounts[i - n];
    assert forall j :: 0 <= j < |ix.accounts| ==> ix.accounts[j] == all[j + n];
    assert all[n + |ix.accounts|] == AccountMeta(ix.programId, false, false);
  }

  lemma LastInstruction(ixs: seq<Instruction>, key: Key)
    requires ixs != []
    ensures var n := |ixs| - 1;
            && (Uses(ixs, key) <==> Uses(ixs[..n], key) || ixs[n].programId == key || OneLists(ixs[n], key))
            && (ListsSigner(ixs, key) <==> ListsSigner(ixs[..n], key) || OneListsSigner(ixs[n], key))
            && (ListsWritable(ixs, key) <==> ListsWritable(ixs[..n], key) || OneListsWritable(ixs[n], key))
  {
    var n := |ixs| - 1;
    assert forall i :: 0 <= i < n ==> ixs[..n][i] == ixs[i];
  }

  /** The header counts, read the way the runtime reads them, give every account the privileges that the instructions list. */
  ghost predicate HeaderGrants(accounts: seq<Key>, signatures: nat, readOnlySigned: nat, readOnlyUnsigned: nat,
      ixs: seq<Instruction>, payer: Key)
  {
    forall i :: 0 <= i < |accounts| ==>
      (HeaderSigner(i, signatures) <==> accounts[i] == payer || ListsSigner(ixs, accounts[i]))
      && (HeaderWritable(i, |accounts|, signatures, readOnlySigned, readOnlyUnsigned)
          <==> accounts[i] == payer || ListsWritable(ixs, accounts[i]))
  }

  lemma DelimitsIsGrants(tx: CompiledTransaction, ixs: seq<Instruction>, payer: Key)
    ensures HeaderDelimits(tx, AllMetas(ixs, payer)) <==>
              HeaderGrants(tx.accounts, tx.requiredSignatures, tx.readOnlySignedAccounts, tx.readOnlyUnsignedAccounts, ixs, payer)
  {
    hide AllMetas, SignsIn, WritableIn, ListsSigner, ListsWritable, HeaderSigner, HeaderWritable;
    forall i | 0 <= i < |tx.accounts|
      ensures SignsIn(AllMetas(ixs, payer), tx.accounts[i]) <==> tx.accounts[i] == payer || ListsSigner(ixs, tx.accounts[i])
      ensures WritableIn(AllMetas(ixs, payer), tx.accounts[i]) <==> tx.accounts[i] == payer || ListsWritable(ixs, tx.accounts[i])
    {
      PrivilegesAre(ixs, payer, tx.accounts[i]);
    }
  }

  method FromInstructions(ixs: seq<Instruction>, payer: Key, blockhash: Blockhash) returns (tx: CompiledTransaction)
    ensures tx.recentBlockhash == blockhash
    ensures IsDictionary(tx.accounts, AllMetas(ixs, payer))
    ensures CountsTiers(tx, AllMetas(ixs, payer))
    ensures CompilesEach(tx, ixs)
    ensures !MixedTiers(AllMetas(ixs, payer)) ==>
              (HeaderDelimits(tx, AllMetas(ixs, payer)) <==> CountsFit(AllMetas(ixs, payer)))
    ensures !MixedTiers(AllMetas(ixs, payer)) && CountsFit(AllMetas(ixs, payer)) ==>
              HeaderGrants(tx.accounts, tx.requiredSignatures, tx.readOnlySignedAccounts, tx.readOnlyUnsignedAccounts, ixs, payer)
    ensures DistinctKeys(tx.accounts) && forall key: Key :: key in tx.accounts <==> key == payer || Uses(ixs, key)
  {
    hide AllMetas, IsMerge, IsPermutation, StrictWeakOrder, Sorted, Mixed, MixedTiers, CompiledOf, Count, IsDictionary, CountsTiers, HeaderDelimits, HeaderGrants, CountsFit, Uses;
    var allMetas := CollectMetas(ixs, payer);
    var merged := MergeMetas(allMetas);
    var uniqueMetas := StdSort(merged);
    PermutedMerge(uniqueMetas, merged, allMetas);
    var accounts, requiredSignatures, readOnlySigned, readOnlyUnsigned := CountTiers(uniqueMetas);
    var cixs: seq<CompiledInstruction> := [];
    var i := 0;
    while i < |ixs|
      invariant 0 <= i <= |ixs| && |cixs| == i
      invariant forall k :: 0 <= k < i ==> cixs[k] == CompiledOf(ixs[k], accounts)
    {
      var cix := FromInstruction(ixs[i], accounts);
      cixs := cixs + [cix];
      i := i + 1;
    }
    tx := CompiledTransaction(blockhash, accounts, cixs, requiredSignatures, readOnlySigned, readOnlyUnsigned);
    DictionaryOfMerge(uniqueMetas, allMetas, accounts);
    HeaderCounts(uniqueMetas, allMetas, tx);
    if !MixedTiers(allMetas) {
      MixedMerge(merged, allMetas);
      OrderIffUnmixed(merged);
      HeaderOfSorted(uniqueMetas, allMetas, tx);
    }
    DelimitsIsGrants(tx, ixs, payer);
    DictionaryIs(accounts, ixs, payer);
  }

  /** The dictionary holds the payer and what the instructions use, each once. */
  lemma DictionaryIs(accounts: seq<Key>, ixs: seq<Instruction>, payer: Key)
    requires IsDictionary(accounts, AllMetas(ixs, payer))
    ensures DistinctKeys(accounts) && forall key: Key :: key in accounts <==> key == payer || Uses(ixs, key)
  {
    hide AllMetas, Mentions, Uses;
    forall key: Key ensures key in accounts <==> key == payer || Uses(ixs, key) {
      PrivilegesAre(ixs, payer, key);
    }
  }

  lemma DictionaryOfMerge(u: seq<AccountMeta>, metas: seq<AccountMeta>, accounts: seq<Key>)
    requires IsMerge(u, metas)
    requires |accounts| == |u| && (forall i :: 0 <= i < |u| ==> accounts[i] == u[i].pubkey)
    ensures IsDictionary(accounts, metas)
  {
    forall key: Key ensures key in accounts <==> Mentions(u, key) {
      if Mentions(u, key) {
        var i :| 0 <= i < |u| && u[i].pubkey == key;
        assert accounts[i] == key;
      }
    }
  }

  lemma HeaderCounts(u: seq<AccountMeta>, metas: seq<AccountMeta>, tx: CompiledTransaction)
    requires IsMerge(u, metas)
    requires tx.requiredSignatures == ToByte(Count(u, true, true) + Count(u, true, false))
    requires tx.readOnlySignedAccounts == ToByte(Count(u, true, false))
    requires tx.readOnlyUnsignedAccounts == ToByte(Count(u, false, false))
    ensures CountsTiers(tx, metas)
  {
    hide Count, Tier, IsMerge, ToByte;
    CountIsTier(u, metas, true, true);
    CountIsTier(u, metas, true, false);
    CountIsTier(u, metas, false, false);
  }

  /** In a sorted vector, the header delimits the tiers exactly when its counts fit. */
  lemma HeaderOfSorted(u: seq<AccountMeta>, metas: seq<AccountMeta>, tx: CompiledTransaction)
    requires IsMerge(u, metas) && Sorted(u)
    requires |tx.accounts| == |u| && (forall i :: 0 <= i < |u| ==> tx.accounts[i] == u[i].pubkey)
    requires tx.requiredSignatures == ToByte(Count(u, true, true) + Count(u, true, false))
    requires tx.readOnlySignedAccounts == ToByte(Count(u, true, false))
    requires tx.readOnlyUnsignedAccounts == ToByte(Count(u, false, false))
    ensures HeaderDelimits(tx, metas) <==> CountsFit(metas)
  {
    hide Count, Sorted, SignsIn, WritableIn, Distinct, Mentions, ToByte, HeaderSigner, HeaderWritable, Tier;
    var readOnlySigned, readOnlyUnsigned := Count(u, true, false), Count(u, false, false);
    var signatures := Count(u, true, true) + readOnlySigned;
    SortedPrivileges(u, metas, tx.accounts);
    CountsFitIff(u, metas);
    hide IsMerge, CountsFit;
    CutToByte(signatures);
    CutToByte(readOnlySigned);
    CutToByte(readOnlyUnsigned);
    if !CountsFit(metas) {
      var i := if signatures >= 256 then tx.requiredSignatures as int else |u| - readOnlyUnsigned;
      CutCountFails(i, |u|, signatures, readOnlySigned, readOnlyUnsigned,
                    tx.requiredSignatures, tx.readOnlySignedAccounts, tx.readOnlyUnsignedAccounts);
    }
  }

  /** The true counts of a sorted merge give every account its privileges. */
  lemma SortedPrivileges(u: seq<AccountMeta>, metas: seq<AccountMeta>, accounts: seq<Key>)
    requires IsMerge(u, metas) && Sorted(u)
    requires |accounts| == |u| && (forall i :: 0 <= i < |u| ==> accounts[i] == u[i].pubkey)
    ensures var readOnlySigned, readOnlyUnsigned := Count(u, true, false), Count(u, false, false);
            var signatures := Count(u, true, true) + readOnlySigned;
            signatures + readOnlyUnsigned <= |u|
            && forall i :: 0 <= i < |u| ==>
                 (HeaderSigner(i, signatures) <==> SignsIn(metas, accounts[i]))
                 && (HeaderWritable(i, |u|, signatures, readOnlySigned, readOnlyUnsigned) <==> WritableIn(metas, accounts[i]))
  {
    hide Count, Sorted, SignsIn, WritableIn, Distinct, Mentions, HeaderSigner, HeaderWritable;
    CountsDelimit(u);
  }

  lemma CountsFitIff(u: seq<AccountMeta>, metas: seq<AccountMeta>)
    requires IsMerge(u, metas)
    ensures CountsFit(metas) <==> Count(u, true, true) + Count(u, true, false) < 256 && Count(u, false, false) < 256
  {
    hide Count, Tier, IsMerge;
    CountIsTier(u, metas, true, true);
    CountIsTier(u, metas, true, false);
    CountIsTier(u, metas, false, false);
  }

  /** The account at which a count that was cut to a byte misleads. */
  lemma CutCountFails(i: int, n: nat, signatures: nat, readOnlySigned: nat, readOnlyUnsigned: nat, s: nat, r: nat, u: nat)
    requires signatures + readOnlyUnsigned <= n
    requires if signatures >= 256 then s < signatures && i == s
             else s == signatures && u < readOnlyUnsigned && i == n - readOnlyUnsigned
    ensures 0 <= i < n
    ensures HeaderSigner(i, s) != HeaderSigner(i, signatures)
            || HeaderWritable(i, n, s, r, u) != HeaderWritable(i, n, signatures, readOnlySigned, readOnlyUnsigned)
  {
  }

  /** With at most 256 accounts, every compiled instruction restores the original. */
  lemma AllRestored(tx: CompiledTransaction, ixs: seq<Instruction>, payer: Key)
    requires IsDictionary(tx.accounts, AllMetas(ixs, payer)) && CompilesEach(tx, ixs)
    requires |tx.accounts| <= 256
    ensures forall i :: 0 <= i < |ixs| ==> Restores(tx.instructions[i], tx.accounts, ixs[i])
  {
    hide Restores, CompiledOf, AllMetas, MetasOf;
    forall i | 0 <= i < |ixs| ensures Restores(tx.instructions[i], tx.accounts, ixs[i]) {
      KeysAreMentioned(ixs, payer, i);
      InstructionKeysListed(tx, ixs, payer, i);
      MeaningPreserved(ixs[i], tx.accounts);
      IndicesBelow(ixs[i], tx.accounts);
    }
  }

  lemma IndicesBelow(ix: Instruction, accounts: seq<Key>)
    requires |accounts| <= 256 && (forall i :: 0 <= i < |MetasOf(ix)| ==> MetasOf(ix)[i].pubkey in accounts)
    ensures forall i :: 0 <= i < |MetasOf(ix)| ==> IndexOf(accounts, MetasOf(ix)[i].pubkey) < 256
  {
    hide MetasOf;
  }

  lemma InstructionKeysListed(tx: CompiledTransaction, ixs: seq<Instruction>, payer: Key, i: nat)
    requires IsDictionary(tx.accounts, AllMetas(ixs, payer)) && i < |ixs|
    ensures forall k :: 0 <= k < |MetasOf(ixs[i])| ==> MetasOf(ixs[i])[k].pubkey in tx.accounts
  {
    hide AllMetas, MetasOf;
    KeysAreMentioned(ixs, payer, i);
  }

  lemma {:induction false} KeysAreMentioned(ixs: seq<Instruction>, payer: Key, i: nat)
    requires i < |ixs|
    ensures forall k :: 0 <= k < |MetasOf(ixs[i])| ==> Mentions(AllMetas(ixs, payer), MetasOf(ixs[i])[k].pubkey)
  {
    var n := |ixs| - 1;
    var all, init := AllMetas(ixs, payer), AllMetas(ixs[..n], payer);
    assert all == init + MetasOf(ixs[n]);
    if i < n {
      KeysAreMentioned(ixs[..n], payer, i);
      forall k | 0 <= k < |MetasOf(ixs[i])| ensures Mentions(all, MetasOf(ixs[i])[k].pubkey) {
        var j :| 0 <= j < |init| && init[j].pubkey == MetasOf(ixs[i])[k].pubkey;
        assert all[j] == init[j];
      }
    } else {
      forall k | 0 <= k < |MetasOf(ixs[i])| ensures Mentions(all, MetasOf(ixs[i])[k].pubkey) {
        assert all[|init| + k] == MetasOf(ixs[i])[k];
      }
    }
  }

  /** With 258 accounts or more, some instruction is not restored: only the payer can be out of reach unnoticed. */
  lemma TooManyAccounts(tx: CompiledTransaction, ixs: seq<Instruction>, payer: Key)
    requires IsDictionary(tx.accounts, AllMetas(ixs, payer)) && CompilesEach(tx, ixs)
    requires |tx.accounts| >= 258
    ensures exists i :: 0 <= i < |ixs| && !Restores(tx.instructions[i], tx.accounts, ixs[i])
  {
    hide Restores, CompiledOf, MetasOf, AllMetas;
    var p := if tx.accounts[256] == payer then 257 else 256;
    var key := tx.accounts[p];
    assert key != payer;
    assert Mentions(AllMetas(ixs, payer), key);
    var i, k := MentionedBy(ixs, payer, key);
    InstructionKeysListed(tx, ixs, payer, i);
    MeaningPreserved(ixs[i], tx.accounts);
    assert IndexOf(tx.accounts, key) == p;
    assert !Restores(tx.instructions[i], tx.accounts, ixs[i]);
  }

  lemma {:induction false} MentionedBy(ixs: seq<Instruction>, payer: Key, key: Key) returns (i: nat, k: nat)
    requires Mentions(AllMetas(ixs, payer), key) && key != payer
    ensures i < |ixs| && k < |MetasOf(ixs[i])| && MetasOf(ixs[i])[k].pubkey == key
  {
    var all := AllMetas(ixs, payer);
    var j :| 0 <= j < |all| && all[j].pubkey == key;
    assert ixs != [];
    var n := |ixs| - 1;
    var init := AllMetas(ixs[..n], payer);
    assert all == init + MetasOf(ixs[n]);
    if j < |init| {
      assert init[j] == all[j];
      i, k := MentionedBy(ixs[..n], payer, key);
    } else {
      i, k := n, j - |init|;
      assert all[j] == MetasOf(ixs[n])[k];
    }
  }

  /** The instructions are few and short enough for their 16-bit lengths. */
  predicate ShortEnough(ixs: seq<Instruction>) {
    |ixs| < 0x1_0000 && (forall i :: 0 <= i < |ixs| ==> |ixs[i].accounts| < 0x1_0000 && |ixs[i].data| < 0x1_0000)
  }

  /**
    From instructions to bytes and back: what is read from the serialized transaction,
    whatever follows it, restores every instruction, gives every account the privileges
    that the instructions list, if the header counts fit, and has the blockhash passed in.
   */
  lemma CompiledReadsBack(tx: CompiledTransaction, ixs: seq<Instruction>, payer: Key, suffix: Bytes)
    requires IsDictionary(tx.accounts, AllMetas(ixs, payer)) && CompilesEach(tx, ixs)
    requires |tx.accounts| <= 256 && ShortEnough(ixs)
    ensures ReadMessage(Serialized(tx.ToMessage()) + suffix).Some?
    ensures var (m, rest) := ReadMessage(Serialized(tx.ToMessage()) + suffix).value;
            rest == suffix && |m.instructions| == |ixs|
            && (forall i :: 0 <= i < |ixs| ==> Restores(m.instructions[i], m.accounts, ixs[i]))
            && m.recentBlockhash == tx.recentBlockhash.publicKey
            && (HeaderDelimits(tx, AllMetas(ixs, payer)) ==>
                  HeaderGrants(m.accounts, m.requiredSignatures, m.readOnlySignedAccounts, m.readOnlyUnsignedAccounts, ixs, payer))
  {
    hide Restores, IsDictionary, AllMetas, ReadMessage, Serialized, LooksUp, HeaderDelimits, HeaderGrants;
    DelimitsIsGrants(tx, ixs, payer);
    AllRestored(tx, ixs, payer);
    SerializationRoundTrip(tx.ToMessage(), suffix);
  }
}
