/** Threshold signatures (src/core/mermai_multisig.cpp). */
module Multisig {
  import opened Bytes
  import opened Decimals
  import opened Types
  import opened Codec

  datatype Account = Account(threshold: u32, signers: seq<Text>)

  datatype Entry = Entry(publicKey: Text, signature: Text)

  // ---------- counting signers ----------

  predicate Endorses(c: Crypto, account: Account, payload: Text, e: Entry)
  {
    e.publicKey in account.signers && c.validSig(e.publicKey, payload, e.signature)
  }

  /** The different account keys with at least one valid signature among the entries. */
  function Endorsers(c: Crypto, account: Account, payload: Text, entries: seq<Entry>): (keys: set<Text>)
    ensures |keys| <= |entries|
  {
    if entries == [] then {}
    else
      var keys, e := Endorsers(c, account, payload, entries[..|entries| - 1]), entries[|entries| - 1];
      if Endorses(c, account, payload, e) then keys + {e.publicKey} else keys
  }

  lemma EndorsersNext(c: Crypto, account: Account, payload: Text, entries: seq<Entry>, i: nat)
    requires i < |entries|
    ensures var keys, e := Endorsers(c, account, payload, entries[..i]), entries[i];
            Endorsers(c, account, payload, entries[..i + 1])
            == if Endorses(c, account, payload, e) then keys + {e.publicKey} else keys
  {
    assert entries[..i + 1][..i] == entries[..i];
  }

  predicate Approved(c: Crypto, account: Account, payload: Text, entries: seq<Entry>)
  {
    |Endorsers(c, account, payload, entries)| >= account.threshold
  }

  /** The answer of `verify_multisig_tx`, whose counter has 32 bits. */
  predicate Verify(c: Crypto, account: Account, payload: Text, entries: seq<Entry>)
  {
    |entries| >= account.threshold
    && |Endorsers(c, account, payload, entries)| % U32_SIZE >= account.threshold
  }

  lemma {:induction false} EndorsersAre(c: Crypto, account: Account, payload: Text, entries: seq<Entry>, key: Text)
    ensures key in Endorsers(c, account, payload, entries)
       <==> exists i | 0 <= i < |entries| :: entries[i].publicKey == key && Endorses(c, account, payload, entries[i])
  {
    if entries != [] {
      var n := |entries| - 1;
      EndorsersAre(c, account, payload, entries[..n], key);
      if i :| 0 <= i < |entries| && entries[i].publicKey == key && Endorses(c, account, payload, entries[i]) {
        if i < n {
          assert entries[..n][i] == entries[i];
        }
      }
    }
  }

  lemma Included(a: set<Text>, b: set<Text>)
    requires a <= b
    ensures |a| <= |b|
  {
    assert |b - a| == |b| - |a| by {
      assert b == a + (b - a);
    }
  }

  lemma EndorsersAreSigners(c: Crypto, account: Account, payload: Text, entries: seq<Entry>)
    ensures Endorsers(c, account, payload, entries) <= Keys(account)
    ensures |Endorsers(c, account, payload, entries)| <= |Keys(account)|
  {
    forall k | k in Endorsers(c, account, payload, entries) ensures k in Keys(account) {
      EndorsersAre(c, account, payload, entries, k);
    }
    Included(Endorsers(c, account, payload, entries), Keys(account));
  }

  function Keys(account: Account): set<Text>
  {
    set k | k in account.signers
  }

  /** The counter is exact while the endorsing keys are fewer than 2^32. */
  lemma CountFits(c: Crypto, account: Account, payload: Text, entries: seq<Entry>)
    requires |Endorsers(c, account, payload, entries)| < U32_SIZE
    ensures Verify(c, account, payload, entries) == Approved(c, account, payload, entries)
  {
    var count := |Endorsers(c, account, payload, entries)|;
    RemainderOf(count, U32_SIZE, 0, count);
  }

  /** For an account with fewer than 2^32 keys verification says whether the threshold is reached. */
  lemma VerifyIsApproval(c: Crypto, account: Account, payload: Text, entries: seq<Entry>)
    requires |Keys(account)| < U32_SIZE
    ensures Verify(c, account, payload, entries) == Approved(c, account, payload, entries)
  {
    EndorsersAreSigners(c, account, payload, entries);
    CountFits(c, account, payload, entries);
  }

  /** The keys of the account under which some entry holds a valid signature of the text. */
  ghost function Signatories(c: Crypto, account: Account, payload: Text, entries: seq<Entry>): set<Text>
  {
    set k | k in account.signers
            && exists i | 0 <= i < |entries| ::
                 entries[i].publicKey == k && c.validSig(k, payload, entries[i].signature)
  }

  /** Verification says whether so many different keys of the account signed, whoever else signed or signed twice. */
  lemma VerifiesExactly(c: Crypto, account: Account, payload: Text, entries: seq<Entry>)
    requires |Keys(account)| < U32_SIZE
    ensures Verify(c, account, payload, entries) <==> |Signatories(c, account, payload, entries)| >= account.threshold
  {
    VerifyIsApproval(c, account, payload, entries);
    forall k ensures k in Endorsers(c, account, payload, entries) <==> k in Signatories(c, account, payload, entries) {
      EndorsersAre(c, account, payload, entries, k);
    }
    assert Endorsers(c, account, payload, entries) == Signatories(c, account, payload, entries);
  }

  /** Some `n` different elements of a set. */
  lemma {:induction false} Choose(keys: set<Text>, n: nat) returns (list: seq<Text>)
    requires n <= |keys|
    ensures |list| == n && forall i | 0 <= i < n :: list[i] in keys
    ensures forall i, j | 0 <= i < j < n :: list[i] != list[j]
    decreases n
  {
    if n == 0 {
      list := [];
    } else {
      var k :| k in keys;
      var rest := Choose(keys - {k}, n - 1);
      list := rest + [k];
    }
  }

  function SignedOnce(keys: seq<Text>): (entries: seq<Entry>)
    ensures |entries| == |keys|
  {
    seq(|keys|, i requires 0 <= i < |keys| => Entry(keys[i], []))
  }

  lemma {:induction false} AllEndorse(account: Account, payload: Text, keys: seq<Text>)
    requires forall i | 0 <= i < |keys| :: keys[i] in account.signers
    requires forall i, j | 0 <= i < j < |keys| :: keys[i] != keys[j]
    ensures |Endorsers(Lenient(), account, payload, SignedOnce(keys))| == |keys|
  {
    if keys != [] {
      var n := |keys| - 1;
      AllEndorse(account, payload, keys[..n]);
      assert SignedOnce(keys)[..n] == SignedOnce(keys[..n]);
      EndorsersAre(Lenient(), account, payload, SignedOnce(keys[..n]), keys[n]);
    }
  }

  /** 2^32 different keys, each signed once, wrap the counter to zero: approved, yet refused. */
  lemma WrappedCounterRefuses(account: Account, payload: Text) returns (entries: seq<Entry>)
    requires |Keys(account)| >= U32_SIZE && account.threshold > 0
    ensures Approved(Lenient(), account, payload, entries) && !Verify(Lenient(), account, payload, entries)
  {
    var keys := Choose(Keys(account), U32_SIZE);
    AllEndorse(account, payload, keys);
    entries := SignedOnce(keys);
  }

  /** On this account verification always says whether the threshold is reached. */
  ghost predicate CountsRight(account: Account)
  {
    forall c, payload, entries :: Verify(c, account, payload, entries) == Approved(c, account, payload, entries)
  }

  /** It does so exactly for accounts with fewer than 2^32 different keys or a threshold of zero. */
  lemma VerifyExactly(account: Account)
    ensures CountsRight(account) <==> |Keys(account)| < U32_SIZE || account.threshold == 0
  {
    if |Keys(account)| < U32_SIZE {
      forall c, payload, entries
        ensures Verify(c, account, payload, entries) == Approved(c, account, payload, entries)
      {
        VerifyIsApproval(c, account, payload, entries);
      }
    } else if account.threshold > 0 {
      var entries := WrappedCounterRefuses(account, []);
    }
  }

  /** More entries, in any order, endorse at least as much. */
  lemma EndorsersGrow(c: Crypto, account: Account, payload: Text, a: seq<Entry>, b: seq<Entry>)
    requires forall e | e in a :: e in b
    ensures Endorsers(c, account, payload, a) <= Endorsers(c, account, payload, b)
  {
    forall k | k in Endorsers(c, account, payload, a) ensures k in Endorsers(c, account, payload, b) {
      EndorsersAre(c, account, payload, a, k);
      var i :| 0 <= i < |a| && a[i].publicKey == k && Endorses(c, account, payload, a[i]);
      assert a[i] in b;
      var j :| 0 <= j < |b| && b[j] == a[i];
      EndorsersAre(c, account, payload, b, k);
    }
  }

  /** Adding entries never turns acceptance into rejection. */
  lemma MoreEntriesStillVerify(c: Crypto, account: Account, payload: Text, a: seq<Entry>, b: seq<Entry>)
    requires |Keys(account)| < U32_SIZE && forall e | e in a :: e in b
    requires Verify(c, account, payload, a)
    ensures Verify(c, account, payload, b)
  {
    EndorsersGrow(c, account, payload, a, b);
    Included(Endorsers(c, account, payload, a), Endorsers(c, account, payload, b));
    VerifyIsApproval(c, account, payload, a);
    VerifyIsApproval(c, account, payload, b);
  }

  /** The order of the entries does not matter. */
  lemma OrderIrrelevant(c: Crypto, account: Account, payload: Text, a: seq<Entry>, b: seq<Entry>)
    requires multiset(a) == multiset(b)
    ensures Verify(c, account, payload, a) == Verify(c, account, payload, b)
  {
    assert |a| == |multiset(a)| == |b|;
    forall e ensures e in a <==> e in b {
      assert e in multiset(a) <==> e in a;
      assert e in multiset(b) <==> e in b;
    }
    EndorsersGrow(c, account, payload, a, b);
    EndorsersGrow(c, account, payload, b, a);
    assert Endorsers(c, account, payload, a) == Endorsers(c, account, payload, b);
  }

  // ---------- payloads and addresses ----------

  /** `mermai_multisig_tx::signing_payload`. */
  function SigningPayload(tx: Transaction, address: Text): Text
  {
    EncTx(tx) + [COLON] + address
  }

  /** What is signed determines the transaction and the account it is for. */
  lemma PayloadBinds(tx: Transaction, address: Text, tx': Transaction, address': Text)
    requires FitsTx(WIDEST, tx) && FitsTx(WIDEST, tx') && SigningPayload(tx, address) == SigningPayload(tx', address')
    ensures tx == tx' && address == address'
  {
    Join2(EncTx(tx), [COLON], address);
    Join2(EncTx(tx'), [COLON], address');
    TxSelfDelimiting(tx, [COLON] + address, tx', [COLON] + address');
    assert ([COLON] + address)[1..] == address && ([COLON] + address')[1..] == address';
  }

  function KeyList(keys: seq<Text>): Text
  {
    if keys == [] then [] else Hex(keys[0]) + [COMMA] + KeyList(keys[1..])
  }

  /** What the address of an account is a hash of. */
  function AddressPayload(account: Account): Text
  {
    Decimal(account.threshold) + [COLON] + KeyList(account.signers)
  }

  lemma NoComma(key: Text)
    ensures COMMA !in Hex(key)
  {
    HexDigitsOnly(key);
  }

  lemma {:induction false} KeyListInjective(a: seq<Text>, b: seq<Text>)
    requires KeyList(a) == KeyList(b)
    ensures a == b
  {
    if a != [] && b != [] {
      NoComma(a[0]);
      NoComma(b[0]);
      SplitAt(COMMA, Hex(a[0]), KeyList(a[1..]), Hex(b[0]), KeyList(b[1..]));
      HexInjective(a[0], b[0]);
      KeyListInjective(a[1..], b[1..]);
      assert a == [a[0]] + a[1..] && b == [b[0]] + b[1..];
    }
  }

  lemma AddressPayloadInjective(a: Account, b: Account)
    requires AddressPayload(a) == AddressPayload(b)
    ensures a == b
  {
    SplitAt(COLON, Decimal(a.threshold), KeyList(a.signers), Decimal(b.threshold), KeyList(b.signers));
    DecimalInjective(a.threshold, b.threshold);
    KeyListInjective(a.signers, b.signers);
  }

  const MULTISIG_PREFIX: Text := [109, 114, 109, 95, 109, 115, 49]  // "mrm_ms1"

  function AddressOf(sha: Text -> Digest, account: Account): Text
  {
    MULTISIG_PREFIX + Hex(sha(AddressPayload(account))[..20])
  }

  /** An address stands for one threshold and key list, or two different payloads agree in the first 20 digest bytes. */
  lemma AddressCommits(sha: Text -> Digest, a: Account, b: Account)
    requires AddressOf(sha, a) == AddressOf(sha, b)
    ensures a == b || (AddressPayload(a) != AddressPayload(b)
                       && sha(AddressPayload(a))[..20] == sha(AddressPayload(b))[..20])
  {
    var n := |MULTISIG_PREFIX|;
    assert AddressOf(sha, a)[n..] == Hex(sha(AddressPayload(a))[..20]);
    assert AddressOf(sha, b)[n..] == Hex(sha(AddressPayload(b))[..20]);
    HexInjective(sha(AddressPayload(a))[..20], sha(AddressPayload(b))[..20]);
    if AddressPayload(a) == AddressPayload(b) {
      AddressPayloadInjective(a, b);
    }
  }

  // ---------- the account that a transaction names ----------

  /** Whatever verifies for this account names its address. */
  ghost predicate ChecksAddress(account: Account)
  {
    forall c, tx, address, entries |
      Verify(c, account, SigningPayload(tx, address), entries) :: address == AddressOf(c.sha, account)
  }

  lemma NothingVerifies(c: Crypto, account: Account, payload: Text, entries: seq<Entry>)
    requires |Keys(account)| < account.threshold
    ensures !Verify(c, account, payload, entries)
  {
    VerifyIsApproval(c, account, payload, entries);
    EndorsersAreSigners(c, account, payload, entries);
  }

  /**
   The address is signed but not compared with the account: only an account that can approve nothing, its
   different keys being fewer than its threshold, is safe from transactions that name another address.
   */
  lemma ChecksAddressExactly(account: Account)
    ensures ChecksAddress(account) <==> |Keys(account)| < account.threshold
  {
    if |Keys(account)| < account.threshold {
      forall c, tx, address, entries ensures !Verify(c, account, SigningPayload(tx, address), entries) {
        NothingVerifies(c, account, SigningPayload(tx, address), entries);
      }
    } else {
      var tx := Transaction([], [], [], 0, 0);
      var keys := Choose(Keys(account), account.threshold);
      AllEndorse(account, SigningPayload(tx, []), keys);
      CountFits(Lenient(), account, SigningPayload(tx, []), SignedOnce(keys));
    }
  }

  lemma {:induction false} SameEndorsers(c: Crypto, a: Account, b: Account, payload: Text, entries: seq<Entry>)
    requires a.signers == b.signers
    ensures Endorsers(c, a, payload, entries) == Endorsers(c, b, payload, entries)
  {
    if entries != [] {
      SameEndorsers(c, a, b, payload, entries[..|entries| - 1]);
    }
  }

  /** In particular, what was signed for one account verifies for another with its keys and no higher threshold. */
  lemma ForeignVerifies(c: Crypto, a: Account, b: Account, tx: Transaction, entries: seq<Entry>)
    requires a.signers == b.signers && b.threshold <= a.threshold
    requires Verify(c, a, SigningPayload(tx, AddressOf(c.sha, a)), entries)
    ensures Verify(c, b, SigningPayload(tx, AddressOf(c.sha, a)), entries)
  {
    SameEndorsers(c, a, b, SigningPayload(tx, AddressOf(c.sha, a)), entries);
  }

  /**
   A caller that compares the address with the account first is safe: one signed payload is then accepted for
   one transaction of one account, unless two address payloads agree in the first 20 digest bytes.
   */
  lemma ComparedBinds(sha: Text -> Digest, a: Account, tx: Transaction, x: Text,
                      b: Account, tx': Transaction, y: Text)
    requires FitsTx(WIDEST, tx) && FitsTx(WIDEST, tx') && SigningPayload(tx, x) == SigningPayload(tx', y)
    requires x == AddressOf(sha, a) && y == AddressOf(sha, b)
    ensures tx == tx'
    ensures a == b || (AddressPayload(a) != AddressPayload(b)
                       && sha(AddressPayload(a))[..20] == sha(AddressPayload(b))[..20])
  {
    PayloadBinds(tx, x, tx', y);
    AddressCommits(sha, a, b);
  }

  lemma KeyListNext(keys: seq<Text>, i: nat, before: Text)
    requires i < |keys|
    ensures before + KeyList(keys[i..]) == before + Hex(keys[i]) + [COMMA] + KeyList(keys[i + 1..])
  {
    var rest := keys[i..];
    assert rest[0] == keys[i] && rest[1..] == keys[i + 1..];
    var tail := KeyList(rest[1..]);
    assert before + (Hex(keys[i]) + [COMMA] + tail) == before + Hex(keys[i]) + [COMMA] + tail;
  }

  method CalculateAddress(sha: Text -> Digest, account: Account) returns (address: Text)
    ensures address == AddressOf(sha, account)
  {
    var payload := Decimal(account.threshold) + [COLON];
    var keys := account.signers;
    for i := 0 to |keys|
      invariant payload + KeyList(keys[i..]) == AddressPayload(account)
    {
      KeyListNext(keys, i, payload);
      payload := payload + Hex(keys[i]) + [COMMA];
    }
    assert payload + KeyList([]) == payload;
    address := MULTISIG_PREFIX + Hex(sha(payload)[..20]);
  }

  // ---------- the engine ----------

  method IsMember(signers: seq<Text>, key: Text) returns (member: bool)
    ensures member == (key in signers)
  {
    for i := 0 to |signers|
      invariant key !in signers[..i]
    {
      if signers[i] == key { return true; }
    }
    assert signers[..|signers|] == signers;
    member := false;
  }

  function HexAll(keys: set<Text>): set<Text>
  {
    set k | k in keys :: Hex(k)
  }

  /** Telling keys apart by their hexadecimal texts loses nothing. */
  lemma HexMember(keys: set<Text>, key: Text)
    ensures Hex(key) in HexAll(keys) <==> key in keys
    ensures HexAll(keys + {key}) == HexAll(keys) + {Hex(key)}
  {
    if Hex(key) in HexAll(keys) {
      var k :| k in keys && Hex(k) == Hex(key);
      HexInjective(k, key);
    }
  }

  ghost predicate Counts(count: u32, keys: set<Text>)
  {
    count == |keys| % U32_SIZE
  }

  method OneMore(count: u32, ghost keys: set<Text>, ghost key: Text) returns (next: u32)
    requires key !in keys && Counts(count, keys)
    ensures Counts(next, keys + {key})
  {
    assert |keys + {key}| == |keys| + 1;
    next := (count + 1) % U32_SIZE;
  }

  /** The loop over the entries: each different member key with a valid signature counts once. */
  method CountEndorsers(c: Crypto, account: Account, payload: Text, entries: seq<Entry>) returns (count: u32)
    ensures count == |Endorsers(c, account, payload, entries)| % U32_SIZE
  {
    var seen: set<Text> := {};
    ghost var keys: set<Text> := {};
    count := 0;
    for i := 0 to |entries|
      invariant keys == Endorsers(c, account, payload, entries[..i])
      invariant seen == HexAll(keys) && Counts(count, keys)
    {
      var e := entries[i];
      EndorsersNext(c, account, payload, entries, i);
      HexMember(keys, e.publicKey);
      var member := IsMember(account.signers, e.publicKey);
      if member && Hex(e.publicKey) !in seen && c.validSig(e.publicKey, payload, e.signature) {
        count := OneMore(count, keys, e.publicKey);
        keys, seen := keys + {e.publicKey}, seen + {Hex(e.publicKey)};
      }
    }
    assert entries[..|entries|] == entries;
  }

  method VerifyMultisig(c: Crypto, account: Account, tx: Transaction, address: Text, entries: seq<Entry>)
    returns (ok: bool)
    ensures ok == Verify(c, account, SigningPayload(tx, address), entries)
  {
    if |entries| < account.threshold { return false; }
    var count := CountEndorsers(c, account, SigningPayload(tx, address), entries);
    ok := count >= account.threshold;
  }

  /** `add_signature`: one entry for each key. */
  method AddSignature(entries: seq<Entry>, publicKey: Text, signature: Text) returns (ok: bool, r: seq<Entry>)
    ensures ok <==> forall i | 0 <= i < |entries| :: entries[i].publicKey != publicKey
    ensures r == if ok then entries + [Entry(publicKey, signature)] else entries
  {
    for i := 0 to |entries|
      invariant forall k | 0 <= k < i :: entries[k].publicKey != publicKey
    {
      if entries[i].publicKey == publicKey { return false, entries; }
    }
    return true, entries + [Entry(publicKey, signature)];
  }
}
