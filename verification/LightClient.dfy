/** The header store of src/core/mermai_light_client.cpp. */
module LightClient {
  import opened Bytes
  import opened Decimals
  import opened Types
  import opened BlockCodec
  import opened Consensus
  import opened BlockRoot
  import opened MerkleShape
  import opened Merkle

  datatype Header = Header(
    height: u32, hash: Text, prevBlockHash: Text, merkleRoot: Text, timestamp: u64,
    validatorAddress: Text, validatorPublicKey: Text, validatorSignature: Text)

  /** The text that `verify_signature` checks a header against. */
  function HeaderPayload(h: Header): Text
  {
    Decimal(h.height) + ([COLON] + h.prevBlockHash + [COLON] + h.merkleRoot + [COLON] + Decimal(h.timestamp)
                         + [COLON] + h.validatorAddress)
  }

  lemma PartsSplit(a: Text, b: Text, c: Text, d: Text, e: Text, a': Text, b': Text, c': Text, d': Text, e': Text)
    requires COLON !in a && COLON !in a' && COLON !in b && COLON !in b' && COLON !in c && COLON !in c'
    requires COLON !in d && COLON !in d'
    requires a + ([COLON] + b + [COLON] + c + [COLON] + d + [COLON] + e)
          == a' + ([COLON] + b' + [COLON] + c' + [COLON] + d' + [COLON] + e')
    ensures a == a' && b == b' && c == c' && d == d' && e == e'
  {
    var x, x' := d + [COLON] + e, d' + [COLON] + e';
    var y, y' := c + [COLON] + x, c' + [COLON] + x';
    var z, z' := b + [COLON] + y, b' + [COLON] + y';
    assert a + [COLON] + z == a + ([COLON] + b + [COLON] + c + [COLON] + d + [COLON] + e);
    assert a' + [COLON] + z' == a' + ([COLON] + b' + [COLON] + c' + [COLON] + d' + [COLON] + e');
    SplitAt(COLON, a, z, a', z');
    SplitAt(COLON, b, y, b', y');
    SplitAt(COLON, c, x, c', x');
    SplitAt(COLON, d, e, d', e');
  }

  /** With hashes free of colons, two headers share a text exactly if they agree in all but hash, key and signature. */
  lemma HeaderPayloadExactly(a: Header, b: Header)
    requires COLON !in a.prevBlockHash && COLON !in a.merkleRoot && COLON !in b.prevBlockHash && COLON !in b.merkleRoot
    ensures HeaderPayload(a) == HeaderPayload(b)
       <==> && a.height == b.height && a.prevBlockHash == b.prevBlockHash && a.merkleRoot == b.merkleRoot
            && a.timestamp == b.timestamp && a.validatorAddress == b.validatorAddress
  {
    if HeaderPayload(a) == HeaderPayload(b) {
      DecimalDigits(a.height);
      DecimalDigits(b.height);
      DecimalDigits(a.timestamp);
      DecimalDigits(b.timestamp);
      PartsSplit(Decimal(a.height), a.prevBlockHash, a.merkleRoot, Decimal(a.timestamp), a.validatorAddress,
                 Decimal(b.height), b.prevBlockHash, b.merkleRoot, Decimal(b.timestamp), b.validatorAddress);
      DecimalInjective(a.height, b.height);
      DecimalInjective(a.timestamp, b.timestamp);
    }
  }

  /** A header without key or signature passes. */
  predicate SignatureOk(crypto: Crypto, h: Header)
  {
    h.validatorPublicKey == [] || h.validatorSignature == []
    || crypto.validSig(h.validatorPublicKey, HeaderPayload(h), h.validatorSignature)
  }

  /** The header that a light client takes from a block. */
  function HeaderOf(crypto: Crypto, b: Block): Header
  {
    Header(b.height, BlockHash(crypto, b), b.prevBlockHash, b.merkleRoot, b.timestamp,
           b.validatorAddress, b.validatorPublicKey, b.validatorSignature)
  }

  // ---------- headers from blocks ----------

  /** The text that the seal of a block covers. */
  function SealPayload(b: Block): Text
  {
    EncBlock(b.(validatorSignature := []))
  }

  lemma SealBegins(b: Block)
    ensures SealPayload(b) != [] && SealPayload(b)[0] == b.version / 0x100_0000
  {
    var unsigned := b.(validatorSignature := []);
    var p := EncPreamble(PreambleOf(unsigned));
    assert EncBlock(unsigned)[..|p|] == p;
    EncodeIndex(U32_BYTES, b.version, 0);
    assert p[0] == Encode(U32_BYTES, b.version)[0];
  }

  /** A serialized block begins with the version, the text of a header with a digit. */
  lemma TextsDiffer(crypto: Crypto, b: Block)
    requires !(48 <= b.version / 0x100_0000 <= 57)
    ensures SealPayload(b) != HeaderPayload(HeaderOf(crypto, b))
  {
    SealBegins(b);
  }

  /** One signature under one key is valid for two different texts. */
  predicate SignsTwice(crypto: Crypto, key: Text, signature: Text, x: Text, y: Text)
  {
    x != y && crypto.validSig(key, x, signature) && crypto.validSig(key, y, signature)
  }

  /** So the header of a sealed block passes exactly if the seal is at the same time a signature of another text. */
  lemma SealedHeaderExactly(crypto: Crypto, b: Block)
    requires SealValid(crypto, b) && !(48 <= b.version / 0x100_0000 <= 57)
    ensures SignatureOk(crypto, HeaderOf(crypto, b))
       <==> SignsTwice(crypto, b.validatorPublicKey, b.validatorSignature,
                       SealPayload(b), HeaderPayload(HeaderOf(crypto, b)))
  {
    TextsDiffer(crypto, b);
  }

  /** Everything hashed for the root of a block and for the root that proofs are checked against. */
  ghost function RootInputs(sha: Text -> Digest, leaves: seq<Text>): set<Text>
    requires leaves != []
  {
    Concatenations(TreePairs(Joining(sha), leaves)) + PairInputs(TreePairs(Pairing(sha), leaves))
  }

  /**
   A block carries the root over the texts of its transaction hashes, proofs climb over their bytes: the
   generated proof of a transaction leads to the root of its block if there is no other transaction, and
   else only where hashed inputs collide.
   */
  lemma BlockProofExactly(sha: Text -> Digest, txs: seq<Transaction>, i: nat)
    requires i < |txs|
    ensures var leaves := Leaves(sha, txs);
            var accepted := Climb(Pairing(sha), leaves[i], Path(Pairing(sha), leaves, i)) == TreeHash(sha, txs);
            if |txs| == 1 then accepted else accepted ==> CollisionIn(sha, RootInputs(sha, leaves))
  {
    var leaves := Leaves(sha, txs);
    LeavesAreDigests(sha, txs);
    PathLeadsToRoot(Pairing(sha), leaves, i);
    RootsDiffer(sha, leaves);
  }

  // ---------- heights and the index ----------

  /** Heights run upwards by one, wrapping at 2^32 as the source's addition does. */
  ghost predicate Consecutive(headers: seq<Header>)
  {
    forall i | 0 < i < |headers| :: headers[i].height == (headers[i - 1].height + 1) % U32_SIZE
  }

  /** Header `i` is the last one of height `k`. */
  ghost predicate Latest(headers: seq<Header>, i: nat, k: u32)
  {
    i < |headers| && headers[i].height == k && forall j | i < j < |headers| :: headers[j].height != k
  }

  /** The index holds, for each height met, the last header that had it. */
  ghost predicate Indexed(headers: seq<Header>, byHeight: map<u32, Header>)
  {
    && (forall i | 0 <= i < |headers| :: headers[i].height in byHeight)
    && (forall k | k in byHeight :: exists i | 0 <= i < |headers| :: Latest(headers, i, k) && byHeight[k] == headers[i])
  }

  lemma {:induction false} HeightAt(headers: seq<Header>, i: nat)
    requires Consecutive(headers) && i < |headers|
    ensures headers[i].height == (headers[0].height + i) % U32_SIZE
  {
    if i > 0 {
      HeightAt(headers, i - 1);
    }
  }

  lemma SameRemainder(a: nat, i: nat, j: nat, m: nat)
    requires i < m && j < m && (a + i) % m == (a + j) % m
    ensures i == j
  {
    var k := (a + i) / m - (a + j) / m;
    assert i - j == m * k by {
      assert a + i == m * ((a + i) / m) + (a + i) % m;
      assert a + j == m * ((a + j) / m) + (a + j) % m;
      assert m * k == m * ((a + i) / m) - m * ((a + j) / m);
    }
    MultipleGrows(m, k);
  }

  lemma HeightsDiffer(headers: seq<Header>, i: nat, j: nat)
    requires Consecutive(headers) && i < |headers| <= U32_SIZE && j < |headers|
    requires headers[i].height == headers[j].height
    ensures i == j
  {
    HeightAt(headers, i);
    HeightAt(headers, j);
    SameRemainder(headers[0].height, i, j, U32_SIZE);
  }

  /** Up to 2^32 headers the index is exact: every header is found under its height. */
  lemma IndexExact(headers: seq<Header>, byHeight: map<u32, Header>, i: nat)
    requires Consecutive(headers) && Indexed(headers, byHeight)
    requires i < |headers| <= U32_SIZE
    ensures headers[i].height in byHeight && byHeight[headers[i].height] == headers[i]
  {
    var k := headers[i].height;
    var j :| 0 <= j < |headers| && Latest(headers, j, k) && byHeight[k] == headers[j];
    HeightsDiffer(headers, i, j);
  }

  class Client {
    const crypto: Crypto
    var headers: seq<Header>
    var headersByHeight: map<u32, Header>
    var headersByHash: map<Text, Header>

    ghost predicate Valid()
      reads this
    {
      Consecutive(headers) && Indexed(headers, headersByHeight)
    }

    constructor (crypto: Crypto)
      ensures Valid() && headers == [] && headersByHeight == map[] && headersByHash == map[]
      ensures this.crypto == crypto
    {
      this.crypto := crypto;
      headers, headersByHeight, headersByHash := [], map[], map[];
    }

    /** Appends a header that extends the tip; the first may have any height. */
    method SyncHeader(header: Header) returns (ok: bool)
      requires Valid()
      modifies this
      ensures Valid()
      ensures ok <==> Extends(old(headers), header) && SignatureOk(crypto, header)
      ensures headers == if ok then old(headers) + [header] else old(headers)
      ensures headersByHeight == if ok then old(headersByHeight)[header.height := header] else old(headersByHeight)
      ensures headersByHash == if ok && header.hash != [] then old(headersByHash)[header.hash := header]
                               else old(headersByHash)
    {
      if headers != [] {
        var tip := headers[|headers| - 1];
        if header.height != (tip.height + 1) % U32_SIZE { return false; }
      }
      if !SignatureOk(crypto, header) { return false; }
      HeightsGrow(headers, header);
      IndexGrows(headers, headersByHeight, header);
      headers := headers + [header];
      headersByHeight := headersByHeight[header.height := header];
      if header.hash != [] {
        headersByHash := headersByHash[header.hash := header];
      }
      ok := true;
    }

    /** `sync_header_from_block`. */
    method SyncHeaderFromBlock(b: Block) returns (ok: bool)
      requires Valid()
      modifies this
      ensures Valid()
      ensures ok <==> Extends(old(headers), HeaderOf(crypto, b)) && SignatureOk(crypto, HeaderOf(crypto, b))
      ensures headers == if ok then old(headers) + [HeaderOf(crypto, b)] else old(headers)
    {
      ok := SyncHeader(HeaderOf(crypto, b));
    }

    method VerifyTransactionInclusion(blockHeight: u32, txHash: Text, proof: Proof) returns (ok: bool)
      requires Valid()
      ensures ok == (blockHeight in headersByHeight &&
                     Climb(Pairing(crypto.sha), txHash, proof.steps) == headersByHeight[blockHeight].merkleRoot)
    {
      if blockHeight !in headersByHeight { return false; }
      ok := VerifyProof(crypto.sha, headersByHeight[blockHeight].merkleRoot, txHash, proof);
    }

    /**
     Completeness end to end: the generated proof of any leaf is accepted for any synced header
     that carries the root of the tree.
     */
    method ProvesInclusion(i: nat, leaves: seq<Text>, leaf: nat) returns (ok: bool)
      requires Valid() && i < |headers| <= U32_SIZE && leaf < |leaves|
      requires headers[i].merkleRoot == Root(Pairing(crypto.sha), leaves)
      ensures ok
    {
      var tree := new Tree(crypto.sha, leaves);
      var proof := tree.GenerateProof(leaf);
      IndexExact(headers, headersByHeight, i);
      PathLeadsToRoot(Pairing(crypto.sha), leaves, leaf);
      ok := VerifyTransactionInclusion(headers[i].height, leaves[leaf], proof);
    }

    /**
     The same for a header taken from a block that carries the root of its transactions: the generated
     proof is accepted where the block has one transaction, and refused where it has more.
     */
    method ProvesBlockTransaction(n: nat, b: Block, i: nat) returns (ok: bool)
      requires Valid() && n < |headers| <= U32_SIZE && headers[n] == HeaderOf(crypto, b)
      requires i < |b.transactions| && b.merkleRoot == TreeHash(crypto.sha, b.transactions)
      ensures if |b.transactions| == 1 then ok
              else ok ==> CollisionIn(crypto.sha, RootInputs(crypto.sha, Leaves(crypto.sha, b.transactions)))
    {
      var leaves := Leaves(crypto.sha, b.transactions);
      var tree := new Tree(crypto.sha, leaves);
      var proof := tree.GenerateProof(i);
      IndexExact(headers, headersByHeight, n);
      BlockProofExactly(crypto.sha, b.transactions, i);
      ok := VerifyTransactionInclusion(b.height, leaves[i], proof);
    }
  }

  predicate Extends(headers: seq<Header>, h: Header)
  {
    headers != [] ==> h.height == (headers[|headers| - 1].height + 1) % U32_SIZE
  }

  lemma HeightsGrow(headers: seq<Header>, h: Header)
    requires Consecutive(headers) && Extends(headers, h)
    ensures Consecutive(headers + [h])
  {
  }

  lemma IndexGrows(headers: seq<Header>, byHeight: map<u32, Header>, h: Header)
    requires Indexed(headers, byHeight)
    ensures Indexed(headers + [h], byHeight[h.height := h])
  {
    var all, index := headers + [h], byHeight[h.height := h];
    forall k | k in index
      ensures exists i | 0 <= i < |all| :: Latest(all, i, k) && index[k] == all[i]
    {
      if k == h.height {
        assert Latest(all, |headers|, k) && index[k] == all[|headers|];
      } else {
        var i :| 0 <= i < |headers| && Latest(headers, i, k) && byHeight[k] == headers[i];
        assert Latest(all, i, k) && index[k] == all[i];
      }
    }
  }
}
