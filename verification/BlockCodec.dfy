/** Encoding of blocks and votes (src/core/mermai_blockchain.cpp); a block embeds each transaction as a string. */
module BlockCodec {
  import opened Bytes
  import opened Types
  import opened Codec

  // ---------- transactions inside a block ----------

  function EncItem(tx: Transaction): Text
  {
    EncBlob(EncTx(tx))
  }

  ghost predicate FitsItem(l: Limits, tx: Transaction)
  {
    FitsTx(l, tx) && |EncTx(tx)| <= l.text
  }

  function GetItem(l: Limits, s: Text): Parsed<Transaction>
  {
    var (data, rest) :- GetBlob(l.text, BadStringSize, s);
    match DecodeTx(l, data)
    case Err(f) => Bad(f)
    case Ok(tx) => Got(tx, rest)
  }

  function ItemGetter(l: Limits): Text -> Parsed<Transaction> { s => GetItem(l, s) }
  ghost function ItemFits(l: Limits): Transaction -> bool { tx => FitsItem(l, tx) }

  lemma ItemsInverse(l: Limits)
    ensures Inverse(EncItem, ItemGetter(l), ItemFits(l))
  {
    forall x, rest | ItemFits(l)(x) ensures ItemGetter(l)(EncItem(x) + rest) == Got(x, rest) {
      GetBlobBack(l.text, BadStringSize, EncTx(x), rest);
      TxRoundTrip(l, x);
    }
    forall s | ItemGetter(l)(s).Got?
      ensures ItemFits(l)(ItemGetter(l)(s).value)
      ensures s == EncItem(ItemGetter(l)(s).value) + ItemGetter(l)(s).rest
    {
      TxCanonical(l, GetBlob(l.text, BadStringSize, s).value);
    }
  }

  function EncItems(txs: seq<Transaction>): Text
  {
    Encode(U32_BYTES, |txs|) + EncList(EncItem, txs)
  }

  function GetItems(l: Limits, s: Text): Parsed<seq<Transaction>>
  {
    var (n, s1) :- Get32(s);
    if n > l.transactions then Bad(TooManyTransactions) else GetList(ItemGetter(l), n, s1)
  }

  lemma GetItemsBack(l: Limits, txs: seq<Transaction>, rest: Text)
    requires |txs| <= l.transactions && AllOk(ItemFits(l), txs)
    ensures GetItems(l, EncItems(txs) + rest) == Got(txs, rest)
  {
    ItemsInverse(l);
    GetListBack(EncItem, ItemGetter(l), ItemFits(l), txs, rest);
    assert EncItems(txs) + rest == Encode(U32_BYTES, |txs|) + (EncList(EncItem, txs) + rest);
    Get32Back(|txs|, EncList(EncItem, txs) + rest);
  }

  lemma GetItemsSound(l: Limits, s: Text)
    ensures var p := GetItems(l, s);
            p.Got? ==> |p.value| <= l.transactions && AllOk(ItemFits(l), p.value) && s == EncItems(p.value) + p.rest
  {
    var p := GetItems(l, s);
    if p.Got? {
      var q := Get32(s);
      ItemsInverse(l);
      GetListSound(EncItem, ItemGetter(l), ItemFits(l), q.value, q.rest);
      Join2(Encode(U32_BYTES, q.value), EncList(EncItem, p.value), p.rest);
    }
  }

  // ---------- blocks ----------

  /** The fields before the proof-of-stake fields, in wire order. */
  datatype Preamble = Preamble(version: u32, height: u32, prevHash: Text, root: Text, timestamp: u64, nonce: u32)

  /** The proof-of-stake fields, in wire order. */
  datatype Seal = Seal(address: Text, stake: u64, age: u64, publicKey: Text, signature: Text)

  function PreambleOf(b: Block): Preamble
  {
    Preamble(b.version, b.height, b.prevBlockHash, b.merkleRoot, b.timestamp, b.nonce)
  }

  function SealOf(b: Block): Seal
  {
    Seal(b.validatorAddress, b.validatorStake, b.validatorAge, b.validatorPublicKey, b.validatorSignature)
  }

  function BlockOf(p: Preamble, q: Seal, txs: seq<Transaction>): Block
  {
    Block(p.version, p.height, p.prevHash, p.root, p.timestamp, p.nonce,
          q.address, q.stake, q.age, q.publicKey, q.signature, txs)
  }

  function EncPreamble(p: Preamble): Text
  {
    Encode(U32_BYTES, p.version) + Encode(U32_BYTES, p.height) + EncBlob(p.prevHash)
      + EncBlob(p.root) + (Encode(U64_BYTES, p.timestamp) + Encode(U32_BYTES, p.nonce))
  }

  function EncSeal(q: Seal): Text
  {
    EncBlob(q.address) + Encode(U64_BYTES, q.stake) + Encode(U64_BYTES, q.age)
      + EncBlob(q.publicKey) + EncBlob(q.signature)
  }

  function EncBlock(b: Block): Text
  {
    EncPreamble(PreambleOf(b)) + EncSeal(SealOf(b)) + EncItems(b.transactions)
  }

  ghost predicate FitsBlock(l: Limits, b: Block)
  {
    && |b.prevBlockHash| <= l.text && |b.merkleRoot| <= l.text && |b.validatorAddress| <= l.text
    && |b.validatorPublicKey| <= l.bytes && |b.validatorSignature| <= l.bytes
    && |b.transactions| <= l.transactions && AllOk(ItemFits(l), b.transactions)
  }

  function GetPreamble(l: Limits, s: Text): Parsed<Preamble>
  {
    var (version, s1) :- Get32(s);
    var (height, s2) :- Get32(s1);
    var (prev, s3) :- GetBlob(l.text, BadStringSize, s2);
    var (root, s4) :- GetBlob(l.text, BadStringSize, s3);
    var (timestamp, s5) :- Get64(s4);
    var (nonce, s6) :- Get32(s5);
    Got(Preamble(version, height, prev, root, timestamp, nonce), s6)
  }

  function GetSeal(l: Limits, s: Text): Parsed<Seal>
  {
    var (address, s1) :- GetBlob(l.text, BadStringSize, s);
    var (stake, s2) :- Get64(s1);
    var (age, s3) :- Get64(s2);
    var (key, s4) :- GetBlob(l.bytes, BadBytesSize, s3);
    var (signature, s5) :- GetBlob(l.bytes, BadBytesSize, s4);
    Got(Seal(address, stake, age, key, signature), s5)
  }

  function GetBlock(l: Limits, s: Text): Parsed<Block>
  {
    var (p, s1) :- GetPreamble(l, s);
    var (q, s2) :- GetSeal(l, s1);
    var (txs, s3) :- GetItems(l, s2);
    Got(BlockOf(p, q, txs), s3)
  }

  function DecodeBlock(l: Limits, data: Text): Result<Block>
  {
    match GetBlock(l, data)
    case Bad(f) => Err(f)
    case Got(b, rest) => if rest == [] then Ok(b) else Err(TrailingData)
  }

  lemma GetPreambleBack(l: Limits, p: Preamble, rest: Text)
    requires |p.prevHash| <= l.text && |p.root| <= l.text
    ensures GetPreamble(l, EncPreamble(p) + rest) == Got(p, rest)
  {
    var s5 := Encode(U32_BYTES, p.nonce) + rest;
    var s4 := Encode(U64_BYTES, p.timestamp) + s5;
    var s3 := EncBlob(p.root) + s4;
    var s2 := EncBlob(p.prevHash) + s3;
    var s1 := Encode(U32_BYTES, p.height) + s2;
    Join2(Encode(U64_BYTES, p.timestamp), Encode(U32_BYTES, p.nonce), rest);
    Join5(Encode(U32_BYTES, p.version), Encode(U32_BYTES, p.height), EncBlob(p.prevHash), EncBlob(p.root),
          Encode(U64_BYTES, p.timestamp) + Encode(U32_BYTES, p.nonce), rest);
    assert EncPreamble(p) + rest == Encode(U32_BYTES, p.version) + s1;
    Get32Back(p.version, s1);
    Get32Back(p.height, s2);
    GetBlobBack(l.text, BadStringSize, p.prevHash, s3);
    GetBlobBack(l.text, BadStringSize, p.root, s4);
    Get64Back(p.timestamp, s5);
    Get32Back(p.nonce, rest);
  }

  lemma GetPreambleSound(l: Limits, s: Text)
    ensures var g := GetPreamble(l, s);
            g.Got? ==> |g.value.prevHash| <= l.text && |g.value.root| <= l.text && s == EncPreamble(g.value) + g.rest
  {
    var g := GetPreamble(l, s);
    if g.Got? {
      var p := g.value;
      Join2(Encode(U64_BYTES, p.timestamp), Encode(U32_BYTES, p.nonce), g.rest);
      Join5(Encode(U32_BYTES, p.version), Encode(U32_BYTES, p.height), EncBlob(p.prevHash), EncBlob(p.root),
            Encode(U64_BYTES, p.timestamp) + Encode(U32_BYTES, p.nonce), g.rest);
    }
  }

  lemma GetSealBack(l: Limits, q: Seal, rest: Text)
    requires |q.address| <= l.text && |q.publicKey| <= l.bytes && |q.signature| <= l.bytes
    ensures GetSeal(l, EncSeal(q) + rest) == Got(q, rest)
  {
    var s4 := EncBlob(q.signature) + rest;
    var s3 := EncBlob(q.publicKey) + s4;
    var s2 := Encode(U64_BYTES, q.age) + s3;
    var s1 := Encode(U64_BYTES, q.stake) + s2;
    Join5(EncBlob(q.address), Encode(U64_BYTES, q.stake), Encode(U64_BYTES, q.age),
          EncBlob(q.publicKey), EncBlob(q.signature), rest);
    assert EncSeal(q) + rest == EncBlob(q.address) + s1;
    GetBlobBack(l.text, BadStringSize, q.address, s1);
    Get64Back(q.stake, s2);
    Get64Back(q.age, s3);
    GetBlobBack(l.bytes, BadBytesSize, q.publicKey, s4);
    GetBlobBack(l.bytes, BadBytesSize, q.signature, rest);
  }

  lemma GetSealSound(l: Limits, s: Text)
    ensures var g := GetSeal(l, s);
            g.Got? ==> |g.value.address| <= l.text && |g.value.publicKey| <= l.bytes
                       && |g.value.signature| <= l.bytes && s == EncSeal(g.value) + g.rest
  {
    var g := GetSeal(l, s);
    if g.Got? {
      var q := g.value;
      var s3 := Get64(Get64(GetBlob(l.text, BadStringSize, s).rest).rest).rest;
      assert s == EncBlob(q.address) + (Encode(U64_BYTES, q.stake) + (Encode(U64_BYTES, q.age) + s3));
      assert s3 == EncBlob(q.publicKey) + (EncBlob(q.signature) + g.rest);
      Join5(EncBlob(q.address), Encode(U64_BYTES, q.stake), Encode(U64_BYTES, q.age),
            EncBlob(q.publicKey), EncBlob(q.signature), g.rest);
    }
  }

  lemma GetBlockBack(l: Limits, b: Block, rest: Text)
    requires FitsBlock(l, b)
    ensures GetBlock(l, EncBlock(b) + rest) == Got(b, rest)
  {
    var s2 := EncItems(b.transactions) + rest;
    var s1 := EncSeal(SealOf(b)) + s2;
    Join3(EncPreamble(PreambleOf(b)), EncSeal(SealOf(b)), EncItems(b.transactions), rest);
    GetPreambleBack(l, PreambleOf(b), s1);
    GetSealBack(l, SealOf(b), s2);
    GetItemsBack(l, b.transactions, rest);
  }

  lemma GetBlockSound(l: Limits, s: Text)
    ensures var g := GetBlock(l, s);
            g.Got? ==> FitsBlock(l, g.value) && s == EncBlock(g.value) + g.rest
  {
    var g := GetBlock(l, s);
    if g.Got? {
      var b := g.value;
      GetPreambleSound(l, s);
      var s1 := GetPreamble(l, s).rest;
      GetSealSound(l, s1);
      GetItemsSound(l, GetSeal(l, s1).rest);
      Join2(EncPreamble(PreambleOf(b)), EncSeal(SealOf(b)), EncItems(b.transactions) + g.rest);
      Join2(EncPreamble(PreambleOf(b)) + EncSeal(SealOf(b)), EncItems(b.transactions), g.rest);
    }
  }

  /** Decoding undoes encoding for every block within the limits, the string limit of embedded transactions included. */
  lemma BlockRoundTrip(l: Limits, b: Block)
    requires FitsBlock(l, b)
    ensures DecodeBlock(l, EncBlock(b)) == Ok(b)
  {
    GetBlockBack(l, b, []);
    assert EncBlock(b) + [] == EncBlock(b);
  }

  /** Encoding undoes decoding for every text the decoder accepts. */
  lemma BlockCanonical(l: Limits, data: Text)
    ensures DecodeBlock(l, data).Ok? ==>
              FitsBlock(l, DecodeBlock(l, data).value) && EncBlock(DecodeBlock(l, data).value) == data
  {
    GetBlockSound(l, data);
    if DecodeBlock(l, data).Ok? {
      var b := DecodeBlock(l, data).value;
      assert EncBlock(b) + [] == EncBlock(b);
    }
  }

  /** Blocks whose fields are shorter than 4 GiB are determined by their serialization. */
  lemma BlockInjective(a: Block, b: Block)
    requires FitsBlock(WIDEST, a) && FitsBlock(WIDEST, b) && EncBlock(a) == EncBlock(b)
    ensures a == b
  {
    BlockRoundTrip(WIDEST, a);
    BlockRoundTrip(WIDEST, b);
  }

  // ---------- votes ----------

  /** What a vote is about: everything but the key and the signature. */
  datatype Ballot = Ballot(address: Text, hash: Text, height: u32, timestamp: u64)

  function BallotOf(v: Vote): Ballot
  {
    Ballot(v.validatorAddress, v.blockHash, v.blockHeight, v.timestamp)
  }

  function EncBallot(b: Ballot): Text
  {
    EncBlob(b.address) + EncBlob(b.hash) + Encode(U32_BYTES, b.height) + Encode(U64_BYTES, b.timestamp)
  }

  function EncVote(v: Vote): Text
  {
    EncBallot(BallotOf(v)) + EncBlob(v.validatorPublicKey) + EncBlob(v.signature)
  }

  predicate FitsVote(l: Limits, v: Vote)
  {
    && |v.validatorAddress| <= l.text && |v.blockHash| <= l.text
    && |v.validatorPublicKey| <= l.bytes && |v.signature| <= l.bytes
  }

  function GetBallot(l: Limits, s: Text): Parsed<Ballot>
  {
    var (address, s1) :- GetBlob(l.text, BadStringSize, s);
    var (hash, s2) :- GetBlob(l.text, BadStringSize, s1);
    var (height, s3) :- Get32(s2);
    var (timestamp, s4) :- Get64(s3);
    Got(Ballot(address, hash, height, timestamp), s4)
  }

  function GetVote(l: Limits, s: Text): Parsed<Vote>
  {
    var (b, s1) :- GetBallot(l, s);
    var (key, s2) :- GetBlob(l.bytes, BadBytesSize, s1);
    var (signature, s3) :- GetBlob(l.bytes, BadBytesSize, s2);
    Got(Vote(b.address, b.hash, b.height, b.timestamp, key, signature), s3)
  }

  lemma GetBallotBack(l: Limits, b: Ballot, rest: Text)
    requires |b.address| <= l.text && |b.hash| <= l.text
    ensures GetBallot(l, EncBallot(b) + rest) == Got(b, rest)
  {
    var s3 := Encode(U64_BYTES, b.timestamp) + rest;
    var s2 := Encode(U32_BYTES, b.height) + s3;
    var s1 := EncBlob(b.hash) + s2;
    Join4(EncBlob(b.address), EncBlob(b.hash), Encode(U32_BYTES, b.height), Encode(U64_BYTES, b.timestamp), rest);
    assert EncBallot(b) + rest == EncBlob(b.address) + s1;
    GetBlobBack(l.text, BadStringSize, b.address, s1);
    GetBlobBack(l.text, BadStringSize, b.hash, s2);
    Get32Back(b.height, s3);
    Get64Back(b.timestamp, rest);
  }

  lemma GetBallotSound(l: Limits, s: Text)
    ensures var g := GetBallot(l, s);
            g.Got? ==> |g.value.address| <= l.text && |g.value.hash| <= l.text && s == EncBallot(g.value) + g.rest
  {
    var g := GetBallot(l, s);
    if g.Got? {
      var b := g.value;
      Join4(EncBlob(b.address), EncBlob(b.hash), Encode(U32_BYTES, b.height), Encode(U64_BYTES, b.timestamp), g.rest);
    }
  }

  lemma JoinVote(b: Text, k: Text, s: Text, rest: Text)
    ensures b + (k + (s + rest)) == (b + k + s) + rest
  {
  }

  /** Votes are decoded without a check for trailing data, so a rest may remain. */
  lemma VoteRoundTrip(l: Limits, v: Vote, rest: Text)
    requires FitsVote(l, v)
    ensures GetVote(l, EncVote(v) + rest) == Got(v, rest)
  {
    var s2 := EncBlob(v.signature) + rest;
    var s1 := EncBlob(v.validatorPublicKey) + s2;
    JoinVote(EncBallot(BallotOf(v)), EncBlob(v.validatorPublicKey), EncBlob(v.signature), rest);
    GetBallotBack(l, BallotOf(v), s1);
    GetBlobBack(l.bytes, BadBytesSize, v.validatorPublicKey, s2);
    GetBlobBack(l.bytes, BadBytesSize, v.signature, rest);
  }

  /** The re-encoding of a decoded vote is a prefix of what was decoded. */
  lemma VotePrefix(l: Limits, data: Text)
    ensures var g := GetVote(l, data);
            g.Got? ==> FitsVote(l, g.value) && data == EncVote(g.value) + g.rest
  {
    GetBallotSound(l, data);
    var g := GetVote(l, data);
    if g.Got? {
      var v := g.value;
      JoinVote(EncBallot(BallotOf(v)), EncBlob(v.validatorPublicKey), EncBlob(v.signature), g.rest);
    }
  }
}
