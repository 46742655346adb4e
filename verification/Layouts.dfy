/**
 The wire formats of src/core/mermai_blockchain.cpp and src/network/mermai_network.cpp as tables of fields, the way
 another implementation would read them: what stands in a message, in which order, and which way round a number is.
 */
module Layouts {
  import opened Bytes
  import opened Types
  import opened Codec
  import opened BlockCodec
  import opened Network

  datatype Field = Number(width: nat, value: nat) | Sized(text: Text) | Single(code: byte)

  /** Byte `k` of a number of `width` bytes counts in units of 256 to the power of the bytes that follow it. */
  function Digit(width: nat, value: nat, k: nat): byte
    requires k < width
  {
    value / Pow256(width - 1 - k) % 256
  }

  function Digits(width: nat, value: nat): (s: Text)
    ensures |s| == width
  {
    seq(width, k requires 0 <= k < width => Digit(width, value, k))
  }

  /** A text is preceded by its length in four bytes. */
  function Put(f: Field): Text
  {
    match f
    case Number(width, value) => Digits(width, value)
    case Sized(text) => Digits(4, |text|) + text
    case Single(code) => [code]
  }

  /** The fields one after the other. */
  function Laid(fields: seq<Field>): Text
  {
    if fields == [] then [] else Put(fields[0]) + Laid(fields[1..])
  }

  function InputFields(i: TxInput): seq<Field>
  {
    [Sized(i.prevTxHash), Number(4, i.prevOutputIdx), Sized(i.signature), Sized(i.publicKey)]
  }

  function OutputFields(o: TxOutput): seq<Field>
  {
    [Sized(o.address), Number(8, o.amount)]
  }

  function Each<T>(fields: T -> seq<Field>, xs: seq<T>): seq<Field>
  {
    if xs == [] then [] else fields(xs[0]) + Each(fields, xs[1..])
  }

  function Several<T>(fields: T -> seq<Field>, xs: seq<T>): seq<Field>
  {
    [Number(4, |xs|)] + Each(fields, xs)
  }

  function TxFields(tx: Transaction): seq<Field>
  {
    [Sized(tx.id), Number(8, tx.fee), Number(8, tx.timestamp)]
    + Several(InputFields, tx.inputs) + Several(OutputFields, tx.outputs)
  }

  /** A transaction is one text inside its block. */
  function ItemFields(tx: Transaction): seq<Field>
  {
    [Sized(Laid(TxFields(tx)))]
  }

  function PreambleFields(b: Block): seq<Field>
  {
    [Number(4, b.version), Number(4, b.height), Sized(b.prevBlockHash), Sized(b.merkleRoot),
     Number(8, b.timestamp), Number(4, b.nonce)]
  }

  function SealFields(b: Block): seq<Field>
  {
    [Sized(b.validatorAddress), Number(8, b.validatorStake), Number(8, b.validatorAge),
     Sized(b.validatorPublicKey), Sized(b.validatorSignature)]
  }

  function BlockFields(b: Block): seq<Field>
  {
    PreambleFields(b) + SealFields(b) + Several(ItemFields, b.transactions)
  }

  function VoteFields(v: Vote): seq<Field>
  {
    [Sized(v.validatorAddress), Sized(v.blockHash), Number(4, v.blockHeight), Number(8, v.timestamp),
     Sized(v.validatorPublicKey), Sized(v.signature)]
  }

  // ---------- laying out ----------

  lemma DigitsEncoded(width: nat, value: nat)
    ensures Digits(width, value) == Encode(width, value)
  {
    forall k | 0 <= k < width ensures Digits(width, value)[k] == Encode(width, value)[k] {
      EncodeIndex(width, value, k);
    }
  }

  /** The field as the codec writes it. */
  function Coded(f: Field): Text
  {
    match f
    case Number(width, value) => Encode(width, value)
    case Sized(text) => EncBlob(text)
    case Single(code) => [code]
  }

  lemma PutCoded(f: Field)
    ensures Put(f) == Coded(f)
  {
    match f {
      case Number(width, value) => DigitsEncoded(width, value);
      case Sized(text) => DigitsEncoded(4, |text|);
      case Single(code) =>
    }
  }

  lemma LaidFirst(f: Field, rest: seq<Field>)
    ensures Laid([f] + rest) == Coded(f) + Laid(rest)
  {
    assert ([f] + rest)[1..] == rest;
    PutCoded(f);
  }

  lemma {:induction false} LaidJoins(xs: seq<Field>, ys: seq<Field>)
    ensures Laid(xs + ys) == Laid(xs) + Laid(ys)
  {
    if xs == [] {
      assert xs + ys == ys;
    } else {
      assert (xs + ys)[1..] == xs[1..] + ys;
      LaidJoins(xs[1..], ys);
    }
  }

  lemma LaidTwo(f: Field, g: Field)
    ensures Laid([f, g]) == Coded(f) + Coded(g)
  {
    LaidFirst(g, []);
    LaidFirst(f, [g]);
    assert [f, g] == [f] + [g] && [g] == [g] + [];
  }

  lemma LaidThree(f: Field, g: Field, h: Field)
    ensures Laid([f, g, h]) == Coded(f) + Coded(g) + Coded(h)
  {
    LaidTwo(g, h);
    LaidFirst(f, [g, h]);
    assert [f, g, h] == [f] + [g, h];
  }

  lemma {:induction false} LaidEach<T>(fields: T -> seq<Field>, enc: T -> Text, xs: seq<T>)
    requires forall x | x in xs :: Laid(fields(x)) == enc(x)
    ensures Laid(Each(fields, xs)) == EncList(enc, xs)
  {
    if xs != [] {
      LaidJoins(fields(xs[0]), Each(fields, xs[1..]));
      LaidEach(fields, enc, xs[1..]);
    }
  }

  lemma LaidSeveral<T>(fields: T -> seq<Field>, enc: T -> Text, xs: seq<T>)
    requires forall x | x in xs :: Laid(fields(x)) == enc(x)
    ensures Laid(Several(fields, xs)) == Encode(U32_BYTES, |xs|) + EncList(enc, xs)
  {
    LaidFirst(Number(4, |xs|), Each(fields, xs));
    LaidEach(fields, enc, xs);
  }

  lemma InputLaid(i: TxInput)
    ensures Laid(InputFields(i)) == EncInput(i)
  {
    var a, b := [Sized(i.prevTxHash), Number(4, i.prevOutputIdx)], [Sized(i.signature), Sized(i.publicKey)];
    assert InputFields(i) == a + b;
    LaidJoins(a, b);
    LaidTwo(a[0], a[1]);
    LaidTwo(b[0], b[1]);
  }

  lemma OutputLaid(o: TxOutput)
    ensures Laid(OutputFields(o)) == EncOutput(o)
  {
    LaidTwo(Sized(o.address), Number(8, o.amount));
  }

  /** A transaction is its id, fee and time, then its inputs and its outputs, each list after its count. */
  lemma TxLaid(tx: Transaction)
    ensures EncTx(tx) == Laid(TxFields(tx))
  {
    var head := [Sized(tx.id), Number(8, tx.fee), Number(8, tx.timestamp)];
    var ins, outs := Several(InputFields, tx.inputs), Several(OutputFields, tx.outputs);
    LaidJoins(head + ins, outs);
    LaidJoins(head, ins);
    LaidThree(head[0], head[1], head[2]);
    forall x | x in tx.inputs ensures Laid(InputFields(x)) == EncInput(x) { InputLaid(x); }
    forall x | x in tx.outputs ensures Laid(OutputFields(x)) == EncOutput(x) { OutputLaid(x); }
    LaidSeveral(InputFields, EncInput, tx.inputs);
    LaidSeveral(OutputFields, EncOutput, tx.outputs);
  }

  lemma PreambleLaid(b: Block)
    ensures Laid(PreambleFields(b)) == EncPreamble(PreambleOf(b))
  {
    var x, y := [Number(4, b.version), Number(4, b.height), Sized(b.prevBlockHash)],
                [Sized(b.merkleRoot), Number(8, b.timestamp), Number(4, b.nonce)];
    assert PreambleFields(b) == x + y;
    LaidJoins(x, y);
    LaidThree(x[0], x[1], x[2]);
    LaidThree(y[0], y[1], y[2]);
  }

  lemma SealLaid(b: Block)
    ensures Laid(SealFields(b)) == EncSeal(SealOf(b))
  {
    var x, y := [Sized(b.validatorAddress), Number(8, b.validatorStake), Number(8, b.validatorAge)],
                [Sized(b.validatorPublicKey), Sized(b.validatorSignature)];
    assert SealFields(b) == x + y;
    LaidJoins(x, y);
    LaidThree(x[0], x[1], x[2]);
    LaidTwo(y[0], y[1]);
  }

  lemma ItemLaid(tx: Transaction)
    ensures Laid(ItemFields(tx)) == EncItem(tx)
  {
    TxLaid(tx);
    LaidFirst(Sized(EncTx(tx)), []);
  }

  /** A block is its header fields, the proof-of-stake fields, and its transactions, each as one text. */
  lemma BlockLaid(b: Block)
    ensures EncBlock(b) == Laid(BlockFields(b))
  {
    var items := Several(ItemFields, b.transactions);
    LaidJoins(PreambleFields(b) + SealFields(b), items);
    LaidJoins(PreambleFields(b), SealFields(b));
    PreambleLaid(b);
    SealLaid(b);
    forall tx | tx in b.transactions ensures Laid(ItemFields(tx)) == EncItem(tx) { ItemLaid(tx); }
    LaidSeveral(ItemFields, EncItem, b.transactions);
  }

  lemma BallotLaid(b: Ballot)
    ensures Laid([Sized(b.address), Sized(b.hash)] + [Number(4, b.height), Number(8, b.timestamp)]) == EncBallot(b)
  {
    LaidJoins([Sized(b.address), Sized(b.hash)], [Number(4, b.height), Number(8, b.timestamp)]);
    LaidTwo(Sized(b.address), Sized(b.hash));
    LaidTwo(Number(4, b.height), Number(8, b.timestamp));
  }

  lemma VoteLaid(v: Vote)
    ensures EncVote(v) == Laid(VoteFields(v))
  {
    var x := [Sized(v.validatorAddress), Sized(v.blockHash)] + [Number(4, v.blockHeight), Number(8, v.timestamp)];
    var y := [Sized(v.validatorPublicKey), Sized(v.signature)];
    assert VoteFields(v) == x + y;
    LaidJoins(x, y);
    BallotLaid(BallotOf(v));
    LaidTwo(y[0], y[1]);
    Join2(EncBallot(BallotOf(v)), EncBlob(v.validatorPublicKey), EncBlob(v.signature));
  }

  /** A frame is the kind of the message and its payload as a text. */
  lemma FrameLaid(m: Message)
    requires |m.payload| <= MAX_MESSAGE
    ensures EncFrame(m) == Laid([Single(m.kind), Sized(m.payload)])
  {
    LaidTwo(Single(m.kind), Sized(m.payload));
  }

  /** A block is one text inside a list of blocks. */
  function ChunkFields(b: Block): seq<Field>
  {
    [Sized(Laid(BlockFields(b)))]
  }

  /** A list of blocks is its count and the blocks, each as one text. */
  lemma ChainLaid(blocks: seq<Block>)
    ensures EncChain(Pointers(blocks)) == Laid(Several(ChunkFields, blocks))
  {
    forall b | b in blocks ensures Laid(ChunkFields(b)) == EncChunk(b) {
      BlockLaid(b);
      LaidFirst(Sized(EncBlock(b)), []);
    }
    LaidSeveral(ChunkFields, EncChunk, blocks);
    PresentPointers(blocks);
  }
}
