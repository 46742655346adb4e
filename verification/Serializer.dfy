/**
 The loops of the codec: writers append to a buffer and readers advance an offset, as in
 src/core/mermai_blockchain.cpp, and agree with the encoders and decoders of `Codec` and
 `BlockCodec`. A reference parameter of the source is an argument and a result here.
 */
module Serializer {
  import opened Bytes
  import opened Types
  import opened Codec
  import opened BlockCodec

  // ---------- writing ----------

  method WriteValue(output: Text, width: nat, value: nat) returns (out: Text)
    ensures out == output + Encode(width, value)
  {
    out := output;
    for index := 0 to width
      invariant out == output + Encode(width, value)[..index]
    {
      EncodeIndex(width, value, index);
      out := out + [(value / Pow256(width - 1 - index)) % 256];
    }
    assert Encode(width, value)[..width] == Encode(width, value);
  }

  method WriteText(output: Text, t: Text) returns (out: Text)
    ensures out == output + EncBlob(t)
  {
    out := WriteValue(output, U32_BYTES, |t|);
    out := out + t;
  }

  method WriteInput(output: Text, i: TxInput) returns (out: Text)
    ensures out == output + EncInput(i)
  {
    out := WriteText(output, i.prevTxHash);
    out := WriteValue(out, U32_BYTES, i.prevOutputIdx);
    out := WriteText(out, i.signature);
    out := WriteText(out, i.publicKey);
  }

  /** One more list element behind a head, a count and the elements before it. */
  lemma Appended<T>(enc: T -> Text, head: Text, count: Text, xs: seq<T>, k: nat)
    requires k < |xs|
    ensures head + (count + EncList(enc, xs[..k])) + enc(xs[k]) == head + (count + EncList(enc, xs[..k + 1]))
  {
    assert xs[..k + 1] == xs[..k] + [xs[k]];
    EncListSnoc(enc, xs[..k], xs[k]);
    var list, x := EncList(enc, xs[..k]), enc(xs[k]);
    assert head + (count + list) + x == head + (count + (list + x));
  }

  method WriteInputs(output: Text, xs: seq<TxInput>) returns (out: Text)
    ensures out == output + EncInputs(xs)
  {
    ghost var count := Encode(U32_BYTES, |xs|);
    out := WriteValue(output, U32_BYTES, |xs|);
    assert count + EncList(EncInput, xs[..0]) == count;
    for k := 0 to |xs|
      invariant out == output + (count + EncList(EncInput, xs[..k]))
    {
      out := WriteInput(out, xs[k]);
      Appended(EncInput, output, count, xs, k);
    }
    assert xs[..|xs|] == xs;
  }

  method WriteOutputs(output: Text, xs: seq<TxOutput>) returns (out: Text)
    ensures out == output + EncOutputs(xs)
  {
    ghost var count := Encode(U32_BYTES, |xs|);
    out := WriteValue(output, U32_BYTES, |xs|);
    assert count + EncList(EncOutput, xs[..0]) == count;
    for k := 0 to |xs|
      invariant out == output + (count + EncList(EncOutput, xs[..k]))
    {
      ghost var before := out;
      out := WriteText(out, xs[k].address);
      out := WriteValue(out, U64_BYTES, xs[k].amount);
      Join2(before, EncBlob(xs[k].address), Encode(U64_BYTES, xs[k].amount));
      Appended(EncOutput, output, count, xs, k);
    }
    assert xs[..|xs|] == xs;
  }

  method WriteItems(output: Text, xs: seq<Transaction>) returns (out: Text)
    ensures out == output + EncItems(xs)
  {
    ghost var count := Encode(U32_BYTES, |xs|);
    out := WriteValue(output, U32_BYTES, |xs|);
    assert count + EncList(EncItem, xs[..0]) == count;
    for k := 0 to |xs|
      invariant out == output + (count + EncList(EncItem, xs[..k]))
    {
      var serialized := SerializeTransaction(xs[k]);
      out := WriteText(out, serialized);
      Appended(EncItem, output, count, xs, k);
    }
    assert xs[..|xs|] == xs;
  }

  method SerializeTransaction(tx: Transaction) returns (output: Text)
    ensures output == EncTx(tx)
  {
    output := WriteText([], tx.id);
    output := WriteValue(output, U64_BYTES, tx.fee);
    output := WriteValue(output, U64_BYTES, tx.timestamp);
    output := WriteInputs(output, tx.inputs);
    output := WriteOutputs(output, tx.outputs);
  }

  method WritePreamble(b: Block) returns (output: Text)
    ensures output == EncPreamble(PreambleOf(b))
  {
    output := WriteValue([], U32_BYTES, b.version);
    output := WriteValue(output, U32_BYTES, b.height);
    output := WriteText(output, b.prevBlockHash);
    output := WriteText(output, b.merkleRoot);
    ghost var start := output;
    output := WriteValue(output, U64_BYTES, b.timestamp);
    output := WriteValue(output, U32_BYTES, b.nonce);
    Join2(start, Encode(U64_BYTES, b.timestamp), Encode(U32_BYTES, b.nonce));
  }

  method WriteSeal(output: Text, b: Block) returns (out: Text)
    ensures out == output + EncSeal(SealOf(b))
  {
    out := WriteText(output, b.validatorAddress);
    out := WriteValue(out, U64_BYTES, b.validatorStake);
    out := WriteValue(out, U64_BYTES, b.validatorAge);
    out := WriteText(out, b.validatorPublicKey);
    out := WriteText(out, b.validatorSignature);
  }

  method SerializeBlock(b: Block) returns (output: Text)
    ensures output == EncBlock(b)
  {
    output := WritePreamble(b);
    output := WriteSeal(output, b);
    output := WriteItems(output, b.transactions);
  }

  // ---------- reading ----------

  /** A reader at `offset` agrees with a parser of the text from there on. */
  ghost predicate Follows<T>(p: Parsed<T>, r: Result<T>, input: Text, offset: nat)
  {
    match p
    case Bad(f) => r == Err(f)
    case Got(v, rest) => r == Ok(v) && offset <= |input| && input[offset..] == rest
  }

  method ReadValue(input: Text, offset: nat, width: nat) returns (r: Result<nat>, next: nat)
    requires offset <= |input|
    ensures Follows(GetInt(width, input[offset..]), r, input, next)
  {
    next := offset;
    if offset + width > |input| {
      return Err(UnexpectedEnd), next;
    }
    var value: nat := 0;
    assert input[offset..offset] == [];
    for index := 0 to width
      invariant next == offset + index
      invariant value == Decode(input[offset..next])
    {
      assert input[offset..next + 1][..index] == input[offset..next];
      value := value * 256 + input[next];
      next := next + 1;
    }
    assert input[offset..][..width] == input[offset..next];
    assert input[offset..][width..] == input[next..];
    r := Ok(value);
  }

  method Read32(input: Text, offset: nat) returns (r: Result<u32>, next: nat)
    requires offset <= |input|
    ensures Follows(Get32(input[offset..]), r, input, next)
  {
    PowValues();
    var v, n := ReadValue(input, offset, U32_BYTES);
    next := n;
    match v {
      case Ok(x) => r := Ok(x);
      case Err(f) => r := Err(f);
    }
  }

  method Read64(input: Text, offset: nat) returns (r: Result<u64>, next: nat)
    requires offset <= |input|
    ensures Follows(Get64(input[offset..]), r, input, next)
  {
    PowValues();
    var v, n := ReadValue(input, offset, U64_BYTES);
    next := n;
    match v {
      case Ok(x) => r := Ok(x);
      case Err(f) => r := Err(f);
    }
  }

  /** `read_bytes` and `read_string`, which differ in the limit and the message. */
  method ReadText(limit: u32, fault: Fault, input: Text, offset: nat) returns (r: Result<Text>, next: nat)
    requires offset <= |input|
    ensures Follows(GetBlob(limit, fault, input[offset..]), r, input, next)
  {
    var size, n := Read32(input, offset);
    next := n;
    if size.Err? {
      return Err(size.fault), next;
    }
    if size.value > limit || next + size.value > |input| {
      return Err(fault), next;
    }
    r := Ok(input[next..next + size.value]);
    assert input[next..][..size.value] == input[next..next + size.value];
    assert input[next..][size.value..] == input[next + size.value..];
    next := next + size.value;
  }

  method ReadInput(l: Limits, input: Text, offset: nat) returns (r: Result<TxInput>, next: nat)
    requires offset <= |input|
    ensures Follows(GetInput(l, input[offset..]), r, input, next)
  {
    var hash, n1 := ReadText(l.text, BadStringSize, input, offset);
    if hash.Err? { return Err(hash.fault), offset; }
    var idx, n2 := Read32(input, n1);
    if idx.Err? { return Err(idx.fault), offset; }
    var signature, n3 := ReadText(l.bytes, BadBytesSize, input, n2);
    if signature.Err? { return Err(signature.fault), offset; }
    var key, n4 := ReadText(l.bytes, BadBytesSize, input, n3);
    if key.Err? { return Err(key.fault), offset; }
    return Ok(TxInput(hash.value, idx.value, signature.value, key.value)), n4;
  }

  method ReadOutput(l: Limits, input: Text, offset: nat) returns (r: Result<TxOutput>, next: nat)
    requires offset <= |input|
    ensures Follows(GetOutput(l, input[offset..]), r, input, next)
  {
    var address, n1 := ReadText(l.text, BadStringSize, input, offset);
    if address.Err? { return Err(address.fault), offset; }
    var amount, n2 := Read64(input, n1);
    if amount.Err? { return Err(amount.fault), offset; }
    return Ok(TxOutput(address.value, amount.value)), n2;
  }

  /** A list parser reads one more element after the first `k`, or fails where that element fails. */
  lemma {:induction false} OneMore<T>(
    get: Text -> Parsed<T>, k: nat, n: nat, start: Text, xs: seq<T>, s: Text, q: Parsed<T>)
    requires k < n && GetList(get, k, start) == Got(xs, s) && get(s) == q
    ensures q.Bad? ==> GetList(get, n, start) == Bad(q.fault)
    ensures q.Got? ==> GetList(get, k + 1, start) == Got(xs + [q.value], q.rest)
    decreases k
  {
    if k > 0 {
      var p := get(start);
      OneMore(get, k - 1, n - 1, p.rest, xs[1..], s, q);
      assert xs == [p.value] + xs[1..];
      if q.Got? {
        assert xs + [q.value] == [p.value] + (xs[1..] + [q.value]);
      }
    } else if q.Got? {
      assert GetList(get, 0, q.rest) == Got([], q.rest);
      assert [q.value] + [] == [] + [q.value];
    }
  }

  method ReadInputList(l: Limits, count: nat, input: Text, offset: nat) returns (r: Result<seq<TxInput>>, next: nat)
    requires offset <= |input|
    ensures Follows(GetList(InputGetter(l), count, input[offset..]), r, input, next)
  {
    ghost var get, start := InputGetter(l), input[offset..];
    var xs: seq<TxInput> := [];
    next := offset;
    for index := 0 to count
      invariant next <= |input| && GetList(get, index, start) == Got(xs, input[next..])
    {
      OneMore(get, index, count, start, xs, input[next..], GetInput(l, input[next..]));
      var x, m := ReadInput(l, input, next);
      if x.Err? { return Err(x.fault), next; }
      xs := xs + [x.value];
      next := m;
    }
    r := Ok(xs);
  }

  method ReadOutputList(l: Limits, count: nat, input: Text, offset: nat) returns (r: Result<seq<TxOutput>>, next: nat)
    requires offset <= |input|
    ensures Follows(GetList(OutputGetter(l), count, input[offset..]), r, input, next)
  {
    ghost var get, start := OutputGetter(l), input[offset..];
    var xs: seq<TxOutput> := [];
    next := offset;
    for index := 0 to count
      invariant next <= |input| && GetList(get, index, start) == Got(xs, input[next..])
    {
      OneMore(get, index, count, start, xs, input[next..], GetOutput(l, input[next..]));
      var x, m := ReadOutput(l, input, next);
      if x.Err? { return Err(x.fault), next; }
      xs := xs + [x.value];
      next := m;
    }
    r := Ok(xs);
  }

  method ReadInputs(l: Limits, input: Text, offset: nat) returns (r: Result<seq<TxInput>>, next: nat)
    requires offset <= |input|
    ensures Follows(GetInputs(l, input[offset..]), r, input, next)
  {
    var count, n := Read32(input, offset);
    if count.Err? { return Err(count.fault), n; }
    if count.value > l.inputs { return Err(TooManyInputs), n; }
    r, next := ReadInputList(l, count.value, input, n);
  }

  method ReadOutputs(l: Limits, input: Text, offset: nat) returns (r: Result<seq<TxOutput>>, next: nat)
    requires offset <= |input|
    ensures Follows(GetOutputs(l, input[offset..]), r, input, next)
  {
    var count, n := Read32(input, offset);
    if count.Err? { return Err(count.fault), n; }
    if count.value > l.outputs { return Err(TooManyOutputs), n; }
    r, next := ReadOutputList(l, count.value, input, n);
  }

  method DeserializeTransaction(l: Limits, data: Text) returns (r: Result<Transaction>)
    ensures r == DecodeTx(l, data)
  {
    assert data[0..] == data;
    var id, n1 := ReadText(l.text, BadStringSize, data, 0);
    if id.Err? { return Err(id.fault); }
    var fee, n2 := Read64(data, n1);
    if fee.Err? { return Err(fee.fault); }
    var timestamp, n3 := Read64(data, n2);
    if timestamp.Err? { return Err(timestamp.fault); }
    var inputs, n4 := ReadInputs(l, data, n3);
    if inputs.Err? { return Err(inputs.fault); }
    var outputs, offset := ReadOutputs(l, data, n4);
    if outputs.Err? { return Err(outputs.fault); }
    if offset != |data| { return Err(TrailingData); }
    r := Ok(Transaction(id.value, inputs.value, outputs.value, fee.value, timestamp.value));
  }

  method ReadPreamble(l: Limits, data: Text) returns (r: Result<Preamble>, next: nat)
    ensures Follows(GetPreamble(l, data), r, data, next)
  {
    assert data[0..] == data;
    var version, n1 := Read32(data, 0);
    if version.Err? { return Err(version.fault), 0; }
    var height, n2 := Read32(data, n1);
    if height.Err? { return Err(height.fault), 0; }
    var prev, n3 := ReadText(l.text, BadStringSize, data, n2);
    if prev.Err? { return Err(prev.fault), 0; }
    var root, n4 := ReadText(l.text, BadStringSize, data, n3);
    if root.Err? { return Err(root.fault), 0; }
    var timestamp, n5 := Read64(data, n4);
    if timestamp.Err? { return Err(timestamp.fault), 0; }
    var nonce, n6 := Read32(data, n5);
    if nonce.Err? { return Err(nonce.fault), 0; }
    return Ok(Preamble(version.value, height.value, prev.value, root.value, timestamp.value, nonce.value)), n6;
  }

  method ReadSeal(l: Limits, data: Text, offset: nat) returns (r: Result<Seal>, next: nat)
    requires offset <= |data|
    ensures Follows(GetSeal(l, data[offset..]), r, data, next)
  {
    var address, n1 := ReadText(l.text, BadStringSize, data, offset);
    if address.Err? { return Err(address.fault), 0; }
    var stake, n2 := Read64(data, n1);
    if stake.Err? { return Err(stake.fault), 0; }
    var age, n3 := Read64(data, n2);
    if age.Err? { return Err(age.fault), 0; }
    var key, n4 := ReadText(l.bytes, BadBytesSize, data, n3);
    if key.Err? { return Err(key.fault), 0; }
    var signature, n5 := ReadText(l.bytes, BadBytesSize, data, n4);
    if signature.Err? { return Err(signature.fault), 0; }
    return Ok(Seal(address.value, stake.value, age.value, key.value, signature.value)), n5;
  }

  method ReadItem(l: Limits, data: Text, offset: nat) returns (r: Result<Transaction>, next: nat)
    requires offset <= |data|
    ensures Follows(GetItem(l, data[offset..]), r, data, next)
  {
    var blob, n := ReadText(l.text, BadStringSize, data, offset);
    next := n;
    if blob.Err? { return Err(blob.fault), next; }
    r := DeserializeTransaction(l, blob.value);
  }

  method ReadItemList(l: Limits, count: nat, input: Text, offset: nat) returns (r: Result<seq<Transaction>>, next: nat)
    requires offset <= |input|
    ensures Follows(GetList(ItemGetter(l), count, input[offset..]), r, input, next)
  {
    ghost var get, start := ItemGetter(l), input[offset..];
    var xs: seq<Transaction> := [];
    next := offset;
    for index := 0 to count
      invariant next <= |input| && GetList(get, index, start) == Got(xs, input[next..])
    {
      OneMore(get, index, count, start, xs, input[next..], GetItem(l, input[next..]));
      var x, m := ReadItem(l, input, next);
      if x.Err? { return Err(x.fault), next; }
      xs := xs + [x.value];
      next := m;
    }
    r := Ok(xs);
  }

  method ReadItems(l: Limits, input: Text, offset: nat) returns (r: Result<seq<Transaction>>, next: nat)
    requires offset <= |input|
    ensures Follows(GetItems(l, input[offset..]), r, input, next)
  {
    var count, n := Read32(input, offset);
    if count.Err? { return Err(count.fault), n; }
    if count.value > l.transactions { return Err(TooManyTransactions), n; }
    r, next := ReadItemList(l, count.value, input, n);
  }

  method DeserializeBlock(l: Limits, data: Text) returns (r: Result<Block>)
    ensures r == DecodeBlock(l, data)
  {
    var p, n1 := ReadPreamble(l, data);
    if p.Err? { return Err(p.fault); }
    var q, n2 := ReadSeal(l, data, n1);
    if q.Err? { return Err(q.fault); }
    var txs, offset := ReadItems(l, data, n2);
    if txs.Err? { return Err(txs.fault); }
    if offset != |data| { return Err(TrailingData); }
    r := Ok(BlockOf(p.value, q.value, txs.value));
  }
}
