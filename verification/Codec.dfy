/**
 The binary codec of src/core/mermai_blockchain.cpp. Encoders are total and truncate lengths to 32
 bits as the source does; decoders return what they read together with the unread rest.
 */
module Codec {
  import opened Bytes
  import opened Types

  datatype Fault =
    | UnexpectedEnd | BadBytesSize | BadStringSize
    | TooManyInputs | TooManyOutputs | TooManyTransactions | TrailingData

  datatype Parsed<+T> = Got(value: T, rest: Text) | Bad(fault: Fault)
  {
    predicate IsFailure() { Bad? }
    function PropagateFailure<U>(): Parsed<U> requires Bad? { Bad(fault) }
    function Extract(): (T, Text) requires Got? { (value, rest) }
  }

  datatype Result<+T> = Ok(value: T) | Err(fault: Fault)

  /** Size limits of the decoders; encoders have none. */
  datatype Limits = Limits(text: u32, bytes: u32, inputs: u32, outputs: u32, transactions: u32)

  const MAX_STRING: u32 := 65536
  const MAX_BYTES: u32 := 16384
  const MAX_INPUTS: u32 := 1000
  const MAX_OUTPUTS: u32 := 1000
  const MAX_TRANSACTIONS: u32 := 10000

  /** The limits that `deserialize` enforces. */
  const WIRE: Limits := Limits(MAX_STRING, MAX_BYTES, MAX_INPUTS, MAX_OUTPUTS, MAX_TRANSACTIONS)

  /** No limit but what a 32-bit length can express. */
  const WIDEST: Limits := Limits(U32_SIZE - 1, U32_SIZE - 1, U32_SIZE - 1, U32_SIZE - 1, U32_SIZE - 1)

  // ---------- integers and length-prefixed strings ----------

  function GetInt(width: nat, s: Text): (p: Parsed<nat>)
    ensures p.Got? ==> p.value < Pow256(width) && s == Encode(width, p.value) + p.rest
    ensures p.Got? <==> |s| >= width
  {
    if |s| < width then Bad(UnexpectedEnd)
    else EncodeDecode(s[..width]); Got(Decode(s[..width]), s[width..])
  }

  lemma GetIntBack(width: nat, v: nat, rest: Text)
    requires v < Pow256(width)
    ensures GetInt(width, Encode(width, v) + rest) == Got(v, rest)
  {
    DecodeEncodeExact(width, v);
    assert (Encode(width, v) + rest)[..width] == Encode(width, v);
  }

  function Get32(s: Text): (p: Parsed<u32>)
    ensures p.Got? ==> s == Encode(U32_BYTES, p.value) + p.rest
  {
    PowValues();
    var (v, rest) :- GetInt(U32_BYTES, s);
    Got(v, rest)
  }

  function Get64(s: Text): (p: Parsed<u64>)
    ensures p.Got? ==> s == Encode(U64_BYTES, p.value) + p.rest
  {
    PowValues();
    var (v, rest) :- GetInt(U64_BYTES, s);
    Got(v, rest)
  }

  lemma Get32Back(v: u32, rest: Text)
    ensures Get32(Encode(U32_BYTES, v) + rest) == Got(v, rest)
  {
    PowValues();
    GetIntBack(U32_BYTES, v, rest);
  }

  lemma Get64Back(v: u64, rest: Text)
    ensures Get64(Encode(U64_BYTES, v) + rest) == Got(v, rest)
  {
    PowValues();
    GetIntBack(U64_BYTES, v, rest);
  }

  function EncBlob(t: Text): Text
  {
    Encode(U32_BYTES, |t|) + t
  }

  lemma SliceAfter(head: Text, s: Text, n: nat)
    requires n <= |s|
    ensures head + s == (head + s[..n]) + s[n..]
  {
  }

  function GetBlob(limit: u32, fault: Fault, s: Text): (p: Parsed<Text>)
    ensures p.Got? ==> |p.value| <= limit && s == EncBlob(p.value) + p.rest
  {
    var (n, s1) :- Get32(s);
    if n > limit || n > |s1| then Bad(fault)
    else
      SliceAfter(Encode(U32_BYTES, n), s1, n);
      Got(s1[..n], s1[n..])
  }

  lemma GetBlobBack(limit: u32, fault: Fault, t: Text, rest: Text)
    requires |t| <= limit
    ensures GetBlob(limit, fault, EncBlob(t) + rest) == Got(t, rest)
  {
    assert EncBlob(t) + rest == Encode(U32_BYTES, |t|) + (t + rest);
    Get32Back(|t|, t + rest);
    assert (t + rest)[..|t|] == t && (t + rest)[|t|..] == rest;
  }

  // Concatenation reassociated, as decoders peel fields off the front.
  lemma Join2(a: Text, b: Text, r: Text)
    ensures a + (b + r) == (a + b) + r
  {
  }

  lemma Join3(a: Text, b: Text, c: Text, r: Text)
    ensures a + (b + (c + r)) == (a + b + c) + r
  {
  }

  lemma Join4(a: Text, b: Text, c: Text, d: Text, r: Text)
    ensures a + (b + (c + (d + r))) == (a + b + c + d) + r
  {
  }

  lemma Join5(a: Text, b: Text, c: Text, d: Text, e: Text, r: Text)
    ensures a + (b + (c + (d + (e + r)))) == (a + b + c + d + e) + r
  {
  }

  // ---------- lists ----------

  function EncList<T>(enc: T -> Text, xs: seq<T>): Text
  {
    if xs == [] then [] else enc(xs[0]) + EncList(enc, xs[1..])
  }

  function GetList<T>(get: Text -> Parsed<T>, n: nat, s: Text): Parsed<seq<T>>
  {
    if n == 0 then Got([], s)
    else
      var (x, s1) :- get(s);
      var (xs, s2) :- GetList(get, n - 1, s1);
      Got([x] + xs, s2)
  }

  /** A parser and a printer that undo each other on the values `ok` admits. */
  ghost predicate Inverse<T(!new)>(enc: T -> Text, get: Text -> Parsed<T>, ok: T -> bool)
  {
    && (forall x, rest | ok(x) :: get(enc(x) + rest) == Got(x, rest))
    && (forall s | get(s).Got? :: ok(get(s).value) && s == enc(get(s).value) + get(s).rest)
  }

  ghost predicate AllOk<T>(ok: T -> bool, xs: seq<T>)
  {
    forall i | 0 <= i < |xs| :: ok(xs[i])
  }

  lemma {:induction false} GetListBack<T(!new)>(
    enc: T -> Text, get: Text -> Parsed<T>, ok: T -> bool, xs: seq<T>, rest: Text)
    requires Inverse(enc, get, ok) && AllOk(ok, xs)
    ensures GetList(get, |xs|, EncList(enc, xs) + rest) == Got(xs, rest)
  {
    if xs == [] {
      assert [] + rest == rest;
    } else {
      var tail := EncList(enc, xs[1..]) + rest;
      assert EncList(enc, xs) + rest == enc(xs[0]) + tail;
      assert get(enc(xs[0]) + tail) == Got(xs[0], tail);
      GetListBack(enc, get, ok, xs[1..], rest);
      assert xs == [xs[0]] + xs[1..];
    }
  }

  lemma {:induction false} GetListSound<T(!new)>(
    enc: T -> Text, get: Text -> Parsed<T>, ok: T -> bool, n: nat, s: Text)
    requires Inverse(enc, get, ok)
    ensures var p := GetList(get, n, s);
            p.Got? ==> |p.value| == n && AllOk(ok, p.value) && s == EncList(enc, p.value) + p.rest
  {
    var p := GetList(get, n, s);
    if p.Got? && n > 0 {
      var q := get(s);
      assert ok(q.value) && s == enc(q.value) + q.rest;
      GetListSound(enc, get, ok, n - 1, q.rest);
      var xs := p.value[1..];
      assert p.value == [q.value] + xs;
      assert enc(q.value) + (EncList(enc, xs) + p.rest) == EncList(enc, p.value) + p.rest;
    } else if n == 0 {
      assert [] + s == s;
    }
  }

  /** Parsing more elements than were written runs off the end. */
  lemma {:induction false} GetListShort<T(!new)>(
    enc: T -> Text, get: Text -> Parsed<T>, ok: T -> bool, xs: seq<T>, n: nat)
    requires Inverse(enc, get, ok) && AllOk(ok, xs) && |xs| < n && get([]).Bad?
    ensures GetList(get, n, EncList(enc, xs)).Bad?
  {
    if xs != [] {
      var tail := EncList(enc, xs[1..]);
      assert get(enc(xs[0]) + tail) == Got(xs[0], tail);
      GetListShort(enc, get, ok, xs[1..], n - 1);
    }
  }

  lemma {:induction false} EncListSnoc<T>(enc: T -> Text, xs: seq<T>, x: T)
    ensures EncList(enc, xs + [x]) == EncList(enc, xs) + enc(x)
  {
    if xs == [] {
      assert [x][1..] == [];
      assert EncList(enc, [x]) == enc(x) + EncList(enc, []);
      assert xs + [x] == [x];
    } else {
      assert (xs + [x])[1..] == xs[1..] + [x];
      EncListSnoc(enc, xs[1..], x);
    }
  }

  // ---------- transactions ----------

  function EncInput(i: TxInput): Text
  {
    EncBlob(i.prevTxHash) + Encode(U32_BYTES, i.prevOutputIdx) + EncBlob(i.signature) + EncBlob(i.publicKey)
  }

  predicate FitsInput(l: Limits, i: TxInput)
  {
    |i.prevTxHash| <= l.text && |i.signature| <= l.bytes && |i.publicKey| <= l.bytes
  }

  function GetInput(l: Limits, s: Text): Parsed<TxInput>
  {
    var (hash, s1) :- GetBlob(l.text, BadStringSize, s);
    var (idx, s2) :- Get32(s1);
    var (signature, s3) :- GetBlob(l.bytes, BadBytesSize, s2);
    var (key, s4) :- GetBlob(l.bytes, BadBytesSize, s3);
    Got(TxInput(hash, idx, signature, key), s4)
  }

  lemma GetInputBack(l: Limits, i: TxInput, rest: Text)
    requires FitsInput(l, i)
    ensures GetInput(l, EncInput(i) + rest) == Got(i, rest)
  {
    var s4 := rest;
    var s3 := EncBlob(i.publicKey) + s4;
    var s2 := EncBlob(i.signature) + s3;
    var s1 := Encode(U32_BYTES, i.prevOutputIdx) + s2;
    assert EncInput(i) + rest == EncBlob(i.prevTxHash) + s1;
    GetBlobBack(l.text, BadStringSize, i.prevTxHash, s1);
    Get32Back(i.prevOutputIdx, s2);
    GetBlobBack(l.bytes, BadBytesSize, i.signature, s3);
    GetBlobBack(l.bytes, BadBytesSize, i.publicKey, s4);
  }

  lemma GetInputSound(l: Limits, s: Text)
    ensures var p := GetInput(l, s);
            p.Got? ==> FitsInput(l, p.value) && s == EncInput(p.value) + p.rest
  {
    var p := GetInput(l, s);
    if p.Got? {
      var i := p.value;
      Join4(EncBlob(i.prevTxHash), Encode(U32_BYTES, i.prevOutputIdx),
            EncBlob(i.signature), EncBlob(i.publicKey), p.rest);
    }
  }

  function EncOutput(o: TxOutput): Text
  {
    EncBlob(o.address) + Encode(U64_BYTES, o.amount)
  }

  predicate FitsOutput(l: Limits, o: TxOutput)
  {
    |o.address| <= l.text
  }

  function GetOutput(l: Limits, s: Text): Parsed<TxOutput>
  {
    var (address, s1) :- GetBlob(l.text, BadStringSize, s);
    var (amount, s2) :- Get64(s1);
    Got(TxOutput(address, amount), s2)
  }

  lemma GetOutputBack(l: Limits, o: TxOutput, rest: Text)
    requires FitsOutput(l, o)
    ensures GetOutput(l, EncOutput(o) + rest) == Got(o, rest)
  {
    var s1 := Encode(U64_BYTES, o.amount) + rest;
    assert EncOutput(o) + rest == EncBlob(o.address) + s1;
    GetBlobBack(l.text, BadStringSize, o.address, s1);
    Get64Back(o.amount, rest);
  }

  lemma GetOutputSound(l: Limits, s: Text)
    ensures var p := GetOutput(l, s);
            p.Got? ==> FitsOutput(l, p.value) && s == EncOutput(p.value) + p.rest
  {
    var p := GetOutput(l, s);
    if p.Got? {
      Join2(EncBlob(p.value.address), Encode(U64_BYTES, p.value.amount), p.rest);
    }
  }

  // First-class forms of the element codecs, for the list codec.
  function InputGetter(l: Limits): Text -> Parsed<TxInput> { s => GetInput(l, s) }
  function InputFits(l: Limits): TxInput -> bool { i => FitsInput(l, i) }
  function OutputGetter(l: Limits): Text -> Parsed<TxOutput> { s => GetOutput(l, s) }
  function OutputFits(l: Limits): TxOutput -> bool { o => FitsOutput(l, o) }

  lemma InputsInverse(l: Limits)
    ensures Inverse(EncInput, InputGetter(l), InputFits(l))
  {
    forall x, rest | InputFits(l)(x) ensures InputGetter(l)(EncInput(x) + rest) == Got(x, rest) {
      GetInputBack(l, x, rest);
    }
    forall s | InputGetter(l)(s).Got?
      ensures InputFits(l)(InputGetter(l)(s).value)
      ensures s == EncInput(InputGetter(l)(s).value) + InputGetter(l)(s).rest
    {
      GetInputSound(l, s);
    }
  }

  lemma OutputsInverse(l: Limits)
    ensures Inverse(EncOutput, OutputGetter(l), OutputFits(l))
  {
    forall x, rest | OutputFits(l)(x) ensures OutputGetter(l)(EncOutput(x) + rest) == Got(x, rest) {
      GetOutputBack(l, x, rest);
    }
    forall s | OutputGetter(l)(s).Got?
      ensures OutputFits(l)(OutputGetter(l)(s).value)
      ensures s == EncOutput(OutputGetter(l)(s).value) + OutputGetter(l)(s).rest
    {
      GetOutputSound(l, s);
    }
  }

  function EncInputs(xs: seq<TxInput>): Text
  {
    Encode(U32_BYTES, |xs|) + EncList(EncInput, xs)
  }

  function EncOutputs(xs: seq<TxOutput>): Text
  {
    Encode(U32_BYTES, |xs|) + EncList(EncOutput, xs)
  }

  /** The fields before the lists, in wire order. */
  datatype Head = Head(id: Text, fee: u64, timestamp: u64)

  function EncHead(h: Head): Text
  {
    EncBlob(h.id) + Encode(U64_BYTES, h.fee) + Encode(U64_BYTES, h.timestamp)
  }

  function HeadOf(tx: Transaction): Head
  {
    Head(tx.id, tx.fee, tx.timestamp)
  }

  function EncTx(tx: Transaction): Text
  {
    EncHead(HeadOf(tx)) + EncInputs(tx.inputs) + EncOutputs(tx.outputs)
  }

  ghost predicate FitsTx(l: Limits, tx: Transaction)
  {
    && |tx.id| <= l.text && |tx.inputs| <= l.inputs && |tx.outputs| <= l.outputs
    && AllOk(InputFits(l), tx.inputs) && AllOk(OutputFits(l), tx.outputs)
  }

  function GetInputs(l: Limits, s: Text): Parsed<seq<TxInput>>
  {
    var (n, s1) :- Get32(s);
    if n > l.inputs then Bad(TooManyInputs) else GetList(InputGetter(l), n, s1)
  }

  function GetOutputs(l: Limits, s: Text): Parsed<seq<TxOutput>>
  {
    var (n, s1) :- Get32(s);
    if n > l.outputs then Bad(TooManyOutputs) else GetList(OutputGetter(l), n, s1)
  }

  function GetHead(l: Limits, s: Text): Parsed<Head>
  {
    var (id, s1) :- GetBlob(l.text, BadStringSize, s);
    var (fee, s2) :- Get64(s1);
    var (timestamp, s3) :- Get64(s2);
    Got(Head(id, fee, timestamp), s3)
  }

  function GetTx(l: Limits, s: Text): Parsed<Transaction>
  {
    var (h, s1) :- GetHead(l, s);
    var (inputs, s2) :- GetInputs(l, s1);
    var (outputs, s3) :- GetOutputs(l, s2);
    Got(Transaction(h.id, inputs, outputs, h.fee, h.timestamp), s3)
  }

  function DecodeTx(l: Limits, data: Text): Result<Transaction>
  {
    match GetTx(l, data)
    case Bad(f) => Err(f)
    case Got(tx, rest) => if rest == [] then Ok(tx) else Err(TrailingData)
  }

  lemma GetInputsBack(l: Limits, xs: seq<TxInput>, rest: Text)
    requires |xs| <= l.inputs && AllOk(InputFits(l), xs)
    ensures GetInputs(l, EncInputs(xs) + rest) == Got(xs, rest)
  {
    InputsInverse(l);
    GetListBack(EncInput, InputGetter(l), InputFits(l), xs, rest);
    assert EncInputs(xs) + rest == Encode(U32_BYTES, |xs|) + (EncList(EncInput, xs) + rest);
    Get32Back(|xs|, EncList(EncInput, xs) + rest);
  }

  lemma GetOutputsBack(l: Limits, xs: seq<TxOutput>, rest: Text)
    requires |xs| <= l.outputs && AllOk(OutputFits(l), xs)
    ensures GetOutputs(l, EncOutputs(xs) + rest) == Got(xs, rest)
  {
    OutputsInverse(l);
    GetListBack(EncOutput, OutputGetter(l), OutputFits(l), xs, rest);
    assert EncOutputs(xs) + rest == Encode(U32_BYTES, |xs|) + (EncList(EncOutput, xs) + rest);
    Get32Back(|xs|, EncList(EncOutput, xs) + rest);
  }

  lemma GetInputsSound(l: Limits, s: Text)
    ensures var p := GetInputs(l, s);
            p.Got? ==> |p.value| <= l.inputs && AllOk(InputFits(l), p.value) && s == EncInputs(p.value) + p.rest
  {
    var p := GetInputs(l, s);
    if p.Got? {
      var q := Get32(s);
      InputsInverse(l);
      GetListSound(EncInput, InputGetter(l), InputFits(l), q.value, q.rest);
      Join2(Encode(U32_BYTES, q.value), EncList(EncInput, p.value), p.rest);
    }
  }

  lemma GetOutputsSound(l: Limits, s: Text)
    ensures var p := GetOutputs(l, s);
            p.Got? ==> |p.value| <= l.outputs && AllOk(OutputFits(l), p.value) && s == EncOutputs(p.value) + p.rest
  {
    var p := GetOutputs(l, s);
    if p.Got? {
      var q := Get32(s);
      OutputsInverse(l);
      GetListSound(EncOutput, OutputGetter(l), OutputFits(l), q.value, q.rest);
      Join2(Encode(U32_BYTES, q.value), EncList(EncOutput, p.value), p.rest);
    }
  }

  lemma GetHeadBack(l: Limits, h: Head, rest: Text)
    requires |h.id| <= l.text
    ensures GetHead(l, EncHead(h) + rest) == Got(h, rest)
  {
    var s2 := Encode(U64_BYTES, h.timestamp) + rest;
    var s1 := Encode(U64_BYTES, h.fee) + s2;
    assert EncHead(h) + rest == EncBlob(h.id) + s1;
    GetBlobBack(l.text, BadStringSize, h.id, s1);
    Get64Back(h.fee, s2);
    Get64Back(h.timestamp, rest);
  }

  lemma GetHeadSound(l: Limits, s: Text)
    ensures var p := GetHead(l, s);
            p.Got? ==> |p.value.id| <= l.text && s == EncHead(p.value) + p.rest
  {
    var p := GetHead(l, s);
    if p.Got? {
      var h := p.value;
      Join3(EncBlob(h.id), Encode(U64_BYTES, h.fee), Encode(U64_BYTES, h.timestamp), p.rest);
    }
  }

  lemma GetTxBack(l: Limits, tx: Transaction, rest: Text)
    requires FitsTx(l, tx)
    ensures GetTx(l, EncTx(tx) + rest) == Got(tx, rest)
  {
    var s2 := EncOutputs(tx.outputs) + rest;
    var s1 := EncInputs(tx.inputs) + s2;
    assert EncTx(tx) + rest == EncHead(HeadOf(tx)) + s1;
    GetHeadBack(l, HeadOf(tx), s1);
    GetInputsBack(l, tx.inputs, s2);
    GetOutputsBack(l, tx.outputs, rest);
  }

  lemma GetTxSound(l: Limits, s: Text)
    ensures var p := GetTx(l, s);
            p.Got? ==> FitsTx(l, p.value) && s == EncTx(p.value) + p.rest
  {
    var p := GetTx(l, s);
    if p.Got? {
      var s1 := GetHead(l, s).rest;
      GetHeadSound(l, s);
      GetInputsSound(l, s1);
      GetOutputsSound(l, GetInputs(l, s1).rest);
      Join3(EncHead(HeadOf(p.value)), EncInputs(p.value.inputs), EncOutputs(p.value.outputs), p.rest);
    }
  }

  /** Decoding undoes encoding for every transaction within the limits. */
  lemma TxRoundTrip(l: Limits, tx: Transaction)
    requires FitsTx(l, tx)
    ensures DecodeTx(l, EncTx(tx)) == Ok(tx)
  {
    GetTxBack(l, tx, []);
    assert EncTx(tx) + [] == EncTx(tx);
  }

  /** Encoding undoes decoding for every text the decoder accepts. */
  lemma TxCanonical(l: Limits, data: Text)
    ensures DecodeTx(l, data).Ok? ==>
              FitsTx(l, DecodeTx(l, data).value) && EncTx(DecodeTx(l, data).value) == data
  {
    GetTxSound(l, data);
    if DecodeTx(l, data).Ok? {
      var tx := DecodeTx(l, data).value;
      assert EncTx(tx) + [] == EncTx(tx);
    }
  }

  lemma TxInjective(a: Transaction, b: Transaction)
    requires FitsTx(WIDEST, a) && FitsTx(WIDEST, b) && EncTx(a) == EncTx(b)
    ensures a == b
  {
    TxRoundTrip(WIDEST, a);
    TxRoundTrip(WIDEST, b);
  }

  lemma SplitsOnce<T>(enc: T -> Text, get: Text -> Parsed<T>, x: T, r: Text, y: T, t: Text)
    requires get(enc(x) + r) == Got(x, r) && get(enc(y) + t) == Got(y, t) && enc(x) + r == enc(y) + t
    ensures x == y && r == t
  {
  }

  function TxGetter(l: Limits): Text -> Parsed<Transaction> { s => GetTx(l, s) }

  lemma GetterBack(l: Limits, tx: Transaction, rest: Text)
    requires FitsTx(l, tx)
    ensures TxGetter(l)(EncTx(tx) + rest) == Got(tx, rest)
  {
    GetTxBack(l, tx, rest);
  }

  /** Encodings tell where they end: what follows one can be split off in one way only. */
  lemma TxSelfDelimiting(a: Transaction, r: Text, b: Transaction, t: Text)
    requires FitsTx(WIDEST, a) && FitsTx(WIDEST, b) && EncTx(a) + r == EncTx(b) + t
    ensures a == b && r == t
  {
    GetterBack(WIDEST, a, r);
    GetterBack(WIDEST, b, t);
    SplitsOnce(EncTx, TxGetter(WIDEST), a, r, b, t);
  }
}
