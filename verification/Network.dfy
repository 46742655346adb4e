/** Chain payloads and message frames of src/network/mermai_network.cpp. */
module Network {
  import opened Bytes
  import opened Types
  import opened Codec
  import opened BlockCodec
  import opened Serializer

  const MAX_MESSAGE: u32 := 4 * 1024 * 1024
  const MAX_CHAIN_BLOCKS: u32 := 4096
  const MAX_BLOCK_SIZE: u32 := 1024 * 1024

  // ---------- chain payloads ----------

  function EncChunk(b: Block): Text
  {
    EncBlob(EncBlock(b))
  }

  function Listed(b: Option<Block>): seq<Block>
  {
    if b.Some? then [b.value] else []
  }

  /** The blocks behind the non-null pointers of a list. */
  function Present(blocks: seq<Option<Block>>): seq<Block>
  {
    if blocks == [] then [] else Listed(blocks[0]) + Present(blocks[1..])
  }

  /** The count covers null pointers too, although they are skipped. */
  function EncChain(blocks: seq<Option<Block>>): Text
  {
    Encode(U32_BYTES, |blocks|) + EncList(EncChunk, Present(blocks))
  }

  function GetChunk(s: Text): Parsed<Block>
  {
    var (data, rest) :- GetBlob(MAX_BLOCK_SIZE, BadStringSize, s);
    if data == [] then Bad(BadStringSize)
    else match DecodeBlock(WIRE, data)
         case Err(f) => Bad(f)
         case Ok(b) => Got(b, rest)
  }

  ghost predicate FitsChunk(b: Block)
  {
    FitsBlock(WIRE, b) && |EncBlock(b)| <= MAX_BLOCK_SIZE
  }

  /** Every failure, and an empty chain, is an empty list. */
  function DecodeChain(payload: Text): seq<Block>
  {
    match Get32(payload)
    case Bad(_) => []
    case Got(n, s) =>
      if n == 0 || n > MAX_CHAIN_BLOCKS then []
      else match GetList(GetChunk, n, s)
           case Bad(_) => []
           case Got(blocks, rest) => if rest == [] then blocks else []
  }

  lemma EncBlockNonEmpty(b: Block)
    ensures EncBlock(b) != []
  {
    assert |EncPreamble(PreambleOf(b))| >= 4;
  }

  lemma ChunksInverse()
    ensures Inverse(EncChunk, GetChunk, FitsChunk)
  {
    forall b, rest | FitsChunk(b) ensures GetChunk(EncChunk(b) + rest) == Got(b, rest) {
      GetBlobBack(MAX_BLOCK_SIZE, BadStringSize, EncBlock(b), rest);
      EncBlockNonEmpty(b);
      BlockRoundTrip(WIRE, b);
    }
    forall s | GetChunk(s).Got?
      ensures FitsChunk(GetChunk(s).value) && s == EncChunk(GetChunk(s).value) + GetChunk(s).rest
    {
      BlockCanonical(WIRE, GetBlob(MAX_BLOCK_SIZE, BadStringSize, s).value);
    }
  }

  function Pointers(blocks: seq<Block>): seq<Option<Block>>
  {
    seq(|blocks|, i requires 0 <= i < |blocks| => Some(blocks[i]))
  }

  lemma {:induction false} PresentPointers(blocks: seq<Block>)
    ensures Present(Pointers(blocks)) == blocks
  {
    if blocks != [] {
      assert Pointers(blocks)[1..] == Pointers(blocks[1..]);
      PresentPointers(blocks[1..]);
    }
  }

  lemma ChunkListBack(blocks: seq<Block>)
    requires AllOk(FitsChunk, blocks)
    ensures GetList(GetChunk, |blocks|, EncList(EncChunk, blocks)) == Got(blocks, [])
  {
    ChunksInverse();
    GetListBack(EncChunk, GetChunk, FitsChunk, blocks, []);
    assert EncList(EncChunk, blocks) + [] == EncList(EncChunk, blocks);
  }

  lemma ChunkListSound(n: nat, s: Text)
    ensures var p := GetList(GetChunk, n, s);
            p.Got? && p.rest == [] ==> |p.value| == n && AllOk(FitsChunk, p.value) && s == EncList(EncChunk, p.value)
  {
    ChunksInverse();
    GetListSound(EncChunk, GetChunk, FitsChunk, n, s);
    var p := GetList(GetChunk, n, s);
    if p.Got? && p.rest == [] {
      assert EncList(EncChunk, p.value) + [] == EncList(EncChunk, p.value);
    }
  }

  lemma ChunkListShort(blocks: seq<Block>, n: nat)
    requires AllOk(FitsChunk, blocks) && |blocks| < n
    ensures GetList(GetChunk, n, EncList(EncChunk, blocks)).Bad?
  {
    ChunksInverse();
    GetListShort(EncChunk, GetChunk, FitsChunk, blocks, n);
  }

  /** The blocks behind a count, if they fill the payload. */
  function Whole(p: Parsed<seq<Block>>): seq<Block>
  {
    if p.Got? && p.rest == [] then p.value else []
  }

  lemma CountedChain(n: u32, list: Text)
    ensures DecodeChain(Encode(U32_BYTES, n) + list)
         == if n == 0 || n > MAX_CHAIN_BLOCKS then [] else Whole(GetList(GetChunk, n, list))
  {
    Get32Back(n, list);
  }

  /** A payload of 1 to 4096 blocks within the limits comes back as it was. */
  lemma ChainRoundTrip(blocks: seq<Block>)
    requires 0 < |blocks| <= MAX_CHAIN_BLOCKS && AllOk(FitsChunk, blocks)
    ensures DecodeChain(EncChain(Pointers(blocks))) == blocks
  {
    PresentPointers(blocks);
    CountedChain(|blocks|, EncList(EncChunk, blocks));
    ChunkListBack(blocks);
  }

  /** A payload that decodes to anything is the encoding of what it decodes to. */
  lemma ChainCanonical(payload: Text)
    ensures var blocks := DecodeChain(payload);
            && |blocks| <= MAX_CHAIN_BLOCKS
            && (blocks != [] ==> AllOk(FitsChunk, blocks) && EncChain(Pointers(blocks)) == payload)
  {
    var blocks := DecodeChain(payload);
    if blocks != [] {
      var p := Get32(payload);
      ChunkListSound(p.value, p.rest);
      PresentPointers(blocks);
    }
  }

  lemma {:induction false} PresentShorter(blocks: seq<Option<Block>>)
    ensures |Present(blocks)| <= |blocks|
    ensures None in blocks ==> |Present(blocks)| < |blocks|
  {
    if blocks != [] {
      PresentShorter(blocks[1..]);
      assert blocks == [blocks[0]] + blocks[1..];
    }
  }

  /** One null pointer among the blocks loses the whole payload. */
  lemma NullLosesChain(blocks: seq<Option<Block>>)
    requires None in blocks && |blocks| < U32_SIZE && AllOk(FitsChunk, Present(blocks))
    ensures DecodeChain(EncChain(blocks)) == []
  {
    PresentShorter(blocks);
    CountedChain(|blocks|, EncList(EncChunk, Present(blocks)));
    ChunkListShort(Present(blocks), |blocks|);
  }

  lemma {:induction false} PresentSnoc(blocks: seq<Option<Block>>, b: Option<Block>)
    ensures Present(blocks + [b]) == Present(blocks) + Listed(b)
  {
    if blocks == [] {
      assert blocks + [b] == [b];
      assert Present([b]) == Listed(b) + Present([]);
    } else {
      var first, rest := Listed(blocks[0]), blocks[1..];
      assert (blocks + [b])[1..] == rest + [b];
      PresentSnoc(rest, b);
      assert first + (Present(rest) + Listed(b)) == (first + Present(rest)) + Listed(b);
    }
  }

  lemma ChunkAppended(count: Text, blocks: seq<Block>, b: Block)
    ensures count + EncList(EncChunk, blocks) + EncChunk(b) == count + EncList(EncChunk, blocks + [b])
  {
    EncListSnoc(EncChunk, blocks, b);
    Join2(count, EncList(EncChunk, blocks), EncChunk(b));
  }

  method EncodeChainPayload(blocks: seq<Option<Block>>) returns (payload: Text)
    ensures payload == EncChain(blocks)
  {
    payload := WriteValue([], U32_BYTES, |blocks|);
    ghost var count := Encode(U32_BYTES, |blocks|);
    assert blocks[..0] == [];
    for k := 0 to |blocks|
      invariant payload == count + EncList(EncChunk, Present(blocks[..k]))
    {
      assert blocks[..k + 1] == blocks[..k] + [blocks[k]];
      PresentSnoc(blocks[..k], blocks[k]);
      if blocks[k].None? {
        assert Present(blocks[..k + 1]) == Present(blocks[..k]);
      } else {
        var serialized := SerializeBlock(blocks[k].value);
        ChunkAppended(count, Present(blocks[..k]), blocks[k].value);
        payload := WriteText(payload, serialized);
      }
    }
    assert blocks[..|blocks|] == blocks;
  }

  method ReadChunk(payload: Text, offset: nat) returns (r: Result<Block>, next: nat)
    requires offset <= |payload|
    ensures Follows(GetChunk(payload[offset..]), r, payload, next)
  {
    var data, n := ReadText(MAX_BLOCK_SIZE, BadStringSize, payload, offset);
    next := n;
    if data.Err? { return Err(data.fault), next; }
    if data.value == [] { return Err(BadStringSize), next; }
    r := DeserializeBlock(WIRE, data.value);
  }

  method ReadChunkList(count: nat, payload: Text, offset: nat) returns (r: Result<seq<Block>>, next: nat)
    requires offset <= |payload|
    ensures Follows(GetList(GetChunk, count, payload[offset..]), r, payload, next)
  {
    ghost var get, start := GetChunk, payload[offset..];
    var blocks: seq<Block> := [];
    next := offset;
    for index := 0 to count
      invariant next <= |payload|
      invariant GetList(get, index, start) == Got(blocks, payload[next..])
    {
      OneMore(get, index, count, start, blocks, payload[next..], GetChunk(payload[next..]));
      var b, m := ReadChunk(payload, next);
      if b.Err? { return Err(b.fault), next; }
      blocks := blocks + [b.value];
      next := m;
    }
    r := Ok(blocks);
  }

  method DecodeChainPayload(payload: Text) returns (blocks: seq<Block>)
    ensures blocks == DecodeChain(payload)
  {
    assert payload[0..] == payload;
    var count, n := Read32(payload, 0);
    if count.Err? || count.value == 0 || count.value > MAX_CHAIN_BLOCKS { return []; }
    var list, offset := ReadChunkList(count.value, payload, n);
    if list.Err? || offset != |payload| { return []; }
    blocks := list.value;
  }

  // ---------- message frames ----------

  datatype Message = Message(kind: byte, payload: Text)

  /** `P2PMessage::serialize`: an oversized payload yields nothing. */
  function EncFrame(m: Message): Text
  {
    if |m.payload| > MAX_MESSAGE then [] else [m.kind] + EncBlob(m.payload)
  }

  /** What `receive_message` takes off a byte stream; `None` where it gives up. */
  function Receive(stream: Text): Option<(Message, Text)>
  {
    if |stream| < 5 then None
    else match GetBlob(MAX_MESSAGE, BadBytesSize, stream[1..])
         case Bad(_) => None
         case Got(payload, rest) => Some((Message(stream[0], payload), rest))
  }

  /** A sent frame is received as sent, leaving the rest of the stream. */
  lemma FrameRoundTrip(m: Message, rest: Text)
    requires |m.payload| <= MAX_MESSAGE
    ensures Receive(EncFrame(m) + rest) == Some((m, rest))
  {
    var blob := EncBlob(m.payload);
    GetBlobBack(MAX_MESSAGE, BadBytesSize, m.payload, rest);
    assert [m.kind] + blob + rest == [m.kind] + (blob + rest);
    assert ([m.kind] + (blob + rest))[1..] == blob + rest;
  }

  /** A received frame is what its sender serialized. */
  lemma FrameCanonical(stream: Text)
    ensures var r := Receive(stream);
            r.Some? ==> |r.value.0.payload| <= MAX_MESSAGE && stream == EncFrame(r.value.0) + r.value.1
  {
    var r := Receive(stream);
    if r.Some? {
      assert stream == [stream[0]] + stream[1..];
    }
  }

  // ---------- the answer to a request for blocks ----------

  /** The frame that answers GET_BLOCKS. */
  function Reply(kind: byte, chain: seq<Block>): Text
  {
    EncFrame(Message(kind, EncChain(Pointers(chain))))
  }

  /** What the asking peer makes of a frame. */
  function Delivered(frame: Text): seq<Block>
  {
    match Receive(frame)
    case None => []
    case Some((m, _)) => DecodeChain(m.payload)
  }

  lemma SmallReply(kind: byte, chain: seq<Block>)
    requires |EncChain(Pointers(chain))| <= MAX_MESSAGE
    ensures Delivered(Reply(kind, chain)) == DecodeChain(EncChain(Pointers(chain)))
  {
    FrameRoundTrip(Message(kind, EncChain(Pointers(chain))), []);
    assert Reply(kind, chain) + [] == Reply(kind, chain);
  }

  /** A chain reaches a peer exactly when it has 1 to 4096 blocks within the limits and its payload fits a message. */
  lemma ReplyReachesExactly(kind: byte, chain: seq<Block>)
    ensures chain != [] && Delivered(Reply(kind, chain)) == chain
       <==> && 0 < |chain| <= MAX_CHAIN_BLOCKS && AllOk(FitsChunk, chain)
            && |EncChain(Pointers(chain))| <= MAX_MESSAGE
  {
    var payload := EncChain(Pointers(chain));
    if |payload| <= MAX_MESSAGE {
      SmallReply(kind, chain);
      if 0 < |chain| <= MAX_CHAIN_BLOCKS && AllOk(FitsChunk, chain) {
        ChainRoundTrip(chain);
      }
      ChainCanonical(payload);
    }
  }
}
