/** Chunk items, the chunk list, and the translation of logical to physical addresses. */
module Chunks {
  import opened Bytes
  import opened Keys

  datatype Option<+T> = None | Some(value: T)

  datatype Stripe = Stripe(devid: u64, offset: u64, uuid: seq<byte>)

  datatype Chunk = Chunk(
    length: u64, owner: u64, stripeLen: u64, chunkType: u64,
    ioAlign: u32, ioWidth: u32, sectorSize: u32, numStripes: u16, subStripes: u16,
    stripe: Stripe)

  const STRIPE_SIZE := 32
  const CHUNK_SIZE := 80
  const UUID_SIZE := 16

  function LoadStripe(m: Memory, p: nat): Stripe {
    Stripe(Load64(m, p), Load64(m, p + 8), Slice(m, p + 16, UUID_SIZE))
  }

  function LoadChunk(m: Memory, p: nat): Chunk {
    Chunk(Load64(m, p), Load64(m, p + 8), Load64(m, p + 16), Load64(m, p + 24),
          Load32(m, p + 32), Load32(m, p + 36), Load32(m, p + 40), Load16(m, p + 44), Load16(m, p + 46),
          LoadStripe(m, p + 48))
  }

  function LoadStripes(m: Memory, p: nat, n: nat): (s: seq<Stripe>)
    ensures |s| == n
  {
    seq(n, i requires 0 <= i < n => LoadStripe(m, p + STRIPE_SIZE * i))
  }

  lemma LoadStripesSnoc(m: Memory, p: nat, n: nat)
    ensures LoadStripes(m, p, n + 1) == LoadStripes(m, p, n) + [LoadStripe(m, p + STRIPE_SIZE * n)]
  {
    hide LoadStripe;
  }

  // ---------------------------------------------------------------- list nodes

  /** What one node of the list keeps: `moreStripes` is None where the C pointer is null. */
  datatype Entry = Entry(key: Key, chunk: Chunk, moreStripes: Option<seq<Stripe>>)

  /** `num_stripes - 1` in 16 bits. */
  function AdditionalStripes(c: Chunk): u16 {
    (c.numStripes + 0xFFFF) % 0x1_0000
  }

  /** What the list keeps of the chunk item at address p. One additional stripe is not kept. */
  function EntryAt(m: Memory, key: Key, p: nat): Entry {
    var chunk := LoadChunk(m, p);
    var n := AdditionalStripes(chunk);
    Entry(key, chunk, if n > 1 then Some(LoadStripes(m, p + CHUNK_SIZE, n)) else None)
  }

  // ---------------------------------------------------------------- resolution

  /** Fault stands for a division by zero or for a read through the null stripe pointer. */
  datatype Resolution = Unmapped | Fault | At(addr: nat)

  predicate Covers(e: Entry, logical: nat) {
    e.key.offset <= logical && logical - e.key.offset < e.chunk.length
  }

  /** Where an offset in a chunk falls: which stripe, which row of it, where in the unit. */
  datatype Place = Place(stripeIndex: nat, row: nat, within: nat)

  lemma DivBounds(a: nat, d: nat)
    requires d > 0
    ensures (a / d) * d <= a < (a / d) * d + d
    ensures a / d >= 0
  {}

  function PlaceOf(stripeLen: nat, numStripes: nat, offset: nat): (p: Place)
    requires stripeLen > 0 && numStripes > 0
    ensures p.stripeIndex < numStripes && p.within < stripeLen
  {
    DivBounds(offset, stripeLen);
    var unit := offset / stripeLen;
    DivBounds(unit, numStripes);
    Place(unit % numStripes, unit / numStripes, offset - unit * stripeLen)
  }

  function StripeOf(e: Entry, index: nat): Option<Stripe> {
    if index == 0 then Some(e.chunk.stripe)
    else if e.moreStripes.Some? && index - 1 < |e.moreStripes.value| then Some(e.moreStripes.value[index - 1])
    else None
  }

  /** `btrfs_chunk_list_resolve_stripe`, as an address relative to `data`. */
  function ResolveStripe(e: Entry, offset: nat): (r: Resolution)
    ensures r != Unmapped
  {
    if e.chunk.stripeLen == 0 || e.chunk.numStripes == 0 then Fault else
    var p := PlaceOf(e.chunk.stripeLen, e.chunk.numStripes, offset);
    match StripeOf(e, p.stripeIndex)
    case None => Fault
    case Some(stripe) => At(stripe.offset + p.within + p.row * e.chunk.stripeLen)
  }

  function ResolveIn(e: Entry, logical: nat): Resolution
    requires Covers(e, logical)
  {
    ResolveStripe(e, logical - e.key.offset)
  }

  /** The first entry that covers the address decides. */
  function Resolve(entries: seq<Entry>, logical: nat): Resolution
    decreases |entries|
  {
    if entries == [] then Unmapped
    else if Covers(entries[0], logical) then ResolveIn(entries[0], logical)
    else Resolve(entries[1..], logical)
  }

  // ---------------------------------------------------------------- the linked list

  /** `struct btrfs_chunk_list`. A node is never changed after `btrfs_chunk_list_new` has
      filled it, so the list is a value; Nil is the null pointer. */
  datatype ChunkList = Nil | Node(key: Key, chunk: Chunk, moreStripes: Option<seq<Stripe>>, next: ChunkList)

  function Contents(list: ChunkList): (entries: seq<Entry>)
    ensures list.Node? <==> entries != []
  {
    match list
    case Nil => []
    case Node(key, chunk, more, next) => [Entry(key, chunk, more)] + Contents(next)
  }

  function Prepend(e: Entry, next: ChunkList): (list: ChunkList)
    ensures Contents(list) == [e] + Contents(next)
  {
    Node(e.key, e.chunk, e.moreStripes, next)
  }

  /** `btrfs_chunk_list_new`: the additional stripes are copied one by one. */
  method NewChunkList(m: Memory, key: Key, p: nat, next: ChunkList) returns (list: ChunkList)
    ensures list == Prepend(EntryAt(m, key, p), next)
  {
    hide LoadChunk, LoadStripe, LoadStripes;
    var chunk := LoadChunk(m, p);
    var additional := AdditionalStripes(chunk);
    var more: Option<seq<Stripe>> := None;
    if additional > 1 {
      var stripes := [];
      for i := 0 to additional
        invariant stripes == LoadStripes(m, p + CHUNK_SIZE, i)
      {
        LoadStripesSnoc(m, p + CHUNK_SIZE, i);
        stripes := stripes + [LoadStripe(m, p + CHUNK_SIZE + STRIPE_SIZE * i)];
      }
      more := Some(stripes);
    }
    list := Node(key, chunk, more, next);
  }

  /** `btrfs_chunk_list_resolve`. */
  method ResolveLogical(list: ChunkList, logical: nat) returns (r: Option<nat>)
    requires Resolve(Contents(list), logical) != Fault
    ensures r == match Resolve(Contents(list), logical) case At(a) => Some(a) case _ => None
  {
    hide ResolveStripe;
    var node := list;
    while node.Node?
      invariant Resolve(Contents(node), logical) == Resolve(Contents(list), logical)
      decreases node
    {
      if node.key.offset <= logical {
        var chunkOffset := logical - node.key.offset;
        if chunkOffset < node.chunk.length {
          break;
        }
      }
      assert Contents(node)[1..] == Contents(node.next);
      node := node.next;
    }
    if node.Nil? {
      return None;
    }
    r := ResolveStripeIn(Entry(node.key, node.chunk, node.moreStripes), logical - node.key.offset);
  }

  /** `btrfs_chunk_list_resolve_stripe`. */
  method ResolveStripeIn(node: Entry, offset: nat) returns (r: Option<nat>)
    requires ResolveStripe(node, offset) != Fault
    ensures r.Some?
    ensures ResolveStripe(node, offset) == At(r.value)
  {
    var stripeLen, numStripes := node.chunk.stripeLen, node.chunk.numStripes;
    var stripeNumber := offset / stripeLen;
    var logicalOffset := offset - stripeNumber * stripeLen;
    var stripeIndex := stripeNumber % numStripes;
    stripeNumber := stripeNumber / numStripes;
    var stripe;
    if stripeIndex == 0 {
      stripe := node.chunk.stripe;
    } else {
      stripe := node.moreStripes.value[stripeIndex - 1];
    }
    assert PlaceOf(stripeLen, numStripes, offset) == Place(stripeIndex, stripeNumber, logicalOffset);
    return Some(stripe.offset + logicalOffset + stripeNumber * stripeLen);
  }
}
