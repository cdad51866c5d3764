/** The system chunk array of the superblock: parsing undoes serialising. */
module SysArray {
  import opened Bytes
  import opened Keys
  import opened Chunks
  import opened Striping

  // ---------------------------------------------------------------- parsing

  /** `btrfs_chunk_size`: at least 48, also for the stripe count 0 that no valid chunk has. */
  function ChunkBytes(c: Chunk): nat {
    CHUNK_SIZE + STRIPE_SIZE * c.numStripes - STRIPE_SIZE
  }

  /** The entries in front of `acc` after the records from `pos` on, and the final cursor. */
  function SysEntries(m: Memory, base: nat, pos: nat, length: nat, acc: seq<Entry>): (seq<Entry>, nat)
    decreases length - pos
  {
    if pos >= length then (acc, pos) else
    var p := pos + KEY_SIZE;
    SysEntries(m, base, p + ChunkBytes(LoadChunk(m, base + p)), length,
               [EntryAt(m, LoadKey(m, base + pos), base + p)] + acc)
  }

  /** `btrfs_low_read_sys_array`, for the array at `base`; the cursor strictly advances on any bytes. */
  method ReadSysArray(m: Memory, base: nat, length: u32) returns (result: ChunkList, position: nat)
    ensures (Contents(result), position) == SysEntries(m, base, 0, length, [])
  {
    hide LoadKey, LoadChunk, EntryAt;
    position := 0;
    result := Nil;
    while position < length
      invariant SysEntries(m, base, 0, length, []) == SysEntries(m, base, position, length, Contents(result))
      decreases length - position
    {
      var key := LoadKey(m, base + position);
      position := position + KEY_SIZE;
      result := NewChunkList(m, key, base + position, result);
      position := position + ChunkBytes(LoadChunk(m, base + position));
    }
  }

  // ---------------------------------------------------------------- serialising

  function StoreStripe(s: Stripe): (b: seq<byte>)
    requires |s.uuid| == UUID_SIZE
    ensures |b| == STRIPE_SIZE
  {
    Store64(s.devid) + Store64(s.offset) + s.uuid
  }

  function StoreStripes(s: seq<Stripe>): (b: seq<byte>)
    requires forall i :: 0 <= i < |s| ==> |s[i].uuid| == UUID_SIZE
    ensures |b| == STRIPE_SIZE * |s|
    decreases |s|
  {
    if s == [] then [] else StoreStripe(s[0]) + StoreStripes(s[1..])
  }

  function StoreChunkHead(c: Chunk): (b: seq<byte>)
    ensures |b| == CHUNK_SIZE - STRIPE_SIZE
  {
    Store64(c.length) + (Store64(c.owner) + (Store64(c.stripeLen) + (Store64(c.chunkType)
      + (Store32(c.ioAlign) + (Store32(c.ioWidth) + (Store32(c.sectorSize)
      + (Store16(c.numStripes) + Store16(c.subStripes))))))))
  }

  predicate ValidRecord(r: Record) {
    && r.Valid()
    && |r.chunk.stripe.uuid| == UUID_SIZE
    && forall i :: 0 <= i < |r.extra| ==> |r.extra[i].uuid| == UUID_SIZE
  }

  function StoreRecord(r: Record): (b: seq<byte>)
    requires ValidRecord(r)
    ensures |b| == 65 + 32 * r.chunk.numStripes
  {
    StoreKey(r.key) + (StoreChunkHead(r.chunk) + (StoreStripe(r.chunk.stripe) + StoreStripes(r.extra)))
  }

  function StoreRecords(rs: seq<Record>): seq<byte>
    requires forall i :: 0 <= i < |rs| ==> ValidRecord(rs[i])
    decreases |rs|
  {
    if rs == [] then [] else StoreRecord(rs[0]) + StoreRecords(rs[1..])
  }

  // ---------------------------------------------------------------- round trip

  lemma LoadStoreStripe(m: Memory, p: nat, s: Stripe)
    requires |s.uuid| == UUID_SIZE
    requires Holds(m, p, StoreStripe(s))
    ensures LoadStripe(m, p) == s
  {
    HoldsSplit(m, p, Store64(s.devid) + Store64(s.offset), s.uuid);
    HoldsSplit(m, p, Store64(s.devid), Store64(s.offset));
    LoadStore64(m, p, s.devid);
    LoadStore64(m, p + 8, s.offset);
    SliceHolds(m, p + 16, s.uuid);
  }

  lemma {:induction false} LoadStoreStripes(m: Memory, p: nat, s: seq<Stripe>)
    requires forall i :: 0 <= i < |s| ==> |s[i].uuid| == UUID_SIZE
    requires Holds(m, p, StoreStripes(s))
    ensures LoadStripes(m, p, |s|) == s
    decreases |s|
  {
    hide LoadStripe, StoreStripe;
    if s != [] {
      HoldsSplit(m, p, StoreStripe(s[0]), StoreStripes(s[1..]));
      LoadStoreStripe(m, p, s[0]);
      LoadStoreStripes(m, p + STRIPE_SIZE, s[1..]);
      var l := LoadStripes(m, p, |s|);
      forall i | 0 <= i < |s| ensures l[i] == s[i] {
        if i > 0 {
          assert LoadStripes(m, p + STRIPE_SIZE, |s| - 1)[i - 1] == s[1..][i - 1];
          assert p + STRIPE_SIZE + STRIPE_SIZE * (i - 1) == p + STRIPE_SIZE * i;
        }
      }
    }
  }

  lemma LoadStoreChunk(m: Memory, p: nat, c: Chunk)
    requires |c.stripe.uuid| == UUID_SIZE
    requires Holds(m, p, StoreChunkHead(c)) && Holds(m, p + 48, StoreStripe(c.stripe))
    ensures LoadChunk(m, p) == c
  {
    hide Load64, Load32, Load16, LoadStripe, StoreStripe, Store64, Store32, Store16;
    var t8 := Store16(c.numStripes) + Store16(c.subStripes);
    var t7 := Store32(c.sectorSize) + t8;
    var t6 := Store32(c.ioWidth) + t7;
    var t5 := Store32(c.ioAlign) + t6;
    var t4 := Store64(c.chunkType) + t5;
    var t3 := Store64(c.stripeLen) + t4;
    var t2 := Store64(c.owner) + t3;
    HoldsSplit(m, p, Store64(c.length), t2);
    HoldsSplit(m, p + 8, Store64(c.owner), t3);
    HoldsSplit(m, p + 16, Store64(c.stripeLen), t4);
    HoldsSplit(m, p + 24, Store64(c.chunkType), t5);
    HoldsSplit(m, p + 32, Store32(c.ioAlign), t6);
    HoldsSplit(m, p + 36, Store32(c.ioWidth), t7);
    HoldsSplit(m, p + 40, Store32(c.sectorSize), t8);
    HoldsSplit(m, p + 44, Store16(c.numStripes), Store16(c.subStripes));
    LoadStore64(m, p, c.length);
    LoadStore64(m, p + 8, c.owner);
    LoadStore64(m, p + 16, c.stripeLen);
    LoadStore64(m, p + 24, c.chunkType);
    LoadStore32(m, p + 32, c.ioAlign);
    LoadStore32(m, p + 36, c.ioWidth);
    LoadStore32(m, p + 40, c.sectorSize);
    LoadStore16(m, p + 44, c.numStripes);
    LoadStore16(m, p + 46, c.subStripes);
    LoadStoreStripe(m, p + 48, c.stripe);
  }

  /** A serialised record is read back as its key, its size and the list node made of it. */
  lemma LoadStoreRecord(m: Memory, p: nat, r: Record)
    requires ValidRecord(r)
    requires Holds(m, p, StoreRecord(r))
    ensures LoadKey(m, p) == r.key
    ensures KEY_SIZE + ChunkBytes(LoadChunk(m, p + KEY_SIZE)) == |StoreRecord(r)|
    ensures EntryAt(m, r.key, p + KEY_SIZE) == r.Stored()
  {
    hide LoadKey, StoreKey, LoadChunk, StoreChunkHead, StoreStripe, StoreStripes, LoadStripes;
    var stripes := StoreStripe(r.chunk.stripe) + StoreStripes(r.extra);
    HoldsSplit(m, p, StoreKey(r.key), StoreChunkHead(r.chunk) + stripes);
    HoldsSplit(m, p + 17, StoreChunkHead(r.chunk), stripes);
    HoldsSplit(m, p + 65, StoreStripe(r.chunk.stripe), StoreStripes(r.extra));
    LoadStoreKey(m, p, r.key);
    LoadStoreChunk(m, p + 17, r.chunk);
    LoadStoreStripes(m, p + 97, r.extra);
  }

  function StoredReversed(rs: seq<Record>): seq<Entry>
    decreases |rs|
  {
    if rs == [] then [] else StoredReversed(rs[1..]) + [rs[0].Stored()]
  }

  lemma {:induction false} ParseFrom(m: Memory, base: nat, pos: nat, rs: seq<Record>, acc: seq<Entry>)
    requires forall i :: 0 <= i < |rs| ==> ValidRecord(rs[i])
    requires Holds(m, base + pos, StoreRecords(rs))
    ensures var length := pos + |StoreRecords(rs)|;
            SysEntries(m, base, pos, length, acc) == (StoredReversed(rs) + acc, length)
    decreases |rs|
  {
    hide LoadKey, LoadChunk, EntryAt, StoreRecord, ValidRecord, Record.Stored;
    if rs == [] {
      assert StoredReversed(rs) + acc == acc;
    } else {
      var head, tail := StoreRecord(rs[0]), StoreRecords(rs[1..]);
      HoldsSplit(m, base + pos, head, tail);
      LoadStoreRecord(m, base + pos, rs[0]);
      var acc' := [rs[0].Stored()] + acc;
      ParseFrom(m, base, pos + |head|, rs[1..], acc');
      assert StoredReversed(rs) + acc == StoredReversed(rs[1..]) + acc';
    }
  }

  /** Parsing the serialised array gives the list nodes of its records, last record first, and
      leaves the cursor exactly at the end. */
  lemma ParseInvertsStore(m: Memory, base: nat, rs: seq<Record>)
    requires forall i :: 0 <= i < |rs| ==> ValidRecord(rs[i])
    requires Holds(m, base, StoreRecords(rs))
    ensures SysEntries(m, base, 0, |StoreRecords(rs)|, []) == (StoredReversed(rs), |StoreRecords(rs)|)
  {
    ParseFrom(m, base, 0, rs, []);
    assert StoredReversed(rs) + [] == StoredReversed(rs);
  }

  /** The stripes of a record survive if and only if it does not have exactly two. */
  lemma StripesSurviveIff(r: Record)
    requires r.Valid()
    ensures (forall i: nat :: i < r.chunk.numStripes ==> StripeOf(r.Stored(), i) == Some(r.StripeAt(i)))
       <==> r.chunk.numStripes != 2
  {
    if r.chunk.numStripes == 2 {
      assert StripeOf(r.Stored(), 1) == None;
    }
  }

  lemma {:induction false} StoredReversedAt(rs: seq<Record>, i: nat)
    requires i < |rs|
    ensures |StoredReversed(rs)| == |rs| && StoredReversed(rs)[i] == rs[|rs| - 1 - i].Stored()
    decreases |rs|
  {
    hide Record.Stored;
    if i < |rs| - 1 {
      StoredReversedAt(rs[1..], i);
    } else if |rs| > 1 {
      StoredReversedAt(rs[1..], 0);
    }
  }

  /** No two records of the array map the same address. */
  ghost predicate RangesDisjoint(rs: seq<Record>) {
    forall i, j, a: nat :: 0 <= i < j < |rs| ==> !(Covers(rs[i].Stored(), a) && Covers(rs[j].Stored(), a))
  }

  lemma StoredConsistent(rs: seq<Record>)
    requires RangesDisjoint(rs)
    ensures Consistent(StoredReversed(rs))
  {
    hide Covers, ResolveIn, StoredReversed, Record.Stored;
    var entries := StoredReversed(rs);
    forall e, f, a: nat | e in entries && f in entries ensures Agree(e, f, a) {
      var x :| 0 <= x < |entries| && entries[x] == e;
      var y :| 0 <= y < |entries| && entries[y] == f;
      StoredReversedLength(rs);
      StoredReversedAt(rs, x);
      StoredReversedAt(rs, y);
      var i, j := |rs| - 1 - x, |rs| - 1 - y;
      if i < j {
        assert !(Covers(rs[i].Stored(), a) && Covers(rs[j].Stored(), a));
      } else if j < i {
        assert !(Covers(rs[j].Stored(), a) && Covers(rs[i].Stored(), a));
      }
    }
  }

  lemma {:induction false} StoredReversedLength(rs: seq<Record>)
    ensures |StoredReversed(rs)| == |rs|
    decreases |rs|
  {
    hide Record.Stored;
    if rs != [] {
      StoredReversedLength(rs[1..]);
    }
  }

  /** In the list made of disjoint chunks every address of every chunk resolves as its record says,
      unless the chunk has two stripes. */
  lemma StoredReversedResolves(rs: seq<Record>, i: nat, logical: nat)
    requires RangesDisjoint(rs)
    requires i < |rs| && rs[i].Valid() && rs[i].chunk.stripeLen > 0 && rs[i].chunk.numStripes != 2
    requires rs[i].key.offset <= logical < rs[i].key.offset + rs[i].chunk.length
    ensures Resolve(StoredReversed(rs), logical) == At(rs[i].Address(logical - rs[i].key.offset))
  {
    hide StoredReversed, RangesDisjoint, Consistent, Governs, Resolve, Record.Address, Record.Stored;
    StoredConsistent(rs);
    StoredReversedAt(rs, |rs| - 1 - i);
    assert rs[i].Stored() == StoredReversed(rs)[|rs| - 1 - i];
    MembersGovern(StoredReversed(rs), rs[i].Stored());
    GovernedAddress(StoredReversed(rs), rs[i], logical);
  }

  /** From bytes to addresses: after a serialised array of disjoint chunks has been parsed, every
      address of every chunk resolves as its record says, unless the chunk has two stripes. */
  lemma ParsedArrayResolves(m: Memory, base: nat, rs: seq<Record>, i: nat, logical: nat)
    requires forall k :: 0 <= k < |rs| ==> ValidRecord(rs[k])
    requires Holds(m, base, StoreRecords(rs))
    requires RangesDisjoint(rs)
    requires i < |rs| && rs[i].chunk.stripeLen > 0 && rs[i].chunk.numStripes != 2
    requires rs[i].key.offset <= logical < rs[i].key.offset + rs[i].chunk.length
    ensures Resolve(SysEntries(m, base, 0, |StoreRecords(rs)|, []).0, logical) ==
            At(rs[i].Address(logical - rs[i].key.offset))
  {
    hide StoreRecords, StoredReversed, SysEntries, RangesDisjoint, Resolve, Record.Address;
    ParseInvertsStore(m, base, rs);
    assert ValidRecord(rs[i]);
    StoredReversedResolves(rs, i, logical);
  }
}
