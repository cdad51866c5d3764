/** The stripe map is a bijection, and a chunk list maps no two logical addresses to one byte. */
module Striping {
  import opened Bytes
  import opened Keys
  import opened Chunks

  // ---------------------------------------------------------------- the stripe map

  function OffsetAt(stripeLen: nat, numStripes: nat, p: Place): nat {
    (p.row * numStripes + p.stripeIndex) * stripeLen + p.within
  }

  lemma DivModUnique(q: nat, r: nat, d: nat)
    requires r < d
    ensures (q * d + r) / d == q && (q * d + r) % d == r
  {
    var a := q * d + r;
    DivBounds(a, d);
    if a / d < q {
      MulAtMost(a / d + 1, q, d);
      assert false;
    } else if a / d > q {
      MulAtMost(q + 1, a / d, d);
      assert false;
    }
    assert a % d == a - (a / d) * d;
  }

  lemma MulAtMost(a: nat, b: nat, d: nat)
    requires a <= b
    ensures a * d <= b * d
  {}

  /** The offset is recovered from its place. */
  lemma PlaceThenOffset(stripeLen: nat, numStripes: nat, offset: nat)
    requires stripeLen > 0 && numStripes > 0
    ensures OffsetAt(stripeLen, numStripes, PlaceOf(stripeLen, numStripes, offset)) == offset
  {
    var unit := offset / stripeLen;
    assert unit == (unit / numStripes) * numStripes + unit % numStripes;
  }

  /** Every place of a chunk is the place of exactly the offset it spells. */
  lemma OffsetThenPlace(stripeLen: nat, numStripes: nat, p: Place)
    requires p.stripeIndex < numStripes && p.within < stripeLen
    ensures PlaceOf(stripeLen, numStripes, OffsetAt(stripeLen, numStripes, p)) == p
  {
    var unit := p.row * numStripes + p.stripeIndex;
    DivModUnique(unit, p.within, stripeLen);
    DivModUnique(p.row, p.stripeIndex, numStripes);
  }

  /** Addresses of one stripe unit stay adjacent. */
  lemma UnitIsAdjacent(stripeLen: nat, numStripes: nat, offset: nat, k: nat)
    requires stripeLen > 0 && numStripes > 0
    requires offset / stripeLen == (offset + k) / stripeLen
    ensures var p := PlaceOf(stripeLen, numStripes, offset);
            PlaceOf(stripeLen, numStripes, offset + k) == p.(within := p.within + k)
  {}

  /** Hence an extent that lies in one stripe unit, or anywhere in a chunk of one stripe, is
      contiguous on the device. */
  lemma ContiguousInUnit(e: Entry, offset: nat, k: nat)
    requires ResolveStripe(e, offset) != Fault
    requires e.chunk.numStripes == 1 || offset / e.chunk.stripeLen == (offset + k) / e.chunk.stripeLen
    ensures ResolveStripe(e, offset).At? && ResolveStripe(e, offset + k) == At(ResolveStripe(e, offset).addr + k)
  {
    var stripeLen, numStripes := e.chunk.stripeLen, e.chunk.numStripes;
    if numStripes == 1 {
      PlaceThenOffset(stripeLen, 1, offset);
      PlaceThenOffset(stripeLen, 1, offset + k);
    } else {
      UnitIsAdjacent(stripeLen, numStripes, offset, k);
    }
  }

  // ---------------------------------------------------------------- stripes kept by the list

  /** A chunk item as it is on disk, with all its stripes. */
  datatype Record = Record(key: Key, chunk: Chunk, extra: seq<Stripe>) {
    predicate Valid() {
      && chunk.numStripes >= 1
      && |extra| == chunk.numStripes - 1
    }

    /** What `btrfs_chunk_list_new` keeps of it. */
    function Stored(): Entry {
      Entry(key, chunk, if |extra| > 1 then Some(extra) else None)
    }

    function StripeAt(i: nat): Stripe
      requires i <= |extra|
    {
      if i == 0 then chunk.stripe else extra[i - 1]
    }

    /** The device address the chunk item assigns to an offset. */
    function Address(offset: nat): nat
      requires Valid() && chunk.stripeLen > 0
    {
      var p := PlaceOf(chunk.stripeLen, chunk.numStripes, offset);
      StripeAt(p.stripeIndex).offset + p.within + p.row * chunk.stripeLen
    }
  }

  /** The list resolves an offset as the chunk item says, except for the odd units of a chunk
      of exactly two stripes, where it goes through a null pointer. */
  lemma StoredResolves(r: Record, offset: nat)
    requires r.Valid() && r.chunk.stripeLen > 0
    ensures ResolveStripe(r.Stored(), offset) ==
            if r.chunk.numStripes == 2 && (offset / r.chunk.stripeLen) % 2 == 1 then Fault else At(r.Address(offset))
  {}

  /** A whole chunk is resolved correctly if and only if it does not have two stripes or does
      not reach its second unit. */
  lemma ChunkResolvesIff(r: Record)
    requires r.Valid() && r.chunk.stripeLen > 0
    ensures (forall offset: nat :: offset < r.chunk.length ==>
            ResolveStripe(r.Stored(), offset) == At(r.Address(offset)))
       <==> r.chunk.numStripes != 2 || r.chunk.length <= r.chunk.stripeLen
  {
    forall offset: nat | offset < r.chunk.length
      ensures ResolveStripe(r.Stored(), offset) == At(r.Address(offset))
           || (r.chunk.numStripes == 2 && r.chunk.length > r.chunk.stripeLen)
    {
      StoredResolves(r, offset);
      if r.chunk.length <= r.chunk.stripeLen {
        DivModUnique(0, offset, r.chunk.stripeLen);
      }
    }
    if r.chunk.numStripes == 2 && r.chunk.length > r.chunk.stripeLen {
      StoredResolves(r, r.chunk.stripeLen);
      DivModUnique(1, 0, r.chunk.stripeLen);
      assert ResolveStripe(r.Stored(), r.chunk.stripeLen) == Fault;
    }
  }

  /** Two stripes of 64 KiB units. */
  function TwoStripes(uuid: seq<byte>): Record {
    Record(Key(256, CHUNK_ITEM, 0),
           Chunk(0x20000, 2, 0x10000, 9, 0x10000, 0x10000, 0x1000, 2, 0, Stripe(1, 0x100000, uuid)),
           [Stripe(1, 0x200000, uuid)])
  }

  /** Such a chunk faults at its second unit, which it places at 0x200000. */
  lemma TwoStripesFault(uuid: seq<byte>)
    ensures TwoStripes(uuid).Valid()
    ensures ResolveStripe(TwoStripes(uuid).Stored(), 0x10000) == Fault
  {
    var r := TwoStripes(uuid);
    assert r.Valid() && r.chunk.stripeLen == 0x10000 && r.chunk.numStripes == 2;
    hide ResolveStripe, PlaceOf, TwoStripes;
    StoredResolves(r, 0x10000);
  }

  lemma SecondUnitPlace(len: nat, n: nat)
    requires len > 0 && n >= 2
    ensures PlaceOf(len, n, len) == Place(1, 0, 0)
  {
    DivModUnique(1, 0, len);
    DivModUnique(0, 1, n);
  }

  lemma SecondUnit(r: Record)
    requires r.Valid() && r.chunk.stripeLen > 0 && r.chunk.numStripes == 2
    ensures r.Address(r.chunk.stripeLen) == r.extra[0].offset
  {
    hide PlaceOf;
    SecondUnitPlace(r.chunk.stripeLen, 2);
  }

  lemma TwoStripesAddress(uuid: seq<byte>)
    ensures TwoStripes(uuid).Valid()
    ensures TwoStripes(uuid).Address(0x10000) == 0x200000
  {
    var r := TwoStripes(uuid);
    assert r.Valid() && r.chunk.stripeLen == 0x10000 && r.chunk.numStripes == 2 && r.extra[0].offset == 0x200000;
    hide Record.Address, TwoStripes;
    SecondUnit(r);
  }

  // ---------------------------------------------------------------- injectivity

  /** All stripes are there and the length is a whole number of rows. */
  predicate Complete(e: Entry) {
    && e.chunk.stripeLen > 0
    && e.chunk.numStripes > 0
    && (forall i: nat :: i < e.chunk.numStripes ==> StripeOf(e, i).Some?)
    && e.chunk.length % (e.chunk.numStripes * e.chunk.stripeLen) == 0
  }

  /** The bytes of the device that belong to one stripe of the chunk. */
  function Share(e: Entry): nat
    requires e.chunk.numStripes > 0
  {
    e.chunk.length / e.chunk.numStripes
  }

  function AreaStart(e: Entry, i: nat): nat
    requires Complete(e) && i < e.chunk.numStripes
  {
    StripeOf(e, i).value.offset
  }

  predicate Apart(e: Entry, i: nat, f: Entry, j: nat)
    requires Complete(e) && Complete(f) && i < e.chunk.numStripes && j < f.chunk.numStripes
  {
    AreaStart(e, i) + Share(e) <= AreaStart(f, j) || AreaStart(f, j) + Share(f) <= AreaStart(e, i)
  }

  /** The areas of two stripes are apart, unless they are one stripe of one entry. A list may hold
      an entry more than once. */
  ghost predicate AreasDisjoint(entries: seq<Entry>) {
    && (forall e :: e in entries ==> Complete(e))
    && (forall e, f, i: nat, j: nat ::
         e in entries && f in entries && (e != f || i != j) && i < e.chunk.numStripes && j < f.chunk.numStripes
         ==> Apart(e, i, f, j))
  }

  /** This depends only on which entries there are. */
  lemma AreasOfSameEntries(xs: seq<Entry>, ys: seq<Entry>)
    requires forall e :: e in xs <==> e in ys
    ensures AreasDisjoint(xs) <==> AreasDisjoint(ys)
  {
    hide Complete, Apart;
  }

  function Displacement(e: Entry, p: Place): nat { p.within + p.row * e.chunk.stripeLen }

  lemma RowBound(len: nat, n: nat, rows: nat, p: Place)
    requires OffsetAt(len, n, p) < (rows * n) * len
    ensures p.row < rows
  {
    if rows <= p.row {
      MulAtMost(rows, p.row, n);
      MulAtMost(rows * n, p.row * n + p.stripeIndex, len);
    }
  }

  lemma WholeRows(length: nat, n: nat, len: nat) returns (rows: nat)
    requires n > 0 && len > 0 && length % (n * len) == 0
    ensures length == (rows * n) * len && length / n == rows * len
  {
    rows := length / (n * len);
    assert length == rows * (n * len);
    assert rows * (n * len) == (rows * n) * len == (rows * len) * n;
    DivModUnique(rows * len, 0, n);
  }

  lemma RowFits(len: nat, rows: nat, p: Place)
    requires p.row < rows && p.within < len
    ensures p.within + p.row * len < rows * len
  {
    MulAtMost(p.row + 1, rows, len);
    assert (p.row + 1) * len == p.row * len + len;
  }

  lemma PlaceFits(len: nat, n: nat, rows: nat, offset: nat)
    requires len > 0 && n > 0 && offset < (rows * n) * len
    ensures PlaceOf(len, n, offset).within + PlaceOf(len, n, offset).row * len < rows * len
  {
    PlaceThenOffset(len, n, offset);
    hide PlaceOf;
    RowBound(len, n, rows, PlaceOf(len, n, offset));
    RowFits(len, rows, PlaceOf(len, n, offset));
  }

  /** Every offset of a complete chunk lands inside its stripe's own share. */
  lemma StaysInShare(e: Entry, offset: nat)
    requires Complete(e) && offset < e.chunk.length
    ensures Displacement(e, PlaceOf(e.chunk.stripeLen, e.chunk.numStripes, offset)) < Share(e)
  {
    hide PlaceOf;
    var rows := WholeRows(e.chunk.length, e.chunk.numStripes, e.chunk.stripeLen);
    PlaceFits(e.chunk.stripeLen, e.chunk.numStripes, rows, offset);
  }

  lemma ResolvedPlace(e: Entry, offset: nat)
    requires Complete(e) && offset < e.chunk.length
    ensures var p := PlaceOf(e.chunk.stripeLen, e.chunk.numStripes, offset);
            ResolveStripe(e, offset) == At(AreaStart(e, p.stripeIndex) + Displacement(e, p))
  {
    hide PlaceOf;
    assert StripeOf(e, PlaceOf(e.chunk.stripeLen, e.chunk.numStripes, offset).stripeIndex).Some?;
  }

  ghost function FirstCover(entries: seq<Entry>, logical: nat): (x: nat)
    requires Resolve(entries, logical) != Unmapped
    ensures x < |entries| && Covers(entries[x], logical)
    ensures Resolve(entries, logical) == ResolveIn(entries[x], logical)
    decreases |entries|
  {
    if Covers(entries[0], logical) then 0 else 1 + FirstCover(entries[1..], logical)
  }

  /** Two different mapped logical addresses never share a device byte. */
  lemma ResolveInjective(entries: seq<Entry>, a: nat, b: nat)
    requires AreasDisjoint(entries)
    requires a != b
    requires Resolve(entries, a) != Unmapped && Resolve(entries, b) != Unmapped
    ensures Resolve(entries, a).At? && Resolve(entries, b).At?
    ensures Resolve(entries, a) != Resolve(entries, b)
  {
    hide Resolve, ResolveStripe, PlaceOf, Complete, Share, AreaStart, OffsetAt;
    var x, y := FirstCover(entries, a), FirstCover(entries, b);
    var e, f := entries[x], entries[y];
    var oa, ob := a - e.key.offset, b - f.key.offset;
    assert e in entries && f in entries;
    Positive(e);
    Positive(f);
    var p := PlaceOf(e.chunk.stripeLen, e.chunk.numStripes, oa);
    var q := PlaceOf(f.chunk.stripeLen, f.chunk.numStripes, ob);
    ResolvedPlace(e, oa);
    ResolvedPlace(f, ob);
    StaysInShare(e, oa);
    StaysInShare(f, ob);
    if e != f || p.stripeIndex != q.stripeIndex {
      assert Apart(e, p.stripeIndex, f, q.stripeIndex);
    } else if Resolve(entries, a) == Resolve(entries, b) {
      DisplacementUnique(e.chunk.stripeLen, p, q);
      PlaceThenOffset(e.chunk.stripeLen, e.chunk.numStripes, oa);
      PlaceThenOffset(e.chunk.stripeLen, e.chunk.numStripes, ob);
      assert false;
    }
  }

  lemma Positive(e: Entry)
    requires Complete(e)
    ensures e.chunk.stripeLen > 0 && e.chunk.numStripes > 0
  {}

  lemma DisplacementUnique(stripeLen: nat, p: Place, q: Place)
    requires p.within < stripeLen && q.within < stripeLen
    requires p.within + p.row * stripeLen == q.within + q.row * stripeLen
    ensures p.within == q.within && p.row == q.row
  {
    DivModUnique(p.row, p.within, stripeLen);
    DivModUnique(q.row, q.within, stripeLen);
  }

  // ---------------------------------------------------------------- extents of a striped chunk

  ghost predicate StripesApart(e: Entry) {
    && Complete(e)
    && forall i: nat, j: nat :: i != j && i < e.chunk.numStripes && j < e.chunk.numStripes ==> Apart(e, i, e, j)
  }

  lemma NextUnit(n: nat, q: nat, r: nat, row: nat)
    requires r < n && q == row * n + r
    ensures q % n == r && q / n == row
    ensures if r + 1 < n then (q + 1) % n == r + 1 && (q + 1) / n == row else (q + 1) % n == 0 && (q + 1) / n == row + 1
  {
    DivModUnique(row, r, n);
    if r + 1 < n {
      DivModUnique(row, r + 1, n);
    } else {
      DivModUnique(row + 1, 0, n);
    }
  }

  /** The places of the last byte of unit q = row * n + r and of the byte behind it. */
  lemma UnitEndPlaces(len: nat, n: nat, q: nat, r: nat, row: nat, end: nat)
    requires len > 0 && r < n && q == row * n + r && end == (q + 1) * len
    ensures end >= len
    ensures PlaceOf(len, n, end - 1) == Place(r, row, len - 1)
    ensures PlaceOf(len, n, end) == if r + 1 < n then Place(r + 1, row, 0) else Place(0, row + 1, 0)
  {
    NextUnit(n, q, r, row);
    assert end == q * len + len;
    DivModUnique(q, len - 1, len);
    DivModUnique(q + 1, 0, len);
  }

  /** In a chunk of several stripes and several rows the last byte of a unit and the byte behind
      it are never adjacent on the device. */
  lemma UnitEndBreaks(e: Entry, q: nat, end: nat)
    requires StripesApart(e) && e.chunk.numStripes >= 2
    requires Share(e) >= 2 * e.chunk.stripeLen
    requires end == (q + 1) * e.chunk.stripeLen && 1 <= end < e.chunk.length
    ensures ResolveStripe(e, end - 1).At? && ResolveStripe(e, end).At?
    ensures ResolveStripe(e, end).addr != ResolveStripe(e, end - 1).addr + 1
  {
    Positive(e);
    var len, n := e.chunk.stripeLen, e.chunk.numStripes;
    var r, row := UnitParts(q, n);
    UnitEndPlaces(len, n, q, r, row, end);
    var next := if r + 1 < n then Place(r + 1, row, 0) else Place(0, row + 1, 0);
    assert Apart(e, r, e, next.stripeIndex);
    hide StripesApart, Complete, ResolveStripe, PlaceOf, AreaStart, Share;
    ResolvedPlace(e, end - 1);
    ResolvedPlace(e, end);
    assert (row + 1) * len == row * len + len;
    NotAdjacent(AreaStart(e, r), AreaStart(e, next.stripeIndex), Share(e), len,
                Displacement(e, Place(r, row, len - 1)), Displacement(e, next));
  }

  lemma UnitParts(q: nat, n: nat) returns (r: nat, row: nat)
    requires n > 0
    ensures r < n && q == row * n + r
  {
    DivBounds(q, n);
    r, row := q % n, q / n;
  }

  lemma NotAdjacent(a: nat, b: nat, share: nat, len: nat, here: nat, next: nat)
    requires len > 0 && share >= 2 * len
    requires a + share <= b || b + share <= a
    requires next == here + 1 - len || next == here + 1
    ensures b + next != a + here + 1
  {}

  lemma UnitEndBetween(len: nat, offset: nat, last: nat) returns (q: nat)
    requires len > 0 && offset <= last && offset / len != last / len
    ensures q == offset / len
    ensures 1 <= (q + 1) * len && offset < (q + 1) * len <= last
  {
    q := offset / len;
    DivBounds(offset, len);
    DivBounds(last, len);
    assert (q + 1) * len == q * len + len;
    if last / len < q {
      MulAtMost(last / len + 1, q, len);
    } else {
      MulAtMost(q + 1, last / len, len);
    }
  }

  /** In such a chunk a run of addresses is in one piece on the device if and only if it lies in
      one stripe unit. */
  lemma StripedExtentIff(e: Entry, offset: nat, length: nat)
    requires StripesApart(e) && e.chunk.numStripes >= 2
    requires Share(e) >= 2 * e.chunk.stripeLen
    requires length > 0 && offset + length <= e.chunk.length
    ensures (forall i: nat :: i < length ==> InPiece(e, offset, i))
       <==> offset / e.chunk.stripeLen == (offset + length - 1) / e.chunk.stripeLen
  {
    Positive(e);
    ResolvedPlace(e, offset);
    var len, last := e.chunk.stripeLen, offset + length - 1;
    hide StripesApart, Complete, ResolveStripe, Share, PlaceOf;
    if offset / len == last / len {
      forall i: nat | i < length ensures InPiece(e, offset, i) {
        SameUnit(offset, i, length - 1, len);
        ContiguousInUnit(e, offset, i);
      }
    } else {
      var q := UnitEndBetween(len, offset, last);
      UnitEndBreaks(e, q, (q + 1) * len);
      var i := (q + 1) * len - 1 - offset;
      assert !(InPiece(e, offset, i) && InPiece(e, offset, i + 1));
    }
  }

  lemma SameUnit(offset: nat, i: nat, j: nat, len: nat)
    requires i <= j && len > 0
    requires offset / len == (offset + j) / len
    ensures offset / len == (offset + i) / len
  {
    DivBounds(offset, len);
    DivBounds(offset + j, len);
    var q := offset / len;
    DivModUnique(q, offset + i - q * len, len);
  }

  predicate InPiece(e: Entry, offset: nat, i: nat) {
    ResolveStripe(e, offset).At? && ResolveStripe(e, offset + i) == At(ResolveStripe(e, offset).addr + i)
  }

  /** In a chunk of a single row, unit u is stripe u. */
  lemma OneRowPlace(e: Entry, u: nat, w: nat, offset: nat)
    requires Complete(e) && u < e.chunk.numStripes && w < e.chunk.stripeLen
    requires offset == u * e.chunk.stripeLen + w && offset < e.chunk.length
    ensures ResolveStripe(e, offset) == At(AreaStart(e, u) + w)
  {
    Positive(e);
    DivModUnique(u, w, e.chunk.stripeLen);
    DivModUnique(0, u, e.chunk.numStripes);
    assert PlaceOf(e.chunk.stripeLen, e.chunk.numStripes, offset) == Place(u, 0, w);
    hide Complete, ResolveStripe, PlaceOf, AreaStart;
    ResolvedPlace(e, offset);
    assert Displacement(e, Place(u, 0, w)) == w;
  }

  predicate Neighbours(e: Entry, u: nat)
    requires Complete(e) && u + 1 < e.chunk.numStripes
  {
    AreaStart(e, u + 1) == AreaStart(e, u) + e.chunk.stripeLen
  }

  /** The areas of stripes first to last stand one behind the other on the device. */
  ghost predicate AreasFollow(e: Entry, first: int, last: int)
    requires Complete(e)
  {
    forall q: nat :: first <= q < last && q + 1 < e.chunk.numStripes ==> Neighbours(e, q)
  }

  lemma {:induction false} NeighboursChain(e: Entry, first: nat, u: nat)
    requires Complete(e) && first <= u < e.chunk.numStripes
    requires forall q: nat :: first <= q < u ==> Neighbours(e, q)
    ensures AreaStart(e, u) + first * e.chunk.stripeLen == AreaStart(e, first) + u * e.chunk.stripeLen
    decreases u - first
  {
    hide AreaStart;
    if first < u {
      NeighboursChain(e, first, u - 1);
      assert Neighbours(e, u - 1);
      assert u * e.chunk.stripeLen == (u - 1) * e.chunk.stripeLen + e.chunk.stripeLen;
    }
  }

  lemma OneRowUnit(e: Entry, offset: nat) returns (u: nat, w: nat)
    requires Complete(e) && e.chunk.length == e.chunk.numStripes * e.chunk.stripeLen && offset < e.chunk.length
    ensures u == offset / e.chunk.stripeLen && u < e.chunk.numStripes && w < e.chunk.stripeLen
    ensures offset == u * e.chunk.stripeLen + w
    ensures ResolveStripe(e, offset) == At(AreaStart(e, u) + w)
  {
    var len := e.chunk.stripeLen;
    Positive(e);
    DivBounds(offset, len);
    u := offset / len;
    w := offset - u * len;
    if u >= e.chunk.numStripes { MulAtMost(e.chunk.numStripes, u, len); }
    hide Complete, ResolveStripe, AreaStart;
    OneRowPlace(e, u, w, offset);
  }

  /** In a chunk of a single row a run of addresses is in one piece if and only if the areas of
      the stripes it touches follow each other on the device. */
  lemma OneRowExtentIff(e: Entry, offset: nat, length: nat)
    requires Complete(e) && e.chunk.length == e.chunk.numStripes * e.chunk.stripeLen
    requires length > 0 && offset + length <= e.chunk.length
    ensures (forall i: nat :: i < length ==> InPiece(e, offset, i))
       <==> AreasFollow(e, offset / e.chunk.stripeLen, (offset + length - 1) / e.chunk.stripeLen)
  {
    Positive(e);
    var len, last := e.chunk.stripeLen, offset + length - 1;
    var first, w := OneRowUnit(e, offset);
    var top, _ := OneRowUnit(e, last);
    hide Complete, ResolveStripe, AreaStart;
    if AreasFollow(e, first, top) {
      forall i: nat | i < length ensures InPiece(e, offset, i) {
        var u, v := OneRowUnit(e, offset + i);
        UnitsInOrder(offset, offset + i, len);
        UnitsInOrder(offset + i, last, len);
        NeighboursChain(e, first, u);
      }
    } else {
      var q: nat :| first <= q < top && !Neighbours(e, q);
      OneRowBreak(e, offset, first, last, top, q);
    }
  }

  lemma UnitsInOrder(a: nat, b: nat, len: nat)
    requires a <= b && len > 0
    ensures a / len <= b / len
  {
    DivBounds(a, len);
    DivBounds(b, len);
    if b / len < a / len {
      MulAtMost(b / len + 1, a / len, len);
    }
  }

  lemma OneRowBreak(e: Entry, offset: nat, first: nat, last: nat, top: nat, q: nat)
    requires Complete(e) && e.chunk.length == e.chunk.numStripes * e.chunk.stripeLen && offset <= last < e.chunk.length
    requires first == offset / e.chunk.stripeLen && top == last / e.chunk.stripeLen < e.chunk.numStripes
    requires first <= q < top && !Neighbours(e, q)
    ensures exists i: nat :: i <= last - offset && !InPiece(e, offset, i)
  {
    Positive(e);
    var len := e.chunk.stripeLen;
    var end := (q + 1) * len;
    assert end == q * len + len;
    DivBounds(offset, len);
    DivBounds(last, len);
    MulAtMost(first, q, len);
    MulAtMost(q + 1, top, len);
    assert offset < end <= last;
    hide Complete, ResolveStripe, AreaStart;
    OneRowPlace(e, q, len - 1, end - 1);
    OneRowPlace(e, q + 1, 0, end);
    var i := end - 1 - offset;
    assert !(InPiece(e, offset, i) && InPiece(e, offset, i + 1));
  }

  /** Three stripes and two rows of 64 KiB units. */
  function ThreeStripes(uuid: seq<byte>): Entry {
    Entry(Key(256, CHUNK_ITEM, 0),
          Chunk(0x60000, 2, 0x10000, 9, 0x10000, 0x10000, 0x1000, 3, 0, Stripe(1, 0x100000, uuid)),
          Some([Stripe(1, 0x200000, uuid), Stripe(1, 0x300000, uuid)]))
  }

  lemma ThreeStripesApart(uuid: seq<byte>)
    ensures StripesApart(ThreeStripes(uuid)) && Share(ThreeStripes(uuid)) == 0x20000
  {
    var e := ThreeStripes(uuid);
    assert Complete(e) && Share(e) == 0x20000;
    assert AreaStart(e, 0) == 0x100000 && AreaStart(e, 1) == 0x200000 && AreaStart(e, 2) == 0x300000;
  }

  /** A run of 8 KiB across the end of its first unit is not in one piece. */
  lemma AcrossUnitEnd(uuid: seq<byte>)
    ensures exists i: nat :: i < 0x2000 && !InPiece(ThreeStripes(uuid), 0xF000, i)
  {
    var e := ThreeStripes(uuid);
    ThreeStripesApart(uuid);
    assert e.chunk.numStripes == 3 && e.chunk.stripeLen == 0x10000 && e.chunk.length == 0x60000;
    hide StripesApart, Share, ThreeStripes;
    StripedExtentIff(e, 0xF000, 0x2000);
  }

  // ---------------------------------------------------------------- order of the list

  predicate Agree(e: Entry, f: Entry, logical: nat) {
    Covers(e, logical) && Covers(f, logical) ==> ResolveIn(e, logical) == ResolveIn(f, logical)
  }

  /** Any two entries that overlap agree on the overlap. */
  ghost predicate Consistent(entries: seq<Entry>) {
    forall e, f, logical: nat :: e in entries && f in entries ==> Agree(e, f, logical)
  }

  lemma {:induction false} ResolveByMember(entries: seq<Entry>, e: Entry, logical: nat)
    requires Consistent(entries) && e in entries && Covers(e, logical)
    ensures Resolve(entries, logical) == ResolveIn(e, logical)
    decreases |entries|
  {
    assert Agree(entries[0], e, logical);
    if !Covers(entries[0], logical) {
      ResolveByMember(entries[1..], e, logical);
    }
  }

  /** Every address of the entry resolves as that entry says. */
  ghost predicate Governs(entries: seq<Entry>, e: Entry) {
    forall a: nat :: Covers(e, a) ==> Resolve(entries, a) == ResolveIn(e, a)
  }

  /** In a consistent list every entry governs its addresses, wherever it stands; in any list the
      first entry does. */
  lemma MembersGovern(entries: seq<Entry>, e: Entry)
    requires e in entries
    requires Consistent(entries) || e == entries[0]
    ensures Governs(entries, e)
  {
    hide ResolveStripe;
    forall a: nat | Covers(e, a) ensures Resolve(entries, a) == ResolveIn(e, a) {
      if Consistent(entries) { ResolveByMember(entries, e, a); }
    }
  }

  lemma {:induction false} ResolveUnmapped(entries: seq<Entry>, logical: nat)
    requires Resolve(entries, logical) == Unmapped
    ensures forall e :: e in entries ==> !Covers(e, logical)
    decreases |entries|
  {
    if entries != [] && !Covers(entries[0], logical) {
      ResolveUnmapped(entries[1..], logical);
      assert entries == [entries[0]] + entries[1..];
    }
  }

  /** An address is mapped if and only if it lies in the range of some entry. */
  lemma {:induction false} MappedIff(entries: seq<Entry>, logical: nat)
    ensures Resolve(entries, logical) != Unmapped
       <==> exists e :: e in entries && e.key.offset <= logical < e.key.offset + e.chunk.length
  {
    if Resolve(entries, logical) != Unmapped {
      assert entries[FirstCover(entries, logical)] in entries;
    } else {
      ResolveUnmapped(entries, logical);
    }
  }

  /** The device address, in the terms of the chunk item: the units of the chunk are dealt out to
      its stripes in turn. */
  lemma AddressInUnits(r: Record, offset: nat)
    requires r.Valid() && r.chunk.stripeLen > 0
    ensures var unit := offset / r.chunk.stripeLen;
            && unit % r.chunk.numStripes < r.chunk.numStripes
            && r.Address(offset) ==
               (if unit % r.chunk.numStripes == 0 then r.chunk.stripe.offset
                else r.extra[unit % r.chunk.numStripes - 1].offset)
               + unit / r.chunk.numStripes * r.chunk.stripeLen
               + offset % r.chunk.stripeLen
  {
    var len := r.chunk.stripeLen;
    DivBounds(offset / len, r.chunk.numStripes);
    assert offset % len == offset - (offset / len) * len;
  }

  /** Every address in the range of a chunk item that governs its addresses resolves to that device
      address, unless the chunk has two stripes. */
  lemma GovernedAddress(entries: seq<Entry>, r: Record, logical: nat)
    requires r.Valid() && r.chunk.stripeLen > 0 && r.chunk.numStripes != 2
    requires Governs(entries, r.Stored())
    requires r.key.offset <= logical < r.key.offset + r.chunk.length
    ensures Resolve(entries, logical) == At(r.Address(logical - r.key.offset))
  {
    hide Record.Address, ResolveStripe, Resolve;
    StoredResolves(r, logical - r.key.offset);
    assert Covers(r.Stored(), logical);
  }

  function ThreeStripesRecord(uuid: seq<byte>): Record {
    Record(Key(256, 228, 0x100_0000),
           Chunk(0x6_0000, 2, 0x1_0000, 9, 0x1_0000, 0x1_0000, 0x1000, 3, 0, Stripe(1, 0x10_0000, uuid)),
           [Stripe(1, 0x20_0000, uuid), Stripe(1, 0x30_0000, uuid)])
  }

  lemma ThreeStripesUnit(uuid: seq<byte>, unit: nat, within: nat)
    requires unit < 6 && within < 0x1_0000
    ensures Resolve([ThreeStripesRecord(uuid).Stored()], 0x100_0000 + unit * 0x1_0000 + within)
         == At(0x10_0000 * (unit % 3 + 1) + unit / 3 * 0x1_0000 + within)
  {
    var r := ThreeStripesRecord(uuid);
    assert r.Valid() && r.chunk.stripe.offset == 0x10_0000 && r.chunk.stripeLen == 0x1_0000 && r.chunk.numStripes == 3;
    assert r.extra[0].offset == 0x20_0000 && r.extra[1].offset == 0x30_0000;
    assert r.key.offset == 0x100_0000 && r.chunk.length == 0x6_0000;
    MembersGovern([r.Stored()], r.Stored());
    hide Resolve, Governs, Record.Address, Record.Stored, ThreeStripesRecord;
    var offset := unit * 0x1_0000 + within;
    GovernedAddress([r.Stored()], r, 0x100_0000 + offset);
    AddressInUnits(r, offset);
    assert offset / 0x1_0000 == unit && offset % 0x1_0000 == within;
  }

  /** An instance: the six units of 64 KiB of a chunk at 16 MiB go to three stripes in turn. */
  lemma ThreeStripesAddresses(uuid: seq<byte>)
    ensures var list := [ThreeStripesRecord(uuid).Stored()];
            && Resolve(list, 0xFF_FFFF) == Unmapped
            && Resolve(list, 0x100_0000) == At(0x10_0000)
            && Resolve(list, 0x101_0005) == At(0x20_0005)
            && Resolve(list, 0x102_0006) == At(0x30_0006)
            && Resolve(list, 0x103_0007) == At(0x11_0007)
            && Resolve(list, 0x105_FFFF) == At(0x31_FFFF)
            && Resolve(list, 0x106_0000) == Unmapped
  {
    var list := [ThreeStripesRecord(uuid).Stored()];
    hide Resolve;
    MappedIff(list, 0xFF_FFFF);
    MappedIff(list, 0x106_0000);
    hide ThreeStripesRecord;
    ThreeStripesUnit(uuid, 0, 0);
    ThreeStripesUnit(uuid, 1, 5);
    ThreeStripesUnit(uuid, 2, 6);
    ThreeStripesUnit(uuid, 3, 7);
    ThreeStripesUnit(uuid, 5, 0xFFFF);
  }

  /** Lists with the same consistent entries resolve alike, whatever their order. */
  lemma OrderIndependent(xs: seq<Entry>, ys: seq<Entry>, logical: nat)
    requires Consistent(xs)
    requires forall e :: e in xs <==> e in ys
    ensures Resolve(xs, logical) == Resolve(ys, logical)
  {
    assert Consistent(ys) by {
      forall e, f, a: nat | e in ys && f in ys ensures Agree(e, f, a) {
        assert e in xs && f in xs;
      }
    }
    if Resolve(xs, logical) != Unmapped {
      ResolveByMember(ys, xs[FirstCover(xs, logical)], logical);
    } else if Resolve(ys, logical) != Unmapped {
      ResolveByMember(xs, ys[FirstCover(ys, logical)], logical);
    }
  }

  /** Entries added in front of a list, consistently with it, change no earlier resolution,
      and every address of an added entry resolves as that entry says. */
  lemma ExtensionPreserves(added: seq<Entry>, entries: seq<Entry>, logical: nat)
    requires Consistent(added + entries)
    ensures Resolve(entries, logical) != Unmapped ==> Resolve(added + entries, logical) == Resolve(entries, logical)
    ensures forall e :: e in added && Covers(e, logical) ==> Resolve(added + entries, logical) == ResolveIn(e, logical)
  {
    if Resolve(entries, logical) != Unmapped {
      var e := entries[FirstCover(entries, logical)];
      assert e in added + entries;
      ResolveByMember(added + entries, e, logical);
    }
    forall e | e in added && Covers(e, logical) ensures Resolve(added + entries, logical) == ResolveIn(e, logical) {
      ResolveByMember(added + entries, e, logical);
    }
  }
}
