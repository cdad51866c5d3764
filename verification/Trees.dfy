/** B-trees as ordered item lists: well-formedness, flattening and the reference search.

    A tree is seen through a reader, which gives the node at a logical address. */
module Trees {
  import opened Bytes
  import opened Keys
  import opened Chunks

  /** An item of a leaf: its key and the address of its data. */
  datatype Item = Item(key: Key, data: nat)

  /** Wild stands for a node behind a faulting translation. */
  datatype Node =
    | Inner(level: nat, keys: seq<Key>, children: seq<nat>)
    | Leaf(keys: seq<Key>, data: seq<nat>)
    | Wild

  type Reader = nat -> Option<Node>

  // ---------------------------------------------------------------- flattening

  function LeafItems(keys: seq<Key>, data: seq<nat>): (items: seq<Item>)
    requires |keys| == |data|
    ensures |items| == |keys|
    ensures forall i :: 0 <= i < |keys| ==> items[i] == Item(keys[i], data[i])
  {
    seq(|keys|, i requires 0 <= i < |keys| => Item(keys[i], data[i]))
  }

  /** The items below the node at `a`, leaves from left to right. */
  function Items(read: Reader, a: nat, level: nat): seq<Item>
    decreases level, 0
  {
    match read(a)
    case Some(Leaf(keys, data)) => if level == 0 && |keys| == |data| then LeafItems(keys, data) else []
    case Some(Inner(l, _, children)) => if l == level > 0 then ItemsBelow(read, children, level - 1) else []
    case _ => []
  }

  function ItemsBelow(read: Reader, nodes: seq<nat>, level: nat): seq<Item>
    decreases level, 1 + |nodes|
  {
    if nodes == [] then [] else Items(read, nodes[0], level) + ItemsBelow(read, nodes[1..], level)
  }

  predicate SortedItems(items: seq<Item>) {
    forall i, j :: 0 <= i < j < |items| ==> Less(items[i].key, items[j].key)
  }

  // ---------------------------------------------------------------- well-formedness

  /** Levels drop by one, keys are strictly sorted, and the key of every pointer is the smallest
      key of its subtree, which ends before the next pointer's key. */
  predicate TreeAt(read: Reader, a: nat, level: nat)
    decreases level
  {
    match read(a)
    case Some(Leaf(keys, data)) => level == 0 && |keys| == |data| && Sorted(keys)
    case Some(Inner(l, keys, children)) =>
      && l == level > 0
      && |keys| == |children| > 0
      && Sorted(keys)
      && (forall i :: 0 <= i < |children| ==> TreeAt(read, children[i], level - 1))
      && (forall i :: 0 <= i < |children| ==> Bounded(Items(read, children[i], level - 1), keys, i))
    case _ => false
  }

  predicate Bounded(items: seq<Item>, keys: seq<Key>, i: nat)
    requires i < |keys|
  {
    && items != []
    && items[0].key == keys[i]
    && (i + 1 < |keys| ==> Less(items[|items| - 1].key, keys[i + 1]))
  }

  function Level(read: Reader, a: nat): nat {
    match read(a)
    case Some(Inner(l, _, _)) => l
    case _ => 0
  }

  predicate WellFormed(read: Reader, root: nat) { TreeAt(read, root, Level(read, root)) }

  /** All items of the tree in key order; none when the root is not mapped. */
  function TreeItems(read: Reader, root: nat): seq<Item> { Items(read, root, Level(read, root)) }

  /** What the search needs: the descent through an inner root picks no pointer when the query
      is below the smallest key, and then follows an uninitialised one. */
  predicate Searchable(read: Reader, root: nat, key: Key) {
    read(root).None?
    || (WellFormed(read, root)
        && (Level(read, root) > 0 ==> |TreeItems(read, root)| > 0 && AtMost(TreeItems(read, root)[0].key, key)))
  }

  // ---------------------------------------------------------------- the reference search

  /** Linear search: the last item whose key is at most the query. */
  function LastAtMost(items: seq<Item>, key: Key): Option<Item>
    decreases |items|
  {
    if items == [] then None
    else
      var later := LastAtMost(items[1..], key);
      if later.Some? then later
      else if AtMost(items[0].key, key) then Some(items[0])
      else None
  }

  /** Exact: the item with that key. Otherwise: the item of the greatest key at most the query,
      whatever its objectid and type. */
  function Find(items: seq<Item>, key: Key, exact: bool): Option<Item> {
    match LastAtMost(items, key)
    case None => None
    case Some(item) => if exact && item.key != key then None else Some(item)
  }

  lemma {:induction false} LastAtMostMeaning(items: seq<Item>, key: Key)
    requires SortedItems(items)
    ensures LastAtMost(items, key) == None <==> forall i :: 0 <= i < |items| ==> Less(key, items[i].key)
    ensures LastAtMost(items, key).Some? ==>
              && LastAtMost(items, key).value in items
              && AtMost(LastAtMost(items, key).value.key, key)
              && forall i :: 0 <= i < |items| && AtMost(items[i].key, key) ==>
                AtMost(items[i].key, LastAtMost(items, key).value.key)
    decreases |items|
  {
    if items != [] {
      LastAtMostMeaning(items[1..], key);
      LessTotal(items[0].key, key);
      assert items == [items[0]] + items[1..];
    }
  }

  /** The exact search finds precisely the items of the list. */
  lemma {:induction false} FindExactMeaning(items: seq<Item>, key: Key)
    requires SortedItems(items)
    ensures forall item :: item in items && item.key == key ==> Find(items, key, true) == Some(item)
    ensures Find(items, key, true).Some? ==>
              Find(items, key, true).value in items && Find(items, key, true).value.key == key
  {
    LastAtMostMeaning(items, key);
    forall item | item in items && item.key == key ensures Find(items, key, true) == Some(item) {
      var i :| 0 <= i < |items| && items[i] == item;
      LessTotal(key, key);
      var last := LastAtMost(items, key).value;
      var j :| 0 <= j < |items| && items[j] == last;
      LessTotal(last.key, key);
    }
  }

  /** The item has the greatest key at most the query, keys being compared as numbers. */
  predicate Nearest(items: seq<Item>, key: Key, item: Item) {
    && item in items
    && Weight(item.key) <= Weight(key)
    && forall i :: 0 <= i < |items| && Weight(items[i].key) <= Weight(key) ==> Weight(items[i].key) <= Weight(item.key)
  }

  lemma SortedIsByWeight(items: seq<Item>)
    ensures SortedItems(items)
       <==> forall i, j :: 0 <= i < j < |items| ==> Weight(items[i].key) < Weight(items[j].key)
  {
    hide Less, Weight;
    forall i, j | 0 <= i < j < |items|
      ensures Less(items[i].key, items[j].key) <==> Weight(items[i].key) < Weight(items[j].key)
    {
      KeyOrder(items[i].key, items[j].key);
    }
  }

  lemma NearestUnique(items: seq<Item>, key: Key, a: Item, b: Item)
    requires SortedItems(items) && Nearest(items, key, a) && Nearest(items, key, b)
    ensures a == b
  {
    hide Less, Weight;
    SortedIsByWeight(items);
    var i :| 0 <= i < |items| && items[i] == a;
    var j :| 0 <= j < |items| && items[j] == b;
  }

  /** Both modes of the search on items in the order of the numbers: the nearest item, if its key
      is the query or only the nearest is asked for; nothing if all keys are greater, or if the
      exact key is asked for and no item has it. */
  lemma {:induction false} FindByWeight(items: seq<Item>, key: Key)
    requires forall i, j :: 0 <= i < j < |items| ==> Weight(items[i].key) < Weight(items[j].key)
    ensures forall item :: Find(items, key, false) == Some(item) <==> Nearest(items, key, item)
    ensures forall item :: Find(items, key, true) == Some(item) <==> item in items && Weight(item.key) == Weight(key)
    ensures Find(items, key, false) == None <==> forall i :: 0 <= i < |items| ==> Weight(items[i].key) > Weight(key)
  {
    SortedIsByWeight(items);
    LastAtMostMeaning(items, key);
    FindExactMeaning(items, key);
    hide Less, Weight, SortedItems;
    forall item: Item ensures item.key == key <==> Weight(item.key) == Weight(key) { KeyOrder(item.key, key); }
    forall i | 0 <= i < |items|
      ensures AtMost(items[i].key, key) <==> Weight(items[i].key) <= Weight(key)
      ensures Less(key, items[i].key) <==> Weight(items[i].key) > Weight(key)
    {
      KeyOrder(items[i].key, key);
      KeyOrder(key, items[i].key);
    }
    var found := Find(items, key, false);
    if found.Some? {
      forall i | 0 <= i < |items|
        ensures AtMost(items[i].key, found.value.key) <==> Weight(items[i].key) <= Weight(found.value.key)
      {
        KeyOrder(items[i].key, found.value.key);
      }
      assert Nearest(items, key, found.value);
      forall item | Nearest(items, key, item) ensures item == found.value {
        NearestUnique(items, key, item, found.value);
      }
    }
  }

  lemma WeightOf(objectid: u64, itemType: byte, offset: u64)
    ensures Weight(Key(objectid, itemType, offset))
         == objectid * 0x1_00_0000_0000_0000_0000 + itemType * 0x1_0000_0000_0000_0000 + offset
  {}

  /** Where objectid and type disagree: (257, INODE_ITEM, 0) stands behind (256, DIR_ITEM, h), and the
      search between the two stops at the latter. */
  lemma FindInstances(h: u64, a: nat, b: nat, c: nat)
    ensures var items := [Item(Key(256, 1, 0), a), Item(Key(256, 84, h), b), Item(Key(257, 1, 0), c)];
            && SortedItems(items)
            && Find(items, Key(257, 1, 0), true) == Some(items[2])
            && Find(items, Key(257, 0, 0), false) == Some(items[1])
            && Find(items, Key(257, 0, 0), true) == None
  {
    hide LastAtMost, Less, Weight, SortedItems;
    var items := [Item(Key(256, 1, 0), a), Item(Key(256, 84, h), b), Item(Key(257, 1, 0), c)];
    WeightOf(256, 1, 0);
    WeightOf(256, 84, h);
    WeightOf(257, 0, 0);
    WeightOf(257, 1, 0);
    assert forall i, j :: 0 <= i < j < |items| ==> Weight(items[i].key) < Weight(items[j].key);
    SortedIsByWeight(items);
    FindByWeight(items, Key(257, 1, 0));
    FindByWeight(items, Key(257, 0, 0));
    assert items[2] in items && items[1] in items;
    assert Nearest(items, Key(257, 0, 0), items[1]);
  }

  /** An item of object 258 is not at most an extent of object 257. */
  lemma FindNothingInstance(a: nat)
    ensures Find([Item(Key(258, 1, 0), a)], Key(257, 108, 0), false) == None
  {
    hide LastAtMost, Less, Weight, SortedItems;
    WeightOf(258, 1, 0);
    WeightOf(257, 108, 0);
    FindByWeight([Item(Key(258, 1, 0), a)], Key(257, 108, 0));
  }

  lemma {:induction false} LastAtMostAppend(xs: seq<Item>, ys: seq<Item>, key: Key)
    ensures LastAtMost(xs + ys, key) ==
            if LastAtMost(ys, key).Some? then LastAtMost(ys, key) else LastAtMost(xs, key)
    decreases |xs|
  {
    if xs == [] {
      assert xs + ys == ys;
    } else {
      assert (xs + ys)[1..] == xs[1..] + ys;
      LastAtMostAppend(xs[1..], ys, key);
    }
  }

  // ---------------------------------------------------------------- flattened trees

  lemma {:induction false} ItemsBelowSplit(read: Reader, nodes: seq<nat>, i: nat, level: nat)
    requires i <= |nodes|
    ensures ItemsBelow(read, nodes, level) == ItemsBelow(read, nodes[..i], level) + ItemsBelow(read, nodes[i..], level)
    decreases i
  {
    if i == 0 {
      assert nodes[..i] == [] && nodes[i..] == nodes;
    } else {
      ItemsBelowSplit(read, nodes[1..], i - 1, level);
      assert nodes[1..][..i - 1] == nodes[..i][1..];
      assert nodes[1..][i - 1..] == nodes[i..];
    }
  }

  lemma ItemsBelowPick(read: Reader, nodes: seq<nat>, i: nat, level: nat)
    requires i < |nodes|
    ensures ItemsBelow(read, nodes, level)
         == ItemsBelow(read, nodes[..i], level) + Items(read, nodes[i], level) + ItemsBelow(read, nodes[i + 1..], level)
  {
    ItemsBelowSplit(read, nodes, i, level);
    assert nodes[i..][1..] == nodes[i + 1..];
  }

  /** The smallest and largest keys below a run of sibling nodes, and their order. */
  lemma {:induction false} SiblingsSorted(read: Reader, keys: seq<Key>, nodes: seq<nat>, level: nat)
    requires |keys| == |nodes| > 0 && Sorted(keys)
    requires forall i :: 0 <= i < |nodes| ==> Bounded(Items(read, nodes[i], level), keys, i)
    requires forall i :: 0 <= i < |nodes| ==> SortedItems(Items(read, nodes[i], level))
    ensures var items := ItemsBelow(read, nodes, level);
            && items != [] && items[0].key == keys[0]
            && SortedItems(items)
    decreases |nodes|
  {
    var first, rest := Items(read, nodes[0], level), ItemsBelow(read, nodes[1..], level);
    assert Bounded(first, keys, 0);
    if |nodes| == 1 {
      assert first + rest == first;
    } else {
      forall i | 0 <= i < |nodes[1..]| ensures Bounded(Items(read, nodes[1..][i], level), keys[1..], i) {
        assert Bounded(Items(read, nodes[i + 1], level), keys, i + 1);
      }
      SiblingsSorted(read, keys[1..], nodes[1..], level);
      AppendSorted(first, rest);
    }
  }

  lemma AppendSorted(xs: seq<Item>, ys: seq<Item>)
    requires SortedItems(xs) && SortedItems(ys)
    requires xs != [] && ys != [] && Less(xs[|xs| - 1].key, ys[0].key)
    ensures SortedItems(xs + ys)
  {
    hide Less;
    var s, last := xs + ys, |xs| - 1;
    forall i, j | 0 <= i < j < |s| ensures Less(s[i].key, s[j].key) {
      if i < |xs| <= j {
        if i < last { LessTransitive(xs[i].key, xs[last].key, ys[0].key) by { LessIsAtMost(xs[last].key, ys[0].key); } }
        if |xs| < j { LessTransitive(xs[i].key, ys[0].key, s[j].key) by { LessIsAtMost(ys[0].key, s[j].key); } }
      }
    }
  }

  lemma LessIsAtMost(a: Key, b: Key)
    requires Less(a, b)
    ensures AtMost(a, b)
  {}

  /** A well-formed tree flattens to a strictly sorted list: its keys are unique. */
  lemma {:induction false} TreeSorted(read: Reader, a: nat, level: nat)
    requires TreeAt(read, a, level)
    ensures SortedItems(Items(read, a, level))
    decreases level
  {
    match read(a)
    case Some(Leaf(keys, data)) =>
    case Some(Inner(l, keys, children)) =>
      forall i | 0 <= i < |children| ensures SortedItems(Items(read, children[i], level - 1)) {
        TreeSorted(read, children[i], level - 1);
      }
      SiblingsSorted(read, keys, children, level - 1);
  }

  lemma {:induction false} NothingAtMost(items: seq<Item>, key: Key)
    requires forall i :: 0 <= i < |items| ==> Less(key, items[i].key)
    ensures LastAtMost(items, key) == None
    decreases |items|
  {
    if items != [] {
      LessTotal(key, items[0].key);
      NothingAtMost(items[1..], key);
    }
  }

  /** Siblings that start above the query hold nothing at most the query. */
  lemma SiblingsAbove(read: Reader, keys: seq<Key>, nodes: seq<nat>, level: nat, key: Key)
    requires |keys| == |nodes| && Sorted(keys)
    requires forall i :: 0 <= i < |nodes| ==> Bounded(Items(read, nodes[i], level), keys, i)
    requires forall i :: 0 <= i < |nodes| ==> SortedItems(Items(read, nodes[i], level))
    requires forall i :: 0 <= i < |keys| ==> Less(key, keys[i])
    ensures LastAtMost(ItemsBelow(read, nodes, level), key) == None
  {
    if nodes != [] {
      hide Less, ItemsBelow;
      SiblingsSorted(read, keys, nodes, level);
      var items := ItemsBelow(read, nodes, level);
      forall i | 0 <= i < |items| ensures Less(key, items[i].key) {
        if i > 0 { LessTransitive(key, keys[0], items[i].key) by { LessIsAtMost(keys[0], items[i].key); } }
      }
      NothingAtMost(items, key);
    }
  }

  lemma ChildrenSorted(read: Reader, children: seq<nat>, level: nat)
    requires forall i :: 0 <= i < |children| ==> TreeAt(read, children[i], level)
    ensures forall i :: 0 <= i < |children| ==> SortedItems(Items(read, children[i], level))
  {
    hide TreeAt, SortedItems, Items;
    forall i | 0 <= i < |children| ensures SortedItems(Items(read, children[i], level)) {
      TreeSorted(read, children[i], level);
    }
  }

  lemma LaterSiblingsAbove(read: Reader, keys: seq<Key>, nodes: seq<nat>, level: nat, key: Key, i: nat)
    requires |keys| == |nodes| && i < |nodes| && Sorted(keys)
    requires forall j :: 0 <= j < |nodes| ==> Bounded(Items(read, nodes[j], level), keys, j)
    requires forall j :: 0 <= j < |nodes| ==> SortedItems(Items(read, nodes[j], level))
    requires forall j :: i < j < |keys| ==> Less(key, keys[j])
    ensures LastAtMost(ItemsBelow(read, nodes[i + 1..], level), key) == None
  {
    hide Less, Items, ItemsBelow, SortedItems;
    var later := nodes[i + 1..];
    forall j | 0 <= j < |later|
      ensures Bounded(Items(read, later[j], level), keys[i + 1..], j)
      ensures SortedItems(Items(read, later[j], level))
    {
      assert Bounded(Items(read, nodes[i + 1 + j], level), keys, i + 1 + j);
    }
    SiblingsAbove(read, keys[i + 1..], later, level, key);
  }

  /** The descent loses nothing: below the last pointer whose key is at most the query lies
      whatever the whole subtree holds at most the query. */
  lemma Descend(read: Reader, a: nat, level: nat, key: Key, i: nat)
    requires TreeAt(read, a, level) && level > 0
    requires i < |read(a).value.keys| && AtMost(read(a).value.keys[i], key)
    requires forall j :: i < j < |read(a).value.keys| ==> Less(key, read(a).value.keys[j])
    ensures var child := read(a).value.children[i];
            && TreeAt(read, child, level - 1)
            && |Items(read, child, level - 1)| > 0 && AtMost(Items(read, child, level - 1)[0].key, key)
            && LastAtMost(Items(read, a, level), key) == LastAtMost(Items(read, child, level - 1), key)
  {
    var keys, children := read(a).value.keys, read(a).value.children;
    var before, mine := ItemsBelow(read, children[..i], level - 1), Items(read, children[i], level - 1);
    var after := ItemsBelow(read, children[i + 1..], level - 1);
    assert Items(read, a, level) == before + mine + after by { ItemsBelowPick(read, children, i, level - 1); }
    ChildrenSorted(read, children, level - 1);
    assert Bounded(mine, keys, i) && SortedItems(mine);
    LaterSiblingsAbove(read, keys, children, level - 1, key, i);
    hide Less, Items, ItemsBelow, TreeAt;
    LastAtMostAppend(before + mine, after, key);
    LastAtMostAppend(before, mine, key);
    LastAtMostMeaning(mine, key);
    LessTotal(mine[0].key, key);
  }

  /** In a well-formed inner node some pointer is at most any query that the subtree's smallest
      key is at most: the search that ignores a result of -1 never meets it. */
  lemma PointerExists(read: Reader, a: nat, level: nat, key: Key)
    requires TreeAt(read, a, level) && level > 0
    ensures Items(read, a, level) != [] && Items(read, a, level)[0].key == read(a).value.keys[0]
    ensures AtMost(Items(read, a, level)[0].key, key)
       <==> exists i :: 0 <= i < |read(a).value.keys| && AtMost(read(a).value.keys[i], key)
  {
    var keys, children := read(a).value.keys, read(a).value.children;
    ChildrenSorted(read, children, level - 1);
    SiblingsSorted(read, keys, children, level - 1);
    if i :| 0 <= i < |keys| && AtMost(keys[i], key) {
      if i > 0 { LessTransitive(keys[0], keys[i], key); }
    }
  }
}
