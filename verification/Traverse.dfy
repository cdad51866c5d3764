/** Tree traversal with a handler is a fold over the flattened items that stops right after the
    first BREAK. */
module Traverse {
  import opened Bytes
  import opened Chunks
  import opened Trees
  import opened Btree

  datatype Signal = Continue | Break

  /** What the `void * acc` of a traversal points to. */
  class Acc<A> {
    var value: A

    constructor (a: A)
      ensures value == a
    {
      value := a;
    }
  }

  /** A handler, as its effect on the accumulator and the signal it returns. */
  type Handler<!A> = (A, Item) -> (A, Signal)

  function Fold<A>(h: Handler<A>, a: A, items: seq<Item>): (A, Signal)
    decreases |items|
  {
    if items == [] then (a, Continue)
    else
      var (b, signal) := h(a, items[0]);
      if signal == Break then (b, Break) else Fold(h, b, items[1..])
  }

  // ---------------------------------------------------------------- meaning of the fold

  /** The accumulator after the first n items, whatever the handler signals. */
  function Run<A>(h: Handler<A>, a: A, items: seq<Item>, n: nat): A
    requires n <= |items|
    decreases n
  {
    if n == 0 then a else h(Run(h, a, items, n - 1), items[n - 1]).0
  }

  function SignalAt<A>(h: Handler<A>, a: A, items: seq<Item>, n: nat): Signal
    requires n < |items|
  {
    h(Run(h, a, items, n), items[n]).1
  }

  lemma {:induction false} RunShift<A>(h: Handler<A>, a: A, items: seq<Item>, n: nat)
    requires n < |items|
    ensures Run(h, a, items, n + 1) == Run(h, h(a, items[0]).0, items[1..], n)
    decreases n
  {
    if n > 0 {
      RunShift(h, a, items, n - 1);
    }
  }

  /** The handler sees exactly the items up to and including the first that breaks, in key
      order and each once; all of them when none breaks. */
  lemma {:induction false} FoldVisitsPrefix<A>(h: Handler<A>, a: A, items: seq<Item>) returns (n: nat)
    ensures n <= |items|
    ensures Fold(h, a, items).0 == Run(h, a, items, n)
    ensures forall i :: 0 <= i < n - 1 ==> SignalAt(h, a, items, i) == Continue
    ensures Fold(h, a, items).1 == Break ==> n > 0 && SignalAt(h, a, items, n - 1) == Break
    ensures Fold(h, a, items).1 == Continue ==>
              n == |items| && forall i :: 0 <= i < n ==> SignalAt(h, a, items, i) == Continue
    decreases |items|
  {
    if items == [] {
      return 0;
    }
    var (b, signal) := h(a, items[0]);
    assert Run(h, a, items, 1) == h(Run(h, a, items, 0), items[0]).0 == b;
    assert SignalAt(h, a, items, 0) == signal;
    if signal == Break {
      return 1;
    }
    var k := FoldVisitsPrefix(h, b, items[1..]);
    n := k + 1;
    if k > 0 { RunShift(h, a, items, k - 1); }
    RunShift(h, a, items, 0);
    forall i | 0 <= i < |items| - 1 ensures SignalAt(h, a, items, i + 1) == SignalAt(h, b, items[1..], i) {
      RunShift(h, a, items, i);
    }
    if k < |items| { RunShift(h, a, items, k); }
    forall i | 0 < i < |items| ensures SignalAt(h, a, items, i) == SignalAt(h, b, items[1..], i - 1) {
      assert SignalAt(h, a, items, (i - 1) + 1) == SignalAt(h, b, items[1..], i - 1);
    }
  }

  lemma {:induction false} FoldAppend<A>(h: Handler<A>, a: A, xs: seq<Item>, ys: seq<Item>)
    ensures Fold(h, a, xs + ys) ==
            if Fold(h, a, xs).1 == Break then Fold(h, a, xs) else Fold(h, Fold(h, a, xs).0, ys)
    decreases |xs|
  {
    if xs == [] {
      assert xs + ys == ys;
    } else {
      assert (xs + ys)[1..] == xs[1..] + ys;
      var (b, signal) := h(a, xs[0]);
      FoldAppend(h, b, xs[1..], ys);
    }
  }

  // ---------------------------------------------------------------- the traversal

  ghost predicate Traversable(read: Reader, root: nat) {
    read(root).None? || WellFormed(read, root)
  }

  lemma FoldSiblings<A>(h: Handler<A>, a: A, read: Reader, nodes: seq<nat>, i: nat, level: nat)
    requires i < |nodes|
    ensures var (b, signal) := Fold(h, a, Items(read, nodes[i], level));
            Fold(h, a, ItemsBelow(read, nodes[i..], level)) ==
            if signal == Break then (b, Break) else Fold(h, b, ItemsBelow(read, nodes[i + 1..], level))
  {
    assert nodes[i..][1..] == nodes[i + 1..];
    hide Items, Fold;
    FoldAppend(h, a, Items(read, nodes[i], level), ItemsBelow(read, nodes[i + 1..], level));
  }

  lemma FoldLeaf<A>(h: Handler<A>, a: A, m: Memory, p: nat, i: nat)
    requires NodeLevel(m, p) == 0 && i < Nritems(m, p)
    ensures var items := LeafItems(NodeKeys(m, p), DataAddresses(m, p));
            var (b, signal) := h(a, ItemAt(m, p, i));
            Fold(h, a, items[i..]) == if signal == Break then (b, Break) else Fold(h, b, items[i + 1..])
  {
    LeafRecord(m, p, i);
    hide ItemAt, NodeKeys, DataAddresses;
    var items := LeafItems(NodeKeys(m, p), DataAddresses(m, p));
    assert items[i..][0] == ItemAt(m, p, i);
    assert items[i..][1..] == items[i + 1..];
  }

  /** The node at `a`, mapped and well-formed, as the traversal meets it. */
  lemma VisitNode(entries: seq<Entry>, m: Memory, a: nat, level: nat)
    requires TreeAt(View(entries, m), a, level)
    ensures Resolve(entries, a).At?
    ensures var read, p := View(entries, m), Resolve(entries, a).addr;
            && NodeLevel(m, p) == level
            && (level == 0 ==> Items(read, a, 0) == LeafItems(NodeKeys(m, p), DataAddresses(m, p)))
            && (level > 0 ==> Items(read, a, level) == ItemsBelow(read, Children(m, p), level - 1))
            && (level > 0 ==> forall i :: 0 <= i < Nritems(m, p) ==> TreeAt(read, PointerBlocknr(m, p, i), level - 1))
  {
    NodeShape(entries, m, a, level);
    var read, p := View(entries, m), Resolve(entries, a).addr;
    hide View, Resolve, NodeKeys, DataAddresses;
    if level > 0 {
      forall i | 0 <= i < Nritems(m, p) ensures TreeAt(read, PointerBlocknr(m, p, i), level - 1) {
        assert Children(m, p)[i] == PointerBlocknr(m, p, i);
      }
    }
  }

  lemma FoldNothing<A>(h: Handler<A>, a: A, read: Reader, nodes: seq<nat>, level: nat, items: seq<Item>)
    ensures Fold(h, a, ItemsBelow(read, nodes[|nodes|..], level)) == (a, Continue)
    ensures Fold(h, a, items[|items|..]) == (a, Continue)
  {}

  /** The leaf half of `__btrfs_traverse_btree_do`. */
  method TraverseLeaf<A>(m: Memory, p: nat, acc: Acc<A>, handler: Handler<A>) returns (result: Signal)
    requires NodeLevel(m, p) == 0
    modifies acc
    ensures (acc.value, result) == Fold(handler, old(acc.value), LeafItems(NodeKeys(m, p), DataAddresses(m, p)))
  {
    hide Fold, NodeKeys, DataAddresses, ItemAt, LeafItems;
    ghost var items := LeafItems(NodeKeys(m, p), DataAddresses(m, p));
    ghost var whole := Fold(handler, acc.value, items);
    assert items[0..] == items;
    result := Continue;
    var nritems := Nritems(m, p);
    for i := 0 to nritems
      invariant whole == Fold(handler, acc.value, items[i..])
      invariant result == Continue
    {
      FoldLeaf(handler, acc.value, m, p, i);
      var (value, signal) := handler(acc.value, ItemAt(m, p, i));
      acc.value := value;
      result := signal;
      if result == Break {
        return;
      }
    }
    FoldNothing(handler, acc.value, View([], m), [], 0, items);
  }

  /** The inner half: the subtrees from left to right. */
  method TraverseChildren<A>(list: ChunkList, m: Memory, p: nat, acc: Acc<A>, handler: Handler<A>, ghost level: nat)
    returns (result: Signal)
    requires forall i :: 0 <= i < Nritems(m, p) ==> TreeAt(View(Contents(list), m), PointerBlocknr(m, p, i), level)
    modifies acc
    ensures (acc.value, result)
         == Fold(handler, old(acc.value), ItemsBelow(View(Contents(list), m), Children(m, p), level))
    decreases level, 1
  {
    hide View, Fold, Items, ItemsBelow, TreeAt, PointerBlocknr;
    ghost var read := View(Contents(list), m);
    ghost var children := Children(m, p);
    ghost var whole := Fold(handler, acc.value, ItemsBelow(read, children, level));
    assert children[0..] == children;
    result := Continue;
    var nritems := Nritems(m, p);
    for i := 0 to nritems
      invariant whole == Fold(handler, acc.value, ItemsBelow(read, children[i..], level))
      invariant result == Continue
    {
      FoldSiblings(handler, acc.value, read, children, i, level);
      result := TraverseNode(list, m, PointerBlocknr(m, p, i), acc, handler, level);
      if result == Break {
        return;
      }
    }
    FoldNothing(handler, acc.value, read, children, level, []);
  }

  /** `__btrfs_traverse_btree_do`, for any handler. */
  method TraverseNode<A>(list: ChunkList, m: Memory, root: nat, acc: Acc<A>, handler: Handler<A>, ghost level: nat)
    returns (result: Signal)
    requires View(Contents(list), m)(root).None? || TreeAt(View(Contents(list), m), root, level)
    modifies acc
    ensures (acc.value, result) == Fold(handler, old(acc.value), Items(View(Contents(list), m), root, level))
    decreases level, 0
  {
    ViewRoot(Contents(list), m, root);
    if View(Contents(list), m)(root).Some? {
      VisitNode(Contents(list), m, root, level);
    } else {
      assert Items(View(Contents(list), m), root, level) == [];
    }
    hide View, Resolve, Items, ItemsBelow, TreeAt, NodeKeys, DataAddresses, LeafItems, PointerBlocknr;
    var header := ResolveLogical(list, root);
    if header.None? {
      return Continue;
    }
    var p := header.value;
    if NodeLevel(m, p) > 0 {
      result := TraverseChildren(list, m, p, acc, handler, level - 1);
    } else {
      result := TraverseLeaf(m, p, acc, handler);
    }
  }

  /** `btrfs_traverse_btree_do`. */
  method TraverseBtree<A>(list: ChunkList, m: Memory, root: nat, acc: Acc<A>, handler: Handler<A>)
    requires Traversable(View(Contents(list), m), root)
    modifies acc
    ensures acc.value == Fold(handler, old(acc.value), TreeItems(View(Contents(list), m), root)).0
  {
    var _ := TraverseNode(list, m, root, acc, handler, Level(View(Contents(list), m), root));
  }
}
