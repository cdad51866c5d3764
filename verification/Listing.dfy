/** Directory listing, and its agreement with path lookup. */
module Listing {
  import opened Bytes
  import opened Keys
  import opened Chunks
  import opened Trees
  import opened Btree
  import opened Traverse
  import opened Bootstrap
  import opened Paths
  import opened Directory

  const DOT: Name := [0x2E]
  const DOT_DOT: Name := [0x2E, 0x2E]

  // ---------------------------------------------------------------- the growing array

  /** The accumulator of the listing: `slots` is the array, as long as its capacity, with None
      where nothing has been stored. `intact` turns false when the assertion of the handler
      fails or a store falls outside the array. */
  datatype ListAcc = ListAcc(objectid: u64, slots: seq<Option<Name>>, length: nat, intact: bool)

  function Grow(slots: seq<Option<Name>>): (r: seq<Option<Name>>)
    ensures |r| == 2 * |slots|
  {
    slots + seq(|slots|, _ => None)
  }

  function StoreName(acc: ListAcc, name: Name): ListAcc {
    var slots := if |acc.slots| == acc.length then Grow(acc.slots) else acc.slots;
    if acc.length < |slots| then
      acc.(slots := slots[acc.length := Some(name)], length := acc.length + 1)
    else
      acc.(intact := false)
  }

  /** `__btrfs_low_list_files_handler`. */
  function ListHandler(m: Memory): Handler<ListAcc> {
    (acc: ListAcc, item: Item) =>
      if item.key.itemType != DIR_ITEM then (acc, Continue)
      else if item.key.objectid != acc.objectid then (acc, Continue)
      else if |acc.slots| < acc.length then (acc.(intact := false), Break)
      else (StoreName(acc, CString(DirName(m, item.data))), Continue)
  }

  /** The array holds exactly these names, with room for them and nothing lost. */
  predicate HoldsNames(acc: ListAcc, names: seq<Name>) {
    && acc.intact
    && acc.length == |names| <= |acc.slots|
    && |acc.slots| > 0
    && (forall i :: 0 <= i < |names| ==> acc.slots[i] == Some(names[i]))
  }

  lemma StoreKeeps(acc: ListAcc, names: seq<Name>, name: Name)
    requires HoldsNames(acc, names)
    ensures HoldsNames(StoreName(acc, name), names + [name])
    ensures StoreName(acc, name).objectid == acc.objectid
    ensures |StoreName(acc, name).slots| <= 2 * |acc.slots|
  {}

  // ---------------------------------------------------------------- what is listed

  /** The names of the entries of a directory, in key order. */
  function Names(m: Memory, items: seq<Item>, dir: u64): seq<Name>
    decreases |items|
  {
    if items == [] then []
    else if IsEntry(items[0], dir) then [CString(DirName(m, items[0].data))] + Names(m, items[1..], dir)
    else Names(m, items[1..], dir)
  }

  /** For any number of doublings the fold stores every name, in order, behind those it had. */
  lemma {:induction false} FoldList(m: Memory, acc: ListAcc, names: seq<Name>, items: seq<Item>)
    requires HoldsNames(acc, names)
    ensures HoldsNames(Fold(ListHandler(m), acc, items).0, names + Names(m, items, acc.objectid))
    ensures Fold(ListHandler(m), acc, items).1 == Continue
    decreases |items|
  {
    hide DirName, CString, StoreName;
    if items == [] {
      assert names + [] == names;
    } else if IsEntry(items[0], acc.objectid) {
      var name := CString(DirName(m, items[0].data));
      StoreKeeps(acc, names, name);
      FoldList(m, StoreName(acc, name), names + [name], items[1..]);
      assert names + Names(m, items, acc.objectid) == (names + [name]) + Names(m, items[1..], acc.objectid);
    } else {
      FoldList(m, acc, names, items[1..]);
    }
  }

  /** `btrfs_low_list_files`: ".", "..", then the names of exactly the entries of the directory. */
  method ListFiles(list: ChunkList, m: Memory, fsTree: nat, dir: u64) returns (files: seq<Name>, length: nat)
    requires Traversable(View(Contents(list), m), fsTree)
    ensures files == [[0x2E], [0x2E, 0x2E]] + Names(m, TreeItems(View(Contents(list), m), fsTree), dir)
    ensures length == |files|
  {
    hide View, Fold, ListHandler, Traversable, TreeItems, Names;
    ghost var items := TreeItems(View(Contents(list), m), fsTree);
    var start := ListAcc(dir, [Some(DOT), Some(DOT_DOT), None, None], 2, true);
    FoldList(m, start, [DOT, DOT_DOT], items);
    var acc := new Acc(start);
    TraverseBtree(list, m, fsTree, acc, ListHandler(m));
    length := acc.value.length;
    ghost var all := [DOT, DOT_DOT] + Names(m, items, dir);
    files := [];
    for i := 0 to length
      invariant files == all[..i]
    {
      files := files + [acc.value.slots[i].value];
    }
  }

  // ---------------------------------------------------------------- a listing from its bytes

  /** A directory entry, as the format has it. */
  datatype DirEntry = DirEntry(location: Key, transid: u64, dataLen: u16, kind: byte, name: Name)

  function EntriesOf(items: seq<Item>, dir: u64): (entries: seq<Item>)
    ensures forall item :: item in entries <==> item in items && item.key.itemType == 84 && item.key.objectid == dir
    decreases |items|
  {
    if items == [] then []
    else (if items[0].key.itemType == 84 && items[0].key.objectid == dir then [items[0]] else [])
         + EntriesOf(items[1..], dir)
  }

  predicate HoldsEntry(m: Memory, item: Item, e: DirEntry) {
    && |e.name| < 0x1_0000 && NulFree(e.name)
    && Holds(m, item.data, StoreDirItem(e.location, e.transid, e.dataLen, e.kind, e.name))
  }

  lemma EntryName(m: Memory, item: Item, e: DirEntry)
    requires HoldsEntry(m, item, e)
    ensures CString(DirName(m, item.data)) == e.name
  {
    hide DirName, StoreDirItem;
    LoadStoreDirItem(m, item.data, e.location, e.transid, e.dataLen, e.kind, e.name);
    CStringNulFree(e.name);
  }

  /** If the directory items of the object hold these entries, the names listed are theirs, in
      this order and each once, whatever else is in the tree. */
  lemma {:induction false} ListingInvertsStore(m: Memory, items: seq<Item>, dir: u64, es: seq<DirEntry>)
    requires |EntriesOf(items, dir)| == |es|
    requires forall i :: 0 <= i < |es| ==> HoldsEntry(m, EntriesOf(items, dir)[i], es[i])
    ensures var names := Names(m, items, dir);
            |names| == |es| && forall i :: 0 <= i < |es| ==> names[i] == es[i].name
    decreases |items|
  {
    hide HoldsEntry, CString, DirName;
    if items != [] {
      if items[0].key.itemType == 84 && items[0].key.objectid == dir {
        assert EntriesOf(items, dir)[0] == items[0] && EntriesOf(items, dir)[1..] == EntriesOf(items[1..], dir);
        EntryName(m, items[0], es[0]);
        ListingInvertsStore(m, items[1..], dir, es[1..]);
      } else {
        assert EntriesOf(items, dir) == EntriesOf(items[1..], dir);
        ListingInvertsStore(m, items[1..], dir, es);
      }
    }
  }

  // ---------------------------------------------------------------- listing and lookup agree

  lemma {:induction false} NamesMeaning(m: Memory, items: seq<Item>, dir: u64, name: Name)
    ensures name in Names(m, items, dir) <==>
            exists item :: item in items && IsEntry(item, dir) && CString(DirName(m, item.data)) == name
    decreases |items|
  {
    hide DirName, CString;
    if items != [] {
      NamesMeaning(m, items[1..], dir, name);
      assert items == [items[0]] + items[1..];
    }
  }

  /** Every entry is stored under the hash of its name, and names are proper. */
  ghost predicate Hashed(m: Memory, items: seq<Item>, dir: u64) {
    forall item :: item in items && IsEntry(item, dir) ==>
      item.key.offset == NameHash(DirName(m, item.data)) && NulFree(DirName(m, item.data))
  }

  /** In a hashed directory the names listed are precisely the names that lookup finds. */
  lemma ListedIffFound(m: Memory, items: seq<Item>, dir: u64, name: Name)
    requires SortedItems(items) && Hashed(m, items, dir)
    ensures name in Names(m, items, dir) <==> Lookup(m, items, dir, name).Some?
  {
    hide NameHash, DirName, CString, Lookup, Names;
    NamesMeaning(m, items, dir, name);
    LookupIff(m, items, dir, name);
    forall item | item in items && IsEntry(item, dir) ensures CString(DirName(m, item.data)) == DirName(m, item.data) {
      CStringNulFree(DirName(m, item.data));
    }
  }

  /** A hashed directory lists no name twice. */
  lemma {:induction false} ListedOnce(m: Memory, items: seq<Item>, dir: u64)
    requires SortedItems(items) && Hashed(m, items, dir)
    ensures var names := Names(m, items, dir); forall i, j :: 0 <= i < j < |names| ==> names[i] != names[j]
    decreases |items|
  {
    hide NameHash, DirName, CString, Less;
    if items != [] {
      var first, rest := items[0], items[1..];
      ListedOnce(m, rest, dir);
      if IsEntry(first, dir) {
        var name := CString(DirName(m, first.data));
        NamesMeaning(m, rest, dir, name);
        forall item | item in rest && IsEntry(item, dir) ensures CString(DirName(m, item.data)) != name {
          var i :| 0 <= i < |rest| && rest[i] == item;
          assert items[i + 1] == item && first in items;
          LessTotal(first.key, item.key);
          CStringNulFree(DirName(m, item.data));
          CStringNulFree(DirName(m, first.data));
        }
      }
    }
  }

  lemma OneName(fs: Fs, tree: nat, dir: u64, name: Name)
    ensures fs.LocateFrom(tree, dir, [name]) != NoEntry <==> Lookup(fs.m, fs.ItemsOf(tree), dir, name).Some?
  {
    hide Lookup, TreeRoot, Fs.ItemsOf, DirLocation;
    assert [name][1..] == [];
  }

  /** The entry leads somewhere: to an inode or to the root of a tree. */
  predicate Leads(m: Memory, item: Item) {
    DirLocation(m, item.data).itemType == INODE_ITEM || DirLocation(m, item.data).itemType == ROOT_ITEM
  }

  lemma OneNameLeads(fs: Fs, tree: nat, dir: u64, name: Name)
    ensures fs.LocateFrom(tree, dir, [name]).Located? <==>
            && Lookup(fs.m, fs.ItemsOf(tree), dir, name).Some?
            && Leads(fs.m, Lookup(fs.m, fs.ItemsOf(tree), dir, name).value)
  {
    hide Lookup, TreeRoot, Fs.ItemsOf, DirLocation;
    assert [name][1..] == [];
  }

  /** In a hashed directory the entry that lookup finds is the only one of that name. */
  lemma FoundEntry(m: Memory, items: seq<Item>, dir: u64, name: Name)
    requires SortedItems(items) && Hashed(m, items, dir)
    ensures Lookup(m, items, dir, name).Some? && Leads(m, Lookup(m, items, dir, name).value) <==>
            exists item :: item in items && IsEntry(item, dir)
                           && CString(DirName(m, item.data)) == name && Leads(m, item)
  {
    hide NameHash, DirName, CString, LastAtMost, Leads;
    var key := DirKey(dir, NameHash(name));
    FindExactMeaning(items, key);
    forall item | item in items && IsEntry(item, dir) ensures CString(DirName(m, item.data)) == DirName(m, item.data) {
      CStringNulFree(DirName(m, item.data));
    }
    forall item | item in items && IsEntry(item, dir) && CString(DirName(m, item.data)) == name
      ensures Lookup(m, items, dir, name) == Some(item)
    {
      assert item.key == key;
    }
  }

  lemma LocateChild(fs: Fs, tree: nat, p: seq<byte>, name: Name)
    requires fs.Locate(tree, p).Located? && SlashFree(name) && name != []
    ensures var Located(t, d) := fs.Locate(tree, p);
            fs.Locate(tree, if p == [] then name else p + [SLASH] + name) == fs.LocateFrom(t, d, [name])
  {
    SplitName(name);
    hide Split, Fs.LocateFrom;
    if p != [] {
      LocateComposes(fs, tree, p, name);
    }
  }

  /** Path lookup and listing are two views of one directory: below the directory that path p
      names, p/name is looked up without -ENOENT if and only if name is listed there, and is
      located if and only if the entry listed leads to an inode or a tree; in the root
      directory, name itself is. */
  lemma ListingAgreesWithPaths(fs: Fs, tree: nat, p: seq<byte>, name: Name)
    requires fs.Locate(tree, p).Located?
    requires Traversable(fs.Read(), fs.Locate(tree, p).tree)
    requires Hashed(fs.m, fs.ItemsOf(fs.Locate(tree, p).tree), fs.Locate(tree, p).dir)
    requires SlashFree(name) && name != []
    ensures fs.Locate(tree, if p == [] then name else p + [SLASH] + name) != NoEntry
       <==> name in Names(fs.m, fs.ItemsOf(fs.Locate(tree, p).tree), fs.Locate(tree, p).dir)
    ensures fs.Locate(tree, if p == [] then name else p + [SLASH] + name).Located?
       <==> exists item :: item in fs.ItemsOf(fs.Locate(tree, p).tree) && IsEntry(item, fs.Locate(tree, p).dir)
                           && CString(DirName(fs.m, item.data)) == name && Leads(fs.m, item)
  {
    hide CString, DirName, Leads, Fs.Locate, Fs.LocateFrom, Lookup, Names, Hashed, Split;
    hide View, TreeItems, Traversable, SortedItems;
    var Located(t, d) := fs.Locate(tree, p);
    LocateChild(fs, tree, p, name);
    OneName(fs, t, d, name);
    OneNameLeads(fs, t, d, name);
    ItemsSorted(fs.Read(), t);
    ListedIffFound(fs.m, fs.ItemsOf(t), d, name);
    FoundEntry(fs.m, fs.ItemsOf(t), d, name);
  }
}
