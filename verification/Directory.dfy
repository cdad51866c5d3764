/** Path lookup: a path is a walk from directory to directory. */
module Directory {
  import Crc32c
  import opened Bytes
  import opened Errno
  import opened Keys
  import opened Chunks
  import opened Trees
  import opened Btree
  import opened Traverse
  import opened Bootstrap
  import opened Paths

  // ---------------------------------------------------------------- entries in the image

  const DIR_NAME_LEN := 27
  const DIR_ITEM_SIZE := 30
  const FIRST_FREE_OBJECTID: u64 := 256

  function DirLocation(m: Memory, p: nat): Key { LoadKey(m, p) }
  function DirName(m: Memory, p: nat): Name { Slice(m, p + DIR_ITEM_SIZE, Load16(m, p + DIR_NAME_LEN)) }

  /** A directory entry as the format lays it out. */
  function StoreDirItem(location: Key, transid: u64, dataLen: u16, kind: byte, name: Name): seq<byte>
    requires |name| < 0x1_0000
  {
    StoreKey(location) + (Store64(transid) + (Store16(dataLen) + (Store16(|name|) + (Store8(kind) + name))))
  }

  /** An entry is read back as its location and its name. */
  lemma LoadStoreDirItem(m: Memory, p: nat, location: Key, transid: u64, dataLen: u16, kind: byte, name: Name)
    requires |name| < 0x1_0000
    requires Holds(m, p, StoreDirItem(location, transid, dataLen, kind, name))
    ensures DirLocation(m, p) == location && DirName(m, p) == name
  {
    hide LoadKey, StoreKey, Store64, Load16, Store16, Store8;
    var t4 := Store8(kind) + name;
    var t3 := Store16(|name|) + t4;
    var t2 := Store16(dataLen) + t3;
    HoldsSplit(m, p, StoreKey(location), Store64(transid) + t2);
    HoldsSplit(m, p + 17, Store64(transid), t2);
    HoldsSplit(m, p + 25, Store16(dataLen), t3);
    HoldsSplit(m, p + 27, Store16(|name|), t4);
    StoreByteLength(kind);
    HoldsSplit(m, p + 29, Store8(kind), name);
    LoadStoreKey(m, p, location);
    LoadStore16(m, p + 27, |name|);
    SliceHolds(m, p + 30, name);
  }

  lemma StoreByteLength(b: byte)
    ensures |Store8(b)| == 1
  {}

  // ---------------------------------------------------------------- name hash

  const NAME_SEED: bv32 := 0xFFFFFFFE

  function Push(x: bv8, bit: bool): bv8 { (x << 1) | (if bit then 1 else 0) }

  /** The k low bits of a number, as a machine byte. */
  function LowBits(n: nat, k: nat): bv8
    decreases k
  {
    if k == 0 then 0 else Push(LowBits(n / 2, k - 1), n % 2 == 1)
  }

  function Bits(s: seq<byte>): seq<bv8> {
    seq(|s|, i requires 0 <= i < |s| => LowBits(s[i], 8))
  }

  /** The hash under which a name is stored. The length passes through 32 bits. */
  function NameHash(name: Name): u64 {
    Crc32c.Crc(NAME_SEED, Bits(name[..|name| % 0x1_0000_0000])) as nat
  }

  /** `btrfs_name_hash`: the result does not depend on where the name lies in memory. */
  method HashName(name: Name, address: nat, bigEndian: bool) returns (hash: u64)
    ensures hash == NameHash(name)
  {
    var crc := Crc32c.Calculate(NAME_SEED, Bits(name[..|name| % 0x1_0000_0000]), address, bigEndian);
    return crc as nat;
  }

  lemma PushInjective(x: bv8, y: bv8, a: bool, b: bool)
    requires x <= 0x7F && y <= 0x7F
    requires Push(x, a) == Push(y, b)
    ensures x == y && a == b
  {}

  function Bound(k: nat): bv8
    requires k <= 8
  {
    [0x00, 0x01, 0x03, 0x07, 0x0F, 0x1F, 0x3F, 0x7F, 0xFF][k]
  }

  lemma PushBound(k: nat, x: bv8, bit: bool)
    requires k < 8 && x <= Bound(k)
    ensures Push(x, bit) <= Bound(k + 1)
    ensures x <= 0x7F
  {}

  lemma {:induction false} LowBitsBound(n: nat, k: nat)
    requires k <= 8
    ensures LowBits(n, k) <= Bound(k)
    ensures k < 8 ==> LowBits(n, k) <= 0x7F
    decreases k
  {
    hide Bound, Push;
    if k > 0 {
      LowBitsBound(n / 2, k - 1);
      PushBound(k - 1, LowBits(n / 2, k - 1), n % 2 == 1);
    } else {
      BoundZero();
    }
    if k < 8 { PushBound(k, LowBits(n, k), false); }
  }

  lemma BoundZero()
    ensures Bound(0) == 0
  {}

  function Power2(k: nat): nat
    decreases k
  {
    if k == 0 then 1 else 2 * Power2(k - 1)
  }

  lemma {:induction false} LowBitsInjective(n: nat, m: nat, k: nat)
    requires k <= 8 && n < Power2(k) && m < Power2(k)
    requires LowBits(n, k) == LowBits(m, k)
    ensures n == m
    decreases k
  {
    hide Bound, Push;
    if k > 0 {
      LowBitsBound(n / 2, k - 1);
      LowBitsBound(m / 2, k - 1);
      PushInjective(LowBits(n / 2, k - 1), LowBits(m / 2, k - 1), n % 2 == 1, m % 2 == 1);
      LowBitsInjective(n / 2, m / 2, k - 1);
    }
  }

  lemma {:induction false} BitsInjective(a: seq<byte>, b: seq<byte>)
    requires |a| == |b| && Bits(a) == Bits(b)
    ensures a == b
  {
    assert Power2(8) == 256;
    hide LowBits;
    forall i | 0 <= i < |a| ensures a[i] == b[i] {
      assert Bits(a)[i] == Bits(b)[i];
      LowBitsInjective(a[i], b[i], 8);
    }
  }

  lemma PushValue(x: bv8, bit: bool)
    requires x <= 0x7F
    ensures Push(x, bit) as nat == 2 * (x as nat) + if bit then 1 else 0
  {}

  /** A machine byte made of the eight low bits of a byte has its value. */
  lemma {:induction false} LowBitsValue(n: nat, k: nat)
    requires k <= 8 && n < Power2(k)
    ensures LowBits(n, k) as nat == n
    decreases k
  {
    hide Bound, Push;
    if k > 0 {
      LowBitsBound(n / 2, k - 1);
      LowBitsValue(n / 2, k - 1);
      PushValue(LowBits(n / 2, k - 1), n % 2 == 1);
    }
  }

  lemma ByteInvertible(x: bv8, y: bv8)
    requires x as nat == y as nat
    ensures x == y
  {}

  /** The hash of a name is the CRC of its bytes, whatever their representation, from the seed ~1. */
  lemma HashIsCrc(name: Name, s: seq<bv8>)
    requires |s| == |name| < 0x1_0000_0000
    requires forall i :: 0 <= i < |s| ==> s[i] as nat == name[i]
    ensures NameHash(name) == Crc32c.Crc(0xFFFFFFFE, s) as nat
  {
    assert Power2(8) == 256;
    assert name[..|name| % 0x1_0000_0000] == name;
    hide LowBits, Power2, Crc32c.Crc;
    forall i | 0 <= i < |s| ensures Bits(name)[i] == s[i] {
      LowBitsValue(name[i], 8);
      ByteInvertible(LowBits(name[i], 8), s[i]);
    }
    assert Bits(name) == s;
  }

  lemma DefaultValue()
    ensures (0x8DBFC2D2 as bv32) as nat == 0x8DBFC2D2
  {}

  /** An instance: "default", the name of an entry that btrfs keeps in the tree of roots. */
  lemma HashOfDefault()
    ensures NameHash([0x64, 0x65, 0x66, 0x61, 0x75, 0x6C, 0x74]) == 0x8DBFC2D2
  {
    hide Bits, Crc32c.Crc, NameHash;
    var name: Name := [0x64, 0x65, 0x66, 0x61, 0x75, 0x6C, 0x74];
    var s: seq<bv8> := [0x64, 0x65, 0x66, 0x61, 0x75, 0x6C, 0x74];
    Crc32c.CrcOfDefault();
    DefaultValue();
    HashIsCrc(name, s);
  }

  /** An instance: the empty name. */
  lemma HashOfNothing()
    ensures NameHash([]) == 0xFFFFFFFE
  {
    hide Bits;
    HashIsCrc([], []);
  }

  lemma WordInvertible(x: bv32)
    ensures ((x as nat) as bv32) == x
  {}

  /** Two names of one length that differ only inside a window of at most four bytes never share
      a hash, so neither hides the other in a directory. */
  lemma CloseNamesHaveDifferentHashes(before: Name, a: Name, b: Name, after: Name)
    requires |a| == |b| <= 4 && a != b
    requires |before| + |a| + |after| < 0x1_0000_0000
    ensures NameHash(before + a + after) != NameHash(before + b + after)
  {
    hide NameHash, Crc32c.Crc, Bits;
    var x := HashOfParts(before, a, after);
    var y := HashOfParts(before, b, after);
    if Bits(a) == Bits(b) { BitsInjective(a, b); }
    BitsLength(a);
    BitsLength(b);
    Crc32c.NoCollisionInWindow(NAME_SEED, Bits(before), Bits(a), Bits(b), Bits(after));
    WordInvertible(x);
    WordInvertible(y);
  }

  lemma BitsLength(s: seq<byte>)
    ensures |Bits(s)| == |s|
  {}

  lemma BitsAppend(s: seq<byte>, t: seq<byte>)
    ensures Bits(s + t) == Bits(s) + Bits(t)
  {}

  lemma HashOfParts(before: Name, a: Name, after: Name) returns (crc: bv32)
    requires |before| + |a| + |after| < 0x1_0000_0000
    ensures crc == Crc32c.Crc(NAME_SEED, Bits(before) + Bits(a) + Bits(after))
    ensures NameHash(before + a + after) == crc as nat
  {
    hide Crc32c.Crc, Bits;
    var s := before + a + after;
    assert s[..|s| % 0x1_0000_0000] == s;
    BitsAppend(before + a, after);
    BitsAppend(before, a);
    crc := Crc32c.Crc(NAME_SEED, Bits(s));
  }

  // ---------------------------------------------------------------- one component

  predicate IsEntry(item: Item, dir: u64) {
    item.key.itemType == DIR_ITEM && item.key.objectid == dir
  }

  function DirKey(dir: u64, hash: u64): Key { Key(dir, DIR_ITEM, hash) }

  /** Looking up a name is one exact search and one comparison. */
  function Lookup(m: Memory, items: seq<Item>, dir: u64, name: Name): Option<Item> {
    match Find(items, DirKey(dir, NameHash(name)), true)
    case None => None
    case Some(item) => if DirName(m, item.data) == name then Some(item) else None
  }

  datatype LocateAcc = LocateAcc(objectid: u64, hash: u64, filename: Name, result: Option<Item>)

  /** `__btrfs_low_locate_file_handler`. */
  function LocateHandler(m: Memory): Handler<LocateAcc> {
    (acc: LocateAcc, item: Item) =>
      if item.key.itemType != DIR_ITEM then (acc, Continue)
      else if item.key.objectid != acc.objectid then (acc, Continue)
      else if item.key.offset != acc.hash then (acc, Continue)
      else if Load16(m, item.data + DIR_NAME_LEN) != |acc.filename| then (acc, Continue)
      else if !StrnEqual(m, item.data + DIR_ITEM_SIZE, acc.filename) then (acc, Continue)
      else (acc.(result := Some(item)), Break)
  }

  predicate Matches(m: Memory, item: Item, dir: u64, hash: u64, name: Name) {
    item.key == DirKey(dir, hash) && DirName(m, item.data) == name
  }

  lemma HandlerMatches(m: Memory, acc: LocateAcc, item: Item)
    requires NulFree(acc.filename)
    ensures LocateHandler(m)(acc, item) ==
            if Matches(m, item, acc.objectid, acc.hash, acc.filename) then (acc.(result := Some(item)), Break)
            else (acc, Continue)
  {
    StrnEqualIff(m, item.data + DIR_ITEM_SIZE, acc.filename);
    hide StrnEqual;
  }

  lemma {:induction false} FoldLocate(m: Memory, acc: LocateAcc, items: seq<Item>)
    requires NulFree(acc.filename)
    ensures var r := Fold(LocateHandler(m), acc, items).0.result;
            if exists item :: item in items && Matches(m, item, acc.objectid, acc.hash, acc.filename)
            then r.Some? && r.value in items && Matches(m, r.value, acc.objectid, acc.hash, acc.filename)
            else r == acc.result
    decreases |items|
  {
    if items != [] {
      HandlerMatches(m, acc, items[0]);
      hide LocateHandler, Matches;
      FoldLocate(m, acc, items[1..]);
      assert items == [items[0]] + items[1..];
    }
  }

  /** With unique keys the scan over the whole tree finds what the exact search and one
      comparison find; in particular the existence check before the scan changes nothing. */
  lemma ScanIsLookup(m: Memory, items: seq<Item>, dir: u64, name: Name)
    requires SortedItems(items) && NulFree(name)
    ensures Fold(LocateHandler(m), LocateAcc(dir, NameHash(name), name, None), items).0.result
         == Lookup(m, items, dir, name)
  {
    hide NameHash, DirName, LocateHandler, Fold, LastAtMost;
    var key := DirKey(dir, NameHash(name));
    FoldLocate(m, LocateAcc(dir, NameHash(name), name, None), items);
    FindExactMeaning(items, key);
  }

  predicate StoredUnderHash(m: Memory, item: Item, dir: u64, name: Name) {
    IsEntry(item, dir) && item.key.offset == NameHash(name) && DirName(m, item.data) == name
  }

  /** A name is found if and only if the directory has an entry for it stored under its hash. */
  lemma LookupIff(m: Memory, items: seq<Item>, dir: u64, name: Name)
    requires SortedItems(items)
    ensures Lookup(m, items, dir, name).Some? <==>
            exists item :: item in items && StoredUnderHash(m, item, dir, name)
    ensures Lookup(m, items, dir, name).Some? ==>
            var item := Lookup(m, items, dir, name).value;
            item in items && IsEntry(item, dir) && DirName(m, item.data) == name
  {
    hide NameHash, DirName, LastAtMost;
    var key := DirKey(dir, NameHash(name));
    FindExactMeaning(items, key);
    forall item | item in items && StoredUnderHash(m, item, dir, name)
      ensures Lookup(m, items, dir, name) == Some(item)
    {
      assert item.key == key;
    }
  }

  // ---------------------------------------------------------------- whole paths

  datatype Located = Located(tree: nat, dir: u64) | NoEntry | IoError

  /** A mounted image: its trees, the address of the tree of roots, and the byte order of the
      machine, in which root addresses are taken. */
  datatype Fs = Fs(entries: seq<Entry>, m: Memory, rootTree: nat, bigEndian: bool) {
    function Read(): Reader { View(entries, m) }
    function ItemsOf(tree: nat): seq<Item> { TreeItems(Read(), tree) }

    /** One component: an inode stays in the tree, a root switches to the root directory of
        another tree. */
    function Enter(tree: nat, dir: u64, name: Name): Located {
      match Lookup(m, ItemsOf(tree), dir, name)
      case None => NoEntry
      case Some(item) =>
        var location := DirLocation(m, item.data);
        if location.itemType == INODE_ITEM then Located(tree, location.objectid)
        else if location.itemType == ROOT_ITEM then
          Located(TreeRoot(m, ItemsOf(rootTree), location.objectid, bigEndian), FIRST_FREE_OBJECTID)
        else IoError
    }

    function LocateFrom(tree: nat, dir: u64, names: seq<Name>): Located
      decreases |names|
    {
      if names == [] then Located(tree, dir)
      else
        match Enter(tree, dir, names[0])
        case Located(t, d) => LocateFrom(t, d, names[1..])
        case failure => failure
    }

    /** The file a path names: the empty path is the root directory of the tree. */
    function Locate(tree: nat, path: seq<byte>): Located {
      if path == [] then Located(tree, FIRST_FREE_OBJECTID)
      else LocateFrom(tree, FIRST_FREE_OBJECTID, Split(path))
    }

    /** Every tree search on the way is well posed. */
    ghost predicate WalkOk(tree: nat, dir: u64, names: seq<Name>)
      decreases |names|
    {
      names == [] ||
      (&& Searchable(Read(), tree, DirKey(dir, NameHash(names[0])))
       && EnterOk(tree, dir, names[0])
       && match Enter(tree, dir, names[0])
          case Located(t, d) => WalkOk(t, d, names[1..])
          case _ => true)
    }

    ghost predicate EnterOk(tree: nat, dir: u64, name: Name) {
      match Lookup(m, ItemsOf(tree), dir, name)
      case None => true
      case Some(item) =>
        DirLocation(m, item.data).itemType == ROOT_ITEM ==>
          Searchable(Read(), rootTree, RootKey(DirLocation(m, item.data).objectid))
    }
  }

  predicate Reports(located: Located, status: int, tree: nat, dir: u64) {
    match located
    case Located(t, d) => status == 0 && tree == t && dir == d
    case NoEntry => status == -2
    case IoError => status == -5
  }

  /** One round of the loop of `btrfs_low_locate_file`. */
  method EnterName(list: ChunkList, m: Memory, rootTree: nat, tree: nat, dir: u64, name: Name,
                   address: nat, bigEndian: bool)
    returns (status: int, newTree: nat, newDir: u64)
    requires NulFree(name)
    requires Searchable(View(Contents(list), m), tree, DirKey(dir, NameHash(name)))
    requires Fs(Contents(list), m, rootTree, bigEndian).EnterOk(tree, dir, name)
    ensures Reports(Fs(Contents(list), m, rootTree, bigEndian).Enter(tree, dir, name), status, newTree, newDir)
  {
    hide NameHash, Less, LocateHandler, Fold, Find, TreeAt, Items, Resolve, View, TreeRoot;
    ghost var items := TreeItems(View(Contents(list), m), tree);
    newTree, newDir := tree, dir;
    var hash := HashName(name, address, bigEndian);
    var present := FindInBtree(list, m, tree, DirKey(dir, hash), true);
    if present == None {
      return ENOENT, tree, dir;
    }
    var acc := new Acc(LocateAcc(dir, hash, name, None));
    ItemsSorted(View(Contents(list), m), tree);
    ScanIsLookup(m, items, dir, name);
    TraverseBtree(list, m, tree, acc, LocateHandler(m));
    if acc.value.result == None {
      return ENOENT, tree, dir;
    }
    var location := DirLocation(m, acc.value.result.value.data);
    if location.itemType == INODE_ITEM {
      return 0, tree, location.objectid;
    } else if location.itemType == ROOT_ITEM {
      newTree := FindTreeRoot(list, m, rootTree, location.objectid, bigEndian);
      return 0, newTree, FIRST_FREE_OBJECTID;
    } else {
      return EIO, tree, dir;
    }
  }

  lemma ItemsSorted(read: Reader, root: nat)
    requires Traversable(read, root)
    ensures SortedItems(TreeItems(read, root))
  {
    if read(root).Some? {
      TreeSorted(read, root, Level(read, root));
    }
  }

  /** Both byte orders enter the same directory if and only if no root address that does not read
      the same backwards is used. */
  lemma EnterByteOrderIff(fs: Fs, tree: nat, dir: u64, name: Name)
    ensures fs.(bigEndian := true).Enter(tree, dir, name) == fs.(bigEndian := false).Enter(tree, dir, name)
       <==> forall entry, root ::
              Lookup(fs.m, fs.ItemsOf(tree), dir, name) == Some(entry)
              && DirLocation(fs.m, entry.data).itemType == ROOT_ITEM
              && Find(fs.ItemsOf(fs.rootTree), RootKey(DirLocation(fs.m, entry.data).objectid), false) == Some(root)
              ==> Palindrome(fs.m, root.data + ROOT_BYTENR)
  {
    hide Lookup, TreeItems, View, LoadKey, Find, Raw64, Palindrome, Load64;
    var big, little := fs.(bigEndian := true), fs.(bigEndian := false);
    assert big.ItemsOf(tree) == little.ItemsOf(tree) == fs.ItemsOf(tree);
    assert big.ItemsOf(fs.rootTree) == little.ItemsOf(fs.rootTree) == fs.ItemsOf(fs.rootTree);
    match Lookup(fs.m, fs.ItemsOf(tree), dir, name)
    case None =>
    case Some(entry) =>
      match Find(fs.ItemsOf(fs.rootTree), RootKey(DirLocation(fs.m, entry.data).objectid), false)
      case None =>
      case Some(root) =>
        Raw64Iff(fs.m, root.data + ROOT_BYTENR, true);
        Raw64Iff(fs.m, root.data + ROOT_BYTENR, false);
  }

  lemma WalkStep(fs: Fs, tree: nat, dir: u64, path: seq<byte>)
    requires fs.WalkOk(tree, dir, Split(path))
    ensures var end := FilenameEnd(path);
            && Searchable(fs.Read(), tree, DirKey(dir, NameHash(path[..end])))
            && fs.EnterOk(tree, dir, path[..end])
            && match fs.Enter(tree, dir, path[..end])
               case Located(t, d) =>
                 if end == |path| then fs.LocateFrom(tree, dir, Split(path)) == Located(t, d)
                 else fs.LocateFrom(tree, dir, Split(path)) == fs.LocateFrom(t, d, Split(path[end + 1..]))
                      && fs.WalkOk(t, d, Split(path[end + 1..]))
               case failure => fs.LocateFrom(tree, dir, Split(path)) == failure
  {
    hide NameHash, Searchable, Fs.Enter, Fs.EnterOk;
    var end := FilenameEnd(path);
    if end == |path| {
      assert path[..end] == path;
    } else {
      assert Split(path)[1..] == Split(path[end + 1..]);
    }
  }

  /** `btrfs_low_locate_file`: the loop over the components is the walk over the split path.
      The rest of the path stands for the moving `path` pointer. */
  method LocateFile(list: ChunkList, m: Memory, rootTree: nat, fsTree: nat, path: seq<byte>,
                    address: nat, bigEndian: bool)
    returns (status: int, tree: nat, dir: u64)
    requires NulFree(path)
    requires path != [] ==> Fs(Contents(list), m, rootTree, bigEndian).WalkOk(fsTree, FIRST_FREE_OBJECTID, Split(path))
    ensures Reports(Fs(Contents(list), m, rootTree, bigEndian).Locate(fsTree, path), status, tree, dir)
  {
    hide NameHash, Searchable, View, Fs.Enter, Fs.EnterOk, Fs.LocateFrom, Fs.WalkOk, Split;
    ghost var fs := Fs(Contents(list), m, rootTree, bigEndian);
    tree, dir, status := fsTree, FIRST_FREE_OBJECTID, 0;
    if path == [] {
      return;
    }
    ghost var goal := fs.Locate(fsTree, path);
    var rest := path;
    while true
      invariant NulFree(rest) && |rest| <= |path|
      invariant fs.WalkOk(tree, dir, Split(rest)) && goal == fs.LocateFrom(tree, dir, Split(rest))
      decreases |rest|
    {
      WalkStep(fs, tree, dir, rest);
      var end := FilenameEnd(rest);
      status, tree, dir := EnterName(list, m, rootTree, tree, dir, rest[..end], address + |path| - |rest|, bigEndian);
      if status != 0 {
        return;
      }
      if end == |rest| {
        break;
      }
      rest := rest[end + 1..];
    }
  }

  // ---------------------------------------------------------------- laws of the walk

  lemma {:induction false} WalkAppend(fs: Fs, tree: nat, dir: u64, xs: seq<Name>, ys: seq<Name>)
    ensures fs.LocateFrom(tree, dir, xs + ys) ==
            match fs.LocateFrom(tree, dir, xs)
            case Located(t, d) => fs.LocateFrom(t, d, ys)
            case failure => failure
    decreases |xs|
  {
    hide Fs.Enter;
    if xs == [] {
      assert xs + ys == ys;
    } else {
      assert (xs + ys)[0] == xs[0] && (xs + ys)[1..] == xs[1..] + ys;
      match fs.Enter(tree, dir, xs[0])
      case Located(t, d) => WalkAppend(fs, t, d, xs[1..], ys);
      case _ =>
    }
  }

  /** Locating p/q is locating p and then walking q from there, for a non-empty p. */
  lemma LocateComposes(fs: Fs, tree: nat, p: seq<byte>, q: seq<byte>)
    requires p != []
    ensures fs.Locate(tree, p + [SLASH] + q) ==
            match fs.Locate(tree, p)
            case Located(t, d) => fs.LocateFrom(t, d, Split(q))
            case failure => failure
  {
    hide Fs.Enter, Fs.LocateFrom, Split;
    SplitAppend(p, q);
    WalkAppend(fs, tree, FIRST_FREE_OBJECTID, Split(p), Split(q));
  }

  // ---------------------------------------------------------------- where entries lead, from their bytes

  /** A name entered in a directory. */
  predicate StoredEntry(m: Memory, items: seq<Item>, dir: u64, name: Name, item: Item) {
    item in items && item.key == Key(dir, 84, NameHash(name)) && DirName(m, item.data) == name
  }

  lemma LookupStored(m: Memory, items: seq<Item>, dir: u64, name: Name)
    requires SortedItems(items)
    ensures forall item :: Lookup(m, items, dir, name) == Some(item) <==> StoredEntry(m, items, dir, name, item)
  {
    hide NameHash, DirName, LastAtMost;
    FindExactMeaning(items, DirKey(dir, NameHash(name)));
  }

  lemma EntryFound(fs: Fs, tree: nat, dir: u64, name: Name, item: Item, location: Key, transid: u64, dataLen: u16,
                   kind: byte)
    requires SortedItems(fs.ItemsOf(tree)) && |name| < 0x1_0000
    requires item in fs.ItemsOf(tree) && item.key == Key(dir, 84, NameHash(name))
    requires Holds(fs.m, item.data, StoreDirItem(location, transid, dataLen, kind, name))
    ensures Lookup(fs.m, fs.ItemsOf(tree), dir, name) == Some(item) && DirLocation(fs.m, item.data) == location
  {
    hide NameHash, DirName, Lookup, StoreDirItem, DirLocation, SortedItems;
    LoadStoreDirItem(fs.m, item.data, location, transid, dataLen, kind, name);
    LookupStored(fs.m, fs.ItemsOf(tree), dir, name);
  }

  lemma OneComponent(fs: Fs, tree: nat, dir: u64, name: Name)
    ensures fs.LocateFrom(tree, dir, [name]) == fs.Enter(tree, dir, name)
  {
    hide Fs.Enter;
    assert [name][1..] == [];
  }

  /** An entry whose location is the key of an inode leads to that inode, in the same tree. */
  lemma InodeEntryLeads(fs: Fs, tree: nat, dir: u64, name: Name, item: Item, o: u64, x: u64, transid: u64,
                        dataLen: u16, kind: byte)
    requires SortedItems(fs.ItemsOf(tree)) && |name| < 0x1_0000
    requires item in fs.ItemsOf(tree) && item.key == Key(dir, 84, NameHash(name))
    requires Holds(fs.m, item.data, StoreDirItem(Key(o, 1, x), transid, dataLen, kind, name))
    ensures fs.LocateFrom(tree, dir, [name]) == Located(tree, o)
  {
    EntryFound(fs, tree, dir, name, item, Key(o, 1, x), transid, dataLen, kind);
    OneComponent(fs, tree, dir, name);
    hide Lookup, Fs.ItemsOf, DirLocation, StoreDirItem, Fs.LocateFrom;
  }

  /** An entry whose location is the key of a root leads, on a little-endian machine, to object 256 of
      the tree whose address is in the last root item of that tree. */
  lemma RootEntryLeads(fs: Fs, tree: nat, dir: u64, name: Name, item: Item, o: u64, x: u64, transid: u64,
                       dataLen: u16, kind: byte, root: Item, inode: seq<byte>, generation: u64, rootDirid: u64,
                       address: u64)
    requires SortedItems(fs.ItemsOf(tree)) && |name| < 0x1_0000
    requires item in fs.ItemsOf(tree) && item.key == Key(dir, 84, NameHash(name))
    requires Holds(fs.m, item.data, StoreDirItem(Key(o, 132, x), transid, dataLen, kind, name))
    requires !fs.bigEndian && SortedItems(fs.ItemsOf(fs.rootTree)) && LastRoot(fs.ItemsOf(fs.rootTree), o, root)
    requires |inode| == 160 && Holds(fs.m, root.data, StoreRootItem(inode, generation, rootDirid, address))
    ensures fs.LocateFrom(tree, dir, [name]) == Located(address, 256)
  {
    EntryFound(fs, tree, dir, name, item, Key(o, 132, x), transid, dataLen, kind);
    TreeRootFromBytes(fs.m, fs.ItemsOf(fs.rootTree), o, root, inode, generation, rootDirid, address);
    OneComponent(fs, tree, dir, name);
    hide Lookup, Fs.ItemsOf, DirLocation, StoreDirItem, Fs.LocateFrom, TreeRoot, LastRoot, StoreRootItem;
  }

  /** An entry with a location of any other type leads nowhere: -EIO. */
  lemma OtherEntryFails(fs: Fs, tree: nat, dir: u64, name: Name, item: Item, location: Key, transid: u64,
                        dataLen: u16, kind: byte)
    requires SortedItems(fs.ItemsOf(tree)) && |name| < 0x1_0000
    requires item in fs.ItemsOf(tree) && item.key == Key(dir, 84, NameHash(name))
    requires Holds(fs.m, item.data, StoreDirItem(location, transid, dataLen, kind, name))
    requires location.itemType != 1 && location.itemType != 132
    ensures fs.LocateFrom(tree, dir, [name]) == IoError
    ensures forall status, t, d :: Reports(fs.LocateFrom(tree, dir, [name]), status, t, d) ==> status == -5
  {
    EntryFound(fs, tree, dir, name, item, location, transid, dataLen, kind);
    OneComponent(fs, tree, dir, name);
    hide Lookup, Fs.ItemsOf, DirLocation, StoreDirItem, Fs.LocateFrom;
  }

  /** Without an item under the hash of the name there is nothing of that name: -ENOENT. */
  lemma NothingStored(fs: Fs, tree: nat, dir: u64, name: Name)
    requires SortedItems(fs.ItemsOf(tree))
    requires forall item :: item in fs.ItemsOf(tree) ==> item.key != Key(dir, 84, NameHash(name))
    ensures fs.LocateFrom(tree, dir, [name]) == NoEntry
    ensures forall status, t, d :: Reports(fs.LocateFrom(tree, dir, [name]), status, t, d) ==> status == -2
  {
    LookupStored(fs.m, fs.ItemsOf(tree), dir, name);
    OneComponent(fs, tree, dir, name);
    hide Lookup, Fs.ItemsOf, Fs.LocateFrom, NameHash;
    assert Lookup(fs.m, fs.ItemsOf(tree), dir, name).Some? ==>
             StoredEntry(fs.m, fs.ItemsOf(tree), dir, name, Lookup(fs.m, fs.ItemsOf(tree), dir, name).value);
  }

  lemma TwoNames(fs: Fs, tree: nat, a: Name, b: Name)
    requires SlashFree(a) && SlashFree(b)
    ensures fs.Locate(tree, a + [0x2F] + b) ==
            match fs.LocateFrom(tree, 256, [a])
            case Located(t, d) => fs.LocateFrom(t, d, [b])
            case failure => failure
  {
    hide Fs.LocateFrom, Split;
    SplitAppend(a, b);
    SplitName(a);
    SplitName(b);
    WalkAppend(fs, tree, 256, [a], [b]);
  }

  /** The second name of a path is looked up in the directory that the first leads to: "a/b" is found
      although "b" alone is not. */
  lemma InnerDirectory(fs: Fs, tree: nat, a: Name, b: Name, first: Item, second: Item, o: u64, x: u64, o': u64, x': u64,
                       transid: u64, dataLen: u16, kind: byte)
    requires SortedItems(fs.ItemsOf(tree)) && |a| < 0x1_0000 && |b| < 0x1_0000
    requires SlashFree(a) && SlashFree(b) && b != []
    requires first in fs.ItemsOf(tree) && first.key == Key(256, 84, NameHash(a))
    requires second in fs.ItemsOf(tree) && second.key == Key(o, 84, NameHash(b))
    requires Holds(fs.m, first.data, StoreDirItem(Key(o, 1, x), transid, dataLen, kind, a))
    requires Holds(fs.m, second.data, StoreDirItem(Key(o', 1, x'), transid, dataLen, kind, b))
    requires forall item :: item in fs.ItemsOf(tree) ==> item.key != Key(256, 84, NameHash(b))
    ensures fs.Locate(tree, a + [0x2F] + b) == Located(tree, o')
    ensures fs.Locate(tree, b) == NoEntry
  {
    hide Fs.LocateFrom, Fs.ItemsOf, StoreDirItem, NameHash, SortedItems, Split;
    InodeEntryLeads(fs, tree, 256, a, first, o, x, transid, dataLen, kind);
    InodeEntryLeads(fs, tree, o, b, second, o', x', transid, dataLen, kind);
    NothingStored(fs, tree, 256, b);
    TwoNames(fs, tree, a, b);
    SplitName(b);
  }

  /** Where a walk may be. */
  datatype Point = Point(tree: nat, dir: u64)

  /** One component of a path, said by the entries of the image alone. */
  ghost predicate Hop(fs: Fs, from: Point, name: Name, to: Point) {
    exists item :: StoredEntry(fs.m, fs.ItemsOf(from.tree), from.dir, name, item) && LeadsTo(fs, item, from.tree, to)
  }

  predicate LeadsTo(fs: Fs, item: Item, tree: nat, to: Point) {
    var location := DirLocation(fs.m, item.data);
    || (location.itemType == 1 && to == Point(tree, location.objectid))
    || (location.itemType == 132
        && to == Point(TreeRoot(fs.m, fs.ItemsOf(fs.rootTree), location.objectid, fs.bigEndian), 256))
  }

  lemma HopIff(fs: Fs, from: Point, name: Name, to: Point)
    requires SortedItems(fs.ItemsOf(from.tree))
    ensures Hop(fs, from, name, to) <==> fs.Enter(from.tree, from.dir, name) == Located(to.tree, to.dir)
  {
    LookupStored(fs.m, fs.ItemsOf(from.tree), from.dir, name);
    hide Lookup, Fs.ItemsOf, DirLocation, TreeRoot, StoredEntry, SortedItems;
  }

  /** A route from point to point, one name at a time. */
  ghost predicate Route(fs: Fs, points: seq<Point>, names: seq<Name>, to: Point) {
    && |points| == |names| + 1
    && points[|names|] == to
    && forall i :: 0 <= i < |names| ==> Hop(fs, points[i], names[i], points[i + 1])
  }

  lemma RouteTail(fs: Fs, points: seq<Point>, names: seq<Name>, to: Point)
    requires Route(fs, points, names, to) && names != []
    ensures Hop(fs, points[0], names[0], points[1])
    ensures Route(fs, points[1..], names[1..], to)
  {
    hide Hop;
    assert Hop(fs, points[0], names[0], points[0 + 1]);
    forall i | 0 <= i < |names| - 1 ensures Hop(fs, points[1..][i], names[1..][i], points[1..][i + 1]) {
      assert Hop(fs, points[i + 1], names[i + 1], points[(i + 1) + 1]);
    }
  }

  lemma {:induction false} RouteWalked(fs: Fs, trees: iset<nat>, points: seq<Point>, names: seq<Name>, to: Point)
    requires FileTrees(fs, trees) && Route(fs, points, names, to)
    requires points[0].tree in trees && points[0].dir >= 256
    ensures fs.LocateFrom(points[0].tree, points[0].dir, names) == Located(to.tree, to.dir)
    decreases |names|
  {
    if names != [] {
      RouteTail(fs, points, names, to);
      hide FileTrees, Hop, Fs.Enter, SortedItems;
      TreeItemsSorted(fs, trees, points[0].tree);
      HopIff(fs, points[0], names[0], points[1]);
      EnterStays(fs, trees, points[0].tree, points[0].dir, names[0]);
      RouteWalked(fs, trees, points[1..], names[1..], to);
    }
  }

  lemma TreeItemsSorted(fs: Fs, trees: iset<nat>, tree: nat)
    requires FileTrees(fs, trees) && tree in trees
    ensures SortedItems(fs.ItemsOf(tree))
  {
    assert FileTree(fs, tree);
    ItemsSorted(fs.Read(), tree);
  }

  lemma RouteFrom(fs: Fs, from: Point, points: seq<Point>, names: seq<Name>, to: Point)
    requires names != [] && Route(fs, points, names[1..], to) && Hop(fs, from, names[0], points[0])
    ensures Route(fs, [from] + points, names, to)
  {
    hide Hop;
    var all := [from] + points;
    forall i | 0 <= i < |names| ensures Hop(fs, all[i], names[i], all[i + 1]) {
      if i > 0 { assert Hop(fs, points[i - 1], names[1..][i - 1], points[(i - 1) + 1]); }
    }
  }

  lemma {:induction false} WalkHasRoute(fs: Fs, trees: iset<nat>, tree: nat, dir: u64, names: seq<Name>, to: Point)
    returns (points: seq<Point>)
    requires FileTrees(fs, trees) && tree in trees && dir >= 256
    requires fs.LocateFrom(tree, dir, names) == Located(to.tree, to.dir)
    ensures Route(fs, points, names, to) && points[0] == Point(tree, dir)
    decreases |names|
  {
    points := [Point(tree, dir)];
    if names != [] {
      hide FileTrees, Hop, Fs.Enter, SortedItems;
      EnterStays(fs, trees, tree, dir, names[0]);
      TreeItemsSorted(fs, trees, tree);
      var Located(t, d) := fs.Enter(tree, dir, names[0]);
      HopIff(fs, points[0], names[0], Point(t, d));
      var rest := WalkHasRoute(fs, trees, t, d, names[1..], to);
      RouteFrom(fs, Point(tree, dir), rest, names, to);
      points := [Point(tree, dir)] + rest;
    }
  }

  /** A path leads to an object if and only if the entries of the image give a route there, from object
      256 of the tree on, that takes its components one by one. */
  lemma LocateIff(fs: Fs, trees: iset<nat>, tree: nat, path: seq<byte>, to: Point)
    requires FileTrees(fs, trees) && tree in trees && path != []
    ensures fs.Locate(tree, path) == Located(to.tree, to.dir) <==>
            exists points :: Route(fs, points, Split(path), to) && points[0] == Point(tree, 256)
  {
    hide FileTrees, Hop, Fs.LocateFrom, Split;
    var names := Split(path);
    if fs.Locate(tree, path) == Located(to.tree, to.dir) {
      var points := WalkHasRoute(fs, trees, tree, 256, names, to);
    }
    if points :| Route(fs, points, names, to) && points[0] == Point(tree, 256) {
      RouteWalked(fs, trees, points, names, to);
    }
  }

  /** The empty path is object 256 of the tree. */
  lemma EmptyPath(fs: Fs, tree: nat)
    ensures fs.Locate(tree, []) == Located(tree, 256)
  {}

  // ---------------------------------------------------------------- images on which every walk is well posed

  /** `trees` are file trees that each hold the inode of their root directory; their directory
      entries lead to objects of the file range or to roots that are again in `trees`. */
  ghost predicate FileTrees(fs: Fs, trees: iset<nat>) {
    && (forall tree :: tree in trees ==> FileTree(fs, tree))
    && (forall tree, item :: tree in trees && item in fs.ItemsOf(tree) && item.key.itemType == DIR_ITEM ==>
          GoodTarget(fs, trees, item))
  }

  ghost predicate FileTree(fs: Fs, tree: nat) {
    fs.Read()(tree).None?
    || (WellFormed(fs.Read(), tree)
        && exists item :: item in fs.ItemsOf(tree) && item.key == Key(FIRST_FREE_OBJECTID, INODE_ITEM, 0))
  }

  ghost predicate GoodTarget(fs: Fs, trees: iset<nat>, item: Item) {
    var location := DirLocation(fs.m, item.data);
    && (location.itemType == INODE_ITEM ==> location.objectid >= FIRST_FREE_OBJECTID)
    && (location.itemType == ROOT_ITEM ==>
          && Searchable(fs.Read(), fs.rootTree, RootKey(location.objectid))
          && TreeRoot(fs.m, fs.ItemsOf(fs.rootTree), location.objectid, fs.bigEndian) in trees)
  }

  /** A file tree can be searched for any key from its root directory's inode on. */
  lemma FileTreeSearchable(fs: Fs, tree: nat, key: Key)
    requires FileTree(fs, tree) && AtMost(Key(FIRST_FREE_OBJECTID, INODE_ITEM, 0), key)
    ensures Searchable(fs.Read(), tree, key)
  {
    if fs.Read()(tree).Some? {
      var items := fs.ItemsOf(tree);
      ItemsSorted(fs.Read(), tree);
      var item :| item in items && item.key == Key(FIRST_FREE_OBJECTID, INODE_ITEM, 0);
      var i :| 0 <= i < |items| && items[i] == item;
      if i > 0 {
        LessTransitive(items[0].key, items[i].key, key);
        LessIsAtMost(items[0].key, key);
      }
    }
  }

  lemma EnterStays(fs: Fs, trees: iset<nat>, tree: nat, dir: u64, name: Name)
    requires FileTrees(fs, trees) && tree in trees && dir >= FIRST_FREE_OBJECTID
    ensures fs.EnterOk(tree, dir, name)
    ensures fs.Enter(tree, dir, name).Located? ==>
              fs.Enter(tree, dir, name).tree in trees && fs.Enter(tree, dir, name).dir >= FIRST_FREE_OBJECTID
  {
    assert FileTree(fs, tree);
    ItemsSorted(fs.Read(), tree);
    LookupIff(fs.m, fs.ItemsOf(tree), dir, name);
    hide Lookup, Searchable, TreeRoot, FileTree, LoadKey;
    match Lookup(fs.m, fs.ItemsOf(tree), dir, name)
    case None =>
    case Some(item) => assert GoodTarget(fs, trees, item);
  }

  /** On such an image every path can be located, from every tree and directory of it: no walk
      ever searches below the smallest key of a tree. */
  lemma {:induction false} EveryWalkOk(fs: Fs, trees: iset<nat>, tree: nat, dir: u64, names: seq<Name>)
    requires FileTrees(fs, trees) && tree in trees && dir >= FIRST_FREE_OBJECTID
    ensures fs.WalkOk(tree, dir, names)
    decreases |names|
  {
    if names != [] {
      assert FileTree(fs, tree);
      hide FileTrees, FileTree, Searchable, NameHash, Fs.Enter, Fs.EnterOk;
      FileTreeSearchable(fs, tree, DirKey(dir, NameHash(names[0])));
      EnterStays(fs, trees, tree, dir, names[0]);
      match fs.Enter(tree, dir, names[0])
      case Located(t, d) => EveryWalkOk(fs, trees, t, d, names[1..]);
      case _ =>
    }
  }

  /** A walk never leaves the file trees, and ends at an object of the file range. */
  lemma {:induction false} WalkStays(fs: Fs, trees: iset<nat>, tree: nat, dir: u64, names: seq<Name>)
    requires FileTrees(fs, trees) && tree in trees && dir >= FIRST_FREE_OBJECTID
    requires fs.LocateFrom(tree, dir, names).Located?
    ensures fs.LocateFrom(tree, dir, names).tree in trees
    ensures fs.LocateFrom(tree, dir, names).dir >= FIRST_FREE_OBJECTID
    decreases |names|
  {
    hide FileTrees, Fs.Enter;
    if names != [] {
      EnterStays(fs, trees, tree, dir, names[0]);
      var Located(t, d) := fs.Enter(tree, dir, names[0]);
      WalkStays(fs, trees, t, d, names[1..]);
    }
  }

  /** Whatever a path names on such an image can be searched for its extents at any offset. */
  lemma LocatedIsSearchable(fs: Fs, trees: iset<nat>, tree: nat, path: seq<byte>, key: Key)
    requires FileTrees(fs, trees) && tree in trees
    requires fs.Locate(tree, path).Located?
    requires key.objectid == fs.Locate(tree, path).dir && key.itemType >= INODE_ITEM
    ensures Searchable(fs.Read(), fs.Locate(tree, path).tree, key)
  {
    hide FileTree, Fs.LocateFrom, Searchable, Split;
    if path != [] {
      WalkStays(fs, trees, tree, FIRST_FREE_OBJECTID, Split(path));
    }
    FileTreeSearchable(fs, fs.Locate(tree, path).tree, key);
  }

  ghost predicate NoEmptyNames(fs: Fs, trees: iset<nat>) {
    forall tree, item :: tree in trees && item in fs.ItemsOf(tree) && item.key.itemType == DIR_ITEM ==>
      DirName(fs.m, item.data) != []
  }

  /** Doubled, leading and trailing slashes are not skipped: where no entry has an empty name,
      a walk through an empty component never succeeds. */
  lemma {:induction false} EmptyComponentFails(fs: Fs, trees: iset<nat>, tree: nat, dir: u64, names: seq<Name>)
    requires FileTrees(fs, trees) && NoEmptyNames(fs, trees) && tree in trees && dir >= FIRST_FREE_OBJECTID
    requires [] in names
    ensures !fs.LocateFrom(tree, dir, names).Located?
    decreases |names|
  {
    EnterStays(fs, trees, tree, dir, names[0]);
    if names[0] == [] {
      assert FileTree(fs, tree);
      ItemsSorted(fs.Read(), tree);
      LookupIff(fs.m, fs.ItemsOf(tree), dir, []);
    } else {
      hide Fs.Enter, FileTrees, NoEmptyNames;
      match fs.Enter(tree, dir, names[0])
      case Located(t, d) => EmptyComponentFails(fs, trees, t, d, names[1..]);
      case _ =>
    }
  }

  /** A path with a slash behind it names nothing, whatever the path itself names; "a/" is one. */
  lemma TrailingSlashFails(fs: Fs, trees: iset<nat>, tree: nat, path: seq<byte>)
    requires FileTrees(fs, trees) && NoEmptyNames(fs, trees) && tree in trees && path != []
    ensures fs.Locate(tree, path).Located? ==> fs.Locate(tree, path + [SLASH]) == NoEntry
    ensures !fs.Locate(tree, path + [SLASH]).Located?
  {
    hide FileTrees, NoEmptyNames, Fs.Enter, Fs.LocateFrom, Split, Lookup;
    TrailingSlash(path);
    var names := Split(path);
    assert [] in names + [[]] by { assert (names + [[]])[|names|] == []; }
    EmptyComponentFails(fs, trees, tree, FIRST_FREE_OBJECTID, names + [[]]);
    WalkAppend(fs, tree, FIRST_FREE_OBJECTID, names, [[]]);
    if fs.Locate(tree, path).Located? {
      WalkStays(fs, trees, tree, FIRST_FREE_OBJECTID, names);
      var Located(t, d) := fs.LocateFrom(tree, FIRST_FREE_OBJECTID, names);
      EmptyNameFails(fs, trees, t, d);
    }
  }

  lemma EmptyNameFails(fs: Fs, trees: iset<nat>, tree: nat, dir: u64)
    requires FileTrees(fs, trees) && NoEmptyNames(fs, trees) && tree in trees && dir >= FIRST_FREE_OBJECTID
    ensures fs.LocateFrom(tree, dir, [[]]) == NoEntry
  {
    assert FileTree(fs, tree);
    ItemsSorted(fs.Read(), tree);
    LookupIff(fs.m, fs.ItemsOf(tree), dir, []);
    hide Lookup;
  }

  /** An instance: "a/" is the entry "a" and then an entry without a name. */
  lemma SlashInstance(fs: Fs, tree: nat)
    ensures Split([0x61, SLASH]) == [[0x61], []]
    ensures fs.Locate(tree, [0x61]).Located? ==>
              fs.Locate(tree, [0x61, SLASH])
              == fs.LocateFrom(fs.Locate(tree, [0x61]).tree, fs.Locate(tree, [0x61]).dir, [[]])
  {
    hide Fs.Enter, Fs.LocateFrom;
    SplitName([0x61]);
    TrailingSlash([0x61]);
    assert [0x61, SLASH] == [0x61] + [SLASH];
    WalkAppend(fs, tree, FIRST_FREE_OBJECTID, [[0x61]], [[]]);
  }
}
