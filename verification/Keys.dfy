/** The three-part key of every btrfs item, its order, and the binary search over an array of
    records that begin with keys. */
module Keys {
  import opened Bytes

  datatype Key = Key(objectid: u64, itemType: byte, offset: u64)

  const KEY_SIZE := 17
  const INODE_ITEM: byte := 1
  const DIR_ITEM: byte := 84
  const EXTENT_DATA: byte := 108
  const ROOT_ITEM: byte := 132
  const CHUNK_ITEM: byte := 228

  /** `btrfs_disk_key_to_cpu`. */
  function LoadKey(m: Memory, p: nat): Key {
    Key(Load64(m, p), Load8(m, p + 8), Load64(m, p + 9))
  }

  function StoreKey(k: Key): (s: seq<byte>)
    ensures |s| == KEY_SIZE
  {
    Store64(k.objectid) + Store8(k.itemType) + Store64(k.offset)
  }

  lemma LoadStoreKey(m: Memory, p: nat, k: Key)
    requires Holds(m, p, StoreKey(k))
    ensures LoadKey(m, p) == k
  {
    HoldsSplit(m, p, Store64(k.objectid) + Store8(k.itemType), Store64(k.offset));
    HoldsSplit(m, p, Store64(k.objectid), Store8(k.itemType));
    LoadStore64(m, p, k.objectid);
    LoadStore8(m, p + 8, k.itemType);
    LoadStore64(m, p + 9, k.offset);
  }

  /** Two stored keys are equal if and only if their seventeen bytes are. */
  lemma LoadKeySame(m: Memory, p: nat, q: nat)
    ensures LoadKey(m, p) == LoadKey(m, q) <==> EqualBytes(m, p, q, KEY_SIZE)
  {
    hide Load64;
    Load64Same(m, p, q);
    Load64Same(m, p + 9, q + 9);
    KeyBytes(m, p, q, p + 9, q + 9);
  }

  /** The bytes of a key are those of its objectid, its type and its offset. */
  lemma KeyBytes(m: Memory, p: nat, q: nat, p': nat, q': nat)
    requires p' == p + 9 && q' == q + 9
    ensures EqualBytes(m, p, q, KEY_SIZE)
       <==> EqualBytes(m, p, q, 8) && m(p + 8) == m(q + 8) && EqualBytes(m, p', q', 8)
  {
    assert EqualAt(m, p, q, 8) <==> m(p + 8) == m(q + 8);
    forall i: nat | i < 8 ensures EqualAt(m, p', q', i) <==> EqualAt(m, p, q, i + 9) {}
    assert forall i: nat :: 8 < i < KEY_SIZE ==> (EqualAt(m, p, q, i) <==> EqualAt(m, p', q', i - 9));
  }

  // ---------------------------------------------------------------- order

  /** Lexicographic order: objectid, then type, then offset. */
  predicate Less(a: Key, b: Key) {
    || a.objectid < b.objectid
    || (a.objectid == b.objectid && (a.itemType < b.itemType || (a.itemType == b.itemType && a.offset < b.offset)))
  }

  predicate AtMost(a: Key, b: Key) { a == b || Less(a, b) }

  /** `btrfs_comp_keys`. */
  function CompKeys(a: Key, b: Key): (r: int)
    ensures -1 <= r <= 1
    ensures r == 0 <==> a == b
    ensures r < 0 <==> Less(a, b)
    ensures r > 0 <==> Less(b, a)
    ensures r < 0 <==> Weight(a) < Weight(b)
  {
    if a.objectid > b.objectid then 1
    else if a.objectid < b.objectid then -1
    else if a.itemType > b.itemType then 1
    else if a.itemType < b.itemType then -1
    else if a.offset > b.offset then 1
    else if a.offset < b.offset then -1
    else 0
  }

  /** A key as one number of 136 bits: the objectid weighs most, then the type, then the offset. */
  function Weight(k: Key): nat {
    k.objectid * 0x1_00_0000_0000_0000_0000 + k.itemType * 0x1_0000_0000_0000_0000 + k.offset
  }

  /** The comparison is that of the numbers. */
  lemma KeyOrder(a: Key, b: Key)
    ensures Less(a, b) <==> Weight(a) < Weight(b)
    ensures a == b <==> Weight(a) == Weight(b)
    ensures CompKeys(a, b) == if Weight(a) < Weight(b) then -1 else if Weight(a) > Weight(b) then 1 else 0
  {}

  /** The three parts decide in their order. */
  lemma KeyOrderInstances()
    ensures Weight(Key(3, 2, 1)) == 0x3_02_0000_0000_0000_0001
    ensures CompKeys(Key(256, 84, 0), Key(257, 1, 0)) == -1 && CompKeys(Key(257, 1, 0), Key(256, 84, 9)) == 1
    ensures CompKeys(Key(256, 1, 9), Key(256, 84, 0)) == -1 && CompKeys(Key(256, 84, 0), Key(256, 1, 9)) == 1
    ensures CompKeys(Key(256, 84, 7), Key(256, 84, 9)) == -1 && CompKeys(Key(256, 84, 7), Key(256, 84, 7)) == 0
  {}

  predicate Sorted(keys: seq<Key>) {
    forall i, j :: 0 <= i < j < |keys| ==> Less(keys[i], keys[j])
  }

  lemma LessTransitive(a: Key, b: Key, c: Key)
    requires Less(a, b) && AtMost(b, c)
    ensures Less(a, c)
  {}

  lemma LessTotal(a: Key, b: Key)
    ensures a == b || Less(a, b) || Less(b, a)
    ensures !(Less(a, b) && Less(b, a)) && !Less(a, a)
  {}

  /** The key of record i in an array of records of `size` bytes, `keyOffset` bytes in. */
  function RecordKey(m: Memory, start: nat, keyOffset: nat, size: nat, i: nat): Key {
    LoadKey(m, start + i * size + keyOffset)
  }

  function KeyArray(m: Memory, start: nat, count: nat, keyOffset: nat, size: nat): (keys: seq<Key>)
    ensures |keys| == count
    ensures forall i :: 0 <= i < count ==> keys[i] == RecordKey(m, start, keyOffset, size, i)
  {
    seq(count, i requires 0 <= i < count => RecordKey(m, start, keyOffset, size, i))
  }

  /** `__btrfs_binary_search`: 0 with the record whose key is the query, 1 with the record of
      the greatest smaller key, or -1 exactly when no key is at most the query. The result is
      the index of the record, where the C code hands back its address. */
  method BinarySearch(m: Memory, start: nat, count: nat, keyOffset: nat, size: nat, key: Key)
    returns (ret: int, result: nat)
    requires Sorted(KeyArray(m, start, count, keyOffset, size))
    ensures var keys := KeyArray(m, start, count, keyOffset, size);
            && -1 <= ret <= 1
            && (ret == -1 <==> forall i :: 0 <= i < count ==> Less(key, keys[i]))
            && (ret == 0 <==> key in keys)
            && (ret == 0 ==> result < count && keys[result] == key)
            && (ret == 1 ==> result < count && Less(keys[result], key)
                             && forall i :: result < i < count ==> Less(key, keys[i]))
  {
    hide RecordKey, KeyArray, Less;
    ghost var keys := KeyArray(m, start, count, keyOffset, size);
    var left, right, middle, rel := 0, count, 0, 0;
    if right == left {
      return -1, 0;
    }
    while left < right
      invariant 0 <= left <= right <= count
      invariant forall i :: 0 <= i < left ==> Less(keys[i], key)
      invariant forall i :: right <= i < count ==> Less(key, keys[i])
      invariant left == right ==> rel != 0
    {
      middle := left + (right - left) / 2;
      var middleKey := RecordKey(m, start, keyOffset, size, middle);
      rel := CompKeys(middleKey, key);
      if rel < 0 {
        forall i | 0 <= i <= middle ensures Less(keys[i], key) {
          if i < middle { LessTransitive(keys[i], middleKey, key); }
        }
        left := middle + 1;
      } else if rel > 0 {
        forall i | middle <= i < count ensures Less(key, keys[i]) {
          if middle < i { LessTransitive(key, middleKey, keys[i]); }
        }
        right := middle;
      } else {
        assert keys[middle] == key;
        break;
      }
    }
    forall i | 0 <= i < count ensures !(Less(keys[i], key) && Less(key, keys[i])) && !Less(keys[i], keys[i]) {
      LessTotal(keys[i], key);
      LessTotal(keys[i], keys[i]);
    }
    if rel == 0 {
      assert keys[middle] == key && !Less(key, keys[middle]);
      return 0, middle;
    } else if left == 0 {
      return -1, 0;
    } else {
      assert !Less(key, keys[left - 1]);
      return 1, left - 1;
    }
  }
}
