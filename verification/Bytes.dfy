/** The mapped image and the little-endian integers read from it.

    An image is a total function from physical addresses to bytes: every pointer of the C code
    is `data` plus such an address. */
module Bytes {

  type byte = n: nat | n < 0x100
  type u16 = n: nat | n < 0x1_0000
  type u32 = n: nat | n < 0x1_0000_0000
  type u64 = n: nat | n < 0x1_0000_0000_0000_0000

  type Memory = nat -> byte

  // ---------------------------------------------------------------- loads

  function Load8(m: Memory, p: nat): byte { m(p) }
  function Load16(m: Memory, p: nat): u16 { Load8(m, p) + 0x100 * Load8(m, p + 1) }
  function Load32(m: Memory, p: nat): u32 { Load16(m, p) + 0x1_0000 * Load16(m, p + 2) }
  function Load64(m: Memory, p: nat): u64 { Load32(m, p) + 0x1_0000_0000 * Load32(m, p + 4) }

  function Big16(m: Memory, p: nat): u16 { 0x100 * Load8(m, p) + Load8(m, p + 1) }
  function Big32(m: Memory, p: nat): u32 { 0x1_0000 * Big16(m, p) + Big16(m, p + 2) }
  function Big64(m: Memory, p: nat): u64 { 0x1_0000_0000 * Big32(m, p) + Big32(m, p + 4) }

  /** A 64-bit field that is used without conversion: the machine decides the order of its bytes. */
  function Raw64(m: Memory, p: nat, bigEndian: bool): u64 {
    if bigEndian then Big64(m, p) else Load64(m, p)
  }

  /** The byte at the lowest address weighs least, and most in a field that a big-endian machine uses
      without conversion. */
  lemma ByteWeights(m: Memory, p: nat)
    ensures Load16(m, p) == m(p) + 0x100 * m(p + 1)
    ensures Load32(m, p) == m(p) + 0x100 * m(p + 1) + 0x1_0000 * m(p + 2) + 0x100_0000 * m(p + 3)
    ensures Load64(m, p) == m(p) + 0x100 * m(p + 1) + 0x1_0000 * m(p + 2) + 0x100_0000 * m(p + 3)
                            + 0x1_0000_0000 * m(p + 4) + 0x100_0000_0000 * m(p + 5)
                            + 0x1_0000_0000_0000 * m(p + 6) + 0x100_0000_0000_0000 * m(p + 7)
    ensures Raw64(m, p, false) == Load64(m, p)
    ensures Raw64(m, p, true) == m(p + 7) + 0x100 * m(p + 6) + 0x1_0000 * m(p + 5) + 0x100_0000 * m(p + 4)
                                 + 0x1_0000_0000 * m(p + 3) + 0x100_0000_0000 * m(p + 2)
                                 + 0x1_0000_0000_0000 * m(p + 1) + 0x100_0000_0000_0000 * m(p)
  {}

  function Slice(m: Memory, p: nat, n: nat): (s: seq<byte>)
    ensures |s| == n
    ensures forall i :: 0 <= i < n ==> s[i] == m(p + i)
  {
    seq(n, i requires 0 <= i < n => m(p + i))
  }

  // ---------------------------------------------------------------- stores

  function Store8(v: byte): seq<byte> { [v] }
  function Store16(v: u16): (s: seq<byte>) ensures |s| == 2 { Store8(v % 0x100) + Store8(v / 0x100) }
  function Store32(v: u32): (s: seq<byte>) ensures |s| == 4 { Store16(v % 0x1_0000) + Store16(v / 0x1_0000) }
  function Store64(v: u64): (s: seq<byte>) ensures |s| == 8 { Store32(v % 0x1_0000_0000) + Store32(v / 0x1_0000_0000) }

  /** The image holds the bytes s at address p. */
  predicate Holds(m: Memory, p: nat, s: seq<byte>) {
    forall i :: 0 <= i < |s| ==> m(p + i) == s[i]
  }

  lemma HoldsSplit(m: Memory, p: nat, s: seq<byte>, t: seq<byte>)
    requires Holds(m, p, s + t)
    ensures Holds(m, p, s) && Holds(m, p + |s|, t)
  {
    forall i | 0 <= i < |s| ensures m(p + i) == s[i] {
      assert (s + t)[i] == s[i];
    }
    forall i | 0 <= i < |t| ensures m(p + |s| + i) == t[i] {
      assert m(p + (|s| + i)) == (s + t)[|s| + i];
    }
  }

  lemma LoadStore8(m: Memory, p: nat, v: byte)
    requires Holds(m, p, Store8(v))
    ensures Load8(m, p) == v
  {
    assert m(p + 0) == Store8(v)[0];
  }

  lemma LoadStore16(m: Memory, p: nat, v: u16)
    requires Holds(m, p, Store16(v))
    ensures Load16(m, p) == v
  {
    HoldsSplit(m, p, Store8(v % 0x100), Store8(v / 0x100));
    LoadStore8(m, p, v % 0x100);
    LoadStore8(m, p + 1, v / 0x100);
  }

  lemma LoadStore32(m: Memory, p: nat, v: u32)
    requires Holds(m, p, Store32(v))
    ensures Load32(m, p) == v
  {
    HoldsSplit(m, p, Store16(v % 0x1_0000), Store16(v / 0x1_0000));
    LoadStore16(m, p, v % 0x1_0000);
    LoadStore16(m, p + 2, v / 0x1_0000);
  }

  /** A 64-bit field reads back what was written. */
  lemma LoadStore64(m: Memory, p: nat, v: u64)
    requires Holds(m, p, Store64(v))
    ensures Load64(m, p) == v
  {
    HoldsSplit(m, p, Store32(v % 0x1_0000_0000), Store32(v / 0x1_0000_0000));
    LoadStore32(m, p, v % 0x1_0000_0000);
    LoadStore32(m, p + 4, v / 0x1_0000_0000);
  }

  // ---------------------------------------------------------------- fields in the wrong place or order

  lemma Load16Same(m: Memory, p: nat, q: nat)
    ensures Load16(m, p) == Load16(m, q) <==> m(p) == m(q) && m(p + 1) == m(q + 1)
  {}

  lemma Load32Same(m: Memory, p: nat, q: nat)
    ensures Load32(m, p) == Load32(m, q) <==>
            m(p) == m(q) && m(p + 1) == m(q + 1) && m(p + 2) == m(q + 2) && m(p + 3) == m(q + 3)
  {
    hide Load16;
    Load16Same(m, p, q);
    Load16Same(m, p + 2, q + 2);
  }

  predicate EqualAt(m: Memory, p: nat, q: nat, i: nat) { m(p + i) == m(q + i) }

  /** n bytes are the same at both addresses. */
  predicate EqualBytes(m: Memory, p: nat, q: nat, n: nat) {
    forall i: nat :: i < n ==> EqualAt(m, p, q, i)
  }

  /** Two 64-bit fields are equal if and only if their eight bytes are. */
  lemma Load64Same(m: Memory, p: nat, q: nat)
    ensures Load64(m, p) == Load64(m, q) <==> EqualBytes(m, p, q, 8)
  {
    hide Load32;
    Load32Same(m, p, q);
    Load32Same(m, p + 4, q + 4);
    assert EqualBytes(m, p, q, 8) ==>
      && EqualAt(m, p, q, 0) && EqualAt(m, p, q, 1) && EqualAt(m, p, q, 2) && EqualAt(m, p, q, 3)
      && EqualAt(m, p, q, 4) && EqualAt(m, p, q, 5) && EqualAt(m, p, q, 6) && EqualAt(m, p, q, 7);
  }

  lemma Mirror16(m: Memory, p: nat, q: nat)
    ensures Load16(m, p) == Big16(m, q) <==> m(p) == m(q + 1) && m(p + 1) == m(q)
  {}

  lemma Mirror32(m: Memory, p: nat, q: nat)
    ensures Load32(m, p) == Big32(m, q) <==>
            m(p) == m(q + 3) && m(p + 1) == m(q + 2) && m(p + 2) == m(q + 1) && m(p + 3) == m(q)
  {
    hide Load16, Big16;
    Mirror16(m, p, q + 2);
    Mirror16(m, p + 2, q);
  }

  predicate Mirrored(m: Memory, p: nat, i: nat)
    requires i < 8
  {
    m(p + i) == m(p + 7 - i)
  }

  /** The eight bytes read the same backwards. */
  predicate Palindrome(m: Memory, p: nat) {
    forall i: nat :: i < 8 ==> Mirrored(m, p, i)
  }

  /** A field used without conversion has its value if and only if the machine is little-endian
      or the field reads the same backwards. */
  lemma Raw64Iff(m: Memory, p: nat, bigEndian: bool)
    ensures Raw64(m, p, bigEndian) == Load64(m, p) <==> !bigEndian || Palindrome(m, p)
  {
    hide Load32, Big32;
    Mirror32(m, p, p + 4);
    Mirror32(m, p + 4, p);
    assert Palindrome(m, p) ==>
      Mirrored(m, p, 0) && Mirrored(m, p, 1) && Mirrored(m, p, 2) && Mirrored(m, p, 3);
  }

  lemma SliceHolds(m: Memory, p: nat, s: seq<byte>)
    requires Holds(m, p, s)
    ensures Slice(m, p, |s|) == s
  {}
}
