/** CRC32C as `lib/crc32c.c` computes it: a raw register update with a caller-chosen seed
    and no final complement, over the reflected polynomial of section 12.1 of RFC 3720.

    The reference is the bit-serial register (`BitUpdate`, `Crc`). The byte table, the
    eight slicing tables and the three-part fast loop are all proved equal to it. */
module Crc32c {

  const POLYNOMIAL: bv32 := 0x82F63B78

  /** Exclusive or under a name that proofs can `hide`, so that the solver works with the
      algebra of the register and not with its 32 bits. */
  function Xor(a: bv32, b: bv32): bv32 { a ^ b }

  // ---------------------------------------------------------------- reference register

  /** One bit enters the register. */
  function BitUpdate(crc: bv32, bit: bv32): bv32 {
    if Xor(crc, bit) & 1 == 1 then Xor(crc >> 1, POLYNOMIAL) else crc >> 1
  }

  /** The n low bits of x enter the register, least significant first. */
  function BitsUpdate(crc: bv32, x: bv32, n: nat): bv32
    decreases n
  {
    if n == 0 then crc else BitsUpdate(BitUpdate(crc, x & 1), x >> 1, n - 1)
  }

  function ByteUpdate(crc: bv32, b: bv8): bv32 { BitsUpdate(crc, b as bv32, 8) }

  /** The reference CRC of a byte string from a seed. */
  function Crc(crc: bv32, data: seq<bv8>): bv32
    decreases |data|
  {
    if data == [] then crc else Crc(ByteUpdate(crc, data[0]), data[1..])
  }

  // ---------------------------------------------------------------- the autonomous register

  /** The register with a zero bit coming in. */
  function Step(c: bv32): bv32 {
    if c & 1 == 1 then Xor(c >> 1, POLYNOMIAL) else c >> 1
  }

  function Steps(c: bv32, n: nat): bv32
    decreases n
  {
    if n == 0 then c else Steps(Step(c), n - 1)
  }

  lemma ShiftRaw(a: bv32, b: bv32)
    ensures (a ^ b) >> 1 == (a >> 1) ^ (b >> 1)
  {}

  lemma XorShift(a: bv32, b: bv32)
    ensures Xor(a, b) >> 1 == Xor(a >> 1, b >> 1)
  {
    hide Xor;
    XorDef(a, b);
    XorDef(a >> 1, b >> 1);
    ShiftRaw(a, b);
  }

  lemma XorDef(a: bv32, b: bv32)
    ensures Xor(a, b) == a ^ b
  {}

  lemma XorLow(a: bv32, b: bv32)
    ensures Xor(a, b) & 1 == Xor(a & 1, b & 1)
  {}

  lemma XorBits()
    ensures Xor(0, 0) == 0 && Xor(1, 0) == 1 && Xor(0, 1) == 1 && Xor(1, 1) == 0
  {}

  lemma LowBit(a: bv32)
    ensures a & 1 == 0 || a & 1 == 1
  {}

  lemma XorAssoc(x: bv32, y: bv32, z: bv32)
    ensures Xor(Xor(x, y), z) == Xor(x, Xor(y, z))
  {}

  lemma XorComm(x: bv32, y: bv32)
    ensures Xor(x, y) == Xor(y, x)
  {}

  lemma XorSelf(x: bv32)
    ensures Xor(x, x) == 0
  {}

  lemma XorZero(x: bv32)
    ensures Xor(x, 0) == x
  {}

  lemma XorShuffle(x: bv32, y: bv32, p: bv32)
    ensures Xor(Xor(x, y), p) == Xor(Xor(x, p), y)
    ensures Xor(Xor(x, p), Xor(y, p)) == Xor(x, y)
  {
    hide Xor;
    XorAssoc(x, y, p);
    XorComm(y, p);
    XorAssoc(x, p, y);
    XorAssoc(x, p, Xor(y, p));
    XorComm(p, Xor(y, p));
    XorAssoc(y, p, p);
    XorSelf(p);
    XorZero(y);
  }

  /** The autonomous register is linear over exclusive or. */
  lemma StepLinear(a: bv32, b: bv32)
    ensures Step(Xor(a, b)) == Xor(Step(a), Step(b))
  {
    hide Xor;
    XorShift(a, b);
    XorLow(a, b);
    XorBits();
    LowBit(a);
    LowBit(b);
    XorAssoc(a >> 1, b >> 1, POLYNOMIAL);
    XorShuffle(a >> 1, b >> 1, POLYNOMIAL);
  }

  lemma {:induction false} StepsLinear(a: bv32, b: bv32, n: nat)
    ensures Steps(Xor(a, b), n) == Xor(Steps(a, n), Steps(b, n))
    decreases n
  {
    hide Step, Xor;
    if n > 0 {
      StepLinear(a, b);
      StepsLinear(Step(a), Step(b), n - 1);
    }
  }

  lemma {:induction false} StepsAdd(c: bv32, m: nat, n: nat)
    ensures Steps(c, m + n) == Steps(Steps(c, m), n)
    decreases m
  {
    hide Step, Xor;
    if m > 0 {
      StepsAdd(Step(c), m - 1, n);
    }
  }

  predicate Top(x: bv32) { x & 0x80000000 != 0 }

  lemma TopBits(c: bv32)
    ensures !Top(c >> 1)
    ensures Top(Xor(c >> 1, POLYNOMIAL))
  {}

  /** The polynomial has its top coefficient, so a step shows in its result whether it reduced. */
  lemma StepTop(c: bv32)
    ensures Top(Step(c)) <==> c & 1 == 1
  {
    TopBits(c);
    hide Top, Xor;
  }

  lemma Halves(a: bv32, b: bv32)
    requires a >> 1 == b >> 1 && a & 1 == b & 1
    ensures a == b
  {}

  lemma XorRightCancel(x: bv32, y: bv32, p: bv32)
    requires Xor(x, p) == Xor(y, p)
    ensures x == y
  {
    hide Xor;
    XorAssoc(x, p, p);
    XorAssoc(y, p, p);
    XorSelf(p);
    XorZero(x);
    XorZero(y);
  }

  lemma StepRest(a: bv32, b: bv32)
    requires Step(a) == Step(b) && (a & 1 == 1 <==> b & 1 == 1)
    ensures a >> 1 == b >> 1
  {
    hide Xor;
    if a & 1 == 1 {
      XorRightCancel(a >> 1, b >> 1, POLYNOMIAL);
    }
  }

  lemma StepInjective(a: bv32, b: bv32)
    requires Step(a) == Step(b)
    ensures a == b
  {
    hide Step, Top;
    StepTop(a);
    StepTop(b);
    StepRest(a, b);
    LowBit(a);
    LowBit(b);
    Halves(a, b);
  }

  lemma {:induction false} StepsInjective(a: bv32, b: bv32, n: nat)
    requires a != b
    ensures Steps(a, n) != Steps(b, n)
    decreases n
  {
    hide Step, Xor;
    if n > 0 {
      if Step(a) == Step(b) { StepInjective(a, b); }
      StepsInjective(Step(a), Step(b), n - 1);
    }
  }

  // ---------------------------------------------------------------- bits, bytes and words

  function Drop(x: bv32, n: nat): bv32
    decreases n
  {
    if n == 0 then x else Drop(x >> 1, n - 1)
  }

  lemma LowHigh(c: bv32, x: bv32)
    ensures Xor(c, x) == Xor(Xor(c, x & 1), x & 0xFFFFFFFE)
  {}

  lemma HighPart(x: bv32)
    ensures (x & 0xFFFFFFFE) >> 1 == x >> 1
    ensures (x & 0xFFFFFFFE) & 1 == 0
  {}

  lemma LowPart(c: bv32, x: bv32)
    ensures Xor(c, x & 1) >> 1 == c >> 1
  {}

  lemma StepOfHigh(x: bv32)
    ensures Step(x & 0xFFFFFFFE) == x >> 1
  {
    HighPart(x);
  }

  lemma StepOfLow(c: bv32, x: bv32)
    ensures Step(Xor(c, x & 1)) == BitUpdate(c, x & 1)
  {
    hide Xor;
    LowPart(c, x);
  }

  lemma StepSplit(c: bv32, x: bv32)
    ensures Step(Xor(c, x)) == Xor(BitUpdate(c, x & 1), x >> 1)
  {
    hide Xor, Step, BitUpdate;
    LowHigh(c, x);
    StepLinear(Xor(c, x & 1), x & 0xFFFFFFFE);
    StepOfLow(c, x);
    StepOfHigh(x);
  }

  /** Feeding bits one by one is adding them all to the register and stepping it. */
  lemma {:induction false} BitsAreSteps(c: bv32, x: bv32, n: nat)
    ensures Steps(Xor(c, x), n) == Xor(BitsUpdate(c, x, n), Drop(x, n))
    decreases n
  {
    hide Step, BitUpdate, Xor;
    if n > 0 {
      StepSplit(c, x);
      BitsAreSteps(BitUpdate(c, x & 1), x >> 1, n - 1);
    }
  }

  lemma DropByte(x: bv32)
    requires x <= 0xff
    ensures Drop(x, 8) == 0
  {}

  lemma ByteIsSteps(c: bv32, b: bv8)
    ensures ByteUpdate(c, b) == Steps(Xor(c, b as bv32), 8)
  {
    hide Step, BitUpdate, BitsUpdate, Steps, Drop, Xor;
    var x := b as bv32;
    BitsAreSteps(c, x, 8);
    DropByte(x);
    XorZero(BitsUpdate(c, x, 8));
  }

  /** Eight steps of a register with a clear low byte only shift it. */
  lemma StepsShift(y: bv32)
    requires y & 0xff == 0
    ensures Steps(y, 8) == y >> 8
  {}

  lemma ByteHighParts(w: bv32)
    ensures w == Xor(w & 0xff, w & 0xFFFFFF00)
    ensures (w & 0xFFFFFF00) >> 8 == w >> 8
    ensures (w & 0xFFFFFF00) & 0xff == 0
  {}

  lemma StepsByteSplit(w: bv32)
    ensures Steps(w, 8) == Xor(Steps(w & 0xff, 8), w >> 8)
  {
    hide Step, Steps, Xor;
    var hi := w & 0xFFFFFF00;
    ByteHighParts(w);
    StepsLinear(w & 0xff, hi, 8);
    StepsShift(hi);
  }

  // ---------------------------------------------------------------- tables

  /** The slicing tables: k = 1 is `o32`, which is also `crc32Table`, and k = 8 is `o88`.
      Each next table runs one more zero byte. */
  function Table(k: nat, i: bv32): bv32
    requires 1 <= k <= 8 && i <= 0xff
    decreases k
  {
    if k == 1 then Steps(i, 8) else Steps(Table(k - 1, i), 8)
  }

  lemma {:induction false} TableIsSteps(k: nat, i: bv32)
    requires 1 <= k <= 8 && i <= 0xff
    ensures Table(k, i) == Steps(i, 8 * k)
    decreases k
  {
    hide Step, Steps, Xor;
    if k > 1 {
      TableIsSteps(k - 1, i);
      StepsAdd(i, 8 * (k - 1), 8);
    }
  }

  lemma XorByte(c: bv32, b: bv8)
    ensures Xor(c, b as bv32) >> 8 == c >> 8
  {}

  /** The byte step of the C loops: `table[(crc ^ b) & 0xff] ^ (crc >> 8)`. */
  function TableUpdate(crc: bv32, b: bv8): bv32 {
    Xor(Table(1, Xor(crc, b as bv32) & 0xff), crc >> 8)
  }

  /** One lookup in the byte table is one byte of the reference register. */
  lemma TableByte(c: bv32, b: bv8)
    ensures TableUpdate(c, b) == ByteUpdate(c, b)
  {
    hide Step, Steps, Xor, ByteUpdate;
    XorByte(c, b);
    ByteIsSteps(c, b);
    StepsByteSplit(Xor(c, b as bv32));
  }

  // ---------------------------------------------------------------- one block of eight bytes

  /** The 32-bit little-endian load of four bytes. */
  function Word(x0: bv8, x1: bv8, x2: bv8, x3: bv8): bv32 {
    (x0 as bv32) | ((x1 as bv32) << 8) | ((x2 as bv32) << 16) | ((x3 as bv32) << 24)
  }

  lemma StepsFeed(c: bv32, x: bv8, r: bv32, k: nat)
    requires r <= 0xFFFFFF && k >= 1
    ensures Steps(Xor(c, Xor(x as bv32, r << 8)), 8 * k) == Steps(Xor(ByteUpdate(c, x), r), 8 * (k - 1))
  {
    hide Step, Steps, Xor, ByteUpdate;
    var a := Xor(c, x as bv32);
    XorAssoc(c, x as bv32, r << 8);
    StepsAdd(Xor(a, r << 8), 8, 8 * (k - 1));
    StepsLinear(a, r << 8, 8);
    ByteIsSteps(c, x);
    ShiftBack(r);
    StepsShift(r << 8);
  }

  lemma ShiftBack(r: bv32)
    requires r <= 0xFFFFFF
    ensures (r << 8) & 0xff == 0 && (r << 8) >> 8 == r
  {}

  lemma WordParts(x0: bv8, x1: bv8, x2: bv8, x3: bv8)
    ensures Word(x1, x2, x3, 0) <= 0xFFFFFF
    ensures Word(x0, x1, x2, x3) == Xor(x0 as bv32, Word(x1, x2, x3, 0) << 8)
  {}

  function FourBytes(c: bv32, x0: bv8, x1: bv8, x2: bv8, x3: bv8): bv32 {
    ByteUpdate(ByteUpdate(ByteUpdate(ByteUpdate(c, x0), x1), x2), x3)
  }

  /** Adding a whole word to the register and stepping 32 times is feeding its four bytes. */
  lemma WordIsFourBytes(c: bv32, x0: bv8, x1: bv8, x2: bv8, x3: bv8)
    ensures Steps(Xor(c, Word(x0, x1, x2, x3)), 32) == FourBytes(c, x0, x1, x2, x3)
  {
    hide Step, Xor, ByteUpdate, Word;
    var c1 := ByteUpdate(c, x0);
    var c2 := ByteUpdate(c1, x1);
    var c3 := ByteUpdate(c2, x2);
    WordParts(x0, x1, x2, x3);
    WordParts(x1, x2, x3, 0);
    WordParts(x2, x3, 0, 0);
    WordParts(x3, 0, 0, 0);
    NoWord();
    StepsFeed(c, x0, Word(x1, x2, x3, 0), 4);
    StepsFeed(c1, x1, Word(x2, x3, 0, 0), 3);
    StepsFeed(c2, x2, Word(x3, 0, 0, 0), 2);
    StepsFeed(c3, x3, Word(0, 0, 0, 0), 1);
    XorZero(ByteUpdate(c3, x3));
  }

  lemma NoWord()
    ensures Word(0, 0, 0, 0) == 0
  {}

  /** Byte n of a word as the C code takes it apart: `w & 0xff` and `(w >> 8) & 0xff`, and
      the same two of `term2 = w >> 16`. */
  function ByteOf(w: bv32, n: nat): bv32
    requires n < 4
    ensures ByteOf(w, n) <= 0xff
  {
    match n
    case 0 => w & 0xff
    case 1 => (w >> 8) & 0xff
    case 2 => (w >> 16) & 0xff
    case _ => ((w >> 16) >> 8) & 0xff
  }

  function Lookup(k: nat, w: bv32, n: nat): bv32
    requires 1 <= k <= 8 && n < 4
  {
    Table(k, ByteOf(w, n))
  }

  /** Four lookups: the low byte of w in table k, the next in table k - 1, and so on. */
  function Lookups(k: nat, w: bv32): bv32
    requires 4 <= k <= 8
  {
    Xor(Xor(Xor(Lookup(k, w, 0), Lookup(k - 1, w, 1)), Lookup(k - 2, w, 2)), Lookup(k - 3, w, 3))
  }

  predicate NextByte(w: bv32, next: bv32) { next == w >> 8 }

  lemma StepsSlice(w: bv32, next: bv32, k: nat)
    requires 1 <= k <= 8 && NextByte(w, next)
    ensures Steps(w, 8 * k) == Xor(Lookup(k, w, 0), Steps(next, 8 * (k - 1)))
  {
    hide Step, Steps, Xor, Table;
    StepsAdd(w, 8, 8 * (k - 1));
    StepsAdd(w & 0xff, 8, 8 * (k - 1));
    StepsByteSplit(w);
    StepsLinear(Steps(w & 0xff, 8), next, 8 * (k - 1));
    TableIsSteps(k, w & 0xff);
  }

  lemma NextBytes(w: bv32)
    ensures NextByte(w, w >> 8)
    ensures NextByte(w >> 8, w >> 16)
    ensures NextByte(w >> 16, (w >> 16) >> 8)
    ensures NextByte((w >> 16) >> 8, 0)
  {}

  lemma {:induction false} StepsZero(n: nat)
    ensures Steps(0, n) == 0
  {
    if n > 0 {
      StepsZero(n - 1);
    }
  }

  lemma XorReassoc(a: bv32, b: bv32, c: bv32, d: bv32)
    ensures Xor(a, Xor(b, Xor(c, d))) == Xor(Xor(Xor(a, b), c), d)
  {
    hide Xor;
    XorAssoc(a, b, Xor(c, d));
    XorAssoc(Xor(a, b), c, d);
  }

  lemma LookupChain(k: nat, w0: bv32, w1: bv32, w2: bv32, w3: bv32)
    requires 4 <= k <= 8
    requires NextByte(w0, w1) && NextByte(w1, w2) && NextByte(w2, w3) && NextByte(w3, 0)
    ensures Steps(w0, 8 * k)
         == Xor(Xor(Xor(Lookup(k, w0, 0), Lookup(k - 1, w1, 0)), Lookup(k - 2, w2, 0)), Lookup(k - 3, w3, 0))
  {
    hide Step, Steps, Xor, Lookup, NextByte;
    StepsSlice(w0, w1, k);
    StepsSlice(w1, w2, k - 1);
    StepsSlice(w2, w3, k - 2);
    StepsSlice(w3, 0, k - 3);
    StepsZero(8 * (k - 4));
    XorZero(Lookup(k - 3, w3, 0));
    XorReassoc(Lookup(k, w0, 0), Lookup(k - 1, w1, 0), Lookup(k - 2, w2, 0), Lookup(k - 3, w3, 0));
  }

  /** Four lookups, each table one zero byte ahead of the next, are the whole word stepped. */
  lemma LookupsAreSteps(k: nat, w: bv32)
    requires 4 <= k <= 8
    ensures Lookups(k, w) == Steps(w, 8 * k)
  {
    hide Step, Steps, Xor, Table, NextByte;
    NextBytes(w);
    LookupChain(k, w, w >> 8, w >> 16, (w >> 16) >> 8);
  }

  lemma BlockIsEightBytes(c: bv32, x: seq<bv8>)
    requires |x| == 8
    ensures Xor(Lookups(8, Xor(c, Word(x[0], x[1], x[2], x[3]))), Lookups(4, Word(x[4], x[5], x[6], x[7])))
         == FourBytes(FourBytes(c, x[0], x[1], x[2], x[3]), x[4], x[5], x[6], x[7])
  {
    hide Step, Steps, Xor, Lookups, Word, FourBytes;
    var w1 := Xor(c, Word(x[0], x[1], x[2], x[3]));
    var w2 := Word(x[4], x[5], x[6], x[7]);
    LookupsAreSteps(8, w1);
    LookupsAreSteps(4, w2);
    StepsAdd(w1, 32, 32);
    WordIsFourBytes(c, x[0], x[1], x[2], x[3]);
    var d := FourBytes(c, x[0], x[1], x[2], x[3]);
    StepsLinear(d, w2, 32);
    WordIsFourBytes(d, x[4], x[5], x[6], x[7]);
  }

  lemma {:induction false} CrcAppend(c: bv32, s: seq<bv8>, t: seq<bv8>)
    ensures Crc(c, s + t) == Crc(Crc(c, s), t)
    decreases |s|
  {
    hide ByteUpdate;
    if s == [] {
      assert s + t == t;
    } else {
      assert (s + t)[1..] == s[1..] + t;
      CrcAppend(ByteUpdate(c, s[0]), s[1..], t);
    }
  }

  lemma CrcSnoc(c: bv32, s: seq<bv8>, b: bv8)
    ensures Crc(c, s + [b]) == ByteUpdate(Crc(c, s), b)
  {
    hide ByteUpdate;
    CrcAppend(c, s, [b]);
  }

  lemma CrcEight(c: bv32, x: seq<bv8>)
    requires |x| == 8
    ensures Crc(c, x) == FourBytes(FourBytes(c, x[0], x[1], x[2], x[3]), x[4], x[5], x[6], x[7])
  {
    hide ByteUpdate;
    var lo, hi := x[..4], x[4..];
    assert x == lo + hi;
    CrcAppend(c, lo, hi);
    CrcFour(c, lo);
    CrcFour(Crc(c, lo), hi);
  }

  lemma CrcFour(c: bv32, x: seq<bv8>)
    requires |x| == 4
    ensures Crc(c, x) == FourBytes(c, x[0], x[1], x[2], x[3])
  {
    hide ByteUpdate;
    assert x == [] + [x[0]] + [x[1]] + [x[2]] + [x[3]];
    CrcSnoc(c, [], x[0]);
    CrcSnoc(c, [] + [x[0]], x[1]);
    CrcSnoc(c, [] + [x[0]] + [x[1]], x[2]);
    CrcSnoc(c, [] + [x[0]] + [x[1]] + [x[2]], x[3]);
  }

  // ---------------------------------------------------------------- the two byte orders

  lemma XorFourRaw(c: bv32, a: bv32, b: bv32, d: bv32, e: bv32)
    ensures Xor(Xor(Xor(Xor(c, a), b), d), e) == Xor(c, Xor(a, Xor(b, Xor(d, e))))
  {
    hide Xor;
    XorReassoc(a, b, d, e);
    XorAssoc(c, a, b);
    XorAssoc(c, Xor(a, b), d);
    XorAssoc(c, Xor(Xor(a, b), d), e);
  }

  lemma WordByXor(x0: bv8, x1: bv8, x2: bv8, x3: bv8)
    ensures Word(x0, x1, x2, x3)
         == Xor(x0 as bv32, Xor((x1 as bv32) << 8, Xor((x2 as bv32) << 16, (x3 as bv32) << 24)))
  {}

  lemma WordBytes(x0: bv8, x1: bv8, x2: bv8, x3: bv8)
    ensures ByteOf(Word(x0, x1, x2, x3), 0) == x0 as bv32
    ensures ByteOf(Word(x0, x1, x2, x3), 1) == x1 as bv32
    ensures ByteOf(Word(x0, x1, x2, x3), 2) == x2 as bv32
    ensures ByteOf(Word(x0, x1, x2, x3), 3) == x3 as bv32
  {}

  /** The first word of a block enters the register: byte by byte on a big-endian machine,
      in one load otherwise. */
  function AddWord(crc: bv32, x0: bv8, x1: bv8, x2: bv8, x3: bv8, bigEndian: bool): bv32 {
    if bigEndian then
      Xor(Xor(Xor(Xor(crc, x0 as bv32), (x1 as bv32) << 8), (x2 as bv32) << 16), (x3 as bv32) << 24)
    else
      Xor(crc, Word(x0, x1, x2, x3))
  }

  /** The second word of a block: four byte lookups on a big-endian machine, a load taken
      apart otherwise. */
  function AddLookups(crc: bv32, x0: bv8, x1: bv8, x2: bv8, x3: bv8, bigEndian: bool): bv32 {
    if bigEndian then
      Xor(Xor(Xor(Xor(crc, Table(4, x0 as bv32)), Table(3, x1 as bv32)), Table(2, x2 as bv32)), Table(1, x3 as bv32))
    else
      var word := Word(x0, x1, x2, x3);
      var term1 := Xor(Lookup(4, word, 0), Lookup(3, word, 1));
      Xor(Xor(Xor(crc, term1), Lookup(2, word, 2)), Lookup(1, word, 3))
  }

  lemma AddWordIsXor(c: bv32, x0: bv8, x1: bv8, x2: bv8, x3: bv8, bigEndian: bool)
    ensures AddWord(c, x0, x1, x2, x3, bigEndian) == Xor(c, Word(x0, x1, x2, x3))
  {
    hide Xor, Word;
    WordByXor(x0, x1, x2, x3);
    XorFourRaw(c, x0 as bv32, (x1 as bv32) << 8, (x2 as bv32) << 16, (x3 as bv32) << 24);
  }

  lemma XorTail(c: bv32, a: bv32, b: bv32, d: bv32, e: bv32)
    ensures Xor(Xor(Xor(Xor(c, a), b), d), e) == Xor(c, Xor(Xor(Xor(a, b), d), e))
    ensures Xor(Xor(Xor(c, Xor(a, b)), d), e) == Xor(c, Xor(Xor(Xor(a, b), d), e))
  {
    hide Xor;
    XorFourRaw(c, a, b, d, e);
    XorReassoc(a, b, d, e);
    XorAssoc(c, a, b);
  }

  /** The two byte orders give the same value. */
  lemma AddLookupsIsXor(c: bv32, x0: bv8, x1: bv8, x2: bv8, x3: bv8, bigEndian: bool)
    ensures AddLookups(c, x0, x1, x2, x3, bigEndian) == Xor(c, Lookups(4, Word(x0, x1, x2, x3)))
  {
    hide Xor, Word, Table, ByteOf;
    var w := Word(x0, x1, x2, x3);
    WordBytes(x0, x1, x2, x3);
    XorTail(c, Lookup(4, w, 0), Lookup(3, w, 1), Lookup(2, w, 2), Lookup(1, w, 3));
  }

  // ---------------------------------------------------------------- the C routines

  /** `singletable_crc32c`. */
  method SingleTable(seed: bv32, buf: seq<bv8>) returns (crc: bv32)
    ensures crc == Crc(seed, buf)
  {
    hide TableUpdate, ByteUpdate;
    crc := seed;
    var p := 0;
    while p < |buf|
      invariant 0 <= p <= |buf|
      invariant crc == Crc(seed, buf[..p])
    {
      TableByte(crc, buf[p]);
      CrcSnoc(seed, buf[..p], buf[p]);
      assert buf[..p + 1] == buf[..p] + [buf[p]];
      crc := TableUpdate(crc, buf[p]);
      p := p + 1;
    }
    assert buf[..p] == buf;
  }

  /** One of the byte loops of `crc32c_sb8_64_bit`: `count` bytes from index `from`. */
  method ByteLoop(seed: bv32, buf: seq<bv8>, from: nat, count: nat, c: bv32) returns (crc: bv32, p: nat)
    requires from + count <= |buf|
    requires c == Crc(seed, buf[..from])
    ensures p == from + count
    ensures crc == Crc(seed, buf[..p])
  {
    hide TableUpdate, ByteUpdate;
    crc, p := c, from;
    for li := 0 to count
      invariant p == from + li
      invariant crc == Crc(seed, buf[..p])
    {
      TableByte(crc, buf[p]);
      CrcSnoc(seed, buf[..p], buf[p]);
      assert buf[..p + 1] == buf[..p] + [buf[p]];
      crc := TableUpdate(crc, buf[p]);
      p := p + 1;
    }
  }

  /** The body of the block loop of `crc32c_sb8_64_bit`, in either byte order. */
  method Block(c: bv32, x: seq<bv8>, bigEndian: bool) returns (crc: bv32)
    requires |x| == 8
    ensures crc == Crc(c, x)
  {
    hide Xor, Word, AddWord, AddLookups, FourBytes, Lookup, Crc;
    crc := AddWord(c, x[0], x[1], x[2], x[3], bigEndian);
    AddWordIsXor(c, x[0], x[1], x[2], x[3], bigEndian);
    var term1 := Xor(Lookup(8, crc, 0), Lookup(7, crc, 1));
    crc := Xor(Xor(term1, Lookup(6, crc, 2)), Lookup(5, crc, 3));
    AddLookupsIsXor(crc, x[4], x[5], x[6], x[7], bigEndian);
    BlockIsEightBytes(c, x);
    CrcEight(c, x);
    crc := AddLookups(crc, x[4], x[5], x[6], x[7], bigEndian);
  }

  /** `crc32c_sb8_64_bit`: prologue, blocks of eight, tail. */
  method SlicingBy8(seed: bv32, buf: seq<bv8>, initBytes: nat, bigEndian: bool) returns (crc: bv32)
    requires initBytes <= |buf|
    ensures crc == Crc(seed, buf)
  {
    hide Step, Steps, Xor, ByteUpdate;
    var length := |buf|;
    var runningLength := ((length - initBytes) / 8) * 8;
    var endBytes := length - initBytes - runningLength;
    var p := 0;
    crc, p := ByteLoop(seed, buf, 0, initBytes, seed);
    for li := 0 to runningLength / 8
      invariant p == initBytes + 8 * li
      invariant crc == Crc(seed, buf[..p])
    {
      CrcAppend(seed, buf[..p], buf[p..p + 8]);
      assert buf[..p + 8] == buf[..p] + buf[p..p + 8];
      crc := Block(crc, buf[p..p + 8], bigEndian);
      p := p + 8;
    }
    crc, p := ByteLoop(seed, buf, p, endBytes, crc);
    assert buf[..p] == buf;
  }

  /** `multitable_crc32c`: the prologue length comes from the address of the buffer. Its only
      caller passes at least four bytes, so the prologue never exceeds the buffer. */
  method MultiTable(seed: bv32, buf: seq<bv8>, address: nat, bigEndian: bool) returns (crc: bv32)
    requires |buf| == 0 || 4 <= |buf|
    ensures crc == Crc(seed, buf)
  {
    if |buf| == 0 {
      return seed;
    }
    var toEvenWord := 4 - address % 4;
    crc := SlicingBy8(seed, buf, toEvenWord, bigEndian);
  }

  /** `calculate_crc32c`: for every seed, contents, length, alignment and byte order the
      result is the bit-serial CRC. */
  method Calculate(seed: bv32, buf: seq<bv8>, address: nat, bigEndian: bool) returns (crc: bv32)
    ensures crc == Crc(seed, buf)
  {
    if |buf| < 4 {
      crc := SingleTable(seed, buf);
    } else {
      crc := MultiTable(seed, buf, address, bigEndian);
    }
  }

  // ---------------------------------------------------------------- collisions

  /** The register fed from a string of bits. */
  function CrcBits(crc: bv32, bits: seq<bool>): bv32
    decreases |bits|
  {
    if bits == [] then crc else CrcBits(BitUpdate(crc, if bits[0] then 1 else 0), bits[1..])
  }

  /** The n low bits of x, in the order in which they enter the register. */
  function WordBits(x: bv32, n: nat): (bits: seq<bool>)
    ensures |bits| == n
    decreases n
  {
    if n == 0 then [] else [x & 1 == 1] + WordBits(x >> 1, n - 1)
  }

  function WireBits(data: seq<bv8>): (bits: seq<bool>)
    ensures |bits| == 8 * |data|
    decreases |data|
  {
    if data == [] then [] else WordBits(data[0] as bv32, 8) + WireBits(data[1..])
  }

  lemma {:induction false} CrcBitsAppend(c: bv32, s: seq<bool>, t: seq<bool>)
    ensures CrcBits(c, s + t) == CrcBits(CrcBits(c, s), t)
    decreases |s|
  {
    hide BitUpdate;
    if s == [] {
      assert s + t == t;
    } else {
      assert (s + t)[1..] == s[1..] + t;
      CrcBitsAppend(BitUpdate(c, if s[0] then 1 else 0), s[1..], t);
    }
  }

  lemma {:induction false} BitsUpdateIsCrcBits(c: bv32, x: bv32, n: nat)
    ensures BitsUpdate(c, x, n) == CrcBits(c, WordBits(x, n))
    decreases n
  {
    hide BitUpdate;
    if n > 0 {
      LowBit(x);
      BitsUpdateIsCrcBits(BitUpdate(c, x & 1), x >> 1, n - 1);
    }
  }

  lemma {:induction false} CrcIsCrcBits(c: bv32, data: seq<bv8>)
    ensures Crc(c, data) == CrcBits(c, WireBits(data))
    decreases |data|
  {
    hide BitsUpdate, WordBits;
    if data != [] {
      var x := data[0] as bv32;
      BitsUpdateIsCrcBits(c, x, 8);
      CrcBitsAppend(c, WordBits(x, 8), WireBits(data[1..]));
      CrcIsCrcBits(ByteUpdate(c, data[0]), data[1..]);
    }
  }

  lemma XorInjective(c: bv32, a: bv32, b: bv32)
    requires Xor(c, a) == Xor(c, b)
    ensures a == b
  {
    hide Xor;
    XorComm(c, a);
    XorComm(c, b);
    XorRightCancel(a, b, c);
  }

  lemma BitUpdateIsStep(c: bv32, bit: bool)
    ensures BitUpdate(c, if bit then 1 else 0) == Step(Xor(c, if bit then 1 else 0))
  {
    hide Xor, Step, BitUpdate;
    StepOfLow(c, if bit then 1 else 0);
    assert (if bit then 1 else 0) & 1 == (if bit then 1 else 0) as bv32;
  }

  /** The register is injective in its starting value for a fixed input. */
  lemma {:induction false} CrcBitsInjectiveInSeed(c: bv32, d: bv32, bits: seq<bool>)
    requires c != d
    ensures CrcBits(c, bits) != CrcBits(d, bits)
    decreases |bits|
  {
    hide Step, Xor, BitUpdate;
    if bits != [] {
      var bit: bv32 := if bits[0] then 1 else 0;
      BitUpdateIsStep(c, bits[0]);
      BitUpdateIsStep(d, bits[0]);
      if Xor(c, bit) == Xor(d, bit) {
        XorRightCancel(c, d, bit);
      }
      if Step(Xor(c, bit)) == Step(Xor(d, bit)) {
        StepInjective(Xor(c, bit), Xor(d, bit));
      }
      CrcBitsInjectiveInSeed(BitUpdate(c, bit), BitUpdate(d, bit), bits[1..]);
    }
  }

  lemma CrcInjectiveInSeed(c: bv32, d: bv32, s: seq<bv8>)
    requires c != d
    ensures Crc(c, s) != Crc(d, s)
  {
    hide Crc, CrcBits, WireBits;
    CrcIsCrcBits(c, s);
    CrcIsCrcBits(d, s);
    CrcBitsInjectiveInSeed(c, d, WireBits(s));
  }

  // A string of at most 32 bits as one word

  function PushBit(r: bv32, bit: bool): bv32 { (r << 1) | (if bit then 1 else 0) }

  function Pack(bits: seq<bool>): bv32
    decreases |bits|
  {
    if bits == [] then 0 else PushBit(Pack(bits[1..]), bits[0])
  }

  lemma {:induction false} DropZero(n: nat)
    ensures Drop(0, n) == 0
  {
    if n > 0 {
      DropZero(n - 1);
    }
  }

  lemma {:induction false} DropMore(x: bv32, n: nat, k: nat)
    requires Drop(x, n) == 0 && n <= k
    ensures Drop(x, k) == 0
    decreases n
  {
    if n == 0 {
      DropZero(k);
    } else {
      DropMore(x >> 1, n - 1, k - 1);
    }
  }

  lemma DropEight(x: bv32)
    ensures Drop(x, 8) == x >> 8
  {}

  lemma {:induction false} DropAdd(x: bv32, n: nat, k: nat)
    ensures Drop(x, n + k) == Drop(Drop(x, n), k)
    decreases n
  {
    if n > 0 {
      DropAdd(x >> 1, n - 1, k);
    }
  }

  lemma ShiftSum(x: bv32)
    ensures (((x >> 8) >> 8) >> 8) == x >> 24
    ensures (x >> 24) >> 7 == x >> 31
  {}

  lemma DropSeven(x: bv32)
    ensures Drop(x, 7) == x >> 7
  {}

  lemma Drop31(x: bv32)
    ensures Drop(x, 31) == x >> 31
  {
    hide Drop;
    DropAdd(x, 8, 23);
    DropAdd(x >> 8, 8, 15);
    DropAdd((x >> 8) >> 8, 8, 7);
    DropEight(x);
    DropEight(x >> 8);
    DropEight((x >> 8) >> 8);
    DropSeven(x >> 24);
    ShiftSum(x);
  }

  lemma PushLow(r: bv32, bit: bool)
    requires r >> 31 == 0
    ensures PushBit(r, bit) >> 1 == r
    ensures PushBit(r, bit) & 1 == 1 <==> bit
  {}

  lemma PushMeaning(r: bv32, bit: bool, n: nat)
    requires Drop(r, n) == 0 && n <= 31
    ensures WordBits(PushBit(r, bit), n + 1) == [bit] + WordBits(r, n)
    ensures Drop(PushBit(r, bit), n + 1) == 0
  {
    hide PushBit;
    DropMore(r, n, 31);
    Drop31(r);
    PushLow(r, bit);
  }

  lemma {:induction false} PackMeaning(bits: seq<bool>)
    requires |bits| <= 32
    ensures WordBits(Pack(bits), |bits|) == bits
    ensures Drop(Pack(bits), |bits|) == 0
    decreases |bits|
  {
    if bits != [] {
      PackMeaning(bits[1..]);
      hide PushBit, WordBits, Drop;
      PushMeaning(Pack(bits[1..]), bits[0], |bits| - 1);
      assert bits == [bits[0]] + bits[1..];
    }
  }

  lemma CrcOfPack(c: bv32, bits: seq<bool>)
    requires |bits| <= 32
    ensures CrcBits(c, bits) == Steps(Xor(c, Pack(bits)), |bits|)
  {
    hide BitsUpdate, CrcBits, WordBits, Steps, Drop, Xor, Pack;
    var x := Pack(bits);
    PackMeaning(bits);
    BitsUpdateIsCrcBits(c, x, |bits|);
    BitsAreSteps(c, x, |bits|);
    XorZero(BitsUpdate(c, x, |bits|));
  }

  /** Bit strings that differ only inside a window of 32 bits leave the register different,
      whatever the seed. */
  lemma BitBurstDetected(seed: bv32, before: seq<bool>, a: seq<bool>, b: seq<bool>, after: seq<bool>)
    requires |a| == |b| <= 32
    requires a != b
    ensures CrcBits(seed, before + a + after) != CrcBits(seed, before + b + after)
  {
    hide Steps, Xor, CrcBits, Pack;
    var c := CrcBits(seed, before);
    CrcBitsAppend(seed, before + a, after);
    CrcBitsAppend(seed, before + b, after);
    CrcBitsAppend(seed, before, a);
    CrcBitsAppend(seed, before, b);
    CrcOfPack(c, a);
    CrcOfPack(c, b);
    PackMeaning(a);
    PackMeaning(b);
    if Xor(c, Pack(a)) == Xor(c, Pack(b)) {
      XorInjective(c, Pack(a), Pack(b));
    }
    StepsInjective(Xor(c, Pack(a)), Xor(c, Pack(b)), |a|);
    CrcBitsInjectiveInSeed(CrcBits(c, a), CrcBits(c, b), after);
  }

  /** No burst of up to 32 bits goes unseen: byte strings whose bits, in the order in which they
      enter the register, are the same outside 32 consecutive places have different CRCs. The
      window need not start at a byte, so that it may touch five bytes. */
  lemma BurstDetected(seed: bv32, s: seq<bv8>, t: seq<bv8>, from: nat, width: nat)
    requires |s| == |t| && width <= 32 && from + width <= 8 * |s|
    requires WireBits(s)[..from] == WireBits(t)[..from]
    requires WireBits(s)[from + width..] == WireBits(t)[from + width..]
    requires s != t
    ensures Crc(seed, s) != Crc(seed, t)
  {
    hide Crc, CrcBits, WireBits;
    var x, y := WireBits(s), WireBits(t);
    if x == y { WireBitsInjective(s, t); }
    CrcIsCrcBits(seed, s);
    CrcIsCrcBits(seed, t);
    assert x == x[..from] + x[from..from + width] + x[from + width..];
    assert y == y[..from] + y[from..from + width] + y[from + width..];
    BitBurstDetected(seed, x[..from], x[from..from + width], y[from..from + width], x[from + width..]);
  }

  lemma SameHalves(x: bv32, y: bv32)
    requires (x & 1 == 1) == (y & 1 == 1) && x >> 1 == y >> 1
    ensures x == y
  {}

  lemma WordBitsParts(x: bv32, y: bv32, n: nat)
    requires n > 0 && WordBits(x, n) == WordBits(y, n)
    ensures (x & 1 == 1) == (y & 1 == 1) && WordBits(x >> 1, n - 1) == WordBits(y >> 1, n - 1)
  {
    assert WordBits(x, n)[0] == WordBits(y, n)[0] && WordBits(x, n)[1..] == WordBits(y, n)[1..];
  }

  lemma {:induction false} WordBitsInjective(x: bv32, y: bv32, n: nat)
    requires WordBits(x, n) == WordBits(y, n) && Drop(x, n) == Drop(y, n)
    ensures x == y
    decreases n
  {
    hide WordBits;
    if n > 0 {
      WordBitsParts(x, y, n);
      WordBitsInjective(x >> 1, y >> 1, n - 1);
      SameHalves(x, y);
    }
  }

  lemma {:induction false} WireBitsInjective(s: seq<bv8>, t: seq<bv8>)
    requires |s| == |t| && WireBits(s) == WireBits(t)
    ensures s == t
    decreases |s|
  {
    hide WordBits, Drop;
    if s != [] {
      var x, y := s[0] as bv32, t[0] as bv32;
      assert WordBits(x, 8) == WireBits(s)[..8] == WireBits(t)[..8] == WordBits(y, 8);
      assert WireBits(s[1..]) == WireBits(s)[8..] == WireBits(t)[8..] == WireBits(t[1..]);
      DropByte(x);
      DropByte(y);
      WordBitsInjective(x, y, 8);
      WireBitsInjective(s[1..], t[1..]);
      assert s == [s[0]] + s[1..] && t == [t[0]] + t[1..];
    }
  }

  lemma {:induction false} WireBitsAppend(s: seq<bv8>, t: seq<bv8>)
    ensures WireBits(s + t) == WireBits(s) + WireBits(t)
    decreases |s|
  {
    hide WordBits;
    if s == [] {
      assert s + t == t;
    } else {
      assert (s + t)[1..] == s[1..] + t;
      WireBitsAppend(s[1..], t);
    }
  }

  /** In bytes: strings of one length that differ only inside a window of at most four bytes
      have different CRCs, whatever the seed. */
  lemma NoCollisionInWindow(seed: bv32, before: seq<bv8>, a: seq<bv8>, b: seq<bv8>, after: seq<bv8>)
    requires |a| == |b| <= 4
    requires a != b
    ensures Crc(seed, before + a + after) != Crc(seed, before + b + after)
  {
    hide Crc, CrcBits, WireBits;
    CrcIsCrcBits(seed, before + a + after);
    CrcIsCrcBits(seed, before + b + after);
    WireBitsAppend(before + a, after);
    WireBitsAppend(before + b, after);
    WireBitsAppend(before, a);
    WireBitsAppend(before, b);
    if WireBits(a) == WireBits(b) { WireBitsInjective(a, b); }
    BitBurstDetected(seed, WireBits(before), WireBits(a), WireBits(b), WireBits(after));
  }

  // ---------------------------------------------------------------- anchors

  lemma StepsEight(c: bv32)
    ensures Steps(c, 8) == Step(Step(Step(Step(Step(Step(Step(Step(c))))))))
  {
    hide Step;
  }

  /** Entry 1 of each of the eight literal tables is the value of the function that stands for it. */
  lemma TableEntryOne()
    ensures Table(1, 1) == 0xF26B8303
    ensures Table(2, 1) == 0x13A29877
    ensures Table(3, 1) == 0xA541927E
    ensures Table(4, 1) == 0xDD45AAB8
    ensures Table(5, 1) == 0x38116FAC
    ensures Table(6, 1) == 0xEF306B19
    ensures Table(7, 1) == 0x68032CC8
    ensures Table(8, 1) == 0x493C7D27
  {
    hide Steps;
    StepsEight(0x00000001);
    StepsEight(0xF26B8303);
    StepsEight(0x13A29877);
    StepsEight(0xA541927E);
    StepsEight(0xDD45AAB8);
    StepsEight(0x38116FAC);
    StepsEight(0xEF306B19);
    StepsEight(0x68032CC8);
  }

  lemma ByteByStep(c: bv32, b: bv8, d: bv32)
    requires Step(Step(Step(Step(Step(Step(Step(Step(c ^ (b as bv32))))))))) == d
    ensures ByteUpdate(c, b) == d
  {
    hide Step, Steps, ByteUpdate;
    ByteIsSteps(c, b);
    XorDef(c, b as bv32);
    StepsEight(c ^ (b as bv32));
  }

  /** The published check value of CRC-32C: the digits 1 to 9 from an all-ones seed, complemented. */
  lemma CheckValue()
    ensures Crc(0xFFFFFFFF, [0x31, 0x32, 0x33, 0x34, 0x35, 0x36, 0x37, 0x38, 0x39]) == !0xE3069283
  {
    hide ByteUpdate;
    var d: seq<bv8> := [0x31, 0x32, 0x33, 0x34, 0x35, 0x36, 0x37, 0x38, 0x39];
    ByteByStep(0xFFFFFFFF, 0x31, 0x6F0A661C);
    ByteByStep(0x6F0A661C, 0x32, 0x8CAA3B9F);
    ByteByStep(0x8CAA3B9F, 0x33, 0xEF84D04D);
    ByteByStep(0xEF84D04D, 0x34, 0x09C50B11);
    ByteByStep(0x09C50B11, 0x35, 0xE72EDCCA);
    ByteByStep(0xE72EDCCA, 0x36, 0xBECA8E79);
    ByteByStep(0xBECA8E79, 0x37, 0xEDBD6815);
    ByteByStep(0xEDBD6815, 0x38, 0x9F787F65);
    ByteByStep(0x9F787F65, 0x39, 0x1CF96D7C);
    CrcEight(0xFFFFFFFF, d[..8]);
    CrcSnoc(0xFFFFFFFF, d[..8], d[8]);
    assert d == d[..8] + [d[8]];
  }

  /** The seven letters of "default" from the seed ~1. */
  lemma CrcOfDefault()
    ensures Crc(0xFFFFFFFE, [0x64, 0x65, 0x66, 0x61, 0x75, 0x6C, 0x74]) == 0x8DBFC2D2
  {
    hide ByteUpdate;
    var d: seq<bv8> := [0x64, 0x65, 0x66, 0x61, 0x75, 0x6C, 0x74];
    ByteByStep(0xFFFFFFFE, 0x64, 0xF9B52BD0);
    ByteByStep(0xF9B52BD0, 0x65, 0x871DD3FE);
    ByteByStep(0x871DD3FE, 0x66, 0x18F6B90B);
    ByteByStep(0x18F6B90B, 0x61, 0x0A3C4DE3);
    ByteByStep(0x0A3C4DE3, 0x75, 0xB40327B2);
    ByteByStep(0xB40327B2, 0x6C, 0x7F1F5DAB);
    ByteByStep(0x7F1F5DAB, 0x74, 0x8DBFC2D2);
    assert d == d[..4] + [d[4]] + [d[5]] + [d[6]];
    CrcFour(0xFFFFFFFE, d[..4]);
    CrcSnoc(0xFFFFFFFE, d[..4], d[4]);
    CrcSnoc(0xFFFFFFFE, d[..4] + [d[4]], d[5]);
    CrcSnoc(0xFFFFFFFE, d[..4] + [d[4]] + [d[5]], d[6]);
  }
}
