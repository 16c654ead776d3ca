// 32-bit words. The operations are named so that proofs about them can reason
// by equations and leave the bits to a few small lemmas.

module Words {
  type Word = bv32

  function Xor(x: Word, y: Word): Word { x ^ y }

  function Shr1(x: Word): Word { x >> 1 }

  function Shr8(x: Word): Word { x >> 8 }

  function Low8(x: Word): Word { x & 0xff }

  function High24(x: Word): Word { x & 0xffff_ff00 }

  lemma XorAssoc(a: Word, b: Word, c: Word)
    ensures Xor(Xor(a, b), c) == Xor(a, Xor(b, c))
  {
  }

  lemma XorComm(a: Word, b: Word)
    ensures Xor(a, b) == Xor(b, a)
  {
  }

  lemma XorSwap(a: Word, b: Word, c: Word, d: Word)
    ensures Xor(Xor(a, b), Xor(c, d)) == Xor(Xor(a, c), Xor(b, d))
  {
    hide Xor;
    XorAssoc(a, b, Xor(c, d));
    XorAssoc(b, c, d);
    XorComm(b, c);
    XorAssoc(c, b, d);
    XorAssoc(a, c, Xor(b, d));
  }

  lemma XorShift(x: Word, y: Word)
    ensures Shr1(Xor(x, y)) == Xor(Shr1(x), Shr1(y))
  {
  }

  lemma XorSplit8(x: Word)
    ensures x == Xor(Low8(x), High24(x)) && Shr8(High24(x)) == Shr8(x)
  {
  }

  // A byte only meets the low eight bits of a word.
  lemma XorByte(l: Word, b: bv8)
    ensures Low8(Xor(l, b as Word)) == Xor(Low8(l), b as Word) && Shr8(Xor(l, b as Word)) == Shr8(l)
  {
  }

  // The word whose bytes are b0..b3, b0 least significant.
  function Little(b0: bv8, b1: bv8, b2: bv8, b3: bv8): Word {
    b0 as Word | (b1 as Word << 8) | (b2 as Word << 16) | (b3 as Word << 24)
  }

  lemma LittleBytes(b0: bv8, b1: bv8, b2: bv8, b3: bv8)
    ensures var w := Little(b0, b1, b2, b3);
      && Low8(w) == b0 as Word && Low8(Shr8(w)) == b1 as Word
      && Low8(Shr8(Shr8(w))) == b2 as Word && Shr8(Shr8(Shr8(w))) == b3 as Word
  {
  }

  function ShrN(x: Word, n: nat): Word
    decreases n
  {
    if n == 0 then x else ShrN(Shr1(x), n - 1)
  }

  lemma ByteRunsOut(b: bv8)
    ensures ShrN(b as Word, 8) == 0
  {
  }

  lemma XorZero(x: Word)
    ensures Xor(x, 0) == x && Xor(x, x) == 0
  {
  }

  // Circular left shifts.
  function Rol1(x: Word): Word { (x << 1) | (x >> 31) }

  function Rol5(x: Word): Word { (x << 5) | (x >> 27) }

  function Rol8(x: Word): Word { (x << 8) | (x >> 24) }

  function Rol24(x: Word): Word { (x << 24) | (x >> 8) }

  function Rol30(x: Word): Word { (x << 30) | (x >> 2) }

  // What the shifts compute: the bits that leave at the top come in at the bottom.
  lemma Rol1Exact(x: Word)
    ensures Rol1(x) == x % 0x8000_0000 * 0x2 + x / 0x8000_0000
  {
  }

  lemma Rol5Exact(x: Word)
    ensures Rol5(x) == x % 0x800_0000 * 0x20 + x / 0x800_0000
  {
  }

  lemma Rol30Exact(x: Word)
    ensures Rol30(x) == x % 0x4 * 0x4000_0000 + x / 0x4
  {
  }

  // The word whose bytes are b0..b3, b0 most significant.
  function Big(b0: bv8, b1: bv8, b2: bv8, b3: bv8): Word {
    Little(b3, b2, b1, b0)
  }

  // Byte swapping as the macro blk0 does it.
  function Swap(x: Word): Word {
    (Rol24(x) & 0xFF00_FF00) | (Rol8(x) & 0x00FF_00FF)
  }

  lemma SwapLittle(b0: bv8, b1: bv8, b2: bv8, b3: bv8)
    ensures Swap(Little(b0, b1, b2, b3)) == Big(b0, b1, b2, b3)
  {
  }

  // The bytes of a word, most significant first.
  function BigBytes(w: Word): seq<bv8> {
    [((w >> 24) & 0xff) as bv8, ((w >> 16) & 0xff) as bv8, ((w >> 8) & 0xff) as bv8, (w & 0xff) as bv8]
  }

  // They are the digits of the word to the base 256.
  lemma BigBytesAreDigits(w: Word)
    ensures var b := BigBytes(w);
      && |b| == 4 && b[0] as Word == w / 0x100_0000 && b[1] as Word == w / 0x1_0000 % 0x100
      && b[2] as Word == w / 0x100 % 0x100 && b[3] as Word == w % 0x100
  {
  }

  lemma LittleIsSum(b0: bv8, b1: bv8, b2: bv8, b3: bv8)
    ensures Little(b0, b1, b2, b3) % 0x100 == b0 as Word && Little(b0, b1, b2, b3) / 0x100 % 0x100 == b1 as Word
    ensures Little(b0, b1, b2, b3) / 0x1_0000 % 0x100 == b2 as Word && Little(b0, b1, b2, b3) / 0x100_0000 == b3 as Word
  {
  }
}
