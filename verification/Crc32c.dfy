// CRC-32C: the bit-at-a-time register of RFC 3720 section 12.1, and the
// table-driven loops of src/algo_crc32.c.

module Crc32c {
  import opened Words

  // The Castagnoli polynomial with its bits in reverse order.
  const POLY: Word := 0x82F6_3B78
  const ONES: Word := 0xFFFF_FFFF
  const ADDRESS_SPACE: int := 0x1_0000_0000_0000_0000

  function Odd(x: Word): bool { x & 1 == 1 }

  function Tap(on: bool): Word { if on then POLY else 0 }

  // One message bit enters the register.
  function FeedBit(l: Word, bit: bool): Word {
    Xor(Shr1(l), Tap(Odd(l) != bit))
  }

  // The low n bits of a word, least significant first.
  function BitsOf(w: Word, n: nat): seq<bool> {
    if n == 0 then [] else [Odd(w)] + BitsOf(Shr1(w), n - 1)
  }

  function Bits(bytes: seq<bv8>): seq<bool> {
    if bytes == [] then [] else BitsOf(bytes[0] as Word, 8) + Bits(bytes[1..])
  }

  function FeedBits(l: Word, bits: seq<bool>): Word
    decreases |bits|
  {
    if bits == [] then l else FeedBits(FeedBit(l, bits[0]), bits[1..])
  }

  // The checksum of a buffer, continued from the checksum `crc`: the register
  // starts from the complement, and its complement is the result.
  function Crc(crc: Word, bytes: seq<bv8>): Word {
    !FeedBits(!crc, Bits(bytes))
  }

  // n zero bits enter the register.
  function Zeros(l: Word, n: nat): Word
    decreases n
  {
    if n == 0 then l else Zeros(FeedBit(l, false), n - 1)
  }

  function Zero8(l: Word): Word { Zeros(l, 8) }

  // The four tables by their recurrence.
  function Table0(i: Word): Word { Zero8(i) }

  function NextTable(t: Word): Word { Xor(Table0(Low8(t)), Shr8(t)) }

  function Table1(i: Word): Word { NextTable(Table0(i)) }

  function Table2(i: Word): Word { NextTable(Table1(i)) }

  function Table3(i: Word): Word { NextTable(Table2(i)) }

  function Step1(l: Word, b: bv8): Word {
    Xor(Table0(Xor(Low8(l), b as Word)), Shr8(l))
  }

  function Step4(l: Word, w: Word): Word {
    var c := Xor(l, w);
    Xor(Xor(Xor(Table3(Low8(c)), Table2(Low8(Shr8(c)))), Table1(Low8(Shr8(Shr8(c))))), Table0(Shr8(Shr8(Shr8(c)))))
  }

  // ---- linearity over XOR ----

  lemma FeedBitLinear(x: Word, y: Word)
    ensures FeedBit(Xor(x, y), false) == Xor(FeedBit(x, false), FeedBit(y, false))
  {
    hide Tap, Odd, Shr1, Xor;
    OddXor(x, y);
    TapXor(Odd(x), Odd(y));
    XorShift(x, y);
    XorSwap(Shr1(x), Shr1(y), Tap(Odd(x)), Tap(Odd(y)));
  }

  lemma OddXor(x: Word, y: Word)
    ensures Odd(Xor(x, y)) <==> Odd(x) != Odd(y)
  {
  }

  lemma TapXor(a: bool, b: bool)
    ensures Tap(a != b) == Xor(Tap(a), Tap(b))
  {
  }

  lemma {:induction false} ZerosLinear(x: Word, y: Word, n: nat)
    ensures Zeros(Xor(x, y), n) == Xor(Zeros(x, n), Zeros(y, n))
    decreases n
  {
    hide FeedBit, Xor;
    if n > 0 {
      FeedBitLinear(x, y);
      ZerosLinear(FeedBit(x, false), FeedBit(y, false), n - 1);
    }
  }

  lemma ZerosShift(x: Word)
    ensures Zero8(High24(x)) == Shr8(x)
  {
  }

  // A look-up and a shift push any register through eight zero bits.
  lemma Zero8Split(l: Word)
    ensures Zero8(l) == NextTable(l)
  {
    hide Zeros, Xor, Low8, High24, Shr8;
    XorSplit8(l);
    ZerosLinear(Low8(l), High24(l), 8);
    ZerosShift(l);
  }

  lemma {:induction false} ZerosAdd(l: Word, m: nat, n: nat)
    ensures Zeros(l, m + n) == Zeros(Zeros(l, m), n)
    decreases m
  {
    if m > 0 { ZerosAdd(FeedBit(l, false), m - 1, n); }
  }

  // Table k looks up what 8 * (k + 1) zero bits do to a byte.
  lemma TablesCountZeros(i: Word)
    ensures Table1(i) == Zeros(i, 16) && Table2(i) == Zeros(i, 24) && Table3(i) == Zeros(i, 32)
  {
    hide NextTable, Zeros;
    Zero8Split(Table0(i));
    Zero8Split(Table1(i));
    Zero8Split(Table2(i));
    ZerosAdd(i, 8, 8);
    ZerosAdd(i, 16, 8);
    ZerosAdd(i, 24, 8);
  }

  // The polynomial itself is entry 128 of table0.
  lemma TableHoldsPoly()
    ensures Table0(0x80) == POLY
  {
    SevenZeros();
    ZerosAdd(0x80, 7, 1);
    XorZero(POLY);
    assert FeedBit(1, false) == POLY;
  }

  lemma SevenZeros()
    ensures Zeros(0x80, 7) == 1
  {
    assert FeedBit(0x80, false) == 0x40 && FeedBit(0x40, false) == 0x20 && FeedBit(0x20, false) == 0x10;
    assert FeedBit(0x10, false) == 8 && FeedBit(8, false) == 4 && FeedBit(4, false) == 2 && FeedBit(2, false) == 1;
    hide FeedBit;
  }

  // The low byte of a register can be pushed out ahead of the others.
  lemma PeelByte(c: Word, n: nat)
    ensures Zeros(c, 8 + n) == Xor(Zeros(Low8(c), 8 + n), Zeros(Shr8(c), n))
  {
    hide Zeros, Xor, Low8, Shr8;
    Zero8Split(c);
    ZerosAdd(c, 8, n);
    ZerosLinear(Table0(Low8(c)), Shr8(c), n);
    ZerosAdd(Low8(c), 8, n);
  }

  // One step over four bytes pushes the combined word through 32 zero bits.
  lemma Step4IsZeros(l: Word, w: Word)
    ensures Step4(l, w) == Zeros(Xor(l, w), 32)
  {
    hide Zeros, Xor, Low8, Shr8, Table1, Table2, Table3;
    var c := Xor(l, w);
    var c1, c2, c3 := Shr8(c), Shr8(Shr8(c)), Shr8(Shr8(Shr8(c)));
    PeelByte(c, 24);
    PeelByte(c1, 16);
    PeelByte(c2, 8);
    TablesCountZeros(Low8(c));
    TablesCountZeros(Low8(c1));
    TablesCountZeros(Low8(c2));
    XorAssoc(Table3(Low8(c)), Table2(Low8(c1)), Table1(Low8(c2)));
    XorAssoc(Xor(Table3(Low8(c)), Table2(Low8(c1))), Table1(Low8(c2)), Table0(c3));
    XorAssoc(Table3(Low8(c)), Table2(Low8(c1)), Xor(Table1(Low8(c2)), Table0(c3)));
  }

  // XORing a byte into the register first, or feeding it bit by bit.
  lemma {:induction false} FeedXored(l: Word, w: Word, n: nat)
    ensures Zeros(Xor(l, w), n) == Xor(FeedBits(l, BitsOf(w, n)), ShrN(w, n))
    decreases n
  {
    hide Xor, Tap, Odd, Shr1;
    if n > 0 {
      var on := Odd(l) != Odd(w);
      OddXor(l, w);
      XorShift(l, w);
      XorAssoc(Shr1(l), Shr1(w), Tap(on));
      XorComm(Shr1(w), Tap(on));
      XorAssoc(Shr1(l), Tap(on), Shr1(w));
      FeedXored(FeedBit(l, Odd(w)), Shr1(w), n - 1);
      assert BitsOf(w, n)[1..] == BitsOf(Shr1(w), n - 1);
    }
  }

  lemma FeedByte(l: Word, b: bv8)
    ensures FeedBits(l, BitsOf(b as Word, 8)) == Zero8(Xor(l, b as Word)) == Step1(l, b)
  {
    hide Zeros, FeedBits, BitsOf, ShrN, Xor, Low8, Shr8;
    FeedXored(l, b as Word, 8);
    ByteRunsOut(b);
    XorZero(FeedBits(l, BitsOf(b as Word, 8)));
    Zero8Split(Xor(l, b as Word));
    XorByte(l, b);
  }

  // One STEP4 does what four STEP1s do.
  lemma Step4IsFourStep1(l: Word, b0: bv8, b1: bv8, b2: bv8, b3: bv8)
    ensures Step4(l, Little(b0, b1, b2, b3)) == Step1(Step1(Step1(Step1(l, b0), b1), b2), b3)
  {
    hide Step4, Step1, Zeros, Xor, Low8, Shr8, Little, BitsOf, FeedBits;
    var w := Little(b0, b1, b2, b3);
    var w1, w2, w3 := Shr8(w), Shr8(Shr8(w)), Shr8(Shr8(Shr8(w)));
    LittleBytes(b0, b1, b2, b3);
    Step4IsZeros(l, w);
    PushWord(l, w, 24);
    PushWord(Step1(l, b0), w1, 16);
    PushWord(Step1(Step1(l, b0), b1), w2, 8);
    FeedByte(l, b0);
    FeedByte(Step1(l, b0), b1);
    FeedByte(Step1(Step1(l, b0), b1), b2);
    FeedByte(Step1(Step1(Step1(l, b0), b1), b2), b3);
  }

  // Pushing a register and a word: the low byte acts first, the rest later.
  lemma PushWord(l: Word, w: Word, n: nat)
    ensures Zeros(Xor(l, w), 8 + n) == Zeros(Xor(Zero8(Xor(l, Low8(w))), Shr8(w)), n)
  {
    hide Zeros, Xor, Low8, Shr8, High24;
    ZerosAdd(Xor(l, w), 8, n);
    XorSplit8(w);
    XorAssoc(l, Low8(w), High24(w));
    ZerosLinear(Xor(l, Low8(w)), High24(w), 8);
    ZerosShift(w);
  }

  // ---- the loops ----

  // The register after a prefix of the buffer.
  function Reg(l: Word, bytes: seq<bv8>): Word {
    FeedBits(l, Bits(bytes))
  }

  lemma {:induction false} FeedBitsConcat(l: Word, a: seq<bool>, b: seq<bool>)
    ensures FeedBits(l, a + b) == FeedBits(FeedBits(l, a), b)
    decreases |a|
  {
    if a == [] {
      assert a + b == b;
    } else {
      assert (a + b)[1..] == a[1..] + b;
      FeedBitsConcat(FeedBit(l, a[0]), a[1..], b);
    }
  }

  lemma {:induction false} BitsConcat(a: seq<bv8>, b: seq<bv8>)
    ensures Bits(a + b) == Bits(a) + Bits(b)
  {
    if a == [] {
      assert a + b == b;
    } else {
      hide BitsOf;
      assert (a + b)[1..] == a[1..] + b && (a + b)[0] == a[0];
      BitsConcat(a[1..], b);
      assert Bits(a + b) == BitsOf(a[0] as Word, 8) + (Bits(a[1..]) + Bits(b));
    }
  }

  lemma RegConcat(l: Word, a: seq<bv8>, b: seq<bv8>)
    ensures Reg(l, a + b) == Reg(Reg(l, a), b)
  {
    BitsConcat(a, b);
    FeedBitsConcat(l, Bits(a), Bits(b));
  }

  lemma RegStep1(l: Word, buf: seq<bv8>, p: nat)
    requires p < |buf|
    ensures Reg(l, buf[..p + 1]) == Step1(Reg(l, buf[..p]), buf[p])
  {
    hide Step1, BitsOf, FeedBits;
    assert buf[..p + 1] == buf[..p] + [buf[p]];
    RegConcat(l, buf[..p], [buf[p]]);
    assert Bits([buf[p]]) == BitsOf(buf[p] as Word, 8);
    FeedByte(Reg(l, buf[..p]), buf[p]);
  }

  lemma RegStep4(l: Word, buf: seq<bv8>, p: nat)
    requires p + 4 <= |buf|
    ensures Reg(l, buf[..p + 4]) == Step4(Reg(l, buf[..p]), Little(buf[p], buf[p + 1], buf[p + 2], buf[p + 3]))
  {
    hide Step1, Step4, Reg, Little;
    RegStep1(l, buf, p);
    RegStep1(l, buf, p + 1);
    RegStep1(l, buf, p + 2);
    RegStep1(l, buf, p + 3);
    Step4IsFourStep1(Reg(l, buf[..p]), buf[p], buf[p + 1], buf[p + 2], buf[p + 3]);
  }

  // Checksums chain: a buffer can be summed in pieces.
  lemma CrcChains(crc: Word, a: seq<bv8>, b: seq<bv8>)
    ensures Crc(Crc(crc, a), b) == Crc(crc, a + b)
  {
    hide Reg;
    RegIsCrc(crc, a);
    RegIsCrc(Crc(crc, a), b);
    RegIsCrc(crc, a + b);
    RegConcat(!crc, a, b);
  }

  // What the code computes with an exclusive or.
  lemma Flip(x: Word)
    ensures Xor(x, ONES) == !x && !!x == x
  {
  }

  // The first multiple of four at or after an address, in 64-bit arithmetic.
  function AlignUp(addr: int): int {
    RoundDown((addr + 3) % ADDRESS_SPACE)
  }

  function RoundDown(n: int): (r: int)
    ensures r <= n <= r + 3 && r % 4 == 0
  {
    n / 4 * 4
  }

  // It is what the comment in the source says except in the last three bytes of
  // the address space, where the sum wraps to 0.
  lemma AlignUpExact(addr: int)
    requires 0 <= addr < ADDRESS_SPACE
    ensures addr <= AlignUp(addr) <= addr + 3 <==> addr + 3 < ADDRESS_SPACE
    ensures AlignUp(addr) % 4 == 0 && (addr + 3 >= ADDRESS_SPACE ==> AlignUp(addr) == 0)
  {
    hide RoundDown;
    var s := (addr + 3) % ADDRESS_SPACE;
    assert s == if addr + 3 < ADDRESS_SPACE then addr + 3 else addr + 3 - ADDRESS_SPACE;
  }

  // `addr` is the address of the first byte. In the last three bytes of the
  // address space the aligned pointer wraps and the first loop leaves the buffer.
  method GetCrc32(crc: Word, addr: int, buf: seq<bv8>) returns (inside: bool, r: Word)
    requires 0 <= addr && addr + |buf| < ADDRESS_SPACE
    ensures inside <==> addr + 3 < ADDRESS_SPACE
    ensures inside ==> r == Crc(crc, buf) == !Reg(!crc, buf)
  {
    hide Reg, Step1, Step4, AlignUp;
    ghost var l0 := !crc;
    var l := Xor(crc, ONES);
    Flip(crc);
    var p, e := 0, |buf|;
    AlignUpExact(addr);
    var x := AlignUp(addr) - addr;
    assert Reg(l0, buf[..0]) == l0 by { EmptyReg(l0); }
    if x <= e {
      while p != x
        invariant 0 <= p <= e && (x >= 0 ==> p <= x) && l == Reg(l0, buf[..p])
        decreases e - p
      {
        if p == e {
          return false, 0;
        }
        RegStep1(l0, buf, p);
        l, p := Step1(l, buf[p]), p + 1;
      }
    }
    while e - p >= 16
      invariant 0 <= p <= e && l == Reg(l0, buf[..p])
    {
      l, p := DoStep4(l0, l, buf, p);
      l, p := DoStep4(l0, l, buf, p);
      l, p := DoStep4(l0, l, buf, p);
      l, p := DoStep4(l0, l, buf, p);
    }
    while e - p >= 4
      invariant 0 <= p <= e && l == Reg(l0, buf[..p])
    {
      l, p := DoStep4(l0, l, buf, p);
    }
    while p != e
      invariant 0 <= p <= e && l == Reg(l0, buf[..p])
      decreases e - p
    {
      RegStep1(l0, buf, p);
      l, p := Step1(l, buf[p]), p + 1;
    }
    assert buf[..p] == buf;
    inside, r := true, Xor(l, ONES);
    Flip(l);
    RegIsCrc(crc, buf);
  }

  // A buffer of one byte three bytes before the end of the address space.
  method WrapWitness() returns (inside: bool)
    ensures !inside
  {
    var ok, _ := GetCrc32(0, ADDRESS_SPACE - 3, [0]);
    inside := ok;
  }

  // The macro STEP4 with its pointer increment.
  method DoStep4(ghost l0: Word, l: Word, buf: seq<bv8>, p: nat) returns (l': Word, p': nat)
    requires p + 4 <= |buf| && l == Reg(l0, buf[..p])
    ensures p' == p + 4 && l' == Reg(l0, buf[..p'])
  {
    hide Reg, Step4;
    RegStep4(l0, buf, p);
    l', p' := Step4(l, Little(buf[p], buf[p + 1], buf[p + 2], buf[p + 3])), p + 4;
  }

  lemma EmptyReg(l: Word)
    ensures Reg(l, []) == l
  {
  }

  lemma RegIsCrc(crc: Word, buf: seq<bv8>)
    ensures Crc(crc, buf) == !Reg(!crc, buf) && !Crc(crc, buf) == Reg(!crc, buf)
  {
  }

  // ---- the register is the remainder of polynomial division ----

  // Polynomials over GF(2) are coefficient predicates; the register holds the
  // coefficient of x^31 in its lowest bit.
  function RegCoef(l: Word, k: int): bool {
    0 <= k < 32 && Odd(ShrN(l, 31 - k))
  }

  // The generator 0x11EDC6F41 by the exponents of its terms.
  const GENERATOR: set<int> := {32, 28, 27, 26, 25, 23, 22, 20, 19, 18, 14, 13, 11, 10, 9, 8, 6, 0}

  function GenCoef(k: int): bool { k in GENERATOR }

  // x^|bits| * init + x^32 * message, the first message bit the highest.
  function DividendCoef(init: Word, bits: seq<bool>, k: int): bool {
    (0 <= k - 32 < |bits| && bits[|bits| - 1 - (k - 32)]) != RegCoef(init, k - |bits|)
  }

  // Which multiples of the generator the register drops, first bit the highest.
  function Quotient(l: Word, bits: seq<bool>): (q: seq<bool>)
    ensures |q| == |bits|
  {
    if bits == [] then []
    else
      var n := |bits| - 1;
      Quotient(l, bits[..n]) + [Odd(FeedBits(l, bits[..n])) != bits[n]]
  }

  // Coefficient k of q times the generator.
  function ProductCoef(q: seq<bool>, k: int): bool {
    if q == [] then false
    else (q[|q| - 1] && GenCoef(k)) != ProductCoef(q[..|q| - 1], k - 1)
  }

  lemma {:induction false} ShrNXor(x: Word, y: Word, n: nat)
    ensures Odd(ShrN(Xor(x, y), n)) <==> Odd(ShrN(x, n)) != Odd(ShrN(y, n))
    decreases n
  {
    hide Odd, Xor, Shr1;
    if n == 0 {
      OddXor(x, y);
    } else {
      XorShift(x, y);
      ShrNXor(Shr1(x), Shr1(y), n - 1);
    }
  }

  lemma {:induction false} ShrNAll(n: nat)
    ensures ShrN(0, n) == 0
    decreases n
  {
    if n > 0 { ShrNAll(n - 1); }
  }

  lemma {:induction false} ShrNAdd(x: Word, m: nat, n: nat)
    ensures ShrN(x, m + n) == ShrN(ShrN(x, m), n)
    decreases m
  {
    if m > 0 { ShrNAdd(Shr1(x), m - 1, n); }
  }

  lemma WordRunsOut(x: Word)
    ensures ShrN(x, 32) == 0
  {
    hide ShrN;
    ShrNAdd(x, 8, 24);
    ShrNAdd(ShrN(x, 8), 8, 16);
    ShrNAdd(ShrN(ShrN(x, 8), 8), 8, 8);
    ShrN8(x);
    ShrN8(Shr8(x));
    ShrN8(Shr8(Shr8(x)));
    ShrN8(Shr8(Shr8(Shr8(x))));
  }

  lemma ShrN8(x: Word)
    ensures ShrN(x, 8) == Shr8(x)
  {
  }

  lemma PolyBytes()
    ensures ShrN(POLY, 8) == 0x82F63B && ShrN(POLY, 16) == 0x82F6 && ShrN(POLY, 24) == 0x82
  {
    ShrNAdd(POLY, 8, 8);
    ShrNAdd(POLY, 8, 16);
    ShrNAdd(ShrN(POLY, 8), 8, 8);
    ShrN8(POLY);
    ShrN8(0x82F63B);
    ShrN8(0x82F6);
  }

  lemma PolyBits()
    ensures !Odd(ShrN(0x82F63B78, 0)) && !Odd(ShrN(0x82F63B78, 1)) && !Odd(ShrN(0x82F63B78, 2))
    ensures Odd(ShrN(0x82F63B78, 3)) && Odd(ShrN(0x82F63B78, 4)) && Odd(ShrN(0x82F63B78, 5))
    ensures Odd(ShrN(0x82F63B78, 6)) && !Odd(ShrN(0x82F63B78, 7))
    ensures Odd(ShrN(0x82F63B, 0)) && Odd(ShrN(0x82F63B, 1)) && !Odd(ShrN(0x82F63B, 2)) && Odd(ShrN(0x82F63B, 3))
    ensures Odd(ShrN(0x82F63B, 4)) && Odd(ShrN(0x82F63B, 5)) && !Odd(ShrN(0x82F63B, 6)) && !Odd(ShrN(0x82F63B, 7))
    ensures !Odd(ShrN(0x82F6, 0)) && Odd(ShrN(0x82F6, 1)) && Odd(ShrN(0x82F6, 2)) && !Odd(ShrN(0x82F6, 3))
    ensures Odd(ShrN(0x82F6, 4)) && Odd(ShrN(0x82F6, 5)) && Odd(ShrN(0x82F6, 6)) && Odd(ShrN(0x82F6, 7))
    ensures !Odd(ShrN(0x82, 0)) && Odd(ShrN(0x82, 1)) && !Odd(ShrN(0x82, 2)) && !Odd(ShrN(0x82, 3))
    ensures !Odd(ShrN(0x82, 4)) && !Odd(ShrN(0x82, 5)) && !Odd(ShrN(0x82, 6)) && Odd(ShrN(0x82, 7))
  {
  }

  // The reversed constant in the code stands for the generator.
  lemma PolyIsGenerator(k: int)
    requires 0 <= k < 32
    ensures RegCoef(POLY, k) == GenCoef(k)
  {
    hide ShrN, Odd;
    PolyBytes();
    PolyBits();
    if k >= 24 {
      assert RegCoef(POLY, k) == Odd(ShrN(POLY, 31 - k));
    } else if k >= 16 {
      ShrNAdd(POLY, 8, 23 - k);
    } else if k >= 8 {
      ShrNAdd(POLY, 16, 15 - k);
    } else {
      ShrNAdd(POLY, 24, 7 - k);
    }
  }

  // One bit: multiply by x, bring in the message bit, drop the generator if the
  // top coefficient is set.
  lemma FeedBitDivides(l: Word, bit: bool, k: int)
    ensures var t := Odd(l) != bit;
      RegCoef(FeedBit(l, bit), k) == ((RegCoef(l, k - 1) != (bit && k == 32)) != (t && GenCoef(k)))
  {
    hide Odd, Xor, Shr1, GenCoef;
    var t := Odd(l) != bit;
    if 0 <= k < 32 {
      ShrNXor(Shr1(l), Tap(t), 31 - k);
      assert ShrN(l, 32 - k) == ShrN(Shr1(l), 31 - k);
      WordRunsOut(l);
      ShrNAll(31 - k);
      PolyIsGenerator(k);
    }
    GenFacts(k);
  }

  lemma GenFacts(k: int)
    ensures GenCoef(32) && (k < 0 || k > 32 ==> !GenCoef(k)) && !Odd(0)
  {
  }

  lemma DividendStep(init: Word, bits: seq<bool>, bit: bool, k: int)
    ensures DividendCoef(init, bits + [bit], k) == (DividendCoef(init, bits, k - 1) != (bit && k == 32))
  {
    hide RegCoef;
    var n := |bits|;
    assert k - 32 == 0 ==> (bits + [bit])[n] == bit;
    assert 1 <= k - 32 <= n ==> (bits + [bit])[n - (k - 32)] == bits[n - 1 - (k - 1 - 32)];
  }

  lemma QuotientStep(init: Word, bits: seq<bool>, bit: bool, k: int)
    ensures var t := Odd(FeedBits(init, bits)) != bit;
      ProductCoef(Quotient(init, bits + [bit]), k) == ((t && GenCoef(k)) != ProductCoef(Quotient(init, bits), k - 1))
  {
    hide FeedBits, Odd, GenCoef;
    assert (bits + [bit])[..|bits|] == bits;
    var q := Quotient(init, bits);
    assert Quotient(init, bits + [bit])[..|q|] == q;
  }

  // The register is the remainder: the dividend is the quotient times the
  // generator plus the register, and the register has degree below 32.
  lemma {:induction false} RegisterIsRemainder(init: Word, bits: seq<bool>, k: int)
    ensures DividendCoef(init, bits, k) ==
            (ProductCoef(Quotient(init, bits), k) != RegCoef(FeedBits(init, bits), k))
    ensures k >= 32 ==> !RegCoef(FeedBits(init, bits), k)
    decreases |bits|
  {
    if bits != [] {
      hide GenCoef, FeedBit, DividendCoef, ProductCoef, Quotient, RegCoef, Odd;
      var front, bit := bits[..|bits| - 1], bits[|bits| - 1];
      assert bits == front + [bit];
      RegisterIsRemainder(init, front, k - 1);
      DividendStep(init, front, bit, k);
      QuotientStep(init, front, bit, k);
      FeedBitsConcat(init, front, [bit]);
      FeedBitDivides(FeedBits(init, front), bit, k);
      LowDegree(FeedBits(init, bits), k);
    }
  }

  lemma LowDegree(l: Word, k: int)
    ensures k >= 32 ==> !RegCoef(l, k)
  {
  }

  // The same for a whole buffer: the dividend starts from the complement of the
  // old checksum, and the remainder is the complement of the value get_crc32
  // returns.
  lemma CrcIsRemainder(crc: Word, buf: seq<bv8>, k: int)
    ensures DividendCoef(!crc, Bits(buf), k) ==
            (ProductCoef(Quotient(!crc, Bits(buf)), k) != RegCoef(!Crc(crc, buf), k))
    ensures k >= 32 ==> !RegCoef(!Crc(crc, buf), k)
  {
    hide RegCoef, DividendCoef, ProductCoef, Quotient, Crc;
    RegIsCrc(crc, buf);
    RegisterIsRemainder(!crc, Bits(buf), k);
  }
}
