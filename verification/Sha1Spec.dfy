// The secure hash standard, FIPS PUB 180-1, in its own terms.

module Sha1Spec {
  import opened Words

  const TWO64: int := 0x1_0000_0000_0000_0000

  datatype Regs = Regs(a: Word, b: Word, c: Word, d: Word, e: Word)

  // Section 5: the functions f(t).
  function Choose(b: Word, c: Word, d: Word): Word { (b & c) | (!b & d) }

  function Parity(b: Word, c: Word, d: Word): Word { b ^ c ^ d }

  function Majority(b: Word, c: Word, d: Word): Word { (b & c) | (b & d) | (c & d) }

  function F(t: nat, b: Word, c: Word, d: Word): Word {
    if t < 20 then Choose(b, c, d)
    else if t < 40 then Parity(b, c, d)
    else if t < 60 then Majority(b, c, d)
    else Parity(b, c, d)
  }

  // Section 6: the constants.
  function K(t: nat): Word {
    if t < 20 then 0x5A82_7999 else if t < 40 then 0x6ED9_EBA1 else if t < 60 then 0x8F1B_BCDC else 0xCA62_C1D6
  }

  const H0: Regs := Regs(0x6745_2301, 0xEFCD_AB89, 0x98BA_DCFE, 0x1032_5476, 0xC3D2_E1F0)

  // Section 7, steps a and b: the words of a block and their expansion to 80.
  function BlockWords(block: seq<bv8>): (m: seq<Word>)
    requires |block| == 64
    ensures |m| == 16
  {
    seq(16, i requires 0 <= i < 16 => Big(block[4 * i], block[4 * i + 1], block[4 * i + 2], block[4 * i + 3]))
  }

  function Schedule(m: seq<Word>, t: nat): Word
    requires |m| == 16
    decreases t
  {
    if t < 16 then m[t]
    else Rol1(Xor(Xor(Xor(Schedule(m, t - 3), Schedule(m, t - 8)), Schedule(m, t - 14)), Schedule(m, t - 16)))
  }

  // Addition modulo 2^32.
  function Plus(x: Word, y: Word): Word { x + y }

  function Temp(s: Word, f: Word, e: Word, w: Word, k: Word): Word { s + f + e + w + k }

  // Step d.
  function Round(r: Regs, t: nat, w: Word): Regs {
    Regs(Temp(Rol5(r.a), F(t, r.b, r.c, r.d), r.e, w, K(t)), r.a, Rol30(r.b), r.c, r.d)
  }

  function Rounds(h: Regs, m: seq<Word>, t: nat): Regs
    requires |m| == 16
    decreases t
  {
    if t == 0 then h else Round(Rounds(h, m, t - 1), t - 1, Schedule(m, t - 1))
  }

  // Step e.
  function Compress(h: Regs, block: seq<bv8>): Regs
    requires |block| == 64
  {
    var r := Rounds(h, BlockWords(block), 80);
    Chain(h, r)
  }

  function Chain(h: Regs, r: Regs): Regs {
    Regs(Plus(h.a, r.a), Plus(h.b, r.b), Plus(h.c, r.c), Plus(h.d, r.d), Plus(h.e, r.e))
  }

  // The length of the whole blocks among n bytes.
  function Whole(n: nat): (w: nat)
    ensures w <= n < w + 64 && w % 64 == 0 && n % 64 == n - w
  {
    n / 64 * 64
  }

  lemma WholeUnique(n: nat, w: nat)
    requires w % 64 == 0 && w <= n < w + 64
    ensures Whole(n) == w
  {
  }

  // The state after all whole blocks of the bytes.
  function Absorb(bytes: seq<bv8>): Regs
    decreases |bytes|
  {
    var whole := Whole(|bytes|);
    if whole < 64 then H0
    else Compress(Absorb(bytes[..whole - 64]), bytes[whole - 64..whole])
  }

  // Section 4: padding. The length field has 64 bits.
  function ZeroCount(n: nat): (z: nat)
    ensures z < 64
  {
    (119 - n % 64) % 64
  }

  function ZeroBytes(k: nat): seq<bv8> { seq(k, _ => 0) }

  function ByteAt(n: int, unit: int): bv8
    requires unit > 0
  {
    (n / unit % 256) as bv8
  }

  function LengthField(bits: int): seq<bv8> {
    [ByteAt(bits, 0x100_0000_0000_0000), ByteAt(bits, 0x1_0000_0000_0000),
     ByteAt(bits, 0x100_0000_0000), ByteAt(bits, 0x1_0000_0000),
     ByteAt(bits, 0x100_0000), ByteAt(bits, 0x1_0000), ByteAt(bits, 0x100), ByteAt(bits, 1)]
  }

  // The field holds the number, the most significant byte first.
  lemma LengthIsBigEndian(bits: int)
    requires 0 <= bits < TWO64
    ensures var f := LengthField(bits);
      |f| == 8 && bits == Digits8(f[0] as int, f[1] as int, f[2] as int, f[3] as int,
                                  f[4] as int, f[5] as int, f[6] as int, f[7] as int)
  {
    Digits(bits);
    ByteAtIs(bits, 0x100_0000_0000_0000);
    ByteAtIs(bits, 0x1_0000_0000_0000);
    ByteAtIs(bits, 0x100_0000_0000);
    ByteAtIs(bits, 0x1_0000_0000);
    ByteAtIs(bits, 0x100_0000);
    ByteAtIs(bits, 0x1_0000);
    ByteAtIs(bits, 0x100);
    ByteAtIs(bits, 1);
    hide ByteAt, Digits8;
  }

  lemma ByteAtIs(n: int, unit: int)
    requires unit > 0
    ensures ByteAt(n, unit) as int == n / unit % 256
  {
    ByteValue(n / unit % 256);
  }

  lemma ByteAfter(b: bv8)
    requires b != 255
    ensures (b + 1) as int == b as int + 1
  {
  }

  lemma ByteBack(b: bv8)
    ensures (b as int) as bv8 == b
  {
  }

  lemma {:induction false} ByteValue(x: int)
    requires 0 <= x < 256
    ensures (x as bv8) as int == x
  {
    if x > 0 {
      ByteValue(x - 1);
      var b := (x - 1) as bv8;
      ByteAfter(b);
      ByteBack(b + 1);
    }
  }

  function Digits8(a: int, b: int, c: int, d: int, e: int, f: int, g: int, h: int): int {
    ((((((a * 256 + b) * 256 + c) * 256 + d) * 256 + e) * 256 + f) * 256 + g) * 256 + h
  }

  lemma Digits(n: int)
    requires 0 <= n < TWO64
    ensures n == Digits8(n / 0x100_0000_0000_0000 % 256, n / 0x1_0000_0000_0000 % 256,
                         n / 0x100_0000_0000 % 256, n / 0x1_0000_0000 % 256, n / 0x100_0000 % 256,
                         n / 0x1_0000 % 256, n / 0x100 % 256, n / 1 % 256)
  {
    Digit2(n);
    Digit3(n);
    Digit4(n);
    Digit5(n);
    Digit6(n);
    Digit7(n);
  }

  lemma Digit2(n: int)
    requires n >= 0
    ensures n / 0x1_0000 == n / 0x100 / 256
  {
  }

  lemma Digit3(n: int)
    requires n >= 0
    ensures n / 0x100_0000 == n / 0x1_0000 / 256
  {
  }

  lemma Digit4(n: int)
    requires n >= 0
    ensures n / 0x1_0000_0000 == n / 0x100_0000 / 256
  {
  }

  lemma Digit5(n: int)
    requires n >= 0
    ensures n / 0x100_0000_0000 == n / 0x1_0000_0000 / 256
  {
  }

  lemma Digit6(n: int)
    requires n >= 0
    ensures n / 0x1_0000_0000_0000 == n / 0x100_0000_0000 / 256
  {
  }

  lemma Digit7(n: int)
    requires n >= 0
    ensures n / 0x100_0000_0000_0000 == n / 0x1_0000_0000_0000 / 256
  {
  }

  function Pad(m: seq<bv8>): seq<bv8> {
    m + [0x80] + ZeroBytes(ZeroCount(|m|)) + LengthField(8 * |m| % TWO64)
  }

  // The padding is the shortest that fills the last block.
  lemma PadFillsBlocks(m: seq<bv8>)
    ensures |Pad(m)| % 64 == 0 && |m| + 9 <= |Pad(m)| < |m| + 9 + 64
  {
    hide LengthField;
    ZeroCountFits(|m|);
    assert |LengthField(8 * |m| % TWO64)| == 8 by { LengthFieldSize(8 * |m| % TWO64); }
  }

  lemma ZeroCountFits(n: nat)
    ensures ZeroCount(n) < 64 && (n + 9 + ZeroCount(n)) % 64 == 0
  {
  }

  lemma LengthFieldSize(bits: int)
    ensures |LengthField(bits)| == 8
  {
  }

  function DigestBytes(h: Regs): seq<bv8> {
    BigBytes(h.a) + BigBytes(h.b) + BigBytes(h.c) + BigBytes(h.d) + BigBytes(h.e)
  }

  function Sha1(m: seq<bv8>): seq<bv8> {
    DigestBytes(Absorb(Pad(m)))
  }
}
