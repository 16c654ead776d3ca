// SHA1Transform of src/algo_sha1.c: one block, expanded in place in a ring of
// sixteen words, with unrolled rounds that rename the registers.

module Sha1Block {
  import opened Words
  import opened Sha1Spec

  // What a run starts from: the chaining state and the block as the sixteen
  // words that little-endian loads give.
  datatype Job = Job(h: Regs, raw: seq<Word>)

  ghost function M(j: Job): (m: seq<Word>)
    requires |j.raw| == 16
    ensures |m| == 16
  {
    seq(16, i requires 0 <= i < 16 => Swap(j.raw[i]))
  }

  // Before round t the ring holds the last sixteen schedule words, and the raw
  // words from t on.
  ghost predicate RingAt(ring: seq<Word>, j: Job, t: nat) {
    && |ring| == |j.raw| == 16
    && (forall s: nat {:trigger Schedule(M(j), s)} :: s < t <= s + 16 ==> ring[s % 16] == Schedule(M(j), s))
    && (forall k :: t <= k < 16 ==> ring[k] == j.raw[k])
  }

  // ... and the registers are those of the standard after t rounds.
  ghost predicate Mid(ring: seq<Word>, j: Job, r: Regs, t: nat) {
    |j.raw| == 16 && RingAt(ring, j, t) && r == Rounds(j.h, M(j), t)
  }

  // The macro blk0: swap the bytes of word i in place.
  method Blk0(l: array<Word>, ghost j: Job, i: nat) returns (b: Word)
    requires l.Length == 16 && i < 16 && RingAt(l[..], j, i)
    modifies l
    ensures RingAt(l[..], j, i + 1) && b == Schedule(M(j), i)
  {
    hide Swap;
    assert l[..][i] == j.raw[i];
    l[i] := Swap(l[i]);
    b := l[i];
  }

  lemma Slots(i: nat)
    requires 16 <= i
    ensures (i + 13) % 16 == (i - 3) % 16 && (i + 8) % 16 == (i - 8) % 16
    ensures (i + 2) % 16 == (i - 14) % 16 && i % 16 == (i - 16) % 16
  {
    OneTurn(i - 3);
    OneTurn(i - 8);
    OneTurn(i - 14);
    OneTurn(i - 16);
  }

  lemma OneTurn(n: nat)
    ensures (n + 16) % 16 == n % 16
  {
  }

  lemma SlotsDiffer(s: nat, i: nat)
    requires s < i < s + 16
    ensures s % 16 != i % 16
  {
  }

  lemma RingNext(ring: seq<Word>, j: Job, i: nat)
    requires 16 <= i && RingAt(ring, j, i)
    ensures RingAt(ring[i % 16 := Schedule(M(j), i)], j, i + 1)
  {
    hide Schedule, M;
    var next := ring[i % 16 := Schedule(M(j), i)];
    forall s: nat {:trigger Schedule(M(j), s)} | s < i + 1 <= s + 16
      ensures next[s % 16] == Schedule(M(j), s)
    {
      if s < i { SlotsDiffer(s, i); }
    }
  }

  // The macro blk: overwrite the oldest word with the next schedule word.
  method Blk(l: array<Word>, ghost j: Job, i: nat) returns (b: Word)
    requires l.Length == 16 && 16 <= i && RingAt(l[..], j, i)
    modifies l
    ensures RingAt(l[..], j, i + 1) && b == Schedule(M(j), i)
  {
    hide Rol1, Xor, M;
    ghost var m, ring := M(j), l[..];
    Slots(i);
    assert Schedule(m, i - 3) == ring[(i - 3) % 16] && Schedule(m, i - 8) == ring[(i - 8) % 16];
    assert Schedule(m, i - 14) == ring[(i - 14) % 16] && Schedule(m, i - 16) == ring[(i - 16) % 16];
    RingNext(ring, j, i);
    hide RingAt;
    l[i % 16] := Rol1(Xor(Xor(Xor(l[(i + 13) % 16], l[(i + 8) % 16]), l[(i + 2) % 16]), l[i % 16]));
    b := l[i % 16];
    assert l[..] == ring[i % 16 := b];
  }

  // ---- the logical functions and the sum as the macros write them ----

  function MacroChoose(w: Word, x: Word, y: Word): Word { (w & (x ^ y)) ^ y }

  function MacroParity(w: Word, x: Word, y: Word): Word { w ^ x ^ y }

  function MacroMajority(w: Word, x: Word, y: Word): Word { ((w | x) & y) | (w & x) }

  function MacroSum(z: Word, f: Word, b: Word, k: Word, s: Word): Word { z + (f + b + k + s) }

  lemma ChooseBits(w: Word, x: Word, y: Word)
    ensures (w & (x ^ y)) ^ y == (w & x) | (!w & y)
  {
  }

  lemma MajorityBits(w: Word, x: Word, y: Word)
    ensures ((w | x) & y) | (w & x) == (w & x) | (w & y) | (x & y)
  {
  }

  lemma ChooseRewrite(w: Word, x: Word, y: Word)
    ensures MacroChoose(w, x, y) == Choose(w, x, y)
  {
    ChooseBits(w, x, y);
  }

  lemma MajorityRewrite(w: Word, x: Word, y: Word)
    ensures MacroMajority(w, x, y) == Majority(w, x, y)
  {
    MajorityBits(w, x, y);
  }

  lemma SumRewrite(z: Word, f: Word, b: Word, k: Word, s: Word)
    ensures MacroSum(z, f, b, k, s) == Temp(s, f, z, b, k)
  {
  }

  lemma IsChoose(w: Word, x: Word, y: Word, i: nat)
    requires i < 20
    ensures MacroChoose(w, x, y) == F(i, w, x, y) && K(i) == 0x5A82_7999
  {
    hide MacroChoose, Choose;
    ChooseRewrite(w, x, y);
  }

  lemma IsParity(w: Word, x: Word, y: Word, i: nat)
    requires 20 <= i < 40 || 60 <= i
    ensures MacroParity(w, x, y) == F(i, w, x, y) && K(i) == if i < 40 then 0x6ED9_EBA1 else 0xCA62_C1D6
  {
  }

  lemma IsMajority(w: Word, x: Word, y: Word, i: nat)
    requires 40 <= i < 60
    ensures MacroMajority(w, x, y) == F(i, w, x, y) && K(i) == 0x8F1B_BCDC
  {
    hide MacroMajority, Majority;
    MajorityRewrite(w, x, y);
  }

  lemma NextRound(j: Job, r: Regs, i: nat, b: Word, f: Word, k: Word)
    requires |j.raw| == 16 && r == Rounds(j.h, M(j), i)
    requires b == Schedule(M(j), i) && f == F(i, r.b, r.c, r.d) && k == K(i)
    ensures Rounds(j.h, M(j), i + 1) == Regs(MacroSum(r.e, f, b, k, Rol5(r.a)), r.a, Rol30(r.b), r.c, r.d)
  {
    hide Schedule, F, K, M, Rol5, Rol30, MacroSum, Temp;
    SumRewrite(r.e, f, b, k, Rol5(r.a));
  }

  // ---- the round macros ----

  method R0(l: array<Word>, ghost j: Job, v: Word, w: Word, x: Word, y: Word, z: Word, i: nat)
    returns (w': Word, z': Word)
    requires l.Length == 16 && 0 <= i < 16 && Mid(l[..], j, Regs(v, w, x, y, z), i)
    modifies l
    ensures Mid(l[..], j, Regs(z', v, w', x, y), i + 1)
  {
    hide RingAt, Schedule, Rol5, Rol30, Rounds, F, K, M, MacroSum, MacroChoose, MacroParity, MacroMajority;
    var b := Blk0(l, j, i);
    z', w' := MacroSum(z, MacroChoose(w, x, y), b, 0x5A82_7999, Rol5(v)), Rol30(w);
    IsChoose(w, x, y, i);
    NextRound(j, Regs(v, w, x, y, z), i, b, MacroChoose(w, x, y), 0x5A82_7999);
  }

  method R1(l: array<Word>, ghost j: Job, v: Word, w: Word, x: Word, y: Word, z: Word, i: nat)
    returns (w': Word, z': Word)
    requires l.Length == 16 && 16 <= i < 20 && Mid(l[..], j, Regs(v, w, x, y, z), i)
    modifies l
    ensures Mid(l[..], j, Regs(z', v, w', x, y), i + 1)
  {
    hide RingAt, Schedule, Rol5, Rol30, Rounds, F, K, M, MacroSum, MacroChoose, MacroParity, MacroMajority;
    var b := Blk(l, j, i);
    z', w' := MacroSum(z, MacroChoose(w, x, y), b, 0x5A82_7999, Rol5(v)), Rol30(w);
    IsChoose(w, x, y, i);
    NextRound(j, Regs(v, w, x, y, z), i, b, MacroChoose(w, x, y), 0x5A82_7999);
  }

  method R2(l: array<Word>, ghost j: Job, v: Word, w: Word, x: Word, y: Word, z: Word, i: nat)
    returns (w': Word, z': Word)
    requires l.Length == 16 && 20 <= i < 40 && Mid(l[..], j, Regs(v, w, x, y, z), i)
    modifies l
    ensures Mid(l[..], j, Regs(z', v, w', x, y), i + 1)
  {
    hide RingAt, Schedule, Rol5, Rol30, Rounds, F, K, M, MacroSum, MacroChoose, MacroParity, MacroMajority;
    var b := Blk(l, j, i);
    z', w' := MacroSum(z, MacroParity(w, x, y), b, 0x6ED9_EBA1, Rol5(v)), Rol30(w);
    IsParity(w, x, y, i);
    NextRound(j, Regs(v, w, x, y, z), i, b, MacroParity(w, x, y), 0x6ED9_EBA1);
  }

  method R3(l: array<Word>, ghost j: Job, v: Word, w: Word, x: Word, y: Word, z: Word, i: nat)
    returns (w': Word, z': Word)
    requires l.Length == 16 && 40 <= i < 60 && Mid(l[..], j, Regs(v, w, x, y, z), i)
    modifies l
    ensures Mid(l[..], j, Regs(z', v, w', x, y), i + 1)
  {
    hide RingAt, Schedule, Rol5, Rol30, Rounds, F, K, M, MacroSum, MacroChoose, MacroParity, MacroMajority;
    var b := Blk(l, j, i);
    z', w' := MacroSum(z, MacroMajority(w, x, y), b, 0x8F1B_BCDC, Rol5(v)), Rol30(w);
    IsMajority(w, x, y, i);
    NextRound(j, Regs(v, w, x, y, z), i, b, MacroMajority(w, x, y), 0x8F1B_BCDC);
  }

  method R4(l: array<Word>, ghost j: Job, v: Word, w: Word, x: Word, y: Word, z: Word, i: nat)
    returns (w': Word, z': Word)
    requires l.Length == 16 && 60 <= i < 80 && Mid(l[..], j, Regs(v, w, x, y, z), i)
    modifies l
    ensures Mid(l[..], j, Regs(z', v, w', x, y), i + 1)
  {
    hide RingAt, Schedule, Rol5, Rol30, Rounds, F, K, M, MacroSum, MacroChoose, MacroParity, MacroMajority;
    var b := Blk(l, j, i);
    z', w' := MacroSum(z, MacroParity(w, x, y), b, 0xCA62_C1D6, Rol5(v)), Rol30(w);
    IsParity(w, x, y, i);
    NextRound(j, Regs(v, w, x, y, z), i, b, MacroParity(w, x, y), 0xCA62_C1D6);
  }

  function RegsOf(s: seq<Word>): Regs
    requires |s| == 5
  {
    Regs(s[0], s[1], s[2], s[3], s[4])
  }

  // The words little-endian loads give.
  function RawWords(block: seq<bv8>): (m: seq<Word>)
    requires |block| == 64
    ensures |m| == 16
  {
    seq(16, i requires 0 <= i < 16 => Little(block[4 * i], block[4 * i + 1], block[4 * i + 2], block[4 * i + 3]))
  }

  lemma SwappedWords(h: Regs, block: seq<bv8>)
    requires |block| == 64
    ensures M(Job(h, RawWords(block))) == BlockWords(block)
  {
    hide Swap, Little, Big;
    forall i | 0 <= i < 16 ensures Swap(RawWords(block)[i]) == BlockWords(block)[i] {
      SwapLittle(block[4 * i], block[4 * i + 1], block[4 * i + 2], block[4 * i + 3]);
    }
  }

  method Transform(state: array<Word>, block: seq<bv8>)
    requires state.Length == 5 && |block| == 64
    modifies state
    ensures RegsOf(state[..]) == Compress(RegsOf(old(state[..])), block)
  {
    hide Rounds, BlockWords, Compress, Plus, M, RingAt, RawWords, Mid;
    ghost var h := RegsOf(state[..]);
    ghost var j := Job(h, RawWords(block));
    var raw := RawWords(block);
    var l := new Word[16](i requires 0 <= i < 16 => raw[i]);
    assert l[..] == raw;
    StartMid(j);
    var a, b, c, d, e := state[0], state[1], state[2], state[3], state[4];
    a, b, c, d, e := Rounds0(l, j, a, b, c, d, e);
    a, b, c, d, e := Rounds1(l, j, a, b, c, d, e);
    a, b, c, d, e := Rounds2(l, j, a, b, c, d, e);
    a, b, c, d, e := Rounds3(l, j, a, b, c, d, e);
    EndMid(l[..], h, block, Regs(a, b, c, d, e));
    state[0] := Plus(state[0], a);
    state[1] := Plus(state[1], b);
    state[2] := Plus(state[2], c);
    state[3] := Plus(state[3], d);
    state[4] := Plus(state[4], e);
  }

  lemma StartMid(j: Job)
    requires |j.raw| == 16
    ensures Mid(j.raw, j, j.h, 0)
  {
  }

  lemma EndMid(ring: seq<Word>, h: Regs, block: seq<bv8>, r: Regs)
    requires |block| == 64 && Mid(ring, Job(h, RawWords(block)), r, 80)
    ensures Compress(h, block) == Chain(h, r)
  {
    hide Rounds, RawWords, BlockWords, M, RingAt, Chain;
    SwappedWords(h, block);
  }

  // Eighty unrolled rounds in four groups; registers are renamed, not moved.
  method Rounds0(l: array<Word>, ghost j: Job, a0: Word, b0: Word, c0: Word, d0: Word, e0: Word)
    returns (a: Word, b: Word, c: Word, d: Word, e: Word)
    requires l.Length == 16 && Mid(l[..], j, Regs(a0, b0, c0, d0, e0), 0)
    modifies l
    ensures Mid(l[..], j, Regs(a, b, c, d, e), 20)
  {
    hide *;
    a, b, c, d, e := a0, b0, c0, d0, e0;
    b, e := R0(l, j, a, b, c, d, e, 0); a, d := R0(l, j, e, a, b, c, d, 1);
    e, c := R0(l, j, d, e, a, b, c, 2); d, b := R0(l, j, c, d, e, a, b, 3);
    c, a := R0(l, j, b, c, d, e, a, 4); b, e := R0(l, j, a, b, c, d, e, 5);
    a, d := R0(l, j, e, a, b, c, d, 6); e, c := R0(l, j, d, e, a, b, c, 7);
    d, b := R0(l, j, c, d, e, a, b, 8); c, a := R0(l, j, b, c, d, e, a, 9);
    b, e := R0(l, j, a, b, c, d, e, 10); a, d := R0(l, j, e, a, b, c, d, 11);
    e, c := R0(l, j, d, e, a, b, c, 12); d, b := R0(l, j, c, d, e, a, b, 13);
    c, a := R0(l, j, b, c, d, e, a, 14); b, e := R0(l, j, a, b, c, d, e, 15);
    a, d := R1(l, j, e, a, b, c, d, 16); e, c := R1(l, j, d, e, a, b, c, 17);
    d, b := R1(l, j, c, d, e, a, b, 18); c, a := R1(l, j, b, c, d, e, a, 19);
  }

  method Rounds1(l: array<Word>, ghost j: Job, a0: Word, b0: Word, c0: Word, d0: Word, e0: Word)
    returns (a: Word, b: Word, c: Word, d: Word, e: Word)
    requires l.Length == 16 && Mid(l[..], j, Regs(a0, b0, c0, d0, e0), 20)
    modifies l
    ensures Mid(l[..], j, Regs(a, b, c, d, e), 40)
  {
    hide *;
    a, b, c, d, e := a0, b0, c0, d0, e0;
    b, e := R2(l, j, a, b, c, d, e, 20); a, d := R2(l, j, e, a, b, c, d, 21);
    e, c := R2(l, j, d, e, a, b, c, 22); d, b := R2(l, j, c, d, e, a, b, 23);
    c, a := R2(l, j, b, c, d, e, a, 24); b, e := R2(l, j, a, b, c, d, e, 25);
    a, d := R2(l, j, e, a, b, c, d, 26); e, c := R2(l, j, d, e, a, b, c, 27);
    d, b := R2(l, j, c, d, e, a, b, 28); c, a := R2(l, j, b, c, d, e, a, 29);
    b, e := R2(l, j, a, b, c, d, e, 30); a, d := R2(l, j, e, a, b, c, d, 31);
    e, c := R2(l, j, d, e, a, b, c, 32); d, b := R2(l, j, c, d, e, a, b, 33);
    c, a := R2(l, j, b, c, d, e, a, 34); b, e := R2(l, j, a, b, c, d, e, 35);
    a, d := R2(l, j, e, a, b, c, d, 36); e, c := R2(l, j, d, e, a, b, c, 37);
    d, b := R2(l, j, c, d, e, a, b, 38); c, a := R2(l, j, b, c, d, e, a, 39);
  }

  method Rounds2(l: array<Word>, ghost j: Job, a0: Word, b0: Word, c0: Word, d0: Word, e0: Word)
    returns (a: Word, b: Word, c: Word, d: Word, e: Word)
    requires l.Length == 16 && Mid(l[..], j, Regs(a0, b0, c0, d0, e0), 40)
    modifies l
    ensures Mid(l[..], j, Regs(a, b, c, d, e), 60)
  {
    hide *;
    a, b, c, d, e := a0, b0, c0, d0, e0;
    b, e := R3(l, j, a, b, c, d, e, 40); a, d := R3(l, j, e, a, b, c, d, 41);
    e, c := R3(l, j, d, e, a, b, c, 42); d, b := R3(l, j, c, d, e, a, b, 43);
    c, a := R3(l, j, b, c, d, e, a, 44); b, e := R3(l, j, a, b, c, d, e, 45);
    a, d := R3(l, j, e, a, b, c, d, 46); e, c := R3(l, j, d, e, a, b, c, 47);
    d, b := R3(l, j, c, d, e, a, b, 48); c, a := R3(l, j, b, c, d, e, a, 49);
    b, e := R3(l, j, a, b, c, d, e, 50); a, d := R3(l, j, e, a, b, c, d, 51);
    e, c := R3(l, j, d, e, a, b, c, 52); d, b := R3(l, j, c, d, e, a, b, 53);
    c, a := R3(l, j, b, c, d, e, a, 54); b, e := R3(l, j, a, b, c, d, e, 55);
    a, d := R3(l, j, e, a, b, c, d, 56); e, c := R3(l, j, d, e, a, b, c, 57);
    d, b := R3(l, j, c, d, e, a, b, 58); c, a := R3(l, j, b, c, d, e, a, 59);
  }

  method Rounds3(l: array<Word>, ghost j: Job, a0: Word, b0: Word, c0: Word, d0: Word, e0: Word)
    returns (a: Word, b: Word, c: Word, d: Word, e: Word)
    requires l.Length == 16 && Mid(l[..], j, Regs(a0, b0, c0, d0, e0), 60)
    modifies l
    ensures Mid(l[..], j, Regs(a, b, c, d, e), 80)
  {
    hide *;
    a, b, c, d, e := a0, b0, c0, d0, e0;
    b, e := R4(l, j, a, b, c, d, e, 60); a, d := R4(l, j, e, a, b, c, d, 61);
    e, c := R4(l, j, d, e, a, b, c, 62); d, b := R4(l, j, c, d, e, a, b, 63);
    c, a := R4(l, j, b, c, d, e, a, 64); b, e := R4(l, j, a, b, c, d, e, 65);
    a, d := R4(l, j, e, a, b, c, d, 66); e, c := R4(l, j, d, e, a, b, c, 67);
    d, b := R4(l, j, c, d, e, a, b, 68); c, a := R4(l, j, b, c, d, e, a, 69);
    b, e := R4(l, j, a, b, c, d, e, 70); a, d := R4(l, j, e, a, b, c, d, 71);
    e, c := R4(l, j, d, e, a, b, c, 72); d, b := R4(l, j, c, d, e, a, b, 73);
    c, a := R4(l, j, b, c, d, e, a, 74); b, e := R4(l, j, a, b, c, d, e, 75);
    a, d := R4(l, j, e, a, b, c, d, 76); e, c := R4(l, j, d, e, a, b, c, 77);
    d, b := R4(l, j, c, d, e, a, b, 78); c, a := R4(l, j, b, c, d, e, a, 79);
  }
}
