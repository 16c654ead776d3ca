// The streaming context of src/algo_sha1.c.

module Sha1Stream {
  import opened Counters
  import opened Words
  import opened Sha1Spec
  import opened Sha1Block

  // The bit counter after len more bytes, as SHA1Update computes it.
  function CountLow(low: int, len: int): int { U32(low + U32(8 * len)) }

  function CountHigh(low: int, high: int, len: int): int {
    U32(U32(high + if CountLow(low, len) < low then 1 else 0) + len / 0x2000_0000)
  }

  ghost predicate Counts(low: int, high: int, total: nat) {
    0 <= low < TWO32 && 0 <= high < TWO32 && high * TWO32 + low == 8 * total % TWO64
  }

  // The two-word counter is the bit length modulo 2^64.
  lemma CountsGrow(low: int, high: int, total: nat, len: nat)
    requires Counts(low, high, total) && len < TWO32
    ensures Counts(CountLow(low, len), CountHigh(low, high, len), total + len)
  {
    var q, r := 8 * len / TWO32, U32(8 * len);
    assert q == len / 0x2000_0000;
    var carry := if CountLow(low, len) < low then 1 else 0;
    assert low + r == carry * TWO32 + CountLow(low, len);
    var h := high + carry + q;
    HighWraps(high + carry, q);
    assert CountHigh(low, high, len) == U32(h);
    Mod64(h, CountLow(low, len), 8 * total, 8 * len, high * TWO32 + low);
  }

  lemma HighWraps(a: int, q: int)
    ensures U32(U32(a) + q) == U32(a + q)
  {
  }

  lemma Mod64(h: int, low: int, a: int, b: int, c: int)
    requires 0 <= low < TWO32 && c == a % TWO64 && h * TWO32 + low == c + b
    ensures U32(h) * TWO32 + low == (a + b) % TWO64
  {
    var k, g := a / TWO64, h / TWO32;
    assert a == k * TWO64 + c && h == g * TWO32 + U32(h);
    assert a + b == (k + g) * TWO64 + (U32(h) * TWO32 + low);
  }

  // The buffered length is read off the low counter word.
  lemma BufferedLength(low: int, high: int, total: nat)
    requires Counts(low, high, total)
    ensures low / 8 % 64 == total % 64
  {
    var q := 8 * total / TWO64;
    var r := total - q * 0x2000_0000_0000_0000 - high * 0x2000_0000;
    assert low == 8 * r;
    assert total == r + 64 * (q * 0x80_0000_0000_0000 + high * 0x80_0000);
    PlusBlocks(r, q * 0x80_0000_0000_0000 + high * 0x80_0000);
  }

  lemma PlusBlocks(r: int, k: int)
    ensures (r + 64 * k) % 64 == r % 64
  {
  }

  // The guard of SHA1Update decides rightly whether a block fills up exactly
  // when buffered plus new bytes stay below 2^32.
  lemma GuardExact(j: int, len: int)
    requires 0 <= j < 64 && 0 <= len < TWO32
    ensures (U32(j + len) > 63 <==> j + len > 63) <==> j + len < TWO32
  {
  }

  class Context {
    const state: array<Word>
    const buffer: array<bv8>
    var count0: int
    var count1: int
    ghost var msg: seq<bv8>

    ghost predicate Valid()
      reads this, state, buffer
    {
      && state.Length == 5 && buffer.Length == 64
      && Counts(count0, count1, |msg|)
      && RegsOf(state[..]) == Absorb(msg)
      && buffer[..|msg| % 64] == msg[Whole(|msg|)..]
    }

    // SHA1Init.
    constructor ()
      ensures Valid() && msg == [] && fresh(state) && fresh(buffer)
    {
      state := new Word[5];
      buffer := new bv8[64];
      count0, count1, msg := 0, 0, [];
      new;
      state[0] := 0x6745_2301;
      state[1] := 0xEFCD_AB89;
      state[2] := 0x98BA_DCFE;
      state[3] := 0x1032_5476;
      state[4] := 0xC3D2_E1F0;
    }

    // memcpy(&buffer[j], data, |data|).
    method CopyIn(j: nat, data: seq<bv8>)
      requires j + |data| <= buffer.Length
      modifies buffer
      ensures buffer[..] == old(buffer[..j]) + data + old(buffer[j + |data|..])
    {
      forall k | 0 <= k < |data| {
        buffer[j + k] := data[k];
      }
    }

    // The length is a 32-bit word; `fits` is false when the wrapped guard makes
    // the last copy larger than the buffer.
    method Update(data: seq<bv8>) returns (fits: bool)
      requires Valid() && |data| < TWO32
      modifies this, state, buffer
      ensures fits <==> old(|msg|) % 64 + |data| < TWO32
      ensures fits ==> Valid() && msg == old(msg) + data
    {
      hide Compress, Absorb, Counts, RegsOf, Whole, CountLow, CountHigh, U32;
      var len := |data|;
      ghost var m0 := msg;
      var j := count0;
      CountsGrow(count0, count1, |msg|, len);
      BufferedLength(count0, count1, |msg|);
      count0, count1 := CountLow(j, len), CountHigh(j, count1, len);
      j := j / 8 % 64;
      GuardExact(j, len);
      var i := 0;
      if U32(j + len) > 63 {
        i := CompleteBlocks(data, j);
        AfterBlocks(m0, data, i);
        j := 0;
      } else {
        if j + len > buffer.Length {
          return false;
        }
        NoBlock(m0, data);
      }
      assert data[0..] == data;
      CopyIn(j, data[i..]);
      msg := m0 + data;
      assert |msg| % 64 == j + len - i;
      assert buffer[..j + len - i] == buffer[..][..j + len - i];
      return true;
    }

    // The buffered block topped up and hashed, then the whole blocks behind it.
    method CompleteBlocks(data: seq<bv8>, j: nat) returns (i: nat)
      requires state.Length == 5 && buffer.Length == 64 && RegsOf(state[..]) == Absorb(msg)
      requires j == |msg| % 64 && buffer[..j] == msg[Whole(|msg|)..] && 63 < j + |data| < TWO32
      modifies state, buffer
      ensures i <= |data| < i + 64 && (|msg| + i) % 64 == 0
      ensures RegsOf(state[..]) == Absorb(msg + data[..i])
    {
      hide Compress, Absorb, RegsOf, Whole;
      i := 64 - j;
      CopyIn(j, data[..i]);
      FillBlock(msg, data[..i], buffer[..]);
      FillsUp(|msg|, i);
      Transform(state, buffer[..]);
      i := Blocks(data, i);
    }

    // The loop over the whole blocks of the input.
    method Blocks(data: seq<bv8>, start: nat) returns (i: nat)
      requires state.Length == 5 && start <= |data| && (|msg| + start) % 64 == 0
      requires |msg| % 64 + |data| < TWO32
      requires RegsOf(state[..]) == Absorb(msg + data[..start])
      modifies state
      ensures start <= i <= |data| < i + 64 && (|msg| + i) % 64 == 0
      ensures RegsOf(state[..]) == Absorb(msg + data[..i])
    {
      hide Compress, Absorb, RegsOf, U32;
      i := start;
      while U32(i + 63) < |data|
        invariant start <= i <= |data| && (|msg| + i) % 64 == 0
        invariant RegsOf(state[..]) == Absorb(msg + data[..i])
        decreases |data| - i
      {
        NoWrap(|msg|, i, |data|);
        FullBlock(|msg| + i);
        Transform(state, data[i..i + 64]);
        AbsorbBlock(msg + data[..i], data[i..i + 64]);
        assert msg + data[..i + 64] == msg + data[..i] + data[i..i + 64];
        i := i + 64;
      }
      NoWrap(|msg|, i, |data|);
    }

    // Zero bytes one at a time until 56 bytes are buffered.
    method PadZeros(ghost m: seq<bv8>)
      requires Valid() && msg == m + [0x80]
      modifies this, state, buffer
      ensures Valid() && msg == m + [0x80] + ZeroBytes(ZeroCount(|m|))
    {
      hide Counts, Absorb, RegsOf, ZeroCount;
      ghost var k := 0;
      BufferedLength(count0, count1, |msg|);
      while count0 / 8 % 64 != 56
        invariant Valid() && k <= ZeroCount(|m|) < 64 && msg == m + [0x80] + ZeroBytes(k)
        invariant count0 / 8 % 64 == |msg| % 64
        decreases ZeroCount(|m|) - k
      {
        ZeroCountExact(|m|, k);
        var _ := Update([0]);
        k := k + 1;
        BufferedLength(count0, count1, |msg|);
      }
      ZeroCountExact(|m|, k);
    }

    // SHA1Final: the digest, and a wiped context.
    method Final(digest: array<bv8>)
      requires Valid() && digest.Length == 20 && digest != buffer
      modifies this, state, buffer, digest
      ensures digest[..] == Sha1(old(msg))
      ensures state[..] == seq(5, _ => 0) && buffer[..] == seq(64, _ => 0) && count0 == count1 == 0
    {
      hide Counts, Absorb, RegsOf, ZeroCount, LengthField, Compress, DigestBytes, ByteAt;
      ghost var m := msg;
      var finalcount := FinalCount(count0, count1);
      assert finalcount == LengthField(8 * |m| % TWO64) by { FinalCountIsLength(count0, count1, |m|); }
      var _ := Update([0x80]);
      PadZeros(m);
      var _ := Update(finalcount);
      PadFillsBlocks(m);
      assert msg == Pad(m);
      var d := DigestBytes(RegsOf(state[..]));
      DigestSize(RegsOf(state[..]));
      forall i | 0 <= i < 20 {
        digest[i] := d[i];
      }
      forall i | 0 <= i < 5 { state[i] := 0; }
      forall i | 0 <= i < 64 { buffer[i] := 0; }
      count0, count1 := 0, 0;
    }
  }

  // The block counter plus 63 never wraps.
  lemma NoWrap(total: nat, i: nat, len: nat)
    requires (total + i) % 64 == 0 && i <= len && total % 64 + len < TWO32
    ensures U32(i + 63) == i + 63
  {
  }

  lemma AbsorbBlock(m: seq<bv8>, block: seq<bv8>)
    requires |m| % 64 == 0 && |block| == 64
    ensures Absorb(m + block) == Compress(Absorb(m), block)
  {
    hide Compress, Whole, Absorb;
    var n := m + block;
    FullBlock(|m|);
    WholeUnique(|n|, |n|);
    AbsorbUnfolds(n);
    assert n[..|m|] == m && n[|m|..|m| + 64] == block;
  }

  lemma FullBlock(n: nat)
    requires n % 64 == 0
    ensures (n + 64) % 64 == 0
  {
  }

  lemma AbsorbUnfolds(m: seq<bv8>)
    ensures var whole := Whole(|m|);
      Absorb(m) == if whole < 64 then H0 else Compress(Absorb(m[..whole - 64]), m[whole - 64..whole])
  {
  }

  // A partial block changes nothing.
  lemma AbsorbPartial(m: seq<bv8>)
    ensures Absorb(m[..Whole(|m|)]) == Absorb(m)
  {
    hide Compress, Whole, Absorb;
    var whole := Whole(|m|);
    WholeUnique(whole, whole);
    AbsorbUnfolds(m);
    AbsorbUnfolds(m[..whole]);
    if whole >= 64 {
      assert m[..whole][..whole - 64] == m[..whole - 64];
      assert m[..whole][whole - 64..whole] == m[whole - 64..whole];
    }
  }

  lemma FillBlock(m: seq<bv8>, data: seq<bv8>, block: seq<bv8>)
    requires |block| == 64 && block == m[Whole(|m|)..] + data
    ensures Absorb(m + data) == Compress(Absorb(m), block)
  {
    hide Compress, Absorb, Whole;
    var whole := Whole(|m|);
    AbsorbPartial(m);
    AbsorbBlock(m[..whole], block);
    assert m[..whole] + block == m + data;
  }

  lemma FillsUp(n: nat, k: nat)
    requires n % 64 + k == 64
    ensures (n + k) % 64 == 0
  {
  }

  lemma AfterBlocks(m: seq<bv8>, data: seq<bv8>, i: nat)
    requires i <= |data| < i + 64 && (|m| + i) % 64 == 0
    ensures var n := m + data;
      && |n| % 64 == |data| - i && n[Whole(|n|)..] == data[i..]
      && Absorb(n) == Absorb(m + data[..i])
  {
    hide Absorb, Whole;
    var n := m + data;
    WholeUnique(|n|, |m| + i);
    AbsorbPartial(n);
    assert n[..|m| + i] == m + data[..i];
  }

  lemma NoBlock(m: seq<bv8>, data: seq<bv8>)
    requires |m| % 64 + |data| < 64
    ensures var n := m + data;
      && |n| % 64 == |m| % 64 + |data| && n[Whole(|n|)..] == m[Whole(|m|)..] + data
      && Absorb(n) == Absorb(m)
  {
    hide Absorb, Whole;
    var n, whole := m + data, Whole(|m|);
    WholeUnique(|n|, whole);
    AbsorbPartial(n);
    AbsorbPartial(m);
    assert n[..whole] == m[..whole];
  }

  // The bytes of the two counter words, the high word first.
  function FinalCount(low: int, high: int): seq<bv8> {
    seq(8, i requires 0 <= i < 8 => CountByte(if i >= 4 then low else high, i % 4))
  }

  function CountByte(c: int, i: int): bv8 {
    ByteAt(c, if i == 0 then 0x100_0000 else if i == 1 then 0x1_0000 else if i == 2 then 0x100 else 1)
  }

  lemma FinalCountIsLength(low: int, high: int, total: nat)
    requires Counts(low, high, total)
    ensures FinalCount(low, high) == LengthField(8 * total % TWO64)
  {
    hide ByteAt;
    HighBytes(high, low);
    LowBytes(high, low);
  }

  lemma HighBytes(high: int, low: int)
    requires 0 <= low < TWO32
    ensures var n := high * TWO32 + low;
      && ByteAt(n, 0x100_0000_0000_0000) == ByteAt(high, 0x100_0000)
      && ByteAt(n, 0x1_0000_0000_0000) == ByteAt(high, 0x1_0000)
      && ByteAt(n, 0x100_0000_0000) == ByteAt(high, 0x100) && ByteAt(n, 0x1_0000_0000) == ByteAt(high, 1)
  {
    var n := high * TWO32 + low;
    assert n / 0x100_0000_0000_0000 == high / 0x100_0000;
    assert n / 0x1_0000_0000_0000 == high / 0x1_0000;
    assert n / 0x100_0000_0000 == high / 0x100;
    assert n / 0x1_0000_0000 == high;
  }

  lemma LowBytes(high: int, low: int)
    ensures var n := high * TWO32 + low;
      && ByteAt(n, 0x100_0000) == ByteAt(low, 0x100_0000) && ByteAt(n, 0x1_0000) == ByteAt(low, 0x1_0000)
      && ByteAt(n, 0x100) == ByteAt(low, 0x100) && ByteAt(n, 1) == ByteAt(low, 1)
  {
    Quotients(high * 0x100, low);
    Quotients(high * 0x1_0000, low);
    Quotients(high * 0x100_0000, low);
    LowByte(high, low / 0x100_0000);
    LowByte(high * 0x100, low / 0x1_0000);
    LowByte(high * 0x1_0000, low / 0x100);
    LowByte(high * 0x100_0000, low);
  }

  lemma Quotients(a: int, q: int)
    ensures (a * 0x100_0000 + q) / 0x100_0000 == a + q / 0x100_0000
    ensures (a * 0x1_0000 + q) / 0x1_0000 == a + q / 0x1_0000
    ensures (a * 0x100 + q) / 0x100 == a + q / 0x100
  {
  }

  lemma LowByte(a: int, q: int)
    ensures (a * 0x100 + q) % 0x100 == q % 0x100
  {
  }

  lemma DigestSize(h: Regs)
    ensures |DigestBytes(h)| == 20
  {
  }

  lemma ZeroCountExact(n: nat, k: nat)
    requires k <= ZeroCount(n)
    ensures (n + 1 + k) % 64 == 56 <==> k == ZeroCount(n)
  {
  }

  function Concat(pieces: seq<seq<bv8>>): seq<bv8> {
    if pieces == [] then [] else Concat(pieces[..|pieces| - 1]) + pieces[|pieces| - 1]
  }

  // Whether the pieces can be fed one after the other.
  predicate Feedable(pieces: seq<seq<bv8>>) {
    pieces == [] || (var front, piece := pieces[..|pieces| - 1], pieces[|pieces| - 1];
                     Feedable(front) && |Concat(front)| % 64 + |piece| < TWO32)
  }

  lemma FeedNext(pieces: seq<seq<bv8>>, i: nat)
    requires i < |pieces|
    ensures Concat(pieces[..i + 1]) == Concat(pieces[..i]) + pieces[i]
    ensures Feedable(pieces[..i + 1]) <==> Feedable(pieces[..i]) && |Concat(pieces[..i])| % 64 + |pieces[i]| < TWO32
  {
    assert pieces[..i + 1][..i] == pieces[..i];
  }

  lemma {:induction false} FeedableBefore(pieces: seq<seq<bv8>>, k: nat)
    requires k <= |pieces| && Feedable(pieces)
    ensures Feedable(pieces[..k])
    decreases |pieces|
  {
    if k < |pieces| {
      assert pieces[..|pieces| - 1][..k] == pieces[..k];
      FeedableBefore(pieces[..|pieces| - 1], k);
    } else {
      assert pieces[..k] == pieces;
    }
  }

  // However a message is cut into pieces, the digest is that of the whole.
  method HashPieces(pieces: seq<seq<bv8>>) returns (ok: bool, digest: array<bv8>)
    requires forall i :: 0 <= i < |pieces| ==> |pieces[i]| < TWO32
    ensures ok <==> Feedable(pieces)
    ensures ok ==> fresh(digest) && digest[..] == Sha1(Concat(pieces))
  {
    assert pieces[..0] == [] && Concat([]) == [] && Feedable([]);
    hide *;
    var ctx := new Context();
    digest := new bv8[20];
    for i := 0 to |pieces|
      invariant ctx.Valid() && ctx.msg == Concat(pieces[..i]) && Feedable(pieces[..i])
      invariant fresh(ctx) && fresh(ctx.state) && fresh(ctx.buffer) && fresh(digest) && digest != ctx.buffer
    {
      FeedNext(pieces, i);
      var fits := ctx.Update(pieces[i]);
      if !fits {
        if Feedable(pieces) { FeedableBefore(pieces, i + 1); }
        return false, digest;
      }
    }
    assert pieces[..|pieces|] == pieces;
    ctx.Final(digest);
    ok := true;
  }

  // One byte and then 2^32 - 1 more: the wrapped guard sees a sum of zero.
  method OverrunWitness() returns (fits: bool)
    ensures !fits
  {
    hide Absorb, RegsOf, Counts;
    var ctx := new Context();
    var _ := ctx.Update([0]);
    fits := ctx.Update(seq(0xFFFF_FFFF, _ => 0));
  }
}
