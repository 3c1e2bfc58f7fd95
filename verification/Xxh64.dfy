/** XXH64: one-shot and streaming.  Words are numbers below `2^64`. */
module Xxh64 {
  import opened Bits

  const PRIME64_1 := 0x9E3779B185EBCA87
  const PRIME64_2 := 0xC2B2AE3D27D4EB4F
  const PRIME64_3 := 0x165667B19E3779F9
  const PRIME64_4 := 0x85EBCA77C2B2AE63
  const PRIME64_5 := 0x27D4EB2F165667C5
  const WORD := 0x1_0000_0000_0000_0000

  type Word = w: nat | w < WORD

  function Wrap(x: int): Word { x % WORD }

  /** `XXH_rotl64`. */
  function Rotl(x: Word, r: nat): Word
    requires r <= 64
  {
    Wrap(BitOr(Shl(x, r), Shr(x, 64 - r)))
  }

  function Xor(x: Word, y: Word): Word { Wrap(BitXor(x, y)) }

  function Round(acc: Word, input: nat): Word
  {
    Wrap(Rotl(Wrap(acc + input * PRIME64_2), 31) * PRIME64_1)
  }

  function MergeRound(acc: Word, val: Word): Word
  {
    Wrap(Xor(acc, Round(0, val)) * PRIME64_1 + PRIME64_4)
  }

  function Avalanche(hash: Word): Word
  {
    var a := Wrap(Xor(hash, Wrap(Shr(hash, 33))) * PRIME64_2);
    var b := Wrap(Xor(a, Wrap(Shr(a, 29))) * PRIME64_3);
    Xor(b, Wrap(Shr(b, 32)))
  }

  // ----- the reference: the hash of a byte string -----

  /** The four accumulator lanes. */
  datatype Lanes = Lanes(v1: Word, v2: Word, v3: Word, v4: Word)

  function InitialLanes(seed: Word): Lanes
  {
    Lanes(Wrap(seed + PRIME64_1 + PRIME64_2), Wrap(seed + PRIME64_2), seed, Wrap(seed - PRIME64_1))
  }

  /** One block of 32 bytes, eight to a lane. */
  function Stripe(v: Lanes, block: seq<Byte>): Lanes
    requires |block| == 32
  {
    Lanes(Round(v.v1, LeNat(block[0..8])), Round(v.v2, LeNat(block[8..16])),
          Round(v.v3, LeNat(block[16..24])), Round(v.v4, LeNat(block[24..32])))
  }

  /** Whole blocks, in order; what does not fill a block is left alone. */
  function Consume(v: Lanes, data: seq<Byte>): Lanes
    decreases |data|
  {
    if |data| < 32 then v else Consume(Stripe(v, data[..32]), data[32..])
  }

  function Converge(v: Lanes): Word
  {
    var h := Wrap(Rotl(v.v1, 1) + Rotl(v.v2, 7) + Rotl(v.v3, 12) + Rotl(v.v4, 18));
    MergeRound(MergeRound(MergeRound(MergeRound(h, v.v1), v.v2), v.v3), v.v4)
  }

  /** The last bytes: by eight, then at most one four, then one by one. */
  function Tail(hash: Word, rest: seq<Byte>): Word
    decreases |rest|
  {
    if |rest| >= 8 then
      Tail(Wrap(Rotl(Xor(hash, Round(0, LeNat(rest[..8]))), 27) * PRIME64_1 + PRIME64_4), rest[8..])
    else if |rest| >= 4 then
      Tail(Wrap(Rotl(Xor(hash, Wrap(LeNat(rest[..4]) * PRIME64_1)), 23) * PRIME64_2 + PRIME64_3), rest[4..])
    else if |rest| > 0 then
      Tail(Wrap(Rotl(Xor(hash, Wrap(rest[0] * PRIME64_5)), 11) * PRIME64_1), rest[1..])
    else hash
  }

  function Hash(seed: Word, data: seq<Byte>): Word
  {
    var start := if |data| >= 32 then Converge(Consume(InitialLanes(seed), data)) else Wrap(seed + PRIME64_5);
    Avalanche(Tail(Wrap(start + |data|), data[|data| - |data| % 32..]))
  }

  /** Blocks can be consumed in two goes. */
  lemma {:induction false} ConsumeAppend(v: Lanes, a: seq<Byte>, b: seq<Byte>)
    requires |a| % 32 == 0
    ensures Consume(v, a + b) == Consume(Consume(v, a), b)
    decreases |a|
  {
    hide Stripe;
    if |a| == 0 {
      assert a + b == b;
    } else {
      assert (a + b)[..32] == a[..32] && (a + b)[32..] == a[32..] + b;
      ConsumeAppend(Stripe(v, a[..32]), a[32..], b);
    }
  }

  lemma ConsumeBlock(v: Lanes, a: seq<Byte>, block: seq<Byte>)
    requires |a| % 32 == 0 && |block| == 32
    ensures Consume(v, a + block) == Stripe(Consume(v, a), block)
  {
    hide Stripe;
    ConsumeAppend(v, a, block);
    assert block[..32] == block;
    assert Consume(Stripe(Consume(v, a), block), block[32..]) == Stripe(Consume(v, a), block);
  }

  /** Bytes after the last whole block do not reach the lanes. */
  lemma {:induction false} ConsumeShort(v: Lanes, a: seq<Byte>, b: seq<Byte>)
    requires |a| % 32 == 0 && |b| < 32
    ensures Consume(v, a + b) == Consume(v, a)
  {
    ConsumeAppend(v, a, b);
  }

  // ----- one shot -----

  /** `XXH64_finalize`. */
  method Finalize(hash0: Word, src: seq<Byte>, len0: nat) returns (h: Word)
    requires len0 % 32 <= |src|
    ensures h == Avalanche(Tail(hash0, src[..len0 % 32]))
  {
    hide Round, Rotl, Xor, Avalanche, Wrap, LeNat;
    var len: nat := len0 % 32;
    var hash := hash0;
    ghost var all, total := src[..len], len;
    ghost var goal := Tail(hash0, all);
    var p: nat := 0;
    assert all[0..] == all;
    while len >= 8
      invariant p + len == total && goal == Tail(hash, all[p..])
    {
      assert all[p..][..8] == src[p..p + 8] && all[p..][8..] == all[p + 8..];
      hash := Xor(hash, Round(0, LeNat(src[p..p + 8])));
      hash := Wrap(Rotl(hash, 27) * PRIME64_1 + PRIME64_4);
      p := p + 8;
      len := len - 8;
    }
    if len >= 4 {
      assert all[p..][..4] == src[p..p + 4] && all[p..][4..] == all[p + 4..];
      hash := Xor(hash, Wrap(LeNat(src[p..p + 4]) * PRIME64_1));
      hash := Wrap(Rotl(hash, 23) * PRIME64_2 + PRIME64_3);
      p := p + 4;
      len := len - 4;
    }
    while len > 0
      invariant p + len == total && len < 4 && goal == Tail(hash, all[p..])
    {
      assert all[p..][0] == src[p] && all[p..][1..] == all[p + 1..];
      hash := Xor(hash, Wrap(src[p] * PRIME64_5));
      hash := Wrap(Rotl(hash, 11) * PRIME64_1);
      p := p + 1;
      len := len - 1;
    }
    return Avalanche(hash);
  }

  lemma BlockAt(v: Lanes, src: seq<Byte>, p: nat)
    requires p % 32 == 0 && p + 32 <= |src|
    ensures Consume(v, src[..p + 32]) == Stripe(Consume(v, src[..p]), src[p..p + 32])
    ensures src[p..p + 32][0..8] == src[p + 0..p + 8] && src[p..p + 32][8..16] == src[p + 8..p + 16]
    ensures src[p..p + 32][16..24] == src[p + 16..p + 24] && src[p..p + 32][24..32] == src[p + 24..p + 32]
  {
    hide Consume, Stripe;
    assert src[..p + 32] == src[..p] + src[p..p + 32];
    ConsumeBlock(v, src[..p], src[p..p + 32]);
    Within(src, p, 0);
    Within(src, p, 8);
    Within(src, p, 16);
    Within(src, p, 24);
  }

  lemma Within(src: seq<Byte>, p: nat, i: nat)
    requires p + 32 <= |src| && i <= 24
    ensures src[p..p + 32][i..i + 8] == src[p + i..p + i + 8]
  {
    var a, b := src[p..p + 32][i..i + 8], src[p + i..p + i + 8];
    assert forall k :: 0 <= k < 8 ==> a[k] == b[k];
  }

  /** `XXH64_endian_align`. */
  method XXH64(src: seq<Byte>, seed: Word) returns (h: Word)
    ensures h == Hash(seed, src)
  {
    hide Round, Rotl, Xor, Avalanche, Wrap, LeNat, Tail, Converge, Consume;
    var len, p, h64 := |src|, 0, 0;
    if len >= 32 {
      var init := InitialLanes(seed);
      var v1, v2, v3, v4 := init.v1, init.v2, init.v3, init.v4;
      NoBlocks(init, src[..0]);
      while true
        invariant p % 32 == 0 && p + 32 <= len && Lanes(v1, v2, v3, v4) == Consume(init, src[..p])
        decreases len - p
      {
        BlockAt(init, src, p);
        v1 := Round(v1, LeNat(src[p + 0..p + 8]));
        v2 := Round(v2, LeNat(src[p + 8..p + 16]));
        v3 := Round(v3, LeNat(src[p + 16..p + 24]));
        v4 := Round(v4, LeNat(src[p + 24..p + 32]));
        p := p + 32;
        if p + 32 > len { break; }
      }
      assert p == len - len % 32;
      assert src == src[..p] + src[p..];
      ConsumeShort(init, src[..p], src[p..]);
      h64 := Converge(Lanes(v1, v2, v3, v4));
    } else {
      h64 := Wrap(seed + PRIME64_5);
    }
    h64 := Wrap(h64 + len);
    assert src[p..][..len % 32] == src[len - len % 32..];
    h := Finalize(h64, src[p..], len);
  }

  lemma NoBlocks(v: Lanes, data: seq<Byte>)
    requires |data| < 32
    ensures Consume(v, data) == v
  {}

  // ----- streaming -----

  /** `XXH64_state_t`; `mem64` is the buffer as bytes. */
  class State {
    var totalLen: Word
    var v: Lanes
    const mem64: array<Byte>
    var memsize: nat

    /** Everything added since the last reset. */
    ghost var seed: Word
    ghost var data: seq<Byte>

    ghost predicate Valid()
      reads this, mem64
    {
      && mem64.Length == 32 && totalLen == Wrap(|data|)
      && memsize == |data| % 32 == totalLen % 32
      && mem64[..memsize] == data[|data| - memsize..]
      && v == Consume(InitialLanes(seed), data[..|data| - memsize])
    }

    /** `XXH64_createState` and `XXH64_reset`. */
    constructor (seed: Word)
      ensures Valid() && data == [] && this.seed == seed
    {
      mem64 := new Byte[32](_ => 0);
      totalLen, memsize := 0, 0;
      v := InitialLanes(seed);
      this.seed := seed;
      data := [];
    }

    /** `XXH64_reset`. */
    method Reset(seed: Word)
      requires Valid()
      modifies this
      ensures Valid() && data == [] && this.seed == seed
    {
      totalLen, memsize := 0, 0;
      v := InitialLanes(seed);
      this.seed := seed;
      data := [];
    }

    /** Copies `s` into the buffer. */
    method Store(at: nat, s: seq<Byte>)
      requires mem64.Length == 32 && at + |s| <= 32
      modifies mem64
      ensures mem64[..at] == old(mem64[..at]) && mem64[at..at + |s|] == s
    {
      forall i | 0 <= i < |s| { mem64[at + i] := s[i]; }
    }

    /** One block into the lanes. */
    method Eat(block: seq<Byte>)
      requires |block| == 32
      modifies this`v
      ensures v == Stripe(old(v), block)
    {
      v := Lanes(Round(v.v1, LeNat(block[0..8])), v.v2, v.v3, v.v4);
      v := v.(v2 := Round(v.v2, LeNat(block[8..16])));
      v := v.(v3 := Round(v.v3, LeNat(block[16..24])));
      v := v.(v4 := Round(v.v4, LeNat(block[24..32])));
    }

    /** `XXH64_update`. */
    method Update(input: seq<Byte>)
      requires Valid()
      modifies this, mem64
      ensures Valid() && seed == old(seed) && data == old(data) + input
    {
      hide Stripe, Consume, Wrap, InitialLanes, Round;
      ghost var init, was, all := InitialLanes(seed), data, data + input;
      ghost var done := |was| - memsize;
      WrapAdd(|was|, |input|);
      WrapMod(|all|);
      totalLen := Wrap(totalLen + |input|);
      data := all;
      assert all[..done] == was[..done];
      if memsize + |input| < 32 {
        Store(memsize, input);
        memsize := memsize + |input|;
        ShortUpdate(was, input, done);
        assert mem64[..memsize] == was[done..] + input;
        return;
      }
      var p := 0;
      if memsize > 0 { p := Fill(input, was); }
      assert all[|was|..] == input;
      AddRest(input, p, |was|);
    }

    /** Fills the buffer up to a block, and consumes it. */
    method Fill(input: seq<Byte>, ghost was: seq<Byte>) returns (p: nat)
      requires mem64.Length == 32 && 0 < memsize < 32 <= memsize + |input| && data == was + input
      requires memsize <= |was| && (|was| - memsize) % 32 == 0 && mem64[..memsize] == was[|was| - memsize..]
      requires v == Consume(InitialLanes(seed), was[..|was| - memsize])
      modifies this, mem64
      ensures data == old(data) && seed == old(seed) && totalLen == old(totalLen) && memsize == 0
      ensures p <= |input| && (|was| + p) % 32 == 0 && v == Consume(InitialLanes(seed), data[..|was| + p])
    {
      hide Stripe, Consume, Wrap, InitialLanes, Round;
      ghost var done, kept := |was| - memsize, mem64[..memsize];
      p := 32 - memsize;
      Store(memsize, input[..p]);
      assert mem64[..] == kept + input[..p] == data[done..done + 32];
      assert data[..done] == was[..done];
      BlockAt(InitialLanes(seed), data, done);
      Eat(mem64[..]);
      memsize := 0;
      NextBlock(done);
    }

    /** The blocks of `input` from `p` on, and then the bytes that do not fill one. */
    method AddRest(input: seq<Byte>, p0: nat, ghost before: nat)
      requires p0 <= |input| && memsize == 0 && mem64.Length == 32 && totalLen == Wrap(|data|)
      requires before + |input| == |data| && data[before..] == input && (before + p0) % 32 == 0
      requires v == Consume(InitialLanes(seed), data[..before + p0]) && totalLen % 32 == |data| % 32
      modifies this, mem64
      ensures Valid() && seed == old(seed) && data == old(data)
    {
      hide Stripe, Consume, Wrap, InitialLanes, Round;
      var p := p0;
      while p + 32 <= |input|
        invariant 0 <= p <= |input| && (before + p) % 32 == 0 && memsize == 0
        invariant data == old(data) && seed == old(seed) && totalLen == old(totalLen)
        invariant before + p <= |data| && v == Consume(InitialLanes(seed), data[..before + p])
      {
        NextBlock(before + p);
        BlockAt(InitialLanes(seed), data, before + p);
        assert data[before + p..before + p + 32] == input[p..p + 32];
        Eat(input[p..p + 32]);
        p := p + 32;
      }
      LeftOver(before + p, |input| - p);
      if p < |input| {
        Store(0, input[p..]);
        memsize := |input| - p;
        assert mem64[..memsize] == mem64[0..memsize] == input[p..];
      }
      assert data[before + p..] == input[p..];
    }

    static lemma NextBlock(done: nat)
      requires done % 32 == 0
      ensures (done + 32) % 32 == 0
    {}

    static lemma ShortUpdate(was: seq<Byte>, input: seq<Byte>, done: nat)
      requires done <= |was| && done % 32 == 0 && |was| - done + |input| < 32
      ensures |was + input| % 32 == |was| - done + |input|
      ensures (was + input)[done..] == was[done..] + input
    {
      LeftOver(done, |was| - done + |input|);
    }

    static lemma LeftOver(done: nat, rest: nat)
      requires done % 32 == 0 && rest < 32
      ensures (done + rest) % 32 == rest
    {}

    /** `XXH64_digest`. */
    method Digest() returns (h: Word)
      requires Valid() && |data| < WORD
      ensures h == Hash(seed, data)
    {
      hide Round, Rotl, Xor, Avalanche, LeNat, Tail, Converge, Consume, Wrap, Hash;
      var h64;
      ghost var whole := |data| - memsize;
      WrapSmall(|data|);
      HashParts(seed, data, whole);
      if totalLen >= 32 {
        h64 := Converge(v);
      } else {
        NoBlocks(InitialLanes(seed), data[..whole]);
        h64 := Wrap(v.v3 + PRIME64_5);
      }
      h64 := Wrap(h64 + totalLen);
      h := Finalize(h64, mem64[..], totalLen);
      assert mem64[..][..memsize] == mem64[..memsize];
    }
  }

  /** The hash in terms of the lanes after the whole blocks. */
  lemma HashParts(seed: Word, data: seq<Byte>, whole: nat)
    requires whole == |data| - |data| % 32
    ensures var v := Consume(InitialLanes(seed), data[..whole]);
      Hash(seed, data)
      == Avalanche(Tail(Wrap((if |data| >= 32 then Converge(v) else Wrap(seed + PRIME64_5)) + |data|), data[whole..]))
  {
    hide Round, Rotl, Xor, Avalanche, Tail, Converge, Consume, Wrap;
    assert data == data[..whole] + data[whole..];
    ConsumeShort(InitialLanes(seed), data[..whole], data[whole..]);
  }

  lemma WrapSmall(x: nat)
    requires x < WORD
    ensures Wrap(x) == x
  {}

  lemma WrapAdd(a: nat, b: nat)
    ensures Wrap(Wrap(a) + b) == Wrap(a + b)
  {}

  /** The block size divides the range of the counter. */
  lemma WrapMod(a: nat)
    ensures Wrap(a) % 32 == a % 32
  {
    var q := a / WORD;
    var blocks := 0x800_0000_0000_0000 * q;
    assert a == 32 * blocks + Wrap(a);
    ModAdd(blocks, Wrap(a));
  }

  lemma ModAdd(blocks: nat, x: nat)
    ensures (32 * blocks + x) % 32 == x % 32
  {}
}
