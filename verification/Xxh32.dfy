/** XXH32 on top of the shared lanes. */
module Xxh32 {
  import opened FixedWidth
  import opened Chunks
  import opened XxhLanes

  const PRIME32_1 := 0x9E3779B1
  const PRIME32_2 := 0x85EBCA77
  const PRIME32_5 := 0x165667B1

  predicate IsSeed(seed: int) { 0 <= seed < TWO_TO_32 }

  function Seeded(seed: int): Lanes {
    Lanes(Wrap32(seed + PRIME32_1 + PRIME32_2), Wrap32(seed + PRIME32_2), seed, Wrap32(seed - PRIME32_1))
  }

  /** The hash of a whole input. */
  function Hash(alg: Algorithm, seed: int, s: Bytes): int
    requires alg.width == 4
  {
    var h := if |s| >= 16 then alg.converge(Fold(alg, Seeded(seed), s)) else Wrap32(seed + PRIME32_5);
    alg.finalize(Wrap32(h + |s|), Tail(alg, s))
  }

  /** XXH32_endian_align */
  method OneShot(alg: Algorithm, seed: int, input: Bytes) returns (h: int)
    requires alg.width == 4 && IsSeed(seed)
    ensures h == Hash(alg, seed, input)
  {
    var p := 0;
    if |input| >= 16 {
      var v;
      v, p := FoldAll(alg, Seeded(seed), input);
      h := alg.converge(v);
    } else {
      h := Wrap32(seed + PRIME32_5);
      assert input[0..] == input;
    }
    Wrap32Adds(h, |input|);
    h := Wrap32(h + Wrap32(|input|));
    h := alg.finalize(h, input[p..]);
  }

  /** XXH32_state_t: the length counter wraps at 2^32, and a flag remembers that 16 bytes were reached. */
  class State {
    const lanes: LaneState
    var totalLen32: int
    var largeLen: bool
    ghost var seed: int

    ghost predicate Valid()
      reads this, lanes, lanes.mem
    {
      && lanes.Valid() && lanes.alg.width == 4 && IsSeed(seed) && lanes.start == Seeded(seed)
      && totalLen32 == Wrap32(|lanes.stream|)
      && largeLen == (|lanes.stream| >= 16)
    }

    /** XXH32_createState and XXH32_reset */
    constructor (alg: Algorithm, seed: int)
      requires alg.width == 4 && IsSeed(seed)
      ensures Valid() && fresh(lanes) && fresh(lanes.mem)
      ensures lanes.stream == [] && lanes.alg == alg && this.seed == seed
    {
      lanes := new LaneState(alg, Seeded(seed));
      totalLen32, largeLen := 0, false;
      this.seed := seed;
    }

    /** The flag does not miss the 16th byte, although it is computed from the wrapped length. */
    static lemma FlagIsExact(total: nat, len: nat)
      ensures total >= 16 || len >= 16 || Wrap32(total + len) >= 16 <==> total + len >= 16
    {
    }

    /** XXH32_update */
    method Update(input: Bytes)
      requires Valid()
      modifies this, lanes, lanes.mem
      ensures Valid() && lanes.stream == old(lanes.stream) + input && seed == old(seed)
    {
      hide Wrap32;
      FlagIsExact(|lanes.stream|, |input|);
      Wrap32Adds(|lanes.stream|, |input|);
      totalLen32 := Wrap32(totalLen32 + Wrap32(|input|));
      largeLen := largeLen || |input| >= 16 || totalLen32 >= 16;
      lanes.Absorb(input);
    }

    /** XXH32_digest */
    method Digest() returns (h: int)
      requires Valid()
      ensures h == Hash(lanes.alg, seed, lanes.stream)
    {
      if largeLen {
        h := lanes.alg.converge(lanes.v);
      } else {
        h := Wrap32(lanes.v.v3 + PRIME32_5);
      }
      Wrap32Adds(h, |lanes.stream|);
      h := Wrap32(h + totalLen32);
      h := lanes.alg.finalize(h, lanes.mem[..lanes.memsize]);
    }
  }

  /** For every seed, every total length (past 2^32 too) and every chunking, streaming gives the one-shot hash. */
  method StreamedMatchesOneShot(alg: Algorithm, seed: int, chunks: seq<Bytes>) returns (streamed: int, oneShot: int)
    requires alg.width == 4 && IsSeed(seed)
    ensures streamed == oneShot == Hash(alg, seed, Concat(chunks))
  {
    var state := new State(alg, seed);
    for i := 0 to |chunks|
      invariant state.Valid() && fresh(state) && fresh(state.lanes) && fresh(state.lanes.mem)
      invariant state.lanes.alg == alg && state.seed == seed && state.lanes.stream == Concat(chunks[..i])
    {
      ConcatStep(chunks, i);
      state.Update(chunks[i]);
    }
    assert chunks[..|chunks|] == chunks;
    streamed := state.Digest();
    oneShot := OneShot(alg, seed, Concat(chunks));
  }
}
