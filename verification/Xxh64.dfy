/** XXH64 on top of the shared lanes. */
module Xxh64 {
  import opened FixedWidth
  import opened Chunks
  import opened XxhLanes

  const PRIME64_1 := 0x9E3779B185EBCA87
  const PRIME64_2 := 0xC2B2AE3D27D4EB4F
  const PRIME64_5 := 0x27D4EB2F165667C5

  predicate IsSeed(seed: int) { 0 <= seed < TWO_TO_64 }

  function Seeded(seed: int): Lanes {
    Lanes(Wrap64(seed + PRIME64_1 + PRIME64_2), Wrap64(seed + PRIME64_2), seed, Wrap64(seed - PRIME64_1))
  }

  /** The hash of a whole input. */
  function Hash(alg: Algorithm, seed: int, s: Bytes): int
    requires alg.width == 8
  {
    var h := if |s| >= 32 then alg.converge(Fold(alg, Seeded(seed), s)) else Wrap64(seed + PRIME64_5);
    alg.finalize(Wrap64(h + |s|), Tail(alg, s))
  }

  /** XXH64_endian_align */
  method OneShot(alg: Algorithm, seed: int, input: Bytes) returns (h: int)
    requires alg.width == 8 && IsSeed(seed) && |input| < TWO_TO_64
    ensures h == Hash(alg, seed, input)
  {
    var p := 0;
    if |input| >= 32 {
      var v;
      v, p := FoldAll(alg, Seeded(seed), input);
      h := alg.converge(v);
    } else {
      h := Wrap64(seed + PRIME64_5);
      assert input[0..] == input;
    }
    h := Wrap64(h + |input|);
    h := alg.finalize(h, input[p..]);
  }

  /** XXH64_state_t */
  class State {
    const lanes: LaneState
    var totalLen: int
    ghost var seed: int

    ghost predicate Valid()
      reads this, lanes, lanes.mem
    {
      && lanes.Valid() && lanes.alg.width == 8 && IsSeed(seed) && lanes.start == Seeded(seed)
      && totalLen == Wrap64(|lanes.stream|)
    }

    /** XXH64_createState and XXH64_reset */
    constructor (alg: Algorithm, seed: int)
      requires alg.width == 8 && IsSeed(seed)
      ensures Valid() && fresh(lanes) && fresh(lanes.mem)
      ensures lanes.stream == [] && lanes.alg == alg && this.seed == seed
    {
      lanes := new LaneState(alg, Seeded(seed));
      totalLen := 0;
      this.seed := seed;
    }

    /** XXH64_update */
    method Update(input: Bytes)
      requires Valid()
      modifies this, lanes, lanes.mem
      ensures Valid() && lanes.stream == old(lanes.stream) + input && seed == old(seed)
    {
      Wrap64Adds(|lanes.stream|, |input|);
      totalLen := Wrap64(totalLen + |input|);
      lanes.Absorb(input);
    }

    /** XXH64_digest. It has the finalizer read total_len mod 32 bytes, which are exactly the partial block. */
    method Digest() returns (h: int)
      requires Valid() && |lanes.stream| < TWO_TO_64
      ensures h == Hash(lanes.alg, seed, lanes.stream)
    {
      assert totalLen == |lanes.stream|;
      TailLength(lanes.alg, lanes.stream);
      if totalLen >= 32 {
        h := lanes.alg.converge(lanes.v);
      } else {
        h := Wrap64(lanes.v.v3 + PRIME64_5);
      }
      h := Wrap64(h + totalLen);
      h := lanes.alg.finalize(h, lanes.mem[..totalLen % 32]);
    }
  }

  /** For every seed and every chunking, streaming gives the one-shot hash. */
  method StreamedMatchesOneShot(alg: Algorithm, seed: int, chunks: seq<Bytes>) returns (streamed: int, oneShot: int)
    requires alg.width == 8 && IsSeed(seed) && |Concat(chunks)| < TWO_TO_64
    ensures streamed == oneShot == Hash(alg, seed, Concat(chunks))
  {
    var state := new State(alg, seed);
    for i := 0 to |chunks|
      invariant state.Valid() && fresh(state) && fresh(state.lanes) && fresh(state.lanes.mem)
      invariant state.lanes.alg == alg && state.seed == seed && state.lanes.stream == Concat(chunks[..i])
    {
      ConcatStep(chunks, i);
      state.Update(chunks[i]);
    }
    assert chunks[..|chunks|] == chunks;
    streamed := state.Digest();
    oneShot := OneShot(alg, seed, Concat(chunks));
  }
}
