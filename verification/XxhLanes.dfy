/** XXH32 and XXH64: four lanes over fixed-size blocks, streaming against one-shot, for arbitrary rounds. */
module XxhLanes {
  import opened FixedWidth
  import opened Products

  datatype Lanes = Lanes(v1: int, v2: int, v3: int, v4: int)

  /** The mixing steps, left open: `round` folds one word into a lane, `converge` joins the lanes,
      `finalize` mixes in the bytes after the last whole block. Words are `width` bytes, blocks four words. */
  datatype Algorithm = Algorithm(width: nat, round: (int, Bytes) -> int, converge: Lanes -> int, finalize: (int, Bytes) -> int)
  {
    ghost predicate WellFormed() { width > 0 }
  }

  function BlockLen(alg: Algorithm): nat { 4 * alg.width }

  function Rounds(alg: Algorithm, v: Lanes, block: Bytes): Lanes
    requires |block| == BlockLen(alg)
  {
    var w := alg.width;
    Lanes(alg.round(v.v1, block[..w]), alg.round(v.v2, block[w..2 * w]),
          alg.round(v.v3, block[2 * w..3 * w]), alg.round(v.v4, block[3 * w..]))
  }

  // The reference: fold whole blocks from the front; the tail is what is left.

  function Fold(alg: Algorithm, v: Lanes, s: Bytes): Lanes
    requires alg.WellFormed()
    decreases |s|
  {
    var b := BlockLen(alg);
    if |s| < b then v else Fold(alg, Rounds(alg, v, s[..b]), s[b..])
  }

  function Tail(alg: Algorithm, s: Bytes): (t: Bytes)
    requires alg.WellFormed()
    ensures |t| < BlockLen(alg)
    decreases |s|
  {
    var b := BlockLen(alg);
    if |s| < b then s else Tail(alg, s[b..])
  }

  /** Folding may stop anywhere: keep the lanes and the tail, and go on with the next bytes later. */
  lemma {:induction false} FoldResumes(alg: Algorithm, v: Lanes, s: Bytes, t: Bytes)
    requires alg.WellFormed()
    ensures Fold(alg, v, s + t) == Fold(alg, Fold(alg, v, s), Tail(alg, s) + t)
    ensures Tail(alg, s + t) == Tail(alg, Tail(alg, s) + t)
    decreases |s|
  {
    var b := BlockLen(alg);
    if |s| >= b {
      assert (s + t)[..b] == s[..b] && (s + t)[b..] == s[b..] + t;
      FoldResumes(alg, Rounds(alg, v, s[..b]), s[b..], t);
    }
  }

  lemma {:induction false} TailLength(alg: Algorithm, s: Bytes)
    requires alg.WellFormed()
    ensures |Tail(alg, s)| == |s| % BlockLen(alg)
    decreases |s|
  {
    var b := BlockLen(alg);
    if |s| >= b {
      TailLength(alg, s[b..]);
      var q := (|s| - b) / b;
      QuotientBounds(|s| - b, b);
      Distribute(b, q, 1);
      DivisionUnique(|s|, b, q + 1, (|s| - b) % b);
    } else {
      DivisionUnique(|s|, b, 0, |s|);
    }
  }

  /** The lanes and the partial block that XXH32_state_t and XXH64_state_t share. */
  class LaneState {
    const alg: Algorithm
    var v: Lanes
    const mem: array<Byte>
    var memsize: nat

    ghost var start: Lanes  // the lanes of an empty stream
    ghost var stream: Bytes // everything absorbed since the last reset

    ghost predicate Valid()
      reads this, mem
    {
      && alg.WellFormed() && mem.Length == BlockLen(alg) && memsize < BlockLen(alg)
      && v == Fold(alg, start, stream)
      && mem[..memsize] == Tail(alg, stream)
    }

    constructor (alg: Algorithm, seeded: Lanes)
      requires alg.WellFormed()
      ensures Valid() && stream == [] && start == seeded && this.alg == alg && fresh(mem)
    {
      this.alg := alg;
      mem := new Byte[4 * alg.width];
      v, memsize := seeded, 0;
      start, stream := seeded, [];
    }

    /** memcpy into the partial block. */
    method Store(at: nat, data: Bytes)
      requires at + |data| <= mem.Length
      modifies mem
      ensures mem[..at + |data|] == old(mem[..at]) + data
    {
      forall i | 0 <= i < |data| {
        mem[at + i] := data[i];
      }
    }

    /** Complete a partial block, if there is one, and fold it. */
    method CompleteBlock(input: Bytes) returns (p: nat)
      requires alg.WellFormed() && mem.Length == BlockLen(alg) && memsize < BlockLen(alg) <= memsize + |input|
      modifies this`v, this`memsize, mem
      ensures p <= |input| && memsize == 0
      ensures Fold(alg, old(v), old(mem[..memsize]) + input) == Fold(alg, v, input[p..])
      ensures Tail(alg, old(mem[..memsize]) + input) == Tail(alg, input[p..])
    {
      p := 0;
      if memsize != 0 {
        var b := 4 * alg.width;
        p := b - memsize;
        FirstBlock(alg, v, mem[..memsize], input, p);
        Store(memsize, input[..p]);
        v := Rounds(alg, v, mem[..b]);
        memsize := 0;
      } else {
        assert mem[..memsize] + input == input == input[0..];
      }
    }

    /** Fold the whole blocks of the input and keep the rest as the partial block. */
    method AbsorbBlocks(input: Bytes)
      requires alg.WellFormed() && mem.Length == BlockLen(alg) && memsize == 0
      modifies this`v, this`memsize, mem
      ensures memsize < BlockLen(alg)
      ensures v == Fold(alg, old(v), input) && mem[..memsize] == Tail(alg, input)
    {
      var p := 0;
      if |input| >= 4 * alg.width {
        v, p := FoldAll(alg, v, input);
      }
      assert input[0..] == input;
      hide Fold;
      if p < |input| {
        Store(0, input[p..]);
        memsize := |input| - p;
      }
      assert mem[..memsize] == input[p..];
    }

    /** Lines 3145-3178 of XXH32_update and 3589-3620 of XXH64_update. */
    method Absorb(input: Bytes)
      requires Valid()
      modifies this, mem
      ensures Valid() && stream == old(stream) + input && start == old(start)
    {
      FoldResumes(alg, start, stream, input);
      hide Rounds;
      stream := stream + input;
      if memsize + |input| < 4 * alg.width {
        Store(memsize, input);
        memsize := memsize + |input|;
      } else {
        hide Fold, Tail;
        var p := CompleteBlock(input);
        AbsorbBlocks(input[p..]);
      }
    }
  }

  /** Filling up the partial block and folding it first. */
  lemma FirstBlock(alg: Algorithm, v: Lanes, partial: Bytes, input: Bytes, p: nat)
    requires alg.WellFormed() && p <= |input| && |partial| + p == BlockLen(alg)
    ensures Fold(alg, v, partial + input) == Fold(alg, Rounds(alg, v, partial + input[..p]), input[p..])
    ensures Tail(alg, partial + input) == Tail(alg, input[p..])
  {
    var b, s := BlockLen(alg), partial + input;
    assert s[..b] == partial + input[..p] && s[b..] == input[p..];
  }

  lemma OneBlock(alg: Algorithm, v: Lanes, s: Bytes)
    requires alg.WellFormed()
    ensures if |s| >= BlockLen(alg) then
        && Fold(alg, v, s) == Fold(alg, Rounds(alg, v, s[..BlockLen(alg)]), s[BlockLen(alg)..])
        && Tail(alg, s) == Tail(alg, s[BlockLen(alg)..])
      else Tail(alg, s) == s && Fold(alg, v, s) == v
  {
  }

  /** The do-while loop over whole blocks, in the one-shot functions (lines 3058-3063, 3500-3505) and again in the
      streaming ones (3166-3171, 3608-3613); it is entered with at least one block left. */
  method FoldAll(alg: Algorithm, seeded: Lanes, input: Bytes) returns (v: Lanes, p: nat)
    requires alg.WellFormed() && |input| >= BlockLen(alg)
    ensures v == Fold(alg, seeded, input) && p <= |input| && input[p..] == Tail(alg, input)
  {
    hide Fold, Tail, Rounds;
    var b := 4 * alg.width;
    v, p := seeded, 0;
    assert input[0..] == input;
    while true
      invariant p + b <= |input|
      invariant Fold(alg, seeded, input) == Fold(alg, v, input[p..]) && Tail(alg, input) == Tail(alg, input[p..])
      decreases |input| - p
    {
      assert input[p..][..b] == input[p..p + b] && input[p..][b..] == input[p + b..];
      OneBlock(alg, v, input[p..]);
      v := Rounds(alg, v, input[p..p + b]);
      p := p + b;
      if p > |input| - b {
        break;
      }
    }
    OneBlock(alg, v, input[p..]);
  }
}
