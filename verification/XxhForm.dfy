/** XXH32 and XXH64 written out with their numbers, lane by lane: what the streaming proofs take for the hash is this. */
module XxhForm {
  import opened FixedWidth
  import opened Products
  import opened XxhLanes
  import A = Xxh32
  import B = Xxh64

  /** One of four lanes after whole blocks: of each block it takes the word of its number. */
  function Lane(alg: Algorithm, start: int, s: Bytes, w: nat, lane: nat): int
    requires lane < 4 && w > 0
    decreases |s|
  {
    if |s| < 4 * w then
      start
    else
      WordFits(w, lane);
      var front, block := s[..|s| - 4 * w], s[|s| - 4 * w..];
      alg.round(Lane(alg, start, front, w, lane), block[lane * w..lane * w + w])
  }

  lemma WordFits(w: nat, lane: nat)
    requires lane < 4
    ensures 0 <= lane * w && lane * w + w <= 4 * w
  {
    ProductsOrdered(lane, w, 3, w);
    ProductSign(lane, w);
  }

  function Lanes4(alg: Algorithm, v: Lanes, s: Bytes, w: nat): Lanes
    requires w > 0
  {
    Lanes(Lane(alg, v.v1, s, w, 0), Lane(alg, v.v2, s, w, 1), Lane(alg, v.v3, s, w, 2), Lane(alg, v.v4, s, w, 3))
  }

  /** Folding from the front is taking every lane for itself. */
  lemma {:induction false} FoldIsLanes(alg: Algorithm, v: Lanes, s: Bytes)
    requires alg.WellFormed() && Tail(alg, s) == []
    ensures Fold(alg, v, s) == Lanes4(alg, v, s, alg.width)
    decreases |s|
  {
    var b := BlockLen(alg);
    if |s| >= b {
      var front, block := s[..|s| - b], s[|s| - b..];
      assert front + block == s;
      TailLength(alg, s);
      TailLength(alg, front);
      OneBlockLess(|s|, b);
      FoldIsLanes(alg, v, front);
      FoldResumes(alg, v, front, block);
      assert [] + block == block;
      FoldsOnce(alg, Fold(alg, v, front), block);
      LanesStep(alg, v, s);
    }
  }

  lemma OneBlockLess(len: nat, b: nat)
    requires b > 0 && len >= b && len % b == 0
    ensures (len - b) % b == 0
  {
    QuotientBounds(len, b);
    Distribute(b, len / b, 1);
    DivisionUnique(len - b, b, len / b - 1, 0);
  }

  lemma FoldsOnce(alg: Algorithm, v: Lanes, block: Bytes)
    requires alg.WellFormed() && |block| == BlockLen(alg)
    ensures Fold(alg, v, block) == Rounds(alg, v, block)
  {
    assert block[..BlockLen(alg)] == block && block[BlockLen(alg)..] == [];
    assert Fold(alg, Rounds(alg, v, block), []) == Rounds(alg, v, block);
  }

  lemma LanesStep(alg: Algorithm, v: Lanes, s: Bytes)
    requires alg.WellFormed() && |s| >= BlockLen(alg)
    ensures var at := |s| - BlockLen(alg);
      Lanes4(alg, v, s, alg.width) == Rounds(alg, Lanes4(alg, v, s[..at], alg.width), s[at..])
  {
    var block := s[|s| - BlockLen(alg)..];
    assert block[3 * alg.width..] == block[3 * alg.width..3 * alg.width + alg.width];
    assert block[..alg.width] == block[0 * alg.width..0 * alg.width + alg.width];
  }

  lemma WholeBlocks(len: nat, b: nat)
    requires b > 0
    ensures 0 <= len % b < b && len % b <= len && (len - len % b) % b == 0
  {
    QuotientBounds(len, b);
    QuotientNonNegative(len, b);
    ProductSign(len / b, b);
    DivisionUnique(len - len % b, b, len / b, 0);
  }

  /** The whole blocks and the rest. */
  lemma Divides(alg: Algorithm, v: Lanes, s: Bytes, at: int)
    requires alg.WellFormed() && at == |s| - |s| % BlockLen(alg)
    ensures 0 <= at <= |s| && Fold(alg, v, s) == Lanes4(alg, v, s[..at], alg.width) && Tail(alg, s) == s[at..]
  {
    hide Lanes4;
    WholeBlocks(|s|, BlockLen(alg));
    var front, rest := s[..at], s[at..];
    TailLength(alg, front);
    assert front + rest == s && [] + rest == rest;
    FoldResumes(alg, v, front, rest);
    FoldIsLanes(alg, v, front);
    RestStays(alg, Fold(alg, v, front), rest);
    hide Fold, Tail;
  }

  lemma RestStays(alg: Algorithm, v: Lanes, rest: Bytes)
    requires alg.WellFormed() && |rest| < BlockLen(alg)
    ensures Fold(alg, v, rest) == v && Tail(alg, rest) == rest
  {
  }

  /** XXH32: the lanes start at these values and take 4 bytes of every 16. A shorter input goes to the finalizer at once,
      which gets what no lane has taken, with the length added in. */
  lemma Hash32(alg: Algorithm, seed: int, s: Bytes)
    requires alg.width == 4 && A.IsSeed(seed)
    ensures 0 <= |s| - |s| % 16 <= |s|
    ensures var at := |s| - |s| % 16;
      var v1, v2 := (seed + 0x9E3779B1 + 0x85EBCA77) % 0x1_0000_0000, (seed + 0x85EBCA77) % 0x1_0000_0000;
      var v3, v4 := seed, (seed - 0x9E3779B1) % 0x1_0000_0000;
      var lanes := Lanes(Lane(alg, v1, s[..at], 4, 0), Lane(alg, v2, s[..at], 4, 1), Lane(alg, v3, s[..at], 4, 2),
                         Lane(alg, v4, s[..at], 4, 3));
      var h := if |s| < 16 then seed + 0x165667B1 else alg.converge(lanes);
      A.Hash(alg, seed, s) == alg.finalize((h + |s|) % 0x1_0000_0000, s[at..])
  {
    hide Lane;
    Divides(alg, A.Seeded(seed), s, |s| - |s| % 16);
  }

  /** XXH64: the same with 8 bytes of every 32. */
  lemma Hash64(alg: Algorithm, seed: int, s: Bytes)
    requires alg.width == 8 && B.IsSeed(seed)
    ensures 0 <= |s| - |s| % 32 <= |s|
    ensures var at := |s| - |s| % 32;
      var v1 := (seed + 0x9E3779B185EBCA87 + 0xC2B2AE3D27D4EB4F) % 0x1_0000_0000_0000_0000;
      var v2 := (seed + 0xC2B2AE3D27D4EB4F) % 0x1_0000_0000_0000_0000;
      var v3, v4 := seed, (seed - 0x9E3779B185EBCA87) % 0x1_0000_0000_0000_0000;
      var lanes := Lanes(Lane(alg, v1, s[..at], 8, 0), Lane(alg, v2, s[..at], 8, 1), Lane(alg, v3, s[..at], 8, 2),
                         Lane(alg, v4, s[..at], 8, 3));
      var h := if |s| < 32 then seed + 0x27D4EB2F165667C5 else alg.converge(lanes);
      B.Hash(alg, seed, s) == alg.finalize((h + |s|) % 0x1_0000_0000_0000_0000, s[at..])
  {
    hide Lane;
    Divides(alg, B.Seeded(seed), s, |s| - |s| % 32);
  }
}
