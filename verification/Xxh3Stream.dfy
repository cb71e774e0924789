/** XXH3: the streaming hasher against the one-shot hash, for arbitrary mixing functions. */
module Xxh3Stream {
  import opened FixedWidth
  import opened Products
  import opened Chunks

  type Accumulators = seq<int>

  datatype Option<T> = None | Some(value: T)

  const STRIPE_LEN := 64
  const SECRET_CONSUME_RATE := 8
  const SECRET_SIZE_MIN := 136
  const SECRET_DEFAULT_SIZE := 192
  const SECRET_LASTACC_START := 7
  const SECRET_MERGEACCS_START := 11
  const MIDSIZE_MAX := 240
  const INTERNALBUFFER_SIZE := 256
  const PRIME64_1 := 0x9E3779B185EBCA87
  const PRIME64_2 := 0xC2B2AE3D27D4EB4F

  /** The mixing steps, left open. Each reads a 64-byte stripe and a 64-byte piece of the secret. */
  datatype Mixer = Mixer(
    initial: Accumulators,
    accumulate512: (Accumulators, Bytes, Bytes) -> Accumulators,
    scramble: (Accumulators, Bytes) -> Accumulators,
    merge: (Accumulators, Bytes, int) -> int,
    short64: (Bytes, Bytes, int) -> int,
    short128: (Bytes, Bytes, int) -> (int, int),
    defaultSecret: Bytes,
    customSecret: int -> Bytes)
  {
    ghost predicate WellFormed() {
      |defaultSecret| == SECRET_DEFAULT_SIZE && forall seed :: |customSecret(seed)| == SECRET_DEFAULT_SIZE
    }
  }

  type Secret = s: Bytes | |s| >= SECRET_SIZE_MIN witness seq(SECRET_SIZE_MIN, _ => 0)

  function SecretAt(secret: Bytes, offset: nat): Bytes
    requires offset + STRIPE_LEN <= |secret|
  {
    secret[offset..offset + STRIPE_LEN]
  }

  /** How far into the secret the stripe at position p of its block reaches. */
  function SecretOffset(p: nat): nat { 8 * p }

  function StripesPerBlock(secret: Secret): (n: nat)
    ensures n >= 9 && SecretOffset(n) + STRIPE_LEN <= |secret|
  {
    (|secret| - STRIPE_LEN) / SECRET_CONSUME_RATE
  }

  /** Where stripe k starts. */
  function Offset(k: nat): nat { 64 * k }

  function Stripe(s: Bytes, k: nat): Bytes
    requires Offset(k + 1) <= |s|
  {
    s[Offset(k)..Offset(k + 1)]
  }

  // The reference: stripe after stripe, scrambling after the last stripe of each block.

  function Position(secret: Secret, k: nat): (p: nat)
    ensures p < StripesPerBlock(secret)
  {
    k % StripesPerBlock(secret)
  }

  /** The accumulators after k stripes. */
  function Absorb(mx: Mixer, secret: Secret, s: Bytes, k: nat): Accumulators
    requires Offset(k) <= |s|
    decreases k, 1
  {
    if k == 0 then
      mx.initial
    else
      var acc := Unscrambled(mx, secret, s, k);
      if Position(secret, k) == 0 then mx.scramble(acc, SecretAt(secret, |secret| - STRIPE_LEN)) else acc
  }

  /** The same before a block's closing scramble. */
  function Unscrambled(mx: Mixer, secret: Secret, s: Bytes, k: nat): Accumulators
    requires 0 < k && Offset(k) <= |s|
    decreases k, 0
  {
    mx.accumulate512(Absorb(mx, secret, s, k - 1), Stripe(s, k - 1),
                     SecretAt(secret, SecretOffset(Position(secret, k - 1))))
  }

  /** The accumulators of a long input: all stripes but the last byte's, then the last 64 bytes over again. */
  function LongAccumulators(mx: Mixer, secret: Secret, s: Bytes): Accumulators
    requires |s| > STRIPE_LEN
  {
    mx.accumulate512(Absorb(mx, secret, s, (|s| - 1) / STRIPE_LEN), s[|s| - STRIPE_LEN..],
                     SecretAt(secret, |secret| - STRIPE_LEN - SECRET_LASTACC_START))
  }

  function Merge64(mx: Mixer, secret: Secret, acc: Accumulators, len: nat): int {
    mx.merge(acc, SecretAt(secret, SECRET_MERGEACCS_START), Wrap64(len * PRIME64_1))
  }

  function Merge128(mx: Mixer, secret: Secret, acc: Accumulators, len: nat): (int, int) {
    (Merge64(mx, secret, acc, len),
     mx.merge(acc, SecretAt(secret, |secret| - STRIPE_LEN - SECRET_MERGEACCS_START),
              TWO_TO_64 - 1 - Wrap64(len * PRIME64_2)))
  }

  /** How a state was reset, and which one-shot function it stands for. */
  datatype Keying = Default | WithSecret(secret: Secret) | WithSeed(seed: int) | WithSecretAndSeed(secret: Secret, seed: int)

  function LongSecret(mx: Mixer, k: Keying): Bytes {
    match k
    case Default => mx.defaultSecret
    case WithSecret(secret) => secret
    case WithSeed(seed) => if seed == 0 then mx.defaultSecret else mx.customSecret(seed)
    case WithSecretAndSeed(secret, _) => secret
  }

  function ShortSecret(mx: Mixer, k: Keying): Bytes {
    if k.WithSecret? then k.secret else mx.defaultSecret
  }

  function ShortSeed(k: Keying): int {
    match k
    case WithSeed(seed) => seed
    case WithSecretAndSeed(_, seed) => seed
    case _ => 0
  }

  function Hash64(mx: Mixer, k: Keying, s: Bytes): int
    requires mx.WellFormed()
  {
    if |s| <= MIDSIZE_MAX then mx.short64(s, ShortSecret(mx, k), ShortSeed(k))
    else var secret := LongSecret(mx, k); Merge64(mx, secret, LongAccumulators(mx, secret, s), |s|)
  }

  function Hash128(mx: Mixer, k: Keying, s: Bytes): (int, int)
    requires mx.WellFormed()
  {
    if |s| <= MIDSIZE_MAX then mx.short128(s, ShortSecret(mx, k), ShortSeed(k))
    else var secret := LongSecret(mx, k); Merge128(mx, secret, LongAccumulators(mx, secret, s), |s|)
  }

  /** Where the 128-bit digest of the stream is not the one-shot hash: it tells by the seed whether there is one, and so
      takes a short input that came with a secret and the seed 0 for one that came with the secret alone. */
  predicate SeedIsForgotten(k: Keying, s: Bytes) { k.WithSecretAndSeed? && k.seed == 0 && |s| <= MIDSIZE_MAX }

  /** The keying that the 128-bit digest acts on. */
  function KeyingSeen(k: Keying, s: Bytes): Keying { if SeedIsForgotten(k, s) then WithSecret(k.secret) else k }

  // Accumulating a run of stripes inside one block.

  function Accumulated(mx: Mixer, acc: Accumulators, input: Bytes, secret: Bytes, offset: nat, n: nat): Accumulators
    requires Offset(n) <= |input| && (n > 0 ==> offset + SecretOffset(n - 1) + STRIPE_LEN <= |secret|)
  {
    if n == 0 then acc
    else mx.accumulate512(Accumulated(mx, acc, input, secret, offset, n - 1), Stripe(input, n - 1),
                          SecretAt(secret, offset + SecretOffset(n - 1)))
  }

  /** XXH3_accumulate: n stripes, moving 8 bytes through the secret for each. */
  method Accumulate(mx: Mixer, acc: Accumulators, input: Bytes, secret: Bytes, offset: nat, n: nat)
    returns (r: Accumulators)
    requires Offset(n) <= |input| && (n > 0 ==> offset + SecretOffset(n - 1) + STRIPE_LEN <= |secret|)
    ensures r == Accumulated(mx, acc, input, secret, offset, n)
  {
    r := acc;
    for i := 0 to n
      invariant r == Accumulated(mx, acc, input, secret, offset, i)
    {
      r := mx.accumulate512(r, input[Offset(i)..Offset(i + 1)],
                            SecretAt(secret, offset + SecretOffset(i)));
    }
  }

  /** The next bytes of `s` after its first c stripes start with n stripes of `input`. */
  ghost predicate Follows(input: Bytes, s: Bytes, c: nat, n: nat)
    requires Offset(n) <= |input| && Offset(c + n) <= |s|
  {
    input[..Offset(n)] == s[Offset(c)..Offset(c + n)]
  }

  lemma SubSlice<T>(s: seq<T>, a: nat, b: nat, x: nat, y: nat)
    requires a <= b <= |s| && x <= y <= b - a
    ensures s[a..b][x..y] == s[a + x..a + y]
  {
    assert s[a..b][x..y] == s[a + x..a + y] by {
      assert |s[a..b][x..y]| == |s[a + x..a + y]|;
      assert forall i :: 0 <= i < y - x ==> s[a..b][x..y][i] == s[a..b][x + i] == s[a + x..a + y][i];
    }
  }

  lemma FollowsStripe(input: Bytes, s: Bytes, c: nat, n: nat, i: nat)
    requires Offset(n) <= |input| && Offset(c + n) <= |s| && Follows(input, s, c, n) && i < n
    ensures Stripe(input, i) == Stripe(s, c + i)
  {
    SubSlice(input, 0, Offset(n), Offset(i), Offset(i + 1));
    SubSlice(s, Offset(c), Offset(c + n), Offset(i), Offset(i + 1));
  }

  lemma PositionSteps(secret: Secret, c: nat, n: nat)
    requires Position(secret, c) + n <= StripesPerBlock(secret)
    ensures Position(secret, c + n) ==
      if Position(secret, c) + n == StripesPerBlock(secret) then 0 else Position(secret, c) + n
  {
    var nb := StripesPerBlock(secret);
    var q, r := c / nb, c % nb;
    assert c + n == q * nb + (r + n);
    if r + n == nb {
      DivisionUnique(c + n, nb, q + 1, 0);
    } else {
      DivisionUnique(c + n, nb, q, r + n);
    }
  }

  /** A run that stays inside a block accumulates exactly the next stripes of the stream. */
  lemma {:induction false} RunIsAbsorbed(mx: Mixer, secret: Secret, s: Bytes, c: nat, input: Bytes, n: nat)
    requires Offset(n) <= |input| && Offset(c + n) <= |s| && Follows(input, s, c, n) && n > 0
    requires Position(secret, c) + n <= StripesPerBlock(secret)
    ensures Accumulated(mx, Absorb(mx, secret, s, c), input, secret, SecretOffset(Position(secret, c)), n)
         == Unscrambled(mx, secret, s, c + n)
  {
    hide Position, StripesPerBlock;
    var start := SecretOffset(Position(secret, c));
    var before := Accumulated(mx, Absorb(mx, secret, s, c), input, secret, start, n - 1);
    PositionSteps(secret, c, n - 1);
    if n > 1 {
      FollowsRest(input, s, c, n, 0, n - 1);
      assert input[Offset(0)..] == input;
      RunIsAbsorbed(mx, secret, s, c, input, n - 1);
    }
    assert before == Absorb(mx, secret, s, c + n - 1);
    FollowsStripe(input, s, c, n, n - 1);
    assert start + SecretOffset(n - 1) == SecretOffset(Position(secret, c + n - 1));
  }

  /** The accumulators after such a run: scrambled exactly when it ends its block. */
  lemma AbsorbedAfterRun(mx: Mixer, secret: Secret, s: Bytes, c: nat, input: Bytes, n: nat)
    requires Offset(n) <= |input| && Offset(c + n) <= |s| && Follows(input, s, c, n) && n > 0
    requires Position(secret, c) + n <= StripesPerBlock(secret)
    ensures var acc := Accumulated(mx, Absorb(mx, secret, s, c), input, secret, SecretOffset(Position(secret, c)), n);
      if Position(secret, c) + n == StripesPerBlock(secret)
      then Position(secret, c + n) == 0 && Absorb(mx, secret, s, c + n) == mx.scramble(acc, SecretAt(secret, |secret| - STRIPE_LEN))
      else Position(secret, c + n) == Position(secret, c) + n && Absorb(mx, secret, s, c + n) == acc
  {
    RunIsAbsorbed(mx, secret, s, c, input, n);
    PositionSteps(secret, c, n);
  }

  /** XXH3_consumeStripes: stripes that may cross any number of block boundaries.
      `s` and `c` say which stripes of the whole stream these are. */
  method ConsumeStripes(mx: Mixer, acc: Accumulators, nbStripesSoFar: nat, nbStripesPerBlock: nat,
                        input: Bytes, nbStripes: nat, secret: Secret, secretLimit: nat, ghost s: Bytes, ghost c: nat)
    returns (r: Accumulators, soFar: nat, end: nat)
    requires nbStripesPerBlock == StripesPerBlock(secret) && secretLimit == |secret| - STRIPE_LEN
    requires Offset(nbStripes) <= |input| && Offset(c + nbStripes) <= |s| && Follows(input, s, c, nbStripes)
    requires acc == Absorb(mx, secret, s, c) && nbStripesSoFar == Position(secret, c)
    ensures r == Absorb(mx, secret, s, c + nbStripes) && soFar == Position(secret, c + nbStripes)
    ensures end == Offset(nbStripes)
  {
    hide Absorb, Accumulated, Position, StripesPerBlock, Follows;
    r, soFar, end := acc, nbStripesSoFar, 0;
    var initialSecret := SecretOffset(nbStripesSoFar);
    var left := nbStripes;
    ghost var done := 0;
    if left >= nbStripesPerBlock - soFar {
      var nbStripesThisIter := nbStripesPerBlock - soFar;
      while true
        invariant done + left == nbStripes && end == Offset(done)
        invariant 0 < nbStripesThisIter <= left && nbStripesThisIter == nbStripesPerBlock - Position(secret, c + done)
        invariant initialSecret == SecretOffset(Position(secret, c + done))
        invariant r == Absorb(mx, secret, s, c + done)
        decreases left
      {
        FollowsRest(input, s, c, nbStripes, done, nbStripesThisIter);
        AbsorbedAfterRun(mx, secret, s, c + done, input[end..], nbStripesThisIter);
        r := Accumulate(mx, r, input[end..], secret, initialSecret, nbStripesThisIter);
        r := mx.scramble(r, SecretAt(secret, secretLimit));
        end := end + Offset(nbStripesThisIter);
        left := left - nbStripesThisIter;
        done := done + nbStripesThisIter;
        nbStripesThisIter := nbStripesPerBlock;
        initialSecret := 0;
        if left < nbStripesPerBlock {
          break;
        }
      }
      soFar := 0;
    }
    assert left < nbStripesPerBlock - soFar && soFar == Position(secret, c + done);
    if left > 0 {
      FollowsRest(input, s, c, nbStripes, done, left);
      AbsorbedAfterRun(mx, secret, s, c + done, input[end..], left);
      r := Accumulate(mx, r, input[end..], secret, initialSecret, left);
      end := end + Offset(left);
      soFar := soFar + left;
    }
  }

  lemma FollowsRest(input: Bytes, s: Bytes, c: nat, n: nat, done: nat, m: nat)
    requires Offset(n) <= |input| && Offset(c + n) <= |s| && Follows(input, s, c, n) && done + m <= n
    ensures Follows(input[Offset(done)..], s, c + done, m)
  {
    var rest := input[Offset(done)..];
    SubSlice(input, 0, Offset(n), Offset(done), Offset(done + m));
    SubSlice(input, Offset(done), |input|, 0, Offset(m));
    assert rest[..Offset(m)] == input[Offset(done)..Offset(done + m)];
    SubSlice(s, Offset(c), Offset(c + n), Offset(done), Offset(done + m));
  }

  /** XXH3_hashLong_internal_loop: whole blocks, then the rest of the last block, then the last 64 bytes. */
  method HashLongLoop(mx: Mixer, input: Bytes, secret: Secret) returns (acc: Accumulators)
    requires |input| > STRIPE_LEN
    ensures acc == LongAccumulators(mx, secret, input)
  {
    hide Absorb, Accumulated, Position, StripesPerBlock, Follows, LongAccumulators;
    var nbStripesPerBlock := (|secret| - STRIPE_LEN) / SECRET_CONSUME_RATE;
    var blockLen := Offset(nbStripesPerBlock);
    var nbBlocks := (|input| - 1) / blockLen;
    NothingAbsorbed(mx, input, secret);
    BlocksFit(|input|, nbStripesPerBlock, nbBlocks);
    acc := HashBlocks(mx, input, secret, nbStripesPerBlock, nbBlocks);
    var c := nbBlocks * nbStripesPerBlock;
    var nbStripes := ((|input| - 1) - blockLen * nbBlocks) / STRIPE_LEN;
    acc := HashLastBlock(mx, input, secret, acc, c, nbStripes);
  }

  /** What follows its loop: the stripes of the last block, and then the last 64 bytes. */
  method HashLastBlock(mx: Mixer, input: Bytes, secret: Secret, before: Accumulators, c: nat, n: nat)
    returns (acc: Accumulators)
    requires |input| > STRIPE_LEN && c + n == (|input| - 1) / STRIPE_LEN && Offset(c + n) <= |input|
    requires Position(secret, c) == 0 && n < StripesPerBlock(secret) && before == Absorb(mx, secret, input, c)
    ensures acc == LongAccumulators(mx, secret, input)
  {
    hide Absorb, Accumulated, Position, StripesPerBlock, LongAccumulators;
    LastBlock(mx, secret, input, c, n);
    SecretReaches(secret, n);
    acc := Accumulate(mx, before, input[Offset(c)..], secret, 0, n);
    acc := mx.accumulate512(acc, input[|input| - STRIPE_LEN..], SecretAt(secret, |secret| - STRIPE_LEN - SECRET_LASTACC_START));
  }

  lemma SecretReaches(secret: Secret, n: nat)
    requires n < StripesPerBlock(secret)
    ensures n > 0 ==> SecretOffset(n - 1) + STRIPE_LEN <= |secret|
  {
  }

  /** Its loop over whole blocks. */
  method HashBlocks(mx: Mixer, input: Bytes, secret: Secret, nbStripesPerBlock: nat, nbBlocks: nat)
    returns (acc: Accumulators)
    requires nbStripesPerBlock == StripesPerBlock(secret) && Offset(nbBlocks * nbStripesPerBlock) <= |input| - 1
    ensures acc == Absorb(mx, secret, input, nbBlocks * nbStripesPerBlock)
    ensures Position(secret, nbBlocks * nbStripesPerBlock) == 0
  {
    hide Absorb, Position, StripesPerBlock;
    NothingAbsorbed(mx, input, secret);
    acc := mx.initial;
    var c := 0;
    for n := 0 to nbBlocks
      invariant c == n * nbStripesPerBlock
      invariant Offset(c) <= |input| && acc == Absorb(mx, secret, input, c) && Position(secret, c) == 0
    {
      BlockStart(|input|, nbStripesPerBlock, nbBlocks, n);
      acc := HashBlock(mx, acc, input, secret, c, nbStripesPerBlock);
      c := c + nbStripesPerBlock;
    }
  }

  /** One round of that loop: all stripes of a block, and the scramble at its end. */
  method HashBlock(mx: Mixer, before: Accumulators, input: Bytes, secret: Secret, c: nat, nbStripesPerBlock: nat)
    returns (acc: Accumulators)
    requires nbStripesPerBlock == StripesPerBlock(secret) && Offset(c + nbStripesPerBlock) <= |input|
    requires before == Absorb(mx, secret, input, c) && Position(secret, c) == 0
    ensures acc == Absorb(mx, secret, input, c + nbStripesPerBlock) && Position(secret, c + nbStripesPerBlock) == 0
  {
    NothingAbsorbed(mx, input, secret);
    hide Absorb, Accumulated, Position, StripesPerBlock, Follows;
    SuffixFollows(input, c, nbStripesPerBlock);
    AbsorbedAfterRun(mx, secret, input, c, input[Offset(c)..], nbStripesPerBlock);
    acc := Accumulate(mx, before, input[Offset(c)..], secret, 0, nbStripesPerBlock);
    acc := mx.scramble(acc, SecretAt(secret, |secret| - STRIPE_LEN));
  }

  lemma NothingAbsorbed(mx: Mixer, input: Bytes, secret: Secret)
    ensures Position(secret, 0) == 0 && Absorb(mx, secret, input, 0) == mx.initial
    ensures StripesPerBlock(secret) == (|secret| - STRIPE_LEN) / SECRET_CONSUME_RATE >= 1
  {
  }

  lemma SuffixFollows(s: Bytes, c: nat, n: nat)
    requires Offset(c + n) <= |s|
    ensures Follows(s[Offset(c)..], s, c, n)
  {
    SubSlice(s, Offset(c), |s|, 0, Offset(n));
    assert s[Offset(c)..|s|] == s[Offset(c)..];
  }

  lemma LastBlock(mx: Mixer, secret: Secret, s: Bytes, c: nat, n: nat)
    requires |s| > STRIPE_LEN && c + n == (|s| - 1) / STRIPE_LEN && Offset(c + n) <= |s|
    requires Position(secret, c) == 0 && n < StripesPerBlock(secret)
    ensures mx.accumulate512(Accumulated(mx, Absorb(mx, secret, s, c), s[Offset(c)..], secret, 0, n), s[|s| - STRIPE_LEN..],
                             SecretAt(secret, |secret| - STRIPE_LEN - SECRET_LASTACC_START))
         == LongAccumulators(mx, secret, s)
  {
    if n > 0 {
      SuffixFollows(s, c, n);
      AbsorbedAfterRun(mx, secret, s, c, s[Offset(c)..], n);
    }
  }

  /** The whole blocks and the stripes after them are all the stripes that start before the last byte. */
  lemma BlocksFit(len: nat, nb: nat, blocks: nat)
    requires len > STRIPE_LEN && nb >= 1 && blocks == (len - 1) / Offset(nb)
    ensures Offset(blocks * nb) <= len - 1 && Offset(nb) * blocks == Offset(blocks * nb)
    ensures var rest := (len - 1 - Offset(nb) * blocks) / STRIPE_LEN;
      && rest < nb && blocks * nb + rest == (len - 1) / STRIPE_LEN && Offset(blocks * nb + rest) <= len - 1
  {
    QuotientBounds(len - 1, Offset(nb));
    Associate(64, nb, blocks);
    Associate(64, blocks, nb);
    var left := len - 1 - Offset(blocks * nb);
    QuotientBounds(left, STRIPE_LEN);
    var rest := left / STRIPE_LEN;
    DivisionUnique(len - 1, STRIPE_LEN, blocks * nb + rest, left % STRIPE_LEN);
  }

  lemma BlockStart(len: nat, nb: nat, blocks: nat, n: nat)
    requires n < blocks && Offset(blocks * nb) <= len - 1
    ensures Offset(n * nb + nb) <= len - 1 && (n + 1) * nb == n * nb + nb
  {
    MultiplesOrdered(n, blocks, nb);
    Distribute(nb, n, 1);
  }

  /** XXH3_64bits and its keyed variants. */
  method OneShot64(mx: Mixer, k: Keying, input: Bytes) returns (h: int)
    requires mx.WellFormed() && |input| < TWO_TO_64
    ensures h == Hash64(mx, k, input)
  {
    if |input| <= MIDSIZE_MAX {
      h := mx.short64(input, ShortSecret(mx, k), ShortSeed(k));
    } else {
      var secret: Secret := LongSecret(mx, k);
      var acc := HashLongLoop(mx, input, secret);
      h := Merge64(mx, secret, acc, |input|);
    }
  }

  /** XXH3_128bits and its keyed variants. */
  method OneShot128(mx: Mixer, k: Keying, input: Bytes) returns (h: (int, int))
    requires mx.WellFormed() && |input| < TWO_TO_64
    ensures h == Hash128(mx, k, input)
  {
    if |input| <= MIDSIZE_MAX {
      h := mx.short128(input, ShortSecret(mx, k), ShortSeed(k));
    } else {
      var secret: Secret := LongSecret(mx, k);
      var acc := HashLongLoop(mx, input, secret);
      h := Merge128(mx, secret, acc, |input|);
    }
  }

  /** Only the stripes themselves matter, not what comes after them. */
  lemma {:induction false} AbsorbPrefix(mx: Mixer, secret: Secret, s: Bytes, t: Bytes, k: nat)
    requires Offset(k) <= |s|
    ensures Absorb(mx, secret, s + t, k) == Absorb(mx, secret, s, k)
  {
    if k > 0 {
      AbsorbPrefix(mx, secret, s, t, k - 1);
      assert Stripe(s + t, k - 1) == Stripe(s, k - 1);
    }
  }

  /** XXH3_state_t. */
  class State {
    const mixer: Mixer
    var acc: Accumulators
    var customSecret: Bytes
    const buffer: array<Byte>
    var bufferedSize: nat
    var useSeed: bool
    var nbStripesSoFar: nat
    var totalLen: int
    var nbStripesPerBlock: nat
    var secretLimit: nat
    var seed: int
    var extSecret: Option<Bytes>

    ghost var keying: Keying
    ghost var stream: Bytes  // everything absorbed since the last reset

    function CurrentSecret(): Bytes
      reads this
    {
      if extSecret == None then customSecret else extSecret.value
    }

    /** What every reset relies on: a custom secret is kept only as long as it belongs to the seed. */
    ghost predicate Reusable()
      reads this
    {
      && mixer.WellFormed() && buffer.Length == INTERNALBUFFER_SIZE
      && (extSecret == None && seed != 0 ==> customSecret == mixer.customSecret(seed))
    }

    ghost predicate Keyed()
      reads this
    {
      && CurrentSecret() == LongSecret(mixer, keying)
      && seed == ShortSeed(keying)
      && secretLimit == |CurrentSecret()| - STRIPE_LEN && nbStripesPerBlock == secretLimit / SECRET_CONSUME_RATE
    }

    /** The number of stripes already mixed into the accumulators. */
    ghost function Consumed(): int
      reads this
    {
      (|stream| - bufferedSize) / STRIPE_LEN
    }

    ghost predicate ValidButFlag()
      reads this, buffer
    {
      && Reusable() && Keyed()
      && totalLen == Wrap64(|stream|)
      && bufferedSize <= INTERNALBUFFER_SIZE && (stream == [] || bufferedSize > 0)
      && (Consumed() > 0 ==> |stream| > INTERNALBUFFER_SIZE)
      && Tracks(mixer, CurrentSecret(), acc, nbStripesSoFar, buffer[..], bufferedSize, stream, Consumed())
    }

    ghost predicate Valid()
      reads this, buffer
    {
      ValidButFlag() && useSeed == (keying.WithSecretAndSeed? || seed != 0)
    }

    /** XXH3_createState, with XXH3_INITSTATE. */
    constructor (mx: Mixer)
      requires mx.WellFormed()
      ensures mixer == mx && Reusable() && fresh(buffer)
    {
      mixer := mx;
      buffer := new Byte[INTERNALBUFFER_SIZE];
      seed := 0;
      extSecret := None;
      customSecret := [];
      acc := [];
      keying, stream := Default, [];
      bufferedSize, useSeed, nbStripesSoFar, totalLen, nbStripesPerBlock, secretLimit := 0, false, 0, 0, 0, 0;
    }

    /** XXH3_reset_internal */
    method ResetInternal(newSeed: int, secret: Option<Bytes>, secretSize: nat, ghost k: Keying)
      requires mixer.WellFormed() && buffer.Length == INTERNALBUFFER_SIZE && secretSize >= SECRET_SIZE_MIN
      requires secret == None && newSeed != 0 ==> customSecret == mixer.customSecret(newSeed)
      requires (if secret == None then customSecret else secret.value) == LongSecret(mixer, k)
      requires secretSize == |LongSecret(mixer, k)| && newSeed == ShortSeed(k)
      modifies this
      ensures ValidButFlag() && useSeed == (newSeed != 0) && seed == newSeed && extSecret == secret
      ensures stream == [] && keying == k && customSecret == old(customSecret)
    {
      hide Tracks, LongSecret, ShortSeed, Mixer.WellFormed;
      NothingTracked(mixer, LongSecret(mixer, k), buffer[..]);
      AssignFields(newSeed, secret, secretSize);
      keying, stream := k, [];
    }

    method AssignFields(newSeed: int, secret: Option<Bytes>, secretSize: nat)
      requires secretSize >= SECRET_SIZE_MIN
      modifies this`acc, this`bufferedSize, this`useSeed, this`nbStripesSoFar, this`totalLen, this`nbStripesPerBlock,
        this`secretLimit, this`seed, this`extSecret
      ensures bufferedSize == nbStripesSoFar == totalLen == 0 && acc == mixer.initial && seed == newSeed
      ensures extSecret == secret
      ensures useSeed == (newSeed != 0) && secretLimit == secretSize - STRIPE_LEN
      ensures nbStripesPerBlock == secretLimit / SECRET_CONSUME_RATE
    {
      bufferedSize, useSeed, nbStripesSoFar, totalLen := 0, false, 0, 0;
      acc := mixer.initial;
      seed := newSeed;
      useSeed := newSeed != 0;
      extSecret := secret;
      secretLimit := secretSize - STRIPE_LEN;
      nbStripesPerBlock := secretLimit / SECRET_CONSUME_RATE;
    }

    /** XXH3_64bits_reset, XXH3_128bits_reset */
    method Reset()
      requires Reusable()
      modifies this
      ensures Valid() && stream == [] && keying == Default
    {
      ResetInternal(0, Some(mixer.defaultSecret), SECRET_DEFAULT_SIZE, Default);
    }

    method ResetWithSecret(secret: Secret)
      requires Reusable()
      modifies this
      ensures Valid() && stream == [] && keying == WithSecret(secret)
    {
      ResetInternal(0, Some(secret), |secret|, WithSecret(secret));
    }

    /** The custom secret is computed anew only when the state does not already hold the one for this seed. */
    method ResetWithSeed(newSeed: int)
      requires Reusable()
      modifies this
      ensures Valid() && stream == [] && (if newSeed == 0 then keying == Default else keying == WithSeed(newSeed))
    {
      if newSeed == 0 {
        Reset();
        return;
      }
      if newSeed != seed || extSecret != None {
        customSecret := mixer.customSecret(newSeed);
      }
      ResetInternal(newSeed, None, SECRET_DEFAULT_SIZE, WithSeed(newSeed));
    }

    method ResetWithSecretAndSeed(secret: Secret, newSeed: int)
      requires Reusable()
      modifies this
      ensures Valid() && stream == [] && keying == WithSecretAndSeed(secret, newSeed)
    {
      hide Tracks, Mixer.WellFormed;
      ResetInternal(newSeed, Some(secret), |secret|, WithSecretAndSeed(secret, newSeed));
      useSeed := true;
    }

    /** memcpy into the internal buffer. */
    method Store(at: nat, data: Bytes)
      requires at + |data| <= buffer.Length
      modifies buffer
      ensures buffer[..] == Stored(old(buffer[..]), at, data)
    {
      forall i | 0 <= i < |data| {
        buffer[at + i] := data[i];
      }
    }

    /** The state is keyed and holds the first c stripes of s; the rest of s is buffered. */
    ghost predicate Holds(s: Bytes, c: int)
      reads this, buffer
    {
      && |CurrentSecret()| >= SECRET_SIZE_MIN
      && secretLimit == |CurrentSecret()| - STRIPE_LEN && nbStripesPerBlock == secretLimit / SECRET_CONSUME_RATE
      && Tracks(mixer, CurrentSecret(), acc, nbStripesSoFar, buffer[..], bufferedSize, s, c)
    }

    /** Lines 6328-6338: complete a partially filled buffer and consume it. */
    method CompleteBuffer(input: Bytes, ghost s: Bytes, ghost c: int) returns (pos: nat, ghost c': int)
      requires Holds(s, c) && bufferedSize + |input| > INTERNALBUFFER_SIZE
      modifies this`acc, this`nbStripesSoFar, this`bufferedSize, buffer
      ensures pos < |input| && bufferedSize == 0 && Holds(s + input[..pos], c')
    {
      TracksLengths(mixer, CurrentSecret(), acc, nbStripesSoFar, buffer[..], bufferedSize, s, c);
      assert nbStripesPerBlock == StripesPerBlock(CurrentSecret());
      hide Absorb, Position, StripesPerBlock, Follows, Tracks;
      pos, c' := 0, c;
      if bufferedSize != 0 {
        var loadSize := INTERNALBUFFER_SIZE - bufferedSize;
        ghost var s' := s + input[..loadSize];
        TracksAppend(mixer, CurrentSecret(), acc, nbStripesSoFar, buffer[..], bufferedSize, s, c, input[..loadSize]);
        Store(bufferedSize, input[..loadSize]);
        pos := loadSize;
        TracksFlush(mixer, CurrentSecret(), acc, nbStripesSoFar, buffer[..], s', c);
        var end;
        acc, nbStripesSoFar, end := ConsumeStripes(mixer, acc, nbStripesSoFar, nbStripesPerBlock, buffer[..],
                                                   INTERNALBUFFER_SIZE / STRIPE_LEN, CurrentSecret(), secretLimit, s', c);
        bufferedSize := 0;
        c' := c + INTERNALBUFFER_SIZE / STRIPE_LEN;
      } else {
        assert s + input[..0] == s;
      }
    }

    /** Lines 6342-6347, where the last stripe is also kept in the buffer. */
    method ConsumeDirectly(input: Bytes, nbStripes: nat, ghost s: Bytes, ghost c: int) returns (pos: nat, ghost c': int)
      requires Holds(s, c) && bufferedSize == 0 && 0 < nbStripes && Offset(nbStripes) <= |input|
      modifies this`acc, this`nbStripesSoFar, buffer
      ensures pos == Offset(nbStripes) && Holds(s + input[..pos], c')
    {
      hide Absorb, Position, Follows, Tracks;
      TracksLengths(mixer, CurrentSecret(), acc, nbStripesSoFar, buffer[..], bufferedSize, s, c);
      ghost var t := input[..Offset(nbStripes)];
      TracksDirect(mixer, CurrentSecret(), acc, nbStripesSoFar, buffer[..], s, c, input, t, nbStripes);
      acc, nbStripesSoFar, pos := ConsumeStripes(mixer, acc, nbStripesSoFar, nbStripesPerBlock, input,
                                                 nbStripes, CurrentSecret(), secretLimit, s + t, c);
      assert input[pos - STRIPE_LEN..pos] == t[|t| - STRIPE_LEN..];
      Store(INTERNALBUFFER_SIZE - STRIPE_LEN, input[pos - STRIPE_LEN..pos]);
      c' := c + nbStripes;
    }

    /** Lines 6340-6349: consume all whole stripes but the last bytes straight from the input. */
    method ConsumeInput(input: Bytes, ghost s: Bytes, ghost c: int) returns (pos: nat, ghost c': int)
      requires Holds(s, c) && bufferedSize == 0 && input != []
      modifies this`acc, this`nbStripesSoFar, buffer
      ensures pos < |input| <= pos + INTERNALBUFFER_SIZE && Holds(s + input[..pos], c')
    {
      hide Tracks, Holds, Absorb;
      pos, c' := 0, c;
      if |input| > INTERNALBUFFER_SIZE {
        pos, c' := ConsumeDirectly(input, (|input| - 1) / STRIPE_LEN, s, c);
      } else {
        assert s + input[..0] == s;
      }
    }

    /** Lines 6313-6318 and 6354-6355: bytes that fit are only buffered. */
    method BufferRest(input: Bytes, ghost s: Bytes, ghost c: int)
      requires Holds(s, c) && bufferedSize + |input| <= INTERNALBUFFER_SIZE
      modifies this`bufferedSize, buffer
      ensures Holds(s + input, c) && bufferedSize == old(bufferedSize) + |input|
    {
      TracksAppend(mixer, CurrentSecret(), acc, nbStripesSoFar, buffer[..], bufferedSize, s, c, input);
      Store(bufferedSize, input);
      bufferedSize := bufferedSize + |input|;
    }

    /** The branches of XXH3_update: whichever way the input is cut, all of it ends up held. */
    method Take(input: Bytes, ghost s: Bytes, ghost c: int) returns (ghost c': int)
      requires Holds(s, c)
      modifies this`acc, this`nbStripesSoFar, this`bufferedSize, buffer
      ensures c' == c || |s + input| > INTERNALBUFFER_SIZE
      ensures Holds(s + input, c') && (bufferedSize > 0 || (input == [] && bufferedSize == old(bufferedSize)))
    {
      assert bufferedSize <= INTERNALBUFFER_SIZE && bufferedSize <= |s|;
      hide Tracks, Holds;
      if |input| <= INTERNALBUFFER_SIZE - bufferedSize {
        BufferRest(input, s, c);
        c' := c;
      } else {
        var pos, c1 := CompleteBuffer(input, s, c);
        var pos', c2 := ConsumeInput(input[pos..], s + input[..pos], c1);
        ThreePieces(s, input, pos, pos');
        BufferRest(input[pos + pos'..], s + input[..pos + pos'], c2);
        c' := c2;
      }
    }

    /** XXH3_64bits_update, XXH3_128bits_update */
    method Update(input: Bytes)
      requires Valid()
      modifies this, buffer
      ensures Valid() && stream == old(stream) + input && keying == old(keying)
    {
      hide Wrap64, LongSecret, Tracks;
      ghost var s, c := stream, Consumed();
      ValidHolds();
      totalLen := Wrap64(totalLen + |input|);
      Wrap64Adds(|s|, |input|);
      stream := stream + input;
      c := Take(input, s, c);
      HoldsConsumed(stream, c);
    }

    /** XXH3_digest_long, which leaves the state as it is. */
    method DigestLong() returns (r: Accumulators)
      requires Valid() && |stream| > MIDSIZE_MAX
      ensures |CurrentSecret()| >= SECRET_SIZE_MIN && r == LongAccumulators(mixer, CurrentSecret(), stream)
    {
      LongIsConsumed();
      r := FinishLong(mixer, CurrentSecret(), acc, nbStripesSoFar, nbStripesPerBlock, secretLimit,
                      buffer[..], bufferedSize, stream, Consumed());
    }

    lemma LongIsConsumed()
      requires Valid() && |stream| > MIDSIZE_MAX
      ensures |CurrentSecret()| >= SECRET_SIZE_MIN && nbStripesPerBlock == StripesPerBlock(CurrentSecret())
      ensures bufferedSize > 0 && Offset(Consumed()) + bufferedSize == |stream|
    {
    }

    lemma ShortInputBuffered()
      requires Valid() && |stream| <= MIDSIZE_MAX
      ensures buffer[..|stream|] == stream && totalLen == |stream|
    {
    }

    lemma LongInput()
      requires Valid() && |stream| < TWO_TO_64
      ensures totalLen == |stream|
    {
    }

    /** XXH3_64bits_digest */
    method Digest64() returns (h: int)
      requires Valid() && |stream| < TWO_TO_64
      ensures h == Hash64(mixer, keying, stream)
    {
      LongInput();
      if totalLen > MIDSIZE_MAX {
        var a := DigestLong();
        return Merge64(mixer, CurrentSecret(), a, totalLen);
      }
      ShortInputBuffered();
      if useSeed {
        return mixer.short64(buffer[..totalLen], mixer.defaultSecret, seed);
      }
      return mixer.short64(buffer[..totalLen], CurrentSecret(), 0);
    }

    /** XXH3_128bits_digest, which looks at the seed rather than at useSeed. */
    method Digest128() returns (h: (int, int))
      requires Valid() && |stream| < TWO_TO_64
      ensures h == Hash128(mixer, KeyingSeen(keying, stream), stream)
    {
      LongInput();
      if totalLen > MIDSIZE_MAX {
        var a := DigestLong();
        return Merge128(mixer, CurrentSecret(), a, totalLen);
      }
      ShortInputBuffered();
      if seed != 0 {
        return mixer.short128(buffer[..totalLen], mixer.defaultSecret, seed);
      }
      return mixer.short128(buffer[..totalLen], CurrentSecret(), 0);
    }

    lemma ValidHolds()
      requires Valid()
      ensures Holds(stream, Consumed())
    {
    }

    lemma HoldsConsumed(s: Bytes, c: int)
      requires Holds(s, c)
      ensures bufferedSize <= INTERNALBUFFER_SIZE && (|s| - bufferedSize) / STRIPE_LEN == c
    {
    }
  }

  lemma ThreePieces(s: Bytes, t: Bytes, i: nat, j: nat)
    requires i + j <= |t|
    ensures (s + t[..i]) + t[i..][..j] == s + t[..i + j]
    ensures (s + t[..i + j]) + t[i + j..] == s + t
  {
    assert t[..i] + t[i..][..j] == t[..i + j];
    assert t[..i + j] + t[i + j..] == t;
    assert (s + t[..i]) + t[i..][..j] == s + (t[..i] + t[i..][..j]);
    assert (s + t[..i + j]) + t[i + j..] == s + (t[..i + j] + t[i + j..]);
  }

  /** The buffer after a memcpy to offset `at`. */
  function Stored(buffer: Bytes, at: nat, data: Bytes): (b: Bytes)
    requires at + |data| <= |buffer|
    ensures |b| == |buffer|
  {
    buffer[..at] + data + buffer[at + |data|..]
  }

  lemma TracksLengths(mx: Mixer, secret: Bytes, acc: Accumulators, soFar: nat, buffer: Bytes, n: nat, s: Bytes, c: int)
    requires Tracks(mx, secret, acc, soFar, buffer, n, s, c)
    ensures |secret| >= SECRET_SIZE_MIN && c >= 0 && Offset(c) + n == |s| && |buffer| == INTERNALBUFFER_SIZE
    ensures n <= |buffer|
  {
  }

  /** More bytes fit behind the buffered ones. */
  lemma TracksAppend(mx: Mixer, secret: Secret, acc: Accumulators, soFar: nat, buffer: Bytes, n: nat, s: Bytes,
                     c: nat, t: Bytes)
    requires Tracks(mx, secret, acc, soFar, buffer, n, s, c) && n + |t| <= INTERNALBUFFER_SIZE
    ensures Tracks(mx, secret, acc, soFar, Stored(buffer, n, t), n + |t|, s + t, c)
    ensures |s + t| >= n + |t| && (|s + t| - (n + |t|)) / STRIPE_LEN == c
  {
    AbsorbPrefix(mx, secret, s, t, c);
    var b := Stored(buffer, n, t);
    assert b[..n + |t|] == buffer[..n] + t;
    assert (s + t)[Offset(c)..] == s[Offset(c)..] + t;
  }

  /** Consuming the full buffer empties it but leaves its bytes, whose last 64 are the last stripe consumed. */
  lemma TracksFlush(mx: Mixer, secret: Secret, acc: Accumulators, soFar: nat, buffer: Bytes, s: Bytes, c: nat)
    requires Tracks(mx, secret, acc, soFar, buffer, INTERNALBUFFER_SIZE, s, c)
    ensures Offset(4) <= |buffer| && Offset(c + 4) <= |s| && Follows(buffer, s, c, 4)
    ensures acc == Absorb(mx, secret, s, c) && soFar == Position(secret, c)
    ensures Tracks(mx, secret, Absorb(mx, secret, s, c + 4), Position(secret, c + 4), buffer, 0, s, c + 4)
  {
    assert buffer[..INTERNALBUFFER_SIZE] == buffer;
    assert s[Offset(c)..Offset(c + 4)] == s[Offset(c)..];
    forall j {:trigger buffer[j]} | INTERNALBUFFER_SIZE - STRIPE_LEN <= j < INTERNALBUFFER_SIZE
      ensures buffer[j] == s[Offset(c + 4) - INTERNALBUFFER_SIZE + j]
    {
      assert buffer[j] == s[Offset(c)..][j];
    }
  }

  lemma NothingTracked(mx: Mixer, secret: Secret, buffer: Bytes)
    requires |buffer| == INTERNALBUFFER_SIZE
    ensures Tracks(mx, secret, mx.initial, 0, buffer, 0, [], 0)
  {
  }

  /** Consuming k stripes straight from the input and saving the last of them at the end of the buffer. */
  lemma TracksDirect(mx: Mixer, secret: Secret, acc: Accumulators, soFar: nat, buffer: Bytes, s: Bytes, c: nat,
                     input: Bytes, t: Bytes, k: nat)
    requires Tracks(mx, secret, acc, soFar, buffer, 0, s, c) && k > 0
    requires Offset(k) <= |input| && t == input[..Offset(k)]
    ensures Offset(c + k) <= |s + t| && Follows(input, s + t, c, k)
    ensures acc == Absorb(mx, secret, s + t, c) && soFar == Position(secret, c)
    ensures Tracks(mx, secret, Absorb(mx, secret, s + t, c + k), Position(secret, c + k),
                   Stored(buffer, INTERNALBUFFER_SIZE - STRIPE_LEN, t[|t| - STRIPE_LEN..]), 0, s + t, c + k)
  {
    AbsorbPrefix(mx, secret, s, t, c);
    assert (s + t)[Offset(c)..Offset(c + k)] == t;
  }

  lemma SameSlice(b: Bytes, n: nat, s: Bytes, o: nat, x: nat, y: nat)
    requires n <= |b| && o + n == |s| && b[..n] == s[o..] && x <= y <= n
    ensures b[x..y] == s[o + x..o + y]
  {
    SubSlice(b, 0, n, x, y);
    SubSlice(s, o, |s|, x, y);
    assert s[o..|s|] == s[o..];
  }

  /** The buffer still holds the last stripe as a whole. */
  lemma TracksLongBuffer(mx: Mixer, secret: Secret, acc: Accumulators, soFar: nat, buffer: Bytes, n: nat, s: Bytes,
                         c: int)
    requires Tracks(mx, secret, acc, soFar, buffer, n, s, c) && n >= STRIPE_LEN
    ensures var k := (n - 1) / STRIPE_LEN;
      && Offset(k) <= |buffer| && Offset(c + k) <= |s| && Follows(buffer, s, c, k) && c + k == (|s| - 1) / STRIPE_LEN
    ensures buffer[n - STRIPE_LEN..n] == s[|s| - STRIPE_LEN..]
    ensures acc == Absorb(mx, secret, s, c) && soFar == Position(secret, c)
  {
    hide Absorb, Position;
    var k := (n - 1) / STRIPE_LEN;
    assert 64 * k <= n - 1 < 64 * k + 64;
    DivisionUnique(|s| - 1, STRIPE_LEN, c + k, n - 1 - 64 * k);
    SameSlice(buffer, n, s, Offset(c), 0, Offset(k));
    SameSlice(buffer, n, s, Offset(c), n - STRIPE_LEN, n);
  }

  /** The body of XXH3_digest_long on a copy of the state. */
  method FinishLong(mx: Mixer, secret: Secret, acc: Accumulators, soFar: nat, nbStripesPerBlock: nat, secretLimit: nat,
                    buffer: Bytes, n: nat, ghost s: Bytes, ghost c: int) returns (r: Accumulators)
    requires nbStripesPerBlock == StripesPerBlock(secret) && secretLimit == |secret| - STRIPE_LEN
    requires Tracks(mx, secret, acc, soFar, buffer, n, s, c) && n > 0 && |s| > STRIPE_LEN
    ensures r == LongAccumulators(mx, secret, s)
  {
    assert |buffer| == INTERNALBUFFER_SIZE && n <= INTERNALBUFFER_SIZE && c >= 0;
    hide Tracks, LongAccumulators, Absorb, Position, StripesPerBlock, Follows;
    var lastStripe: Bytes;
    r := acc;
    if n >= STRIPE_LEN {
      var nbStripes := (n - 1) / STRIPE_LEN;
      TracksLongBuffer(mx, secret, acc, soFar, buffer, n, s, c);
      var soFar', end;
      r, soFar', end := ConsumeStripes(mx, r, soFar, nbStripesPerBlock, buffer, nbStripes, secret, secretLimit, s, c);
      lastStripe := buffer[n - STRIPE_LEN..n];
    } else {
      var catchupSize := STRIPE_LEN - n;
      TracksShortBuffer(mx, secret, acc, soFar, buffer, n, s, c);
      lastStripe := buffer[INTERNALBUFFER_SIZE - catchupSize..INTERNALBUFFER_SIZE] + buffer[..n];
    }
    LastStripe(mx, secret, s);
    r := mx.accumulate512(r, lastStripe, SecretAt(secret, secretLimit - SECRET_LASTACC_START));
  }

  lemma LastStripe(mx: Mixer, secret: Secret, s: Bytes)
    requires |s| > STRIPE_LEN
    ensures Offset((|s| - 1) / STRIPE_LEN) <= |s|
    ensures mx.accumulate512(Absorb(mx, secret, s, (|s| - 1) / STRIPE_LEN), s[|s| - STRIPE_LEN..],
                             SecretAt(secret, |secret| - STRIPE_LEN - SECRET_LASTACC_START)) == LongAccumulators(mx, secret, s)
  {
  }

  /** The last stripe began in bytes already consumed, which the end of the buffer still holds. */
  lemma TracksShortBuffer(mx: Mixer, secret: Secret, acc: Accumulators, soFar: nat, buffer: Bytes, n: nat, s: Bytes,
                          c: int)
    requires Tracks(mx, secret, acc, soFar, buffer, n, s, c) && 0 < n < STRIPE_LEN < |s|
    ensures buffer[INTERNALBUFFER_SIZE - (STRIPE_LEN - n)..INTERNALBUFFER_SIZE] + buffer[..n] == s[|s| - STRIPE_LEN..]
    ensures acc == Absorb(mx, secret, s, c) && c == (|s| - 1) / STRIPE_LEN
  {
    var first := INTERNALBUFFER_SIZE - (STRIPE_LEN - n);
    var t := s[|s| - STRIPE_LEN..];
    assert buffer[first..INTERNALBUFFER_SIZE] == t[..STRIPE_LEN - n];
    assert buffer[..n] == t[STRIPE_LEN - n..];
  }

  /** The accumulators hold the first c stripes of the stream; the buffer starts with the bytes after them; and where
      it is not overwritten, its last 64 bytes are still the last consumed stripe. */
  ghost predicate Tracks(mx: Mixer, secret: Bytes, acc: Accumulators, soFar: nat, buffer: Bytes, buffered: nat,
                         s: Bytes, c: int)
  {
    && |secret| >= SECRET_SIZE_MIN && |buffer| == INTERNALBUFFER_SIZE
    && c >= 0 && Offset(c) + buffered == |s| && buffered <= INTERNALBUFFER_SIZE
    && acc == Absorb(mx, secret, s, c) && soFar == Position(secret, c)
    && buffer[..buffered] == s[Offset(c)..]
    && (c > 0 ==> forall j {:trigger buffer[j]} :: INTERNALBUFFER_SIZE - STRIPE_LEN <= j < INTERNALBUFFER_SIZE && buffered <= j ==>
          buffer[j] == s[Offset(c) - INTERNALBUFFER_SIZE + j])
  }

  /** Put a state, fresh or used before, through the reset that goes with a keying. */
  method ResetFor(state: State, k: Keying)
    requires state.Reusable()
    modifies state
    ensures state.Valid() && state.stream == []
    ensures state.keying == if k == WithSeed(0) then Default else k
  {
    match k
    case Default => state.Reset();
    case WithSecret(secret) => state.ResetWithSecret(secret);
    case WithSeed(seed) => state.ResetWithSeed(seed);
    case WithSecretAndSeed(secret, seed) => state.ResetWithSecretAndSeed(secret, seed);
  }

  /** Reset, update with every chunk, digest: the one-shot hash of the concatenation, however it is cut,
      and whatever the state was used for before. */
  method Streamed64(state: State, k: Keying, chunks: seq<Bytes>) returns (h: int)
    requires state.Reusable() && |Concat(chunks)| < TWO_TO_64
    modifies state, state.buffer
    ensures h == Hash64(state.mixer, k, Concat(chunks))
    ensures state.Reusable()
  {
    ResetFor(state, k);
    for i := 0 to |chunks|
      invariant state.Valid() && state.stream == Concat(chunks[..i])
      invariant state.keying == if k == WithSeed(0) then Default else k
    {
      ConcatStep(chunks, i);
      state.Update(chunks[i]);
    }
    assert chunks[..|chunks|] == chunks;
    h := state.Digest64();
  }

  method Streamed128(state: State, k: Keying, chunks: seq<Bytes>) returns (h: (int, int))
    requires state.Reusable() && |Concat(chunks)| < TWO_TO_64
    modifies state, state.buffer
    ensures h == Hash128(state.mixer, KeyingSeen(k, Concat(chunks)), Concat(chunks))
    ensures state.Reusable()
  {
    ResetFor(state, k);
    for i := 0 to |chunks|
      invariant state.Valid() && state.stream == Concat(chunks[..i])
      invariant state.keying == if k == WithSeed(0) then Default else k
    {
      ConcatStep(chunks, i);
      state.Update(chunks[i]);
    }
    assert chunks[..|chunks|] == chunks;
    h := state.Digest128();
  }

  /** The same from a newly created state, against the one-shot code. */
  method StreamedMatchesOneShot(mx: Mixer, k: Keying, chunks: seq<Bytes>) returns (streamed: int, oneShot: int)
    requires mx.WellFormed() && |Concat(chunks)| < TWO_TO_64
    ensures streamed == oneShot == Hash64(mx, k, Concat(chunks))
  {
    var state := new State(mx);
    streamed := Streamed64(state, k, chunks);
    oneShot := OneShot64(mx, k, Concat(chunks));
  }

  /** With 128 bits, streaming parts from the one-shot hash for a short input with a secret and the seed 0, where the
      secret stands in for the default one, and nowhere else. */
  method StreamedMatchesOneShot128(mx: Mixer, k: Keying, chunks: seq<Bytes>)
    returns (streamed: (int, int), oneShot: (int, int))
    requires mx.WellFormed() && |Concat(chunks)| < TWO_TO_64
    ensures oneShot == Hash128(mx, k, Concat(chunks))
    ensures !SeedIsForgotten(k, Concat(chunks)) ==> streamed == oneShot
    ensures SeedIsForgotten(k, Concat(chunks)) ==>
      && streamed == mx.short128(Concat(chunks), k.secret, 0)
      && oneShot == mx.short128(Concat(chunks), mx.defaultSecret, 0)
  {
    var state := new State(mx);
    streamed := Streamed128(state, k, chunks);
    oneShot := OneShot128(mx, k, Concat(chunks));
  }
}
