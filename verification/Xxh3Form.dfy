/** XXH3 written out in one piece with its numbers, block by block as XXH3_hashLong_internal_loop has it, apart from the
    reference that the streaming proofs use: what those hash is this. */
module Xxh3Form {
  import opened FixedWidth
  import opened Products
  import opened Xxh3Stream

  /** The first n stripes of a block, each with the piece of the secret that starts 8 bytes further on. */
  function Stripes(mx: Mixer, secret: Bytes, acc: Accumulators, block: Bytes, n: nat): Accumulators
    requires 64 * n <= |block| && 8 * n + 56 <= |secret|
  {
    if n == 0 then acc
    else mx.accumulate512(Stripes(mx, secret, acc, block, n - 1), block[64 * n - 64..64 * n], secret[8 * n - 8..8 * n + 56])
  }

  /** So many stripes use up the secret. */
  function PerBlock(secret: Bytes): int { (|secret| - 64) / 8 }

  /** The first b blocks, each closed by a scramble with the last 64 bytes of the secret. */
  function Blocks(mx: Mixer, secret: Secret, s: Bytes, b: nat): Accumulators
    requires 64 * (b * PerBlock(secret)) <= |s|
  {
    if b == 0 then
      mx.initial
    else
      BlockBefore(|s|, PerBlock(secret), b);
      var block := s[64 * ((b - 1) * PerBlock(secret))..];
      mx.scramble(Stripes(mx, secret, Blocks(mx, secret, s, b - 1), block, PerBlock(secret)), secret[|secret| - 64..])
  }

  lemma BlockBefore(len: nat, n: int, b: nat)
    requires b > 0 && n > 0 && 64 * (b * n) <= len
    ensures 0 <= (b - 1) * n && 64 * ((b - 1) * n) + 64 * n <= len
  {
    Distribute(n, b, 1);
    ProductSign(b - 1, n);
  }

  /** How many blocks are closed, and how many stripes follow them. */
  function BlocksOf(secret: Secret, s: Bytes): int
    requires s != []
  {
    (|s| - 1) / (64 * PerBlock(secret))
  }

  lemma StripesFit(secret: Secret, s: Bytes)
    requires s != []
    ensures var (b, n) := (BlocksOf(secret, s), PerBlock(secret));
      && 0 <= b && 0 <= 64 * (b * n) <= |s| - 1
      && var rest := (|s| - 1 - 64 * (b * n)) / 64;
      && 0 <= rest < n && b * n + rest == (|s| - 1) / 64 && 64 * (b * n) + 64 * rest <= |s| - 1
  {
    var b, n := BlocksOf(secret, s), PerBlock(secret);
    QuotientBounds(|s| - 1, 64 * n);
    QuotientNonNegative(|s| - 1, 64 * n);
    Associate(b, 64, n);
    Associate(64, b, n);
    ProductSign(b, n);
    var left := |s| - 1 - 64 * (b * n);
    QuotientBounds(left, 64);
    DivisionUnique(|s| - 1, 64, b * n + left / 64, left % 64);
  }

  /** The accumulators of a long input: the blocks, the stripes after them, and the last 64 bytes with the piece of the
      secret that starts 71 bytes before its end. */
  function Mixed(mx: Mixer, secret: Secret, s: Bytes): Accumulators
    requires |s| > 64
  {
    StripesFit(secret, s);
    var done := 64 * (BlocksOf(secret, s) * PerBlock(secret));
    var acc := Stripes(mx, secret, Blocks(mx, secret, s, BlocksOf(secret, s)), s[done..], (|s| - 1 - done) / 64);
    mx.accumulate512(acc, s[|s| - 64..], secret[|secret| - 71..|secret| - 7])
  }

  lemma {:induction false} StripesAreAccumulated(mx: Mixer, secret: Bytes, acc: Accumulators, block: Bytes, n: nat)
    requires 64 * n <= |block| && 8 * n + 56 <= |secret|
    ensures Stripes(mx, secret, acc, block, n) == Accumulated(mx, acc, block, secret, 0, n)
  {
    if n > 0 { StripesAreAccumulated(mx, secret, acc, block, n - 1); }
  }

  lemma {:induction false} BlocksAreAbsorbed(mx: Mixer, secret: Secret, s: Bytes, b: nat)
    requires 64 * (b * PerBlock(secret)) <= |s|
    ensures 0 <= b * PerBlock(secret) && Position(secret, b * PerBlock(secret)) == 0
    ensures Blocks(mx, secret, s, b) == Absorb(mx, secret, s, b * PerBlock(secret))
  {
    hide Absorb, Position, Accumulated, Follows, Stripes;
    var n := PerBlock(secret);
    NothingAbsorbed(mx, s, secret);
    if b > 0 {
      BlockBefore(|s|, n, b);
      Distribute(n, b, 1);
      var c := (b - 1) * n;
      BlocksAreAbsorbed(mx, secret, s, b - 1);
      StripesAreAccumulated(mx, secret, Absorb(mx, secret, s, c), s[64 * c..], n);
      SuffixFollows(s, c, n);
      AbsorbedAfterRun(mx, secret, s, c, s[Offset(c)..], n);
      assert secret[|secret| - 64..] == SecretAt(secret, |secret| - 64);
    }
  }

  /** The long hash is this, for every secret and every input. */
  lemma MixedIsAccumulators(mx: Mixer, secret: Secret, s: Bytes)
    requires |s| > 64
    ensures LongAccumulators(mx, secret, s) == Mixed(mx, secret, s)
  {
    hide Absorb, Position, Accumulated, Follows, Stripes, Blocks;
    StripesFit(secret, s);
    var c := BlocksOf(secret, s) * PerBlock(secret);
    var rest := (|s| - 1 - 64 * c) / 64;
    BlocksAreAbsorbed(mx, secret, s, BlocksOf(secret, s));
    StripesAreAccumulated(mx, secret, Absorb(mx, secret, s, c), s[64 * c..], rest);
    LastBlock(mx, secret, s, c, rest);
  }

  /** The secret of a long input. */
  function SecretOf(mx: Mixer, k: Keying): Bytes {
    if k.WithSecret? || k.WithSecretAndSeed? then k.secret
    else if k.WithSeed? && k.seed != 0 then mx.customSecret(k.seed)
    else mx.defaultSecret
  }

  /** XXH3_64bits and XXH3_128bits of an input of more than 240 bytes: the low half of the 128 bits is the 64-bit hash,
      merged from the 12th byte of the secret on, and the high half is merged from 75 bytes before its end. */
  lemma LongHash(mx: Mixer, k: Keying, s: Bytes)
    requires mx.WellFormed() && |s| > 240
    ensures |SecretOf(mx, k)| >= 136
    ensures var secret := SecretOf(mx, k);
      var acc := Mixed(mx, secret, s);
      && Hash64(mx, k, s) == mx.merge(acc, secret[11..75], (|s| * 0x9E3779B185EBCA87) % 0x1_0000_0000_0000_0000)
      && Hash128(mx, k, s).0 == Hash64(mx, k, s)
      && Hash128(mx, k, s).1 == mx.merge(acc, secret[|secret| - 75..|secret| - 11],
                                         0xFFFF_FFFF_FFFF_FFFF - (|s| * 0xC2B2AE3D27D4EB4F) % 0x1_0000_0000_0000_0000)
  {
    hide Mixed, LongAccumulators;
    MixedIsAccumulators(mx, LongSecret(mx, k), s);
  }

  /** And of one of up to 240: with a secret alone it is mixed with that, and otherwise with the default one and the seed. */
  lemma ShortHash(mx: Mixer, k: Keying, s: Bytes)
    requires mx.WellFormed() && |s| <= 240
    ensures match k
      case WithSecret(secret) =>
        Hash64(mx, k, s) == mx.short64(s, secret, 0) && Hash128(mx, k, s) == mx.short128(s, secret, 0)
      case Default =>
        Hash64(mx, k, s) == mx.short64(s, mx.defaultSecret, 0) && Hash128(mx, k, s) == mx.short128(s, mx.defaultSecret, 0)
      case _ =>
        && Hash64(mx, k, s) == mx.short64(s, mx.defaultSecret, k.seed)
        && Hash128(mx, k, s) == mx.short128(s, mx.defaultSecret, k.seed)
  {
  }

  /** No stripe and no scramble reads the piece of the secret that the last 64 bytes are mixed with. */
  lemma LastPieceIsItsOwn(secret: Secret, p: nat)
    requires p < StripesPerBlock(secret)
    ensures SecretOffset(p) < |secret| - STRIPE_LEN - SECRET_LASTACC_START < |secret| - STRIPE_LEN
  {
  }
}
