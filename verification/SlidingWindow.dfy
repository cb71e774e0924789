/** The sliding window that accounts for the bandwidth spent (avt_sliding_win, update_sw). */
module SlidingWindow {
  import opened FixedWidth
  import opened Products
  import opened Rounding
  import opened TimestampOrder
  import opened StableAdd

  const MAX_ENTRIES := 1024 * 512

  datatype Entry = Entry(val: int, ts: int, tb: Rational)

  predicate Stale(e: Entry, now: int, period: int) { e.ts + period < now }

  /** The removal loop from the i-th entry on. Having removed an entry it goes on at the next index, and so it never
      looks at the entry that moved up into the gap. */
  function Prune(es: seq<Entry>, i: nat, now: int, period: int): seq<Entry>
    decreases |es| - i
  {
    if i >= |es| then es
    else if |es| + 1 > MAX_ENTRIES || Stale(es[i], now, period) then Prune(es[..i] + es[i + 1..], i + 1, now, period)
    else Prune(es, i + 1, now, period)
  }

  function Sum(es: seq<Entry>): int {
    if es == [] then 0 else Sum(es[..|es| - 1]) + es[|es| - 1].val
  }

  /** What the entries that are still inside the period add up to: those that were added at most `period` ago. */
  function Live(es: seq<Entry>, now: int, period: int): int {
    if es == [] then 0
    else Live(es[..|es| - 1], now, period) + (if es[|es| - 1].ts + period >= now then es[|es| - 1].val else 0)
  }

  ghost predicate NonNegative(es: seq<Entry>) { forall e :: e in es ==> e.val >= 0 }

  lemma {:induction false} SumJoins(es: seq<Entry>, fs: seq<Entry>)
    ensures Sum(es + fs) == Sum(es) + Sum(fs)
  {
    if fs == [] {
      assert es + fs == es;
    } else {
      assert (es + fs)[..|es + fs| - 1] == es + fs[..|fs| - 1];
      SumJoins(es, fs[..|fs| - 1]);
    }
  }

  lemma {:induction false} LiveJoins(es: seq<Entry>, fs: seq<Entry>, now: int, period: int)
    ensures Live(es + fs, now, period) == Live(es, now, period) + Live(fs, now, period)
  {
    if fs == [] {
      assert es + fs == es;
    } else {
      assert (es + fs)[..|es + fs| - 1] == es + fs[..|fs| - 1];
      LiveJoins(es, fs[..|fs| - 1], now, period);
    }
  }

  lemma {:induction false} LiveAtMostSum(es: seq<Entry>, now: int, period: int)
    requires NonNegative(es)
    ensures 0 <= Live(es, now, period) <= Sum(es)
  {
    if es != [] { LiveAtMostSum(es[..|es| - 1], now, period); }
  }

  /** Pruning at one time takes nothing away from what counts at that time or any later one, although it takes
      entries away. */
  lemma {:induction false} PruneKeepsLive(es: seq<Entry>, i: nat, now: int, later: int, period: int)
    requires |es| < MAX_ENTRIES && now <= later && NonNegative(es)
    ensures var ps := Prune(es, i, now, period);
      && Live(ps, later, period) == Live(es, later, period) && Sum(ps) <= Sum(es) && |ps| <= |es|
      && forall e :: e in ps ==> e in es
    decreases |es| - i
  {
    if i < |es| {
      if Stale(es[i], now, period) {
        var gone := es[..i] + es[i + 1..];
        assert es == es[..i] + [es[i]] + es[i + 1..];
        LiveJoins(es[..i] + [es[i]], es[i + 1..], later, period);
        LiveJoins(es[..i], [es[i]], later, period);
        LiveJoins(es[..i], es[i + 1..], later, period);
        SumJoins(es[..i] + [es[i]], es[i + 1..]);
        SumJoins(es[..i], [es[i]]);
        SumJoins(es[..i], es[i + 1..]);
        OneEntry(es[i], later, period);
        PruneKeepsLive(gone, i + 1, now, later, period);
      } else {
        PruneKeepsLive(es, i + 1, now, later, period);
      }
    }
  }

  lemma OneEntry(e: Entry, now: int, period: int)
    ensures Sum([e]) == e.val && Live([e], now, period) == if e.ts + period >= now then e.val else 0
  {
  }

  /** The entries at odd positions. */
  function EverySecond(es: seq<Entry>): seq<Entry> {
    if |es| < 2 then [] else [es[1]] + EverySecond(es[2..])
  }

  /** What the skipping amounts to: of a run of stale entries every second one stays behind, and the rest is kept. */
  lemma {:induction false} PruneLeavesEverySecond(done: seq<Entry>, stale: seq<Entry>, young: seq<Entry>, now: int,
                                                  period: int)
    requires |done| + |stale| + |young| < MAX_ENTRIES
    requires forall e :: e in stale ==> e.ts + period < now
    requires forall e :: e in young ==> e.ts + period >= now
    ensures Prune(done + (stale + young), |done|, now, period) == done + (EverySecond(stale) + young)
    decreases |stale|
  {
    hide Prune;
    if |stale| == 0 {
      assert stale + young == young && EverySecond(stale) + young == young;
      PruneKeepsYoung(done + young, |done|, now, period);
    } else if |stale| == 1 {
      assert EverySecond(stale) + young == young;
      PruneDrops(done, stale[0], young, stale + young, now, period);
      PruneKeepsYoung(done + young, |done| + 1, now, period);
    } else {
      PruneTwo(done, stale, young, now, period);
      assert forall e :: e in stale[2..] ==> e in stale;
      PruneLeavesEverySecond(done + [stale[1]], stale[2..], young, now, period);
      EverySecondMoves(done, stale, young);
    }
  }

  lemma PruneDrops(before: seq<Entry>, e: Entry, after: seq<Entry>, rest: seq<Entry>, now: int, period: int)
    requires Stale(e, now, period) && rest == [e] + after
    ensures Prune(before + rest, |before|, now, period) == Prune(before + after, |before| + 1, now, period)
  {
    var es := before + rest;
    assert es[|before|] == e && es[..|before|] + es[|before| + 1..] == before + after;
  }

  lemma PruneTwo(done: seq<Entry>, stale: seq<Entry>, young: seq<Entry>, now: int, period: int)
    requires |stale| >= 2 && Stale(stale[0], now, period)
    ensures Prune(done + (stale + young), |done|, now, period)
         == Prune((done + [stale[1]]) + (stale[2..] + young), |done| + 1, now, period)
  {
    hide Prune;
    PruneDrops(done, stale[0], stale[1..] + young, stale + young, now, period) by {
      assert stale + young == [stale[0]] + (stale[1..] + young);
    }
    assert done + (stale[1..] + young) == (done + [stale[1]]) + (stale[2..] + young);
  }

  lemma EverySecondMoves(done: seq<Entry>, stale: seq<Entry>, young: seq<Entry>)
    requires |stale| >= 2
    ensures (done + [stale[1]]) + (EverySecond(stale[2..]) + young) == done + (EverySecond(stale) + young)
  {
    var rest := EverySecond(stale[2..]);
    assert EverySecond(stale) == [stale[1]] + rest;
    hide EverySecond;
    Regroup(done, [stale[1]], rest, young);
  }

  lemma Regroup(a: seq<Entry>, b: seq<Entry>, c: seq<Entry>, d: seq<Entry>)
    ensures (a + b) + (c + d) == a + ((b + c) + d)
  {
  }

  lemma {:induction false} PruneKeepsYoung(es: seq<Entry>, i: nat, now: int, period: int)
    requires |es| < MAX_ENTRIES && forall j :: i <= j < |es| ==> es[j].ts + period >= now
    ensures Prune(es, i, now, period) == es
    decreases |es| - i
  {
    if i < |es| { PruneKeepsYoung(es, i + 1, now, period); }
  }

  lemma CompareWithin(t: int, now: int, tb: Rational)
    requires PositiveTimebase(tb) && Timestamp(t) && Timestamp(now)
    ensures CompareTs(t, tb, now, tb) < 0 <==> t < now
  {
    CompareIsExact(t, tb, now, tb);
    SameScale(t, now, tb);
    hide CompareTs;
  }

  lemma SameScale(t: int, now: int, tb: Rational)
    requires PositiveTimebase(tb)
    ensures Difference(t, tb, now, tb) < 0 <==> t < now
  {
    Associate(t, tb.num, tb.den);
    Associate(now, tb.num, tb.den);
    ProductSign(tb.num, tb.den);
    ScaleOrder(tb.num * tb.den, t, now);
  }

  /** AVTSlidingWinCtx */
  class Window {
    const entries: array<Entry>
    var numEntries: nat

    ghost var history: seq<Entry>  // everything that was ever added

    ghost predicate Valid(tb: Rational, period: int, now: int)
      reads this, entries
    {
      && entries.Length == MAX_ENTRIES && numEntries <= MAX_ENTRIES
      && (forall e :: e in Contents() ==> e.tb == tb && 0 <= e.val && Timestamp(e.ts) && e.ts + period <= INT64_MAX)
      && (forall t :: now <= t ==> Live(Contents(), t, period) == Live(history, t, period))
    }

    ghost function Contents(): seq<Entry>
      requires numEntries <= entries.Length
      reads this, entries
    {
      entries[..numEntries]
    }

    constructor ()
      ensures fresh(entries) && numEntries == 0 && history == []
      ensures forall tb, period, now :: Valid(tb, period, now)
    {
      entries := new Entry[MAX_ENTRIES](_ => Entry(0, 0, Rational(0, 0)));
      numEntries, history := 0, [];
    }

    /** memmove(last, last + 1, count) */
    method MoveDown(i: nat, count: nat)
      requires i + count < entries.Length
      modifies entries
      ensures forall k :: 0 <= k < entries.Length ==> entries[k] == old(if i <= k < i + count then entries[k + 1] else entries[k])
    {
      forall k | i <= k < i + count {
        entries[k] := entries[k + 1];
      }
    }

    /** Lines 302-303 */
    method Remove(i: nat)
      requires i < numEntries && 2 * numEntries < MAX_ENTRIES == entries.Length
      modifies this`numEntries, entries
      ensures numEntries == old(numEntries) - 1 && Contents() == old(Contents()[..i] + Contents()[i + 1..])
    {
      numEntries := numEntries - 1;
      MoveDown(i, numEntries);
      assert Contents() == old(Contents()[..i] + Contents()[i + 1..]);
    }

    /** Lines 294-300 */
    method IsStale(last: Entry, ts: int, tb: Rational, period: int) returns (stale: bool)
      requires PositiveTimebase(tb) && period >= 1 && tb.num * period <= INT_MAX && Timestamp(ts)
      requires last.tb == tb && Timestamp(last.ts) && last.ts + period <= INT64_MAX
      ensures stale == Stale(last, ts, period)
    {
      hide CompareTs, Advance, AddStep, IsStep;
      var test := AddStable(last.tb, last.ts, tb, period);
      ProductSign(tb.num, period);
      SameTimebaseIsExact(tb, last.ts, period);
      CompareWithin(last.ts + period, ts, tb);
      stale := CompareTs(test.ts, last.tb, ts, tb) < 0;
    }

    /** Lines 293-304 */
    method RemoveStale(ts: int, tb: Rational, period: int)
      requires 2 * numEntries < MAX_ENTRIES == entries.Length
      requires PositiveTimebase(tb) && period >= 1 && tb.num * period <= INT_MAX && Timestamp(ts)
      requires forall e :: e in Contents() ==> e.tb == tb && Timestamp(e.ts) && e.ts + period <= INT64_MAX
      modifies this`numEntries, entries
      ensures numEntries <= old(numEntries) && Contents() == old(Prune(Contents(), 0, ts, period))
    {
      var i := 0;
      while i < numEntries
        invariant numEntries <= old(numEntries)
        invariant Prune(Contents(), i, ts, period) == old(Prune(Contents(), 0, ts, period))
        invariant forall e :: e in Contents() ==> e.tb == tb && Timestamp(e.ts) && e.ts + period <= INT64_MAX
      {
        var last := entries[i];
        assert last in Contents();
        var stale := IsStale(last, ts, tb, period);
        if numEntries + 1 > MAX_ENTRIES || stale {
          Remove(i);
        }
        i := i + 1;
      }
    }

    /** Lines 313-314 */
    method Total() returns (sum: int)
      requires numEntries <= entries.Length
      ensures sum == Sum(Contents())
    {
      sum := 0;
      for i := 0 to numEntries
        invariant sum == Sum(entries[..i])
      {
        sum := sum + entries[i].val;
        assert entries[..i + 1][..i] == entries[..i];
      }
    }

    /** Lines 307-310 */
    method Append(e: Entry)
      requires numEntries < entries.Length
      modifies this`numEntries, this`history, entries
      ensures numEntries == old(numEntries) + 1
      ensures Contents() == old(Contents()) + [e] && history == old(history) + [e]
    {
      entries[numEntries] := e;
      numEntries := numEntries + 1;
      history := history + [e];
    }

    /** avt_sliding_win: the sum over everything that was added inside the period is never understated, whatever the
        removal loop skips. */
    method Slide(val: int, ts: int, tb: Rational, period: int, average: bool) returns (r: int)
      requires Valid(tb, period, ts) && 2 * numEntries < MAX_ENTRIES
      requires PositiveTimebase(tb) && period >= 1 && tb.num * period <= INT_MAX
      requires val >= 0 && Timestamp(ts) && ts + period <= INT64_MAX && Sum(Contents()) + val <= INT64_MAX
      modifies this, entries
      ensures Valid(tb, period, ts) && history == old(history) + [Entry(val, ts, tb)]
      ensures Contents() == old(Prune(Contents(), 0, ts, period)) + [Entry(val, ts, tb)]
      ensures Live(history, ts, period) <= Sum(Contents()) <= Sum(old(Contents())) + val
      ensures r == if average then Sum(Contents()) / numEntries else Sum(Contents())
    {
      ghost var e := Entry(val, ts, tb);
      ghost var before := Contents();
      RemoveStale(ts, tb, period);
      ghost var kept := Contents();
      AddedAfterPruning(before, history, e, ts, period);
      hide Prune, Live, Sum;
      Append(Entry(val, ts, tb));
      r := Total();
      if average && numEntries > 0 {
        r := r / numEntries;
      }
    }
  }

  lemma AddedAfterPruning(es: seq<Entry>, history: seq<Entry>, e: Entry, now: int, period: int)
    requires |es| < MAX_ENTRIES && NonNegative(es) && e.val >= 0
    requires forall t :: now <= t ==> Live(es, t, period) == Live(history, t, period)
    ensures var ps := Prune(es, 0, now, period) + [e];
      && (forall t :: now <= t ==> Live(ps, t, period) == Live(history + [e], t, period))
      && (forall f :: f in ps ==> f in es || f == e)
      && Live(history + [e], now, period) <= Sum(ps) <= Sum(es) + e.val
  {
    var kept := Prune(es, 0, now, period);
    forall t | now <= t
      ensures Live(kept + [e], t, period) == Live(history + [e], t, period)
    {
      PruneKeepsLive(es, 0, now, t, period);
      LiveJoins(kept, [e], t, period);
      LiveJoins(history, [e], t, period);
    }
    PruneKeepsLive(es, 0, now, now, period);
    SumJoins(kept, [e]);
    OneEntry(e, now, period);
    LiveAtMostSum(kept + [e], now, period);
  }

  /** Nanoseconds, and the second over which the bandwidth is spent. */
  const NANOSECONDS: Rational := Rational(1, 1_000_000_000)
  const SECOND := 1_000_000_000

  /** The part of AVTScheduler that accounts for the bandwidth. */
  class Bandwidth {
    const bandwidth: int
    const sw: Window
    var time: int
    var avail: int

    constructor (bandwidth: int)
      ensures this.bandwidth == avail == bandwidth && time == 0 && fresh(sw) && fresh(sw.entries)
      ensures sw.Valid(NANOSECONDS, SECOND, 0) && sw.numEntries == 0 && sw.history == []
    {
      this.bandwidth, avail, time := bandwidth, bandwidth, 0;
      sw := new Window();
    }

    /** update_sw: what is left of the bandwidth is never overstated. */
    method Update(size: nat)
      requires sw.Valid(NANOSECONDS, SECOND, time) && 2 * sw.numEntries < MAX_ENTRIES
      requires 0 < bandwidth <= INT64_MAX && 0 <= time && time + SECOND <= INT64_MAX && 8 * size <= INT64_MAX
      requires RescaleRnd(8 * size, bandwidth, SECOND, ROUND_NEAR_INF) <= INT64_MAX
      requires Sum(sw.Contents()) + 8 * size <= INT64_MAX
      modifies this, sw, sw.entries
      ensures sw.Valid(NANOSECONDS, SECOND, time) && old(time) <= time
      ensures IsNearest(time - old(time), 8 * size * bandwidth, 1_000_000_000)
      ensures sw.history == old(sw.history) + [Entry(8 * size, old(time), NANOSECONDS)]
      ensures avail == bandwidth - Sum(sw.Contents()) <= bandwidth - Live(sw.history, old(time), SECOND)
      ensures sw.Contents() == old(Prune(sw.Contents(), 0, time, SECOND)) + [Entry(8 * size, old(time), NANOSECONDS)]
    {
      var bits := 8 * size;
      var duration := Rescale(bits, bandwidth, SECOND);
      DurationIsPositive(bits, bandwidth);
      var sum := sw.Slide(bits, time, NANOSECONDS, SECOND, false);
      avail := bandwidth - sum;
      time := time + duration;
    }
  }

  lemma DurationIsPositive(bits: nat, bandwidth: int)
    requires 0 < bandwidth && RescaleRnd(bits, bandwidth, SECOND, ROUND_NEAR_INF) <= INT64_MAX
    ensures Rescale(bits, bandwidth, SECOND) >= 0
    ensures IsNearest(Rescale(bits, bandwidth, SECOND), bits * bandwidth, SECOND)
  {
    RescaleIsExact(bits, bandwidth, SECOND, ROUND_NEAR_INF);
    ProductSign(bits, bandwidth);
    QuotientNonNegative(bits * bandwidth + SECOND / 2, SECOND);
    ToInt64Keeps(RescaleRnd(bits, bandwidth, SECOND, ROUND_NEAR_INF));
  }
}
