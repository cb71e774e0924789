/** Pieces that each arrive once, in whatever order: which orders bring the payload out. */
module Completion {
  import opened FixedWidth
  import opened Packets
  import opened Merging
  import opened Reassembly
  import opened AnyOrder
  import opened Gaps

  // The record of ranges when the memory behind it is zero. Only its first range ever says anything.

  /** The first range is of bytes that are there, and the others are zero. */
  ghost predicate Tidy(ranges: seq<Range>, c: set<nat>, total: nat) {
    && ranges != [] && ranges[0].offset in c && ranges[0].offset + ranges[0].size <= total
    && (forall i :: ranges[0].offset <= i < ranges[0].offset + ranges[0].size ==> i in c)
    && forall k :: 1 <= k < |ranges| ==> ranges[k] == Range(0, 0)
  }

  /** A piece of none of the bytes c. */
  ghost predicate IsNew(c: set<nat>, total: nat, offset: nat, length: nat) {
    0 < length && offset + length <= total <= UINT32_MAX && forall i :: offset <= i < offset + length ==> i !in c
  }

  lemma {:induction false} NewPasses(ranges: seq<Range>, c: set<nat>, total: nat, offset: nat, length: nat)
    requires Tidy(ranges, c, total) && IsNew(c, total, offset, length)
    ensures Overlap(ranges, offset, length, 0) == PassThrough
  {
    OverlapMeans(ranges, offset, length, 0);
    Wrap32Small(offset + length);
    Wrap32Small(ranges[0].offset + ranges[0].size);
    Wrap32Small(0);
    hide Wrap32;
    var r, last := ranges[0], offset + length - 1;
    assert last !in c && offset !in c;
    assert !Clashes(r, offset, length);
  }

  lemma {:induction false} ZerosAreSkipped(ranges: seq<Range>, offset: nat, length: nat, i: nat, dst: nat)
    requires forall k :: i <= k < |ranges| ==> ranges[k] == Range(0, 0)
    requires 1 <= i <= |ranges| && (i == |ranges| ==> dst == |ranges| - 1)
    requires 0 < offset && 0 < length && offset + length <= UINT32_MAX
    ensures WorkIn(ranges, offset, length, i, dst) == Insert(|ranges| - 1)
    decreases |ranges| - i
  {
    Wrap32Small(offset + length);
    Wrap32Small(0);
    hide Wrap32;
    if i < |ranges| { ZerosAreSkipped(ranges, offset, length, i + 1, i); }
  }

  lemma {:induction false} SplicedZero(bytes: nat)
    ensures Spliced(0, 0, bytes) == 0
    decreases bytes
  {
    if bytes > 0 { SplicedZero(bytes - 1); }
  }

  lemma ZerosMoveUp(ranges: seq<Range>)
    requires ranges != [] && forall k :: 0 <= k < |ranges| ==> ranges[k] == Range(0, 0)
    ensures forall k :: 0 <= k < |MovedUp(ranges)| ==> MovedUp(ranges)[k] == Range(0, 0)
  {
    var rest := (|ranges| - 1) % 8;
    SplicedZero(rest);
    if rest > 4 { SplicedZero(rest - 4); }
    assert Torn(Range(0, 0), Range(0, 0), rest) == Range(0, 0);
    hide Torn;
  }

  lemma GrowsDown(ranges: seq<Range>, c: set<nat>, total: nat, offset: nat, length: nat, junk: Slack)
    requires Tidy(ranges, c, total) && IsNew(c, total, offset, length) && offset + length == ranges[0].offset
    ensures var f := FillRanges(ranges, offset, length, junk);
      f.Stored? && Tidy(f.ranges, c + Span(offset, offset + length), total)
  {
    hide Wrap32;
    Wrap32Small(offset + length);
    Wrap32Small(ranges[0].size + length);
    assert WorkIn(ranges, offset, length, 0, 0) == Filled(ranges[0 := Range(offset, ranges[0].size + length)]);
    hide WorkIn;
  }

  lemma GrowsUp(ranges: seq<Range>, c: set<nat>, total: nat, offset: nat, length: nat, junk: Slack)
    requires Tidy(ranges, c, total) && IsNew(c, total, offset, length) && ranges[0].offset + ranges[0].size == offset
    requires offset + length != ranges[0].offset
    ensures var f := FillRanges(ranges, offset, length, junk);
      f.Stored? && Tidy(f.ranges, c + Span(offset, offset + length), total)
  {
    hide Wrap32, MovedUp;
    var r := ranges[0];
    Wrap32Small(offset + length);
    Wrap32Small(r.offset + r.size);
    Wrap32Small(r.size + length);
    var grown := ranges[0 := Range(r.offset, r.size + length)];
    if |ranges| == 1 {
      assert WorkIn(ranges, offset, length, 0, 0) == Filled(grown);
    } else {
      ZerosMoveUp(ranges[1..]);
      assert WorkIn(ranges, offset, length, 0, 0) == Consolidate(grown, 0);
      assert Consolidated(grown, 0) == [Range(r.offset, 0)] + MovedUp(ranges[1..]);
    }
  }

  lemma GrowsLonger(ranges: seq<Range>, c: set<nat>, total: nat, offset: nat, length: nat, junk: Slack)
    requires Tidy(ranges, c, total) && IsNew(c, total, offset, length) && 0 < offset && junk.next == Range(0, 0)
    requires offset + length != ranges[0].offset && ranges[0].offset + ranges[0].size != offset
    ensures var f := FillRanges(ranges, offset, length, junk);
      f.Stored? && Tidy(f.ranges, c + Span(offset, offset + length), total)
  {
    hide Wrap32;
    Wrap32Small(offset + length);
    Wrap32Small(ranges[0].offset + ranges[0].size);
    assert offset !in c;
    ZerosAreSkipped(ranges, offset, length, 1, 0);
    assert WorkIn(ranges, offset, length, 0, 0) == Insert(|ranges| - 1);
    hide WorkIn;
  }

  /** A new segment is taken up into the record, one way or another, and the record stays tidy. */
  lemma TidyStays(ranges: seq<Range>, c: set<nat>, total: nat, offset: nat, length: nat, junk: Slack)
    requires Tidy(ranges, c, total) && IsNew(c, total, offset, length) && 0 < offset && junk.next == Range(0, 0)
    ensures var f := FillRanges(ranges, offset, length, junk);
      f.Stored? && Tidy(f.ranges, c + Span(offset, offset + length), total)
  {
    hide Wrap32, FillRanges, MovedUp;
    var r := ranges[0];
    if offset + length == r.offset {
      GrowsDown(ranges, c, total, offset, length, junk);
    } else if r.offset + r.size == offset {
      GrowsUp(ranges, c, total, offset, length, junk);
    } else {
      GrowsLonger(ranges, c, total, offset, length, junk);
    }
  }

  /** The header packet, coming last, is taken up as well, if not always in good order. */
  lemma HeaderIsStored(ranges: seq<Range>, c: set<nat>, total: nat, length: nat, junk: Slack)
    requires Tidy(ranges, c, total) && IsNew(c, total, 0, length)
    ensures FillRanges(ranges, 0, length, junk).Stored?
  {
    var r := ranges[0];
    Wrap32Small(length);
    Wrap32Small(r.offset + r.size);
    Wrap32Small(0);
    hide Wrap32;
    if |ranges| > 1 { assert WorkIn(ranges, 0, length, 1, 0) != Insert(0); }
  }

  // One packet.

  /** The merger has the bytes c, and will take any other piece. */
  ghost predicate Waiting(overlay: Overlay, s: State, orig: Packet, c: set<nat>, n: nat)
    requires Divided(orig)
  {
    && Accounted(s, orig, c, n) && Agrees(s, orig.hdr) && HeaderOpen(overlay, s, orig)
    && Tidy(s.ranges, c, |orig.payload|)
  }

  lemma FirstWaits(overlay: Overlay, s: State, orig: Packet, p: Packet, junk: Slack)
    requires Divided(orig) && Sent(orig, p) && !s.active && |s.hdr| >= HEADER_PIECES * PIECE_LEN
    requires Welcome(overlay, orig, p)
    ensures WellFormed(p) && Takes(overlay, s, p, junk)
    ensures var r := Step(overlay, s, p, junk);
      r.verdict == Again && Waiting(overlay, r.state, orig, BytesOf(p), To(p) - From(p))
  {
    hide Step, Takes, Accounted, Agrees, HeaderOpen, HasBytes, Sent, Welcome, Wrap32;
    FirstIsAccounted(overlay, s, orig, p, junk);
    FirstIsTaken(overlay, s, orig, p, junk);
    SentIsWellFormed(orig, p);
  }

  lemma NewIsNew(orig: Packet, c: set<nat>, p: Packet)
    requires Divided(orig) && Sent(orig, p) && c !! BytesOf(p)
    ensures WellFormed(p) && IsNew(c, |orig.payload|, From(p), To(p) - From(p))
    ensures From(p) == 0 <==> !p.data.Segment?
  {
    SentIsWellFormed(orig, p);
    forall i | From(p) <= i < To(p)
      ensures i !in c
    {
      assert i in BytesOf(p);
    }
  }

  /** A segment that is new is taken. */
  lemma SegmentIsTaken(overlay: Overlay, s: State, orig: Packet, c: set<nat>, n: nat, p: Packet, junk: Slack)
    requires Divided(orig) && Waiting(overlay, s, orig, c, n) && Sent(orig, p) && p.data.Segment? && c !! BytesOf(p)
    requires junk.next == Range(0, 0)
    ensures WellFormed(p) && Takes(overlay, s, p, junk)
    ensures var r := Step(overlay, s, p, junk);
      r.verdict == Again ==> Waiting(overlay, r.state, orig, c + BytesOf(p), n + (To(p) - From(p)))
  {
    hide Step, Takes, Accounted, Agrees, HeaderOpen, HasBytes, Sent, Wrap32, Tidy, IsNew, Refusal;
    NewIsNew(orig, c, p);
    NewPasses(s.ranges, c, |orig.payload|, From(p), To(p) - From(p));
    TidyStays(s.ranges, c, |orig.payload|, From(p), To(p) - From(p), junk);
    SegmentStep(overlay, s, orig, c, n, p, junk);
    NextIsAccounted(overlay, s, orig, c, n, p, junk);
  }

  /** What passes the overlap checks, and is stored, is taken. */
  lemma SegmentStep(overlay: Overlay, s: State, orig: Packet, c: set<nat>, n: nat, p: Packet, junk: Slack)
    requires Divided(orig) && Accounted(s, orig, c, n) && Agrees(s, orig.hdr) && HeaderOpen(overlay, s, orig)
    requires Sent(orig, p) && p.data.Segment? && WellFormed(p)
    requires Overlap(s.ranges, From(p), To(p) - From(p), 0) == PassThrough
    requires FillRanges(s.ranges, From(p), To(p) - From(p), junk).Stored?
    ensures Takes(overlay, s, p, junk)
    ensures var r := Step(overlay, s, p, junk);
      r.verdict == Again ==>
        && Agrees(r.state, orig.hdr) && HeaderOpen(overlay, r.state, orig)
        && r.state.ranges == FillRanges(s.ranges, From(p), To(p) - From(p), junk).ranges
  {
    hide Overlap, FillRanges, Overwrite, PieceBit, Wrap32, Resized;
    SentIsWellFormed(orig, p);
    SegmentIsValid(overlay, s, orig, p);
    SegmentHasRoom(s, orig, c, n, p);
    PlacedHasRoom(Sized(Informed(s, p), SeriesOf(p.data).total), p);
  }

  lemma HeaderIsValid(overlay: Overlay, s: State, orig: Packet, p: Packet)
    requires Divided(orig) && HeaderOpen(overlay, s, orig) && !s.available && Sent(orig, p) && !p.data.Segment?
    requires |s.hdr| >= HEADER_PIECES * PIECE_LEN && Agrees(s, orig.hdr)
    requires Overlap(s.ranges, From(p), To(p) - From(p), 0) == PassThrough
    ensures Validate(overlay, s, p) == PassThrough
  {
    hide Overlap;
  }

  /** And the same for the header packet. */
  lemma HeaderStep(overlay: Overlay, s: State, orig: Packet, c: set<nat>, n: nat, p: Packet, junk: Slack)
    requires Divided(orig) && Accounted(s, orig, c, n) && Agrees(s, orig.hdr) && HeaderOpen(overlay, s, orig)
    requires Sent(orig, p) && !p.data.Segment? && !s.available && s.total != 0
    requires Overlap(s.ranges, From(p), To(p) - From(p), 0) == PassThrough
    requires FillRanges(s.ranges, From(p), To(p) - From(p), junk).Stored?
    ensures WellFormed(p) && Takes(overlay, s, p, junk)
    ensures var r := Step(overlay, s, p, junk);
      r.verdict == Again ==>
        && Agrees(r.state, orig.hdr) && HeaderOpen(overlay, r.state, orig)
        && r.state.ranges == FillRanges(s.ranges, From(p), To(p) - From(p), junk).ranges
  {
    hide Overlap, FillRanges, Overwrite, PieceBit, Wrap32, Resized;
    SentIsWellFormed(orig, p);
    HeaderIsValid(overlay, s, orig, p);
    PlacedHasRoom(Sized(Informed(s, p), SeriesOf(p.data).total), p);
  }

  /** And so is the header packet, if the first piece lets it in. */
  lemma HeaderIsTaken(overlay: Overlay, s: State, orig: Packet, c: set<nat>, n: nat, p: Packet, junk: Slack)
    requires Divided(orig) && Waiting(overlay, s, orig, c, n) && Sent(orig, p) && !p.data.Segment? && c !! BytesOf(p)
    ensures WellFormed(p) && Takes(overlay, s, p, junk)
  {
    hide Overlap, FillRanges, PieceBit, Wrap32, IsNew, Sent, Step, Agrees, HeaderOpen, InPlace, Takes;
    NewIsNew(orig, c, p);
    SentIsWellFormed(orig, p);
    NewPasses(s.ranges, c, |orig.payload|, 0, To(p));
    HeaderIsStored(s.ranges, c, |orig.payload|, To(p), junk);
    assert 0 in BytesOf(p);
    HeaderStep(overlay, s, orig, c, n, p, junk);
  }

  // Whole runs.

  /** The pieces of `orig` among these packets. */
  ghost function Pieces(orig: Packet, ps: seq<Packet>): seq<Packet>
    requires Divided(orig)
  {
    if ps == [] then []
    else Pieces(orig, ps[..|ps| - 1]) + (if Sent(orig, ps[|ps| - 1]) then [ps[|ps| - 1]] else [])
  }

  /** Pieces of `orig`, each byte of it at most once, of which the header packet is the first if it is among them, and
      pieces of other packets in between. */
  ghost predicate Orderly(orig: Packet, ps: seq<Packet>)
    requires Divided(orig)
  {
    && Mixed(orig, ps) && SentOnce(orig, ps)
    && forall i :: 0 < i < |ps| ==> Sent(orig, ps[i]) ==> ps[i].data.Segment?
  }

  /** The memory behind the list is zero, as new memory tends to be. (In an orderly run what the list leaves there is zero
      as well.) */
  ghost predicate Zeroed(junk: nat -> Slack) { forall i :: junk(i).next == Range(0, 0) }

  lemma PiecesStep(orig: Packet, ps: seq<Packet>, p: Packet)
    requires Divided(orig)
    ensures Pieces(orig, ps + [p]) == if Sent(orig, p) then Pieces(orig, ps) + [p] else Pieces(orig, ps)
  {
    assert (ps + [p])[..|ps|] == ps;
  }

  lemma {:induction false} PiecesAreAmong(orig: Packet, ps: seq<Packet>, t: Packet)
    requires Divided(orig) && t in Pieces(orig, ps)
    ensures t in ps && Sent(orig, t)
  {
    hide Sent;
    if t in Pieces(orig, ps[..|ps| - 1]) { PiecesAreAmong(orig, ps[..|ps| - 1], t); }
  }

  lemma PiecesAreSent(orig: Packet, ps: seq<Packet>)
    requires Divided(orig)
    ensures forall t :: t in Pieces(orig, ps) ==> Sent(orig, t)
  {
    hide Sent;
    forall t | t in Pieces(orig, ps)
      ensures Sent(orig, t)
    {
      PiecesAreAmong(orig, ps, t);
    }
  }

  /** A piece sent once is new, and there is no more of the payload than all of it. */
  lemma OnceIsNew(orig: Packet, ps: seq<Packet>, p: Packet)
    requires Divided(orig) && SentOnce(orig, ps + [p]) && Sent(orig, p)
    ensures AllBytes(Pieces(orig, ps)) !! BytesOf(p)
  {
    hide Sent, Disjoint;
    var ts := Pieces(orig, ps);
    PiecesAreSent(orig, ps);
    SentAreNotEmpty(orig, ts);
    SentIsWellFormed(orig, p);
    forall k | 0 <= k < |ts|
      ensures Disjoint(ts[k], p)
    {
      PiecesAreAmong(orig, ps, ts[k]);
      var a :| 0 <= a < |ps| && ps[a] == ts[k];
      assert (ps + [p])[a] == ts[k] && (ps + [p])[|ps|] == p;
    }
    ApartFrom(ts, p);
  }

  lemma {:induction false} OnceFits(orig: Packet, ps: seq<Packet>)
    requires Divided(orig) && SentOnce(orig, ps)
    ensures Apart(Pieces(orig, ps)) && Count(Pieces(orig, ps)) <= |orig.payload|
  {
    hide Sent, Disjoint, AllBytes, Count, Everything;
    if ps != [] {
      var front, p := ps[..|ps| - 1], ps[|ps| - 1];
      assert ps == front + [p];
      OncePart(orig, front, p);
      OnceFits(orig, front);
      if Sent(orig, p) {
        OnceIsNew(orig, front, p);
        PiecesAreSent(orig, front);
        SentAreNotEmpty(orig, Pieces(orig, front));
        SentIsWellFormed(orig, p);
        ApartFrom(Pieces(orig, front), p);
        ApartMore(Pieces(orig, front), p);
      }
    }
    PiecesAreSent(orig, ps);
    SentAreNotEmpty(orig, Pieces(orig, ps));
    CountsBytes(Pieces(orig, ps));
    SentAreWithin(orig, Pieces(orig, ps));
    EverythingFits(orig, AllBytes(Pieces(orig, ps)));
  }

  lemma OncePart(orig: Packet, ps: seq<Packet>, p: Packet)
    requires Divided(orig) && SentOnce(orig, ps + [p])
    ensures SentOnce(orig, ps)
  {
    hide Sent, Disjoint;
    assert forall i :: 0 <= i < |ps| ==> (ps + [p])[i] == ps[i];
  }

  lemma OrderlyPart(orig: Packet, ps: seq<Packet>, p: Packet)
    requires Divided(orig) && Orderly(orig, ps + [p]) && ps != []
    ensures Orderly(orig, ps) && WellFormed(p) && (Sent(orig, p) || Foreign(orig, p)) && (Sent(orig, p) ==> p.data.Segment?)
  {
    hide Sent, Disjoint, Foreign, WellFormed;
    assert (ps + [p])[|ps|] == p;
    assert forall i :: 0 <= i < |ps| ==> (ps + [p])[i] == ps[i];
    OncePart(orig, ps, p);
  }

  lemma ForeignPasses(overlay: Overlay, s: State, orig: Packet, p: Packet, junk: Slack)
    requires Divided(orig) && Foreign(orig, p) && s.active && s.target == Wrap32(orig.data.seqNo)
    requires |s.hdr| >= HEADER_PIECES * PIECE_LEN
    ensures var r := Step(overlay, s, p, junk); r.state == s && Refusal(r.verdict) && !Takes(overlay, s, p, junk)
    ensures !Sent(orig, p)
  {
  }

  lemma FirstOfRun(overlay: Overlay, s: State, orig: Packet, p: Packet, junk: nat -> Slack)
    requires Divided(orig) && Sent(orig, p) && !s.active && |s.hdr| >= HEADER_PIECES * PIECE_LEN
    requires Welcome(overlay, orig, p)
    ensures AllWellFormed([p]) && Quiet(overlay, s, [p], junk) && After(overlay, s, [p], junk).verdict == Again
    ensures Pieces(orig, [p]) == Taken(overlay, s, [p], junk) == [p]
    ensures Waiting(overlay, After(overlay, s, [p], junk).state, orig, AllBytes([p]), Count([p]))
  {
    hide *;
    SentIsWellFormed(orig, p);
    FirstWaits(overlay, s, orig, p, junk(1));
    Nothing(overlay, s, orig, junk);
    PiecesStep(orig, [], p);
    NothingTaken(overlay, s, junk);
    assert [] + [p] == [p];
    RunSteps(overlay, s, [], p, junk);
    OneTaken(p);
    Refusals(Again);
    StaysQuiet(overlay, s, [], p, junk);
  }

  lemma Nothing(overlay: Overlay, s: State, orig: Packet, junk: nat -> Slack)
    requires Divided(orig) && |s.hdr| >= HEADER_PIECES * PIECE_LEN
    ensures AllWellFormed([]) && Pieces(orig, []) == [] && Quiet(overlay, s, [], junk)
  {
  }

  lemma Refusals(v: Verdict)
    ensures v == Again ==> Refusal(v)
    ensures Refusal(v) ==> !PutOut(v) && v != Undefined
  {
  }

  lemma StaysQuiet(overlay: Overlay, s: State, ps: seq<Packet>, p: Packet, junk: nat -> Slack)
    requires |s.hdr| >= HEADER_PIECES * PIECE_LEN && AllWellFormed(ps) && AllWellFormed(ps + [p])
    requires Quiet(overlay, s, ps, junk)
    requires Refusal(After(overlay, s, ps + [p], junk).verdict)
    ensures Quiet(overlay, s, ps + [p], junk)
  {
    hide After;
    assert (ps + [p])[..|ps|] == ps;
  }

  lemma NextOfRun(overlay: Overlay, s: State, orig: Packet, ps: seq<Packet>, p: Packet, junk: nat -> Slack)
    requires Divided(orig) && |s.hdr| >= HEADER_PIECES * PIECE_LEN && AllWellFormed(ps) && Quiet(overlay, s, ps, junk)
    requires WellFormed(p) && (Sent(orig, p) || Foreign(orig, p)) && (Sent(orig, p) ==> p.data.Segment?)
    requires SentOnce(orig, ps + [p]) && Count(Pieces(orig, ps + [p])) < |orig.payload|
    requires junk(|ps| + 1).next == Range(0, 0)
    requires var ts := Pieces(orig, ps);
      Taken(overlay, s, ps, junk) == ts && Waiting(overlay, After(overlay, s, ps, junk).state, orig, AllBytes(ts), Count(ts))
    ensures AllWellFormed(ps + [p]) && Quiet(overlay, s, ps + [p], junk)
    ensures Refusal(After(overlay, s, ps + [p], junk).verdict)
    ensures var (all, ts) := (ps + [p], Pieces(orig, ps + [p]));
      Taken(overlay, s, all, junk) == ts && Waiting(overlay, After(overlay, s, all, junk).state, orig, AllBytes(ts), Count(ts))
  {
    hide *;
    var before, ts := After(overlay, s, ps, junk).state, Pieces(orig, ps);
    WaitingMeans(overlay, before, orig, AllBytes(ts), Count(ts));
    RunSteps(overlay, s, ps, p, junk);
    PiecesStep(orig, ps, p);
    if Sent(orig, p) {
      OnceIsNew(orig, ps, p);
      SegmentIsTaken(overlay, before, orig, AllBytes(ts), Count(ts), p, junk(|ps| + 1));
      SentIsWellFormed(orig, p);
      OneMoreTaken(ts, p);
      NextIsAccounted(overlay, before, orig, AllBytes(ts), Count(ts), p, junk(|ps| + 1));
      PayloadFits(orig);
      Wrap32Small(Count(ts + [p]));
      Refusals(Again);
    } else {
      ForeignPasses(overlay, before, orig, p, junk(|ps| + 1));
    }
    StaysQuiet(overlay, s, ps, p, junk);
  }

  lemma PayloadFits(orig: Packet)
    requires Divided(orig)
    ensures |orig.payload| <= UINT32_MAX
  {
  }

  lemma WaitingMeans(overlay: Overlay, s: State, orig: Packet, c: set<nat>, n: nat)
    requires Divided(orig) && Waiting(overlay, s, orig, c, n)
    ensures Accounted(s, orig, c, n) && s.active && s.target == Wrap32(orig.data.seqNo)
    ensures |s.hdr| >= HEADER_PIECES * PIECE_LEN
  {
  }

  lemma CountGrows(orig: Packet, ps: seq<Packet>, p: Packet)
    requires Divided(orig)
    ensures Count(Pieces(orig, ps)) <= Count(Pieces(orig, ps + [p]))
  {
    hide Pieces;
    PiecesStep(orig, ps, p);
    if Sent(orig, p) {
      SentIsWellFormed(orig, p);
      OneMoreTaken(Pieces(orig, ps), p);
    }
  }

  /** As long as bytes are missing, every piece is taken. */
  lemma {:induction false} EveryPieceIsTaken(overlay: Overlay, s: State, orig: Packet, ps: seq<Packet>,
                                             junk: nat -> Slack)
    requires Divided(orig) && Orderly(orig, ps) && Count(Pieces(orig, ps)) < |orig.payload| && Zeroed(junk)
    requires !s.active && |s.hdr| >= HEADER_PIECES * PIECE_LEN && Welcome(overlay, orig, ps[0])
    ensures AllWellFormed(ps) && Quiet(overlay, s, ps, junk) && Refusal(After(overlay, s, ps, junk).verdict)
    ensures var ts := Pieces(orig, ps);
      Taken(overlay, s, ps, junk) == ts && Waiting(overlay, After(overlay, s, ps, junk).state, orig, AllBytes(ts), Count(ts))
    decreases |ps|
  {
    hide *;
    FirstIsSent(orig, ps);
    var front, p := ps[..|ps| - 1], ps[|ps| - 1];
    assert ps == front + [p];
    PiecesStep(orig, front, p);
    if front == [] {
      assert [] + [p] == [p];
      FirstOfRun(overlay, s, orig, p, junk);
      Refusals(Again);
    } else {
      OrderlyPart(orig, front, p);
      OnceMeans(orig, ps);
      CountGrows(orig, front, p);
      ZeroedAt(junk, |ps|);
      EveryPieceIsTaken(overlay, s, orig, front, junk);
      NextOfRun(overlay, s, orig, front, p, junk);
    }
  }

  lemma FirstIsSent(orig: Packet, ps: seq<Packet>)
    requires Divided(orig) && Orderly(orig, ps)
    ensures ps != [] && Sent(orig, ps[0])
  {
  }

  lemma OnceMeans(orig: Packet, ps: seq<Packet>)
    requires Divided(orig) && Orderly(orig, ps)
    ensures SentOnce(orig, ps)
  {
  }

  lemma ZeroedAt(junk: nat -> Slack, i: nat)
    requires Zeroed(junk)
    ensures junk(i).next == Range(0, 0)
  {
  }

  // The last piece.

  /** The piece that makes the payload complete brings it out, when it is taken. */
  lemma LastBringsOut(overlay: Overlay, s: State, orig: Packet, ps: seq<Packet>, p: Packet, junk: nat -> Slack)
    requires Divided(orig) && Orderly(orig, ps) && SentOnce(orig, ps + [p]) && Sent(orig, p) && Zeroed(junk)
    requires Count(Pieces(orig, ps + [p])) == |orig.payload|
    requires !s.active && |s.hdr| >= HEADER_PIECES * PIECE_LEN && Welcome(overlay, orig, ps[0])
    ensures AllWellFormed(ps + [p])
    ensures After(overlay, s, ps + [p], junk).verdict == Merged(orig.data, orig.hdr, Cells(orig.payload))
  {
    hide *;
    PiecesStep(orig, ps, p);
    SentIsWellFormed(orig, p);
    var ts := Pieces(orig, ps);
    OneMoreTaken(ts, p);
    EveryPieceIsTaken(overlay, s, orig, ps, junk);
    RunSteps(overlay, s, ps, p, junk);
    var before, c, n := After(overlay, s, ps, junk).state, AllBytes(ts), Count(ts);
    WaitingMeans(overlay, before, orig, c, n);
    OnceIsNew(orig, ps, p);
    ZeroedAt(junk, |ps| + 1);
    if p.data.Segment? {
      SegmentIsTaken(overlay, before, orig, c, n, p, junk(|ps| + 1));
    } else {
      HeaderIsTaken(overlay, before, orig, c, n, p, junk(|ps| + 1));
    }
    NextIsAccounted(overlay, before, orig, c, n, p, junk(|ps| + 1));
    PayloadFits(orig);
    Wrap32Small(|orig.payload|);
    AllIsEverything(orig, ps + [p]);
  }

  lemma AllIsEverything(orig: Packet, ps: seq<Packet>)
    requires Divided(orig) && SentOnce(orig, ps) && Count(Pieces(orig, ps)) == |orig.payload|
    ensures AllBytes(Pieces(orig, ps)) == Everything(orig)
  {
    hide *;
    PiecesAreSent(orig, ps);
    OnceFits(orig, ps);
    SentIsApart(orig, Pieces(orig, ps));
  }

  /** If the first piece does not let the header packet in, the run is the same up to it, and it is refused. */
  lemma {:induction false} BlockedRun(overlay: Overlay, s: State, orig: Packet, ps: seq<Packet>, junk: nat -> Slack)
    requires Divided(orig) && Orderly(orig, ps) && Count(Pieces(orig, ps)) < |orig.payload| && Zeroed(junk)
    requires !s.active && |s.hdr| >= HEADER_PIECES * PIECE_LEN && !Welcome(overlay, orig, ps[0])
    ensures AllWellFormed(ps) && After(overlay, s, ps, junk) == After(Friendly(orig), s, ps, junk)
    ensures Blocked(overlay, After(overlay, s, ps, junk).state, orig) && Quiet(overlay, s, ps, junk)
    decreases |ps|
  {
    hide *;
    FirstIsSent(orig, ps);
    HeaderFits(orig);
    var front, p := ps[..|ps| - 1], ps[|ps| - 1];
    assert ps == front + [p];
    FriendlyWelcomes(orig, ps[0]);
    EveryPieceIsTaken(Friendly(orig), s, orig, ps, junk);
    Refusals(After(Friendly(orig), s, ps, junk).verdict);
    if front == [] {
      assert [] + [p] == [p];
      Nothing(overlay, s, orig, junk);
      NothingTaken(overlay, s, junk);
      NothingTaken(Friendly(orig), s, junk);
      FirstBlocks(overlay, s, orig, p, junk(1));
      RunSteps(overlay, s, [], p, junk);
      RunSteps(Friendly(orig), s, [], p, junk);
      SegmentsIgnoreOverlay(overlay, Friendly(orig), s, p, junk(1));
      StaysQuiet(overlay, s, front, p, junk);
    } else {
      OrderlyPart(orig, front, p);
      CountGrows(orig, front, p);
      BlockedRun(overlay, s, orig, front, junk);
      RunSteps(overlay, s, front, p, junk);
      RunSteps(Friendly(orig), s, front, p, junk);
      var before := After(overlay, s, front, junk).state;
      BlockedMeans(overlay, before, orig);
      if Sent(orig, p) {
        SegmentsIgnoreOverlay(overlay, Friendly(orig), before, p, junk(|ps|));
      } else {
        ForeignIgnoresOverlay(overlay, Friendly(orig), before, orig, p, junk(|ps|));
      }
      StaysBlocked(overlay, before, orig, p, junk(|ps|));
      NotHeadless(After(overlay, s, ps, junk).verdict);
      StaysQuiet(overlay, s, front, p, junk);
    }
  }

  lemma HeaderFits(orig: Packet)
    requires Divided(orig)
    ensures |orig.hdr| >= HEADER_PIECES * PIECE_LEN
  {
  }

  lemma NotHeadless(v: Verdict)
    requires !PutOut(v)
    ensures !v.Headless?
  {
  }

  lemma BlockedMeans(overlay: Overlay, s: State, orig: Packet)
    requires Divided(orig) && Blocked(overlay, s, orig)
    ensures s.active && s.target == Wrap32(orig.data.seqNo) && |s.hdr| >= HEADER_PIECES * PIECE_LEN
  {
  }

  lemma ForeignIgnoresOverlay(overlay: Overlay, overlay': Overlay, s: State, orig: Packet, p: Packet, junk: Slack)
    requires Divided(orig) && Foreign(orig, p) && s.active && s.target == Wrap32(orig.data.seqNo)
    requires |s.hdr| >= HEADER_PIECES * PIECE_LEN
    ensures Step(overlay, s, p, junk) == Step(overlay', s, p, junk)
  {
  }

  /** The header packet is among the pieces that make up all of the payload, and so it is the last if it is not the
      first. */
  lemma HeaderIsLast(orig: Packet, ps: seq<Packet>, p: Packet)
    requires Divided(orig) && Orderly(orig, ps) && SentOnce(orig, ps + [p]) && Sent(orig, p) && ps[0].data.Segment?
    requires Count(Pieces(orig, ps + [p])) == |orig.payload|
    ensures !p.data.Segment?
  {
    hide Sent, SentOnce, Count, AllBytes, Pieces, BytesOf;
    AllIsEverything(orig, ps + [p]);
    PayloadIsNotEmpty(orig);
    var ts := Pieces(orig, ps + [p]);
    BytesAmong(ts, 0);
    var k :| 0 <= k < |ts| && 0 in BytesOf(ts[k]);
    PiecesAreAmong(orig, ps + [p], ts[k]);
    HeaderIsFirst(orig, ts[k]);
    var i :| 0 <= i < |ps + [p]| && (ps + [p])[i] == ts[k];
    if i < |ps| { assert ps[i] == ts[k]; }
  }

  lemma PayloadIsNotEmpty(orig: Packet)
    requires Divided(orig)
    ensures 0 in Everything(orig)
  {
  }

  /** Pieces that come once, in any order in which the header packet is the first of them or the last, with any gaps and
      with pieces of other packets in between: with zero memory behind the list each of them is taken, and the one that
      completes the payload brings it out as it was sent, if and only if the first piece lets the header packet in. */
  lemma ComesOut(overlay: Overlay, s: State, orig: Packet, ps: seq<Packet>, p: Packet, junk: nat -> Slack)
    requires Divided(orig) && Orderly(orig, ps) && SentOnce(orig, ps + [p]) && Sent(orig, p) && Zeroed(junk)
    requires Count(Pieces(orig, ps + [p])) == |orig.payload|
    requires !s.active && |s.hdr| >= HEADER_PIECES * PIECE_LEN
    ensures AllWellFormed(ps + [p])
    ensures After(overlay, s, ps + [p], junk).verdict ==
      if Welcome(overlay, orig, ps[0]) then Merged(orig.data, orig.hdr, Cells(orig.payload)) else Invalid
  {
    hide *;
    FirstIsSent(orig, ps);
    if Welcome(overlay, orig, ps[0]) {
      LastBringsOut(overlay, s, orig, ps, p, junk);
    } else {
      PiecesStep(orig, ps, p);
      SentIsWellFormed(orig, p);
      OneMoreTaken(Pieces(orig, ps), p);
      BlockedRun(overlay, s, orig, ps, junk);
      UnwelcomeIsSegment(overlay, orig, ps[0]);
      HeaderIsLast(orig, ps, p);
      RunSteps(overlay, s, ps, p, junk);
      HeaderIsRefused(overlay, After(overlay, s, ps, junk).state, orig, p, junk(|ps| + 1));
    }
  }

  lemma UnwelcomeIsSegment(overlay: Overlay, orig: Packet, p: Packet)
    requires Divided(orig) && !Welcome(overlay, orig, p)
    ensures p.data.Segment?
  {
  }

  lemma {:induction false} QuietIsSmooth(overlay: Overlay, s: State, ps: seq<Packet>, junk: nat -> Slack, k: nat)
    requires |s.hdr| >= HEADER_PIECES * PIECE_LEN && AllWellFormed(ps) && Quiet(overlay, s, ps, junk) && k <= |ps|
    ensures After(overlay, s, ps[..k], junk).verdict != Undefined
    decreases |ps|
  {
    hide After;
    if k == |ps| {
      assert ps[..k] == ps;
    } else {
      assert ps[..|ps| - 1][..k] == ps[..k];
      QuietIsSmooth(overlay, s, ps[..|ps| - 1], junk, k);
    }
  }

  lemma RunIsQuiet(overlay: Overlay, s: State, orig: Packet, ps: seq<Packet>, junk: nat -> Slack)
    requires Divided(orig) && Orderly(orig, ps) && Count(Pieces(orig, ps)) < |orig.payload| && Zeroed(junk)
    requires !s.active && |s.hdr| >= HEADER_PIECES * PIECE_LEN
    ensures AllWellFormed(ps) && Quiet(overlay, s, ps, junk)
  {
    hide *;
    FirstIsSent(orig, ps);
    if Welcome(overlay, orig, ps[0]) {
      EveryPieceIsTaken(overlay, s, orig, ps, junk);
    } else {
      BlockedRun(overlay, s, orig, ps, junk);
    }
  }

  lemma ComesOutSmoothly(overlay: Overlay, s: State, orig: Packet, ps: seq<Packet>, p: Packet, junk: nat -> Slack)
    requires Divided(orig) && Orderly(orig, ps) && SentOnce(orig, ps + [p]) && Sent(orig, p) && Zeroed(junk)
    requires Count(Pieces(orig, ps + [p])) == |orig.payload|
    requires !s.active && |s.hdr| >= HEADER_PIECES * PIECE_LEN
    ensures AllWellFormed(ps + [p]) && Smooth(overlay, s, ps + [p], junk)
  {
    hide Divided, Orderly, SentOnce, Sent, Zeroed, Count, Pieces, After, Welcome, Cells, WellFormed, Quiet, From, To;
    SentIsWellFormed(orig, p);
    PiecesStep(orig, ps, p);
    OneMoreTaken(Pieces(orig, ps), p);
    RunIsQuiet(overlay, s, orig, ps, junk);
    ComesOut(overlay, s, orig, ps, p, junk);
    forall k | 0 <= k <= |ps + [p]|
      ensures After(overlay, s, (ps + [p])[..k], junk).verdict != Undefined
    {
      if k <= |ps| {
        assert (ps + [p])[..k] == ps[..k];
        QuietIsSmooth(overlay, s, ps, junk, k);
      } else {
        assert (ps + [p])[..k] == ps + [p];
      }
    }
  }

  /** The same in place. */
  method FeedOnce(m: Merger, ghost orig: Packet, ps: seq<Packet>, p: Packet, junk: nat -> Slack)
    returns (ret: int, verdict: Verdict)
    requires Divided(orig) && Orderly(orig, ps) && SentOnce(orig, ps + [p]) && Sent(orig, p) && Zeroed(junk)
    requires Count(Pieces(orig, ps + [p])) == |orig.payload|
    requires !m.active && |m.hdr| >= HEADER_PIECES * PIECE_LEN
    modifies m
    ensures verdict != Undefined && ret == Returned(verdict)
    ensures verdict == if Welcome(m.overlay, orig, ps[0]) then Merged(orig.data, orig.hdr, Cells(orig.payload)) else Invalid
  {
    hide Divided, Orderly, SentOnce, Sent, Zeroed, Count, Pieces, After, Welcome, Cells, Smooth, Step;
    ComesOutSmoothly(m.overlay, m.Snapshot(), orig, ps, p, junk);
    ComesOut(m.overlay, m.Snapshot(), orig, ps, p, junk);
    ret, verdict := Feed(m, ps + [p], junk);
  }

  // The header packet in between.

  lemma GapIsInserted(f: nat, a: nat, second: nat, length: nat, junk: Slack)
    requires 0 < second < second + length < f && 0 < a && 0 < length && f + a <= UINT32_MAX && junk.next == Range(0, 0)
    ensures FillRanges([Range(f, a)], second, length, junk) == Stored([Range(f, a), Range(0, 0)])
  {
    hide Wrap32;
    Wrap32Small(second + length);
    Wrap32Small(f + a);
    assert WorkIn([Range(f, a)], second, length, 1, 0) == Insert(0);
  }

  lemma HeaderIsRecorded(f: nat, a: nat, d: nat, junk: Slack)
    requires 0 < d < f && 0 < a && f + a <= UINT32_MAX
    ensures FillRanges([Range(f, a), Range(0, 0)], 0, d, junk) == Stored([Range(f, a), Range(0, d)])
  {
    hide Wrap32;
    Wrap32Small(d);
    Wrap32Small(f + a);
    Wrap32Small(0);
    assert WorkIn([Range(f, a), Range(0, 0)], 0, d, 1, 0) == Filled([Range(f, a), Range(0, d)]);
  }

  /** A piece behind the first range makes it a range of the size of the second. */
  lemma RecordGoesWrong(f: nat, a: nat, d: nat, b: nat, junk: Slack)
    requires 0 < d < f && 0 < a && 0 < b && f + a + b <= UINT32_MAX
    ensures FillRanges([Range(f, a), Range(0, d)], f + a, b, junk) == Stored([Range(f, d)])
  {
    hide Wrap32, Torn;
    Wrap32Small(f + a);
    Wrap32Small(f + a + b);
    Wrap32Small(a + b);
    assert WorkIn([Range(f, a), Range(0, d)], f + a, b, 0, 0) == Consolidate([Range(f, a + b), Range(0, d)], 0);
  }

  lemma WrongRecordPasses(f: nat, a: nat, d: nat, b: nat)
    requires 0 < d < f && 0 < a && 0 < b && f + a + b <= UINT32_MAX
    ensures Overlap([Range(f, a), Range(0, 0)], 0, d, 0) == PassThrough
    ensures Overlap([Range(f, a), Range(0, d)], f + a, b, 0) == PassThrough
  {
    Wrap32Small(f + a);
    Wrap32Small(f + a + b);
    Wrap32Small(d);
    Wrap32Small(0);
    hide Wrap32;
    assert Overlap([Range(f, a), Range(0, 0)], 0, d, 2) == PassThrough;
    assert Overlap([Range(f, a), Range(0, d)], f + a, b, 2) == PassThrough;
  }

  /** The merger has the bytes c, and these ranges on record. */
  ghost predicate Recorded(overlay: Overlay, s: State, orig: Packet, c: set<nat>, n: nat, ranges: seq<Range>)
    requires Divided(orig)
  {
    Accounted(s, orig, c, n) && Agrees(s, orig.hdr) && HeaderOpen(overlay, s, orig) && s.ranges == ranges
  }

  lemma PieceIsRecorded(overlay: Overlay, s: State, orig: Packet, c: set<nat>, n: nat, ranges: seq<Range>, p: Packet,
                        junk: Slack, ranges': seq<Range>)
    requires Divided(orig) && Recorded(overlay, s, orig, c, n, ranges) && Sent(orig, p)
    requires !p.data.Segment? ==> 0 !in c && |ranges| > 1
    requires Overlap(ranges, From(p), To(p) - From(p), 0) == PassThrough
    requires FillRanges(ranges, From(p), To(p) - From(p), junk) == Stored(ranges')
    requires n + (To(p) - From(p)) < |orig.payload|
    ensures WellFormed(p)
    ensures var r := Step(overlay, s, p, junk);
      r.verdict == Again && Recorded(overlay, r.state, orig, c + BytesOf(p), n + (To(p) - From(p)), ranges')
  {
    hide Overlap, FillRanges, Wrap32, Sent, Step, Agrees, HeaderOpen, InPlace, Takes, HasHoles, Everything, Cells,
      BytesOf;
    SentIsWellFormed(orig, p);
    if p.data.Segment? {
      SegmentStep(overlay, s, orig, c, n, p, junk);
    } else {
      HeaderStep(overlay, s, orig, c, n, p, junk);
    }
    NextIsAccounted(overlay, s, orig, c, n, p, junk);
    PayloadFits(orig);
    Wrap32Small(n + (To(p) - From(p)));
  }

  lemma FirstIsRecorded(overlay: Overlay, s: State, orig: Packet, p: Packet, junk: Slack)
    requires Divided(orig) && Sent(orig, p) && !s.active && |s.hdr| >= HEADER_PIECES * PIECE_LEN
    requires Welcome(overlay, orig, p)
    ensures WellFormed(p)
    ensures var (r, n) := (Step(overlay, s, p, junk), To(p) - From(p));
      r.verdict == Again && Recorded(overlay, r.state, orig, BytesOf(p), n, [Range(From(p), n)])
  {
    hide Step, Takes, Accounted, Agrees, HeaderOpen, HasBytes, Sent, Welcome, Wrap32;
    FirstWaits(overlay, s, orig, p, junk);
    FirstIsTaken(overlay, s, orig, p, junk);
  }

  lemma LastIsRefused(overlay: Overlay, s: State, orig: Packet, c: set<nat>, n: nat, r: Range, p: Packet, junk: Slack)
    requires Divided(orig) && Recorded(overlay, s, orig, c, n, [r]) && Sent(orig, p) && p.data.Segment?
    requires r.offset < From(p) && To(p) <= r.offset + r.size <= UINT32_MAX
    ensures WellFormed(p) && Step(overlay, s, p, junk) == Result(Invalid, s)
  {
    hide FillRanges, Overwrite, PieceBit, Wrap32, Accept;
    SentIsWellFormed(orig, p);
    Wrap32Small(To(p));
    Wrap32Small(r.offset + r.size);
  }

  /** With the header packet in between, a piece that never came may be refused: two segments with a gap between them,
      the header packet, the piece behind the first of them, and then one that ends less than a header packet's length
      after the start of the first. */
  lemma HeaderBetween(overlay: Overlay, s: State, orig: Packet, first: Packet, second: Packet, header: Packet,
                      next: Packet, late: Packet, junk: Slack)
    requires Divided(orig) && junk.next == Range(0, 0) && !s.active && |s.hdr| >= HEADER_PIECES * PIECE_LEN
    requires Welcome(overlay, orig, first)
    requires Sent(orig, first) && Sent(orig, second) && Sent(orig, header) && Sent(orig, next) && Sent(orig, late)
    requires first.data.Segment? && second.data.Segment? && !header.data.Segment? && next.data.Segment?
    requires late.data.Segment?
    requires To(second) < From(first) && From(next) == To(first)
    requires To(next) <= From(late) && To(late) <= From(first) + orig.data.dataLength <= UINT32_MAX
    ensures SentOnce(orig, [first, second, header, next, late])
    ensures WellFormed(first) && WellFormed(second) && WellFormed(header) && WellFormed(next) && WellFormed(late)
    ensures var one := Step(overlay, s, first, junk);
      var two := Step(overlay, one.state, second, junk);
      var three := Step(overlay, two.state, header, junk);
      var four := Step(overlay, three.state, next, junk);
      && one.verdict == two.verdict == three.verdict == four.verdict == Again
      && Step(overlay, four.state, late, junk) == Result(Invalid, four.state)
  {
    hide *;
    Places(orig, first, second, header, next, late);
    var (f, a, b, d) := (From(first), To(first) - From(first), To(next) - From(next), To(header));
    var (n, c) := (a + (To(second) - From(second)), BytesOf(first) + BytesOf(second));
    NoFirstByte(orig, c, first, second);
    FirstIsRecorded(overlay, s, orig, first, junk);
    var one := Step(overlay, s, first, junk).state;
    GapIsInserted(f, a, From(second), To(second) - From(second), junk);
    GapPasses(f, a, From(second), To(second) - From(second));
    PieceIsRecorded(overlay, one, orig, BytesOf(first), a, [Range(f, a)], second, junk, [Range(f, a), Range(0, 0)]);
    var two := Step(overlay, one, second, junk).state;
    WrongRecordPasses(f, a, d, b);
    HeaderIsRecorded(f, a, d, junk);
    PieceIsRecorded(overlay, two, orig, c, n, [Range(f, a), Range(0, 0)], header, junk, [Range(f, a), Range(0, d)]);
    var three := Step(overlay, two, header, junk).state;
    RecordGoesWrong(f, a, d, b, junk);
    PieceIsRecorded(overlay, three, orig, c + BytesOf(header), n + d, [Range(f, a), Range(0, d)], next, junk,
                    [Range(f, d)]);
    var four := Step(overlay, three, next, junk).state;
    LastIsRefused(overlay, four, orig, c + BytesOf(header) + BytesOf(next), n + d + b, Range(f, d), late, junk);
  }

  lemma Places(orig: Packet, first: Packet, second: Packet, header: Packet, next: Packet, late: Packet)
    requires Divided(orig)
    requires Sent(orig, first) && Sent(orig, second) && Sent(orig, header) && Sent(orig, next) && Sent(orig, late)
    requires first.data.Segment? && second.data.Segment? && !header.data.Segment? && next.data.Segment?
    requires late.data.Segment?
    requires To(second) < From(first) && From(next) == To(first)
    requires To(next) <= From(late) && To(late) <= From(first) + orig.data.dataLength
    ensures 0 == From(header) < To(header) == orig.data.dataLength <= From(second) < To(second)
    ensures From(first) < To(first)
    ensures From(next) < To(next) && From(late) < To(late) <= |orig.payload| <= UINT32_MAX
    ensures SentOnce(orig, [first, second, header, next, late])
  {
    hide Sent;
    HeaderSpan(orig, header);
    SegmentComesAfter(orig, second);
    SentIsWellFormed(orig, first);
    SentIsWellFormed(orig, second);
    SentIsWellFormed(orig, next);
    SentIsWellFormed(orig, late);
    hide From, To;
  }

  lemma SegmentComesAfter(orig: Packet, p: Packet)
    requires Divided(orig) && Sent(orig, p) && p.data.Segment?
    ensures orig.data.dataLength <= From(p)
  {
  }

  lemma NoFirstByte(orig: Packet, c: set<nat>, first: Packet, second: Packet)
    requires 0 < From(first) && 0 < From(second) && c == BytesOf(first) + BytesOf(second)
    ensures 0 !in c
  {
  }

  lemma GapPasses(f: nat, a: nat, second: nat, length: nat)
    requires 0 < second < second + length < f && 0 < length && f + a <= UINT32_MAX
    ensures Overlap([Range(f, a)], second, length, 0) == PassThrough
  {
    hide Wrap32;
    Wrap32Small(second + length);
    Wrap32Small(f + a);
    assert Overlap([Range(f, a)], second, length, 1) == PassThrough;
  }
}
