/** Which orders of arrival give a payload back, and which do not. */
module Reassembly {
  import opened FixedWidth
  import opened Packets
  import opened Merging

  /** A packet that is sent in pieces: `orig.payload` is all of the payload, of which the header packet carries the
      first `dataLength` bytes. */
  ghost predicate Divided(orig: Packet) {
    && orig.data.StreamData? && orig.data.segmented && |orig.hdr| >= HEADER_PIECES * PIECE_LEN
    && 0 < orig.data.dataLength < |orig.payload| <= UINT32_MAX
  }

  /** `p` is the header packet of `orig`, or one of its segments, of whatever size and sequence number. */
  ghost predicate Sent(orig: Packet, p: Packet)
    requires Divided(orig)
  {
    if p.data.Segment? then
      && orig.data.dataLength <= p.data.offset < p.data.offset + p.data.length <= |orig.payload|
      && p.data == CreateSegment(orig, p.data.seqNo, p.data.offset, p.data.length, |orig.payload|)
      && p.payload == orig.payload[p.data.offset..p.data.offset + p.data.length] && |p.hdr| >= HEADER_PIECES * PIECE_LEN
    else
      p.data == orig.data && p.hdr == orig.hdr && p.payload == orig.payload[..orig.data.dataLength]
  }

  function From(p: Packet): nat { SeriesOf(p.data).offset }

  function To(p: Packet): nat { SeriesOf(p.data).offset + SeriesOf(p.data).size }

  lemma SentIsWellFormed(orig: Packet, p: Packet)
    requires Divided(orig) && Sent(orig, p)
    ensures WellFormed(p) && From(p) < To(p) <= |orig.payload| && |p.payload| == SeriesOf(p.data).size
    ensures SeriesOf(p.data).kind == (if p.data.Segment? then -1 else 1) && TargetOf(p.data) == Wrap32(orig.data.seqNo)
    ensures p.payload == orig.payload[From(p)..To(p)] && (From(p) == 0 <==> !p.data.Segment?)
    ensures From(p) == 0 ==> To(p) < |orig.payload|
  {
  }

  /** When a segment comes first, the header packet is compared with the header piece it brought: this is when the
      comparison, of what the union shows in the place of a header piece, lets the header packet in. */
  ghost predicate Welcome(overlay: Overlay, orig: Packet, first: Packet)
    requires Divided(orig)
  {
    first.data.Segment? && Part(first.data.seqNo) == Part(orig.data.seqNo) ==>
      overlay(orig.data) == PieceAt(orig.hdr, Part(orig.data.seqNo))
  }

  /** The header packet may still come, or is here. */
  ghost predicate HeaderOpen(overlay: Overlay, s: State, orig: Packet)
    requires Divided(orig)
  {
    if s.available then s.data == orig.data && s.hdr == orig.hdr
    else HasPiece(s.mask, Part(orig.data.seqNo)) ==> overlay(orig.data) == PieceAt(orig.hdr, Part(orig.data.seqNo))
  }

  /** The buffer has the bytes of the payload from `lo` to `hi`, and room for the rest once its length is known. */
  ghost predicate HasBytes(s: State, orig: Packet, lo: nat, hi: nat)
    requires Divided(orig)
  {
    && lo < hi <= |orig.payload| && hi <= |s.mem|
    && (forall i :: lo <= i < hi ==> s.mem[i] == Set(orig.payload[i]))
    && (if s.total == 0 then lo == 0 && s.len == 0
        else s.total == s.len == |orig.payload| <= |s.mem|)
  }

  /** The merger is at work on `orig`, of which it has exactly the bytes from `lo` to `hi`. */
  ghost predicate Holding(overlay: Overlay, s: State, orig: Packet, lo: nat, hi: nat)
    requires Divided(orig)
  {
    && s.active && s.target == Wrap32(orig.data.seqNo) && (s.available <==> lo == 0)
    && Agrees(s, orig.hdr) && HeaderOpen(overlay, s, orig) && HasBytes(s, orig, lo, hi)
    && s.ranges == [Range(lo, hi - lo)] && s.tracked == hi - lo < |orig.payload|
  }

  lemma Wrap32Small(x: int)
    requires 0 <= x <= UINT32_MAX
    ensures Wrap32(x) == x
  {
  }

  lemma OneRangeOverlap(lo: nat, hi: nat, offset: nat, size: nat)
    requires lo < hi <= UINT32_MAX && 0 < size && offset + size <= UINT32_MAX
    ensures var v := Overlap([Range(lo, hi - lo)], offset, size, 0);
      && (v == PassThrough || v == Again || v == Invalid)
      && (v == PassThrough <==> !(lo < offset + size <= hi))
  {
    Wrap32Small(hi);
    Wrap32Small(offset + size);
    hide Wrap32;
    assert Overlap([Range(lo, hi - lo)], offset, size, 1) == PassThrough;
  }

  /** A piece whose last byte is there already is turned away, and nothing changes. */
  lemma ReplayIsRefused(overlay: Overlay, s: State, orig: Packet, lo: nat, hi: nat, p: Packet, junk: Slack)
    requires Divided(orig) && Holding(overlay, s, orig, lo, hi) && Sent(orig, p) && lo < To(p) <= hi
    ensures WellFormed(p)
    ensures var r := Step(overlay, s, p, junk); r.state == s && (r.verdict == Again || r.verdict == Invalid)
  {
    SentIsWellFormed(orig, p);
    OneRangeOverlap(lo, hi, From(p), To(p) - From(p));
  }

  /** The header check lets every piece of this packet pass. */
  lemma PieceIsValid(overlay: Overlay, s: State, orig: Packet, lo: nat, hi: nat, p: Packet)
    requires Divided(orig) && Holding(overlay, s, orig, lo, hi) && Sent(orig, p) && (From(p) == hi || To(p) == lo)
    ensures Validate(overlay, s, p) == PassThrough
  {
    SentIsWellFormed(orig, p);
    OneRangeOverlap(lo, hi, From(p), To(p) - From(p));
    var part := Part(p.data.seqNo);
    if HasPiece(s.mask, part) {
      assert PieceAt(s.hdr, part) == PieceAt(orig.hdr, part);
    }
  }

  lemma GrowsAtEitherEnd(lo: nat, hi: nat, offset: nat, size: nat, junk: Slack)
    requires lo < hi <= UINT32_MAX && 0 < size && offset + size <= UINT32_MAX && (offset == hi || offset + size == lo)
    ensures FillRanges([Range(lo, hi - lo)], offset, size, junk) ==
      Stored([if offset == hi then Range(lo, offset + size - lo) else Range(offset, hi - offset)])
  {
    Wrap32Small(hi);
    Wrap32Small(offset + size);
    Wrap32Small(hi - lo + size);
  }

  /** Adding `p` takes the bytes from `lo` to `hi` to those from `lo'` to `hi'`. */
  predicate Extends(lo: nat, hi: nat, p: Packet, lo': nat, hi': nat) {
    (From(p) == hi && lo' == lo && hi' == To(p)) || (To(p) == lo && lo' == From(p) && hi' == hi)
  }

  /** Writing the piece next to what is there. */
  lemma BytesAdded(s: State, orig: Packet, lo: nat, hi: nat, p: Packet, ranges: seq<Range>, lo': nat, hi': nat)
    requires Divided(orig) && HasBytes(s, orig, lo, hi) && Sent(orig, p) && Extends(lo, hi, p, lo', hi')
    requires s.total != 0
    ensures To(p) <= |s.mem| && |p.payload| == To(p) - From(p) && HasBytes(Placed(s, p, ranges), orig, lo', hi')
  {
    hide Overwrite, Sent, Wrap32;
    SentIsWellFormed(orig, p);
    OverwriteAt(s.mem, From(p), p.payload);
  }

  lemma SizedHasBytes(s: State, orig: Packet, lo: nat, hi: nat, p: Packet)
    requires Divided(orig) && HasBytes(s, orig, lo, hi) && Sent(orig, p)
    requires s.total == 0 ==> p.data.Segment?
    ensures var t := Sized(Informed(s, p), SeriesOf(p.data).total);
      HasBytes(t, orig, lo, hi) && t.total == |orig.payload|
  {
  }

  lemma ReadyHeader(overlay: Overlay, s: State, orig: Packet, p: Packet)
    requires Divided(orig) && Sent(orig, p) && Agrees(s, orig.hdr) && HeaderOpen(overlay, s, orig)
    ensures var t := Sized(Informed(s, p), SeriesOf(p.data).total);
      && Agrees(t, orig.hdr) && HeaderOpen(overlay, t, orig)
      && t.tracked == s.tracked && t.active == s.active && t.target == s.target
      && (t.available <==> s.available || !p.data.Segment?)
  {
  }

  /** What is taken is grown into the one range and written in its place. */
  lemma TakenIsPlaced(overlay: Overlay, s: State, orig: Packet, lo: nat, hi: nat, p: Packet, junk: Slack, lo': nat,
                      hi': nat)
    requires Divided(orig) && Holding(overlay, s, orig, lo, hi) && Sent(orig, p) && Extends(lo, hi, p, lo', hi')
    ensures s.total == 0 ==> p.data.Segment?
    ensures var ready := Sized(Informed(s, p), SeriesOf(p.data).total);
      && WellFormed(p) && lo' < hi' && ready.total != 0 && To(p) <= |ready.mem| && |p.payload| == To(p) - From(p)
      && Step(overlay, s, p, junk) == Finish(Placed(ready, p, [Range(lo', hi' - lo')]))
  {
    hide Validate, FillRanges, Agrees, HeaderOpen, Finish, Wrap32, Resized, Sent, Placed;
    SentIsWellFormed(orig, p);
    PieceIsValid(overlay, s, orig, lo, hi, p);
    GrowsAtEitherEnd(lo, hi, From(p), To(p) - From(p), junk);
    SizedHasBytes(s, orig, lo, hi, p);
  }

  /** With the bytes from `lo` to `hi` in place: either that is all, and it goes out, or more is asked for. */
  lemma OutOrHolding(overlay: Overlay, s: State, orig: Packet, lo: nat, hi: nat)
    requires Divided(orig) && s.active && s.target == Wrap32(orig.data.seqNo) && (s.available <==> lo == 0)
    requires Agrees(s, orig.hdr) && HeaderOpen(overlay, s, orig) && HasBytes(s, orig, lo, hi)
    requires s.ranges == [Range(lo, hi - lo)] && s.tracked == hi - lo && s.total != 0
    ensures var r := Finish(s);
      if hi - lo == |orig.payload| then r.verdict == Merged(orig.data, orig.hdr, Cells(orig.payload)) && !r.state.active
      else r.verdict == Again && Holding(overlay, r.state, orig, lo, hi)
  {
    if hi - lo == |orig.payload| {
      assert s.mem[..s.len] == Cells(orig.payload);
    }
  }

  lemma PlacedHeader(overlay: Overlay, s: State, orig: Packet, p: Packet, ranges: seq<Range>)
    requires Divided(orig) && Agrees(s, orig.hdr) && HeaderOpen(overlay, s, orig)
    requires SeriesOf(p.data).offset + |p.payload| <= |s.mem|
    ensures var t := Placed(s, p, ranges);
      && Agrees(t, orig.hdr) && HeaderOpen(overlay, t, orig) && t.active == s.active && t.target == s.target
      && t.available == s.available && t.total == s.total && t.ranges == ranges
      && t.tracked == Wrap32(s.tracked + (To(p) - From(p)))
  {
  }

  /** A piece next to what is there is taken. The last one brings the payload out, whole and with its header. */
  lemma PieceIsTaken(overlay: Overlay, s: State, orig: Packet, lo: nat, hi: nat, p: Packet, junk: Slack, lo': nat,
                     hi': nat)
    requires Divided(orig) && Holding(overlay, s, orig, lo, hi) && Sent(orig, p) && Extends(lo, hi, p, lo', hi')
    ensures WellFormed(p)
    ensures var r := Step(overlay, s, p, junk);
      if hi' - lo' == |orig.payload| then r.verdict == Merged(orig.data, orig.hdr, Cells(orig.payload)) && !r.state.active
      else r.verdict == Again && Holding(overlay, r.state, orig, lo', hi')
  {
    hide Agrees, HeaderOpen, Placed, HasBytes, Sized, Informed, Wrap32, Sent, Finish, Step, SeriesOf, WellFormed;
    SentIsWellFormed(orig, p);
    TakenIsPlaced(overlay, s, orig, lo, hi, p, junk, lo', hi');
    SizedHasBytes(s, orig, lo, hi, p);
    ReadyHeader(overlay, s, orig, p);
    var ready := Sized(Informed(s, p), SeriesOf(p.data).total);
    var ranges := [Range(lo', hi' - lo')];
    BytesAdded(ready, orig, lo, hi, p, ranges, lo', hi');
    PlacedHeader(overlay, ready, orig, p, ranges);
    Wrap32Small(s.tracked + (To(p) - From(p)));
    OutOrHolding(overlay, Placed(ready, p, ranges), orig, lo', hi');
  }

  lemma FirstBytes(orig: Packet, p: Packet)
    requires Divided(orig) && Sent(orig, p)
    ensures |p.payload| == To(p) - From(p) && (From(p) != 0 ==> To(p) <= SeriesOf(p.data).total)
    ensures |FirstMemory(p)| >= To(p) && (From(p) != 0 ==> |FirstMemory(p)| == |orig.payload|)
    ensures forall i :: From(p) <= i < To(p) ==> FirstMemory(p)[i] == Set(orig.payload[i])
  {
    SentIsWellFormed(orig, p);
  }

  lemma FirstHeader(overlay: Overlay, s: State, orig: Packet, p: Packet)
    requires Divided(orig) && Sent(orig, p) && |s.hdr| >= HEADER_PIECES * PIECE_LEN && Welcome(overlay, orig, p)
    ensures WellFormed(p)
    ensures var t := Identified(overlay, s, p);
      && Agrees(t, orig.hdr) && HeaderOpen(overlay, t, orig) && (t.available <==> !p.data.Segment?)
      && t.target == Wrap32(orig.data.seqNo)
  {
    if p.data.Segment? {
      var t, part := Identified(overlay, s, p), Part(p.data.seqNo);
      WithPieceAt(s.hdr, part, p.data.header7, part);
      forall j | 0 <= j < HEADER_PIECES
        ensures HasPiece(t.mask, j) <==> j == part
      {
        BitsAreDistinct(part, j);
      }
      hide HasPiece, PieceBit, WithPiece, Wrap32;
      assert PieceAt(t.hdr, part) == PieceAt(orig.hdr, part);
    }
  }

  /** The first piece always asks for more. */
  lemma FirstIsTaken(overlay: Overlay, s: State, orig: Packet, p: Packet, junk: Slack)
    requires Divided(orig) && Sent(orig, p) && !s.active && |s.hdr| >= HEADER_PIECES * PIECE_LEN
    requires Welcome(overlay, orig, p)
    ensures WellFormed(p)
    ensures var r := Step(overlay, s, p, junk); r.verdict == Again && Holding(overlay, r.state, orig, From(p), To(p))
  {
    SentIsWellFormed(orig, p);
    FirstBytes(orig, p);
    FirstHeader(overlay, s, orig, p);
    hide Identified, FirstMemory, Accept, Validate, Wrap32, WellFormed;
  }

  /** A piece of some other packet. */
  ghost predicate Foreign(orig: Packet, p: Packet) {
    WellFormed(p) && SeriesOf(p.data).kind != 0 && TargetOf(p.data) != Wrap32(orig.data.seqNo)
  }

  datatype Interval = Interval(lo: nat, hi: nat)

  ghost function Grown(orig: Packet, i: Interval, p: Packet): Interval {
    if Foreign(orig, p) then i
    else if From(p) == i.hi then Interval(i.lo, To(p))
    else if To(p) == i.lo then Interval(From(p), i.hi)
    else i
  }

  /** The bytes that have arrived, when they arrive as one interval. */
  ghost function Received(orig: Packet, ps: seq<Packet>): Interval
    requires |ps| > 0
  {
    if |ps| == 1 then Interval(From(ps[0]), To(ps[0])) else Grown(orig, Received(orig, ps[..|ps| - 1]), ps[|ps| - 1])
  }

  /** `p` joins the interval at one of its ends, repeats bytes of it, or does not belong to the packet. */
  ghost predicate Joins(orig: Packet, i: Interval, p: Packet)
    requires Divided(orig)
  {
    Foreign(orig, p) || (Sent(orig, p) && (From(p) == i.hi || To(p) == i.lo || i.lo < To(p) <= i.hi))
  }

  ghost predicate OneInterval(orig: Packet, ps: seq<Packet>)
    requires Divided(orig)
  {
    && |ps| > 0
    && if |ps| == 1 then Sent(orig, ps[0])
       else OneInterval(orig, ps[..|ps| - 1]) && Joins(orig, Received(orig, ps[..|ps| - 1]), ps[|ps| - 1])
  }

  ghost predicate Incomplete(orig: Packet, ps: seq<Packet>) {
    |ps| > 0 && Received(orig, ps) != Interval(0, |orig.payload|) && (|ps| > 1 ==> Incomplete(orig, ps[..|ps| - 1]))
  }

  lemma {:induction false} JoinedAreWellFormed(orig: Packet, ps: seq<Packet>)
    requires Divided(orig) && OneInterval(orig, ps)
    ensures AllWellFormed(ps)
  {
    if |ps| > 1 { JoinedAreWellFormed(orig, ps[..|ps| - 1]); }
  }

  ghost predicate AllWellFormed(ps: seq<Packet>) { forall i :: 0 <= i < |ps| ==> WellFormed(ps[i]) }

  /** The merger after these packets, with what it said to the last of them. */
  ghost function After(overlay: Overlay, s: State, ps: seq<Packet>, junk: nat -> Slack): (r: Result)
    requires |s.hdr| >= HEADER_PIECES * PIECE_LEN && AllWellFormed(ps)
    ensures |r.state.hdr| >= HEADER_PIECES * PIECE_LEN
  {
    if ps == [] then Result(Again, s)
    else Step(overlay, After(overlay, s, ps[..|ps| - 1], junk).state, ps[|ps| - 1], junk(|ps|))
  }

  predicate Refusal(v: Verdict) { v == Again || v == Busy || v == Invalid }

  /** As long as bytes are missing: every new piece is taken with a request for more, every repeated or foreign one is
      refused without a trace, and the merger holds exactly what has been received. */
  lemma {:induction false} HoldsWhatArrived(overlay: Overlay, s: State, orig: Packet, ps: seq<Packet>,
                                            junk: nat -> Slack)
    requires Divided(orig) && OneInterval(orig, ps) && Incomplete(orig, ps)
    requires !s.active && |s.hdr| >= HEADER_PIECES * PIECE_LEN && Welcome(overlay, orig, ps[0])
    ensures AllWellFormed(ps)
    ensures var (r, i) := (After(overlay, s, ps, junk), Received(orig, ps));
      && Holding(overlay, r.state, orig, i.lo, i.hi) && Refusal(r.verdict)
      && (|ps| == 1 || Received(orig, ps[..|ps| - 1]) != i ==> r.verdict == Again)
      && (|ps| > 1 && Received(orig, ps[..|ps| - 1]) == i ==>
            r.state == After(overlay, s, ps[..|ps| - 1], junk).state && Refusal(r.verdict))
  {
    JoinedAreWellFormed(orig, ps);
    var front, p := ps[..|ps| - 1], ps[|ps| - 1];
    if |ps| == 1 {
      assert ps == [p] && front == [];
      FirstIsTaken(overlay, s, orig, p, junk(1));
    } else {
      HoldsWhatArrived(overlay, s, orig, front, junk);
      NextArrival(overlay, After(overlay, s, front, junk).state, orig, Received(orig, front), p, junk(|ps|));
    }
  }

  lemma NextArrival(overlay: Overlay, s: State, orig: Packet, i: Interval, p: Packet, junk: Slack)
    requires Divided(orig) && Holding(overlay, s, orig, i.lo, i.hi) && Joins(orig, i, p) && WellFormed(p)
    ensures var (r, j) := (Step(overlay, s, p, junk), Grown(orig, i, p));
      if i == j then r.state == s && Refusal(r.verdict)
      else if j == Interval(0, |orig.payload|) then r.verdict == Merged(orig.data, orig.hdr, Cells(orig.payload)) && !r.state.active
      else r.verdict == Again && Holding(overlay, r.state, orig, j.lo, j.hi)
  {
    if !Foreign(orig, p) {
      SentIsWellFormed(orig, p);
      if From(p) == i.hi || To(p) == i.lo {
        PieceIsTaken(overlay, s, orig, i.lo, i.hi, p, junk, Grown(orig, i, p).lo, Grown(orig, i, p).hi);
      } else {
        ReplayIsRefused(overlay, s, orig, i.lo, i.hi, p, junk);
      }
    }
  }

  /** A merger that will never let the header packet in. */
  ghost predicate Blocked(overlay: Overlay, s: State, orig: Packet)
    requires Divided(orig)
  {
    var part := Part(orig.data.seqNo);
    && |s.hdr| >= HEADER_PIECES * PIECE_LEN && s.active && !s.available && s.target == Wrap32(orig.data.seqNo)
    && HasPiece(s.mask, part) && PieceAt(s.hdr, part) != overlay(orig.data)
  }

  /** The header packet is refused each time it comes. */
  lemma HeaderIsRefused(overlay: Overlay, s: State, orig: Packet, p: Packet, junk: Slack)
    requires Divided(orig) && Blocked(overlay, s, orig) && Sent(orig, p) && !p.data.Segment?
    ensures WellFormed(p) && Step(overlay, s, p, junk) == Result(Invalid, s)
  {
    hide Wrap32, HasPiece, PieceAt, Overwrite, Resized, FillRanges, Overlap;
  }

  /** And no segment changes that, as long as the payload is not complete. */
  lemma StaysBlocked(overlay: Overlay, s: State, orig: Packet, p: Packet, junk: Slack)
    requires Divided(orig) && Blocked(overlay, s, orig) && (Sent(orig, p) || Foreign(orig, p)) && WellFormed(p)
    ensures var r := Step(overlay, s, p, junk);
      !r.verdict.Merged? && (r.verdict.Headless? || Blocked(overlay, r.state, orig))
  {
    hide Wrap32, HasPiece, PieceAt, Overwrite, Resized, FillRanges, Overlap;
  }

  lemma FirstBlocks(overlay: Overlay, s: State, orig: Packet, p: Packet, junk: Slack)
    requires Divided(orig) && Sent(orig, p) && !s.active && |s.hdr| >= HEADER_PIECES * PIECE_LEN
    requires !Welcome(overlay, orig, p)
    ensures WellFormed(p) && p.data.Segment?
    ensures var r := Step(overlay, s, p, junk); r.verdict == Again && Blocked(overlay, r.state, orig)
  {
    SentIsWellFormed(orig, p);
    FirstBytes(orig, p);
    var part := Part(p.data.seqNo);
    WithPieceAt(s.hdr, part, p.data.header7, part);
    BitsAreDistinct(part, part);
    hide Wrap32, FirstMemory, HasPiece, PieceBit, WithPiece;
  }

  /** An overlay under which the header packet is always let in. Segments do not depend on the overlay, and so without
      the header packet everything goes as if it were this one. */
  function Friendly(orig: Packet): Overlay
    requires |orig.hdr| >= HEADER_PIECES * PIECE_LEN
  {
    _ => PieceAt(orig.hdr, Part(orig.data.seqNo))
  }

  lemma SegmentsIgnoreOverlay(overlay: Overlay, overlay': Overlay, s: State, p: Packet, junk: Slack)
    requires |s.hdr| >= HEADER_PIECES * PIECE_LEN && p.data.Segment? && WellFormed(p)
    ensures Step(overlay, s, p, junk) == Step(overlay', s, p, junk)
  {
    hide HasPiece, PieceAt, Overlap, Accept, FirstMemory, WithPiece, Wrap32;
  }

  /** What the merger has of an interval whose header part it never takes. */
  function Headed(orig: Packet, i: Interval): nat
    requires orig.data.StreamData?
  {
    if i.lo < orig.data.dataLength then orig.data.dataLength else i.lo
  }

  lemma BlockedArrival(overlay: Overlay, s: State, orig: Packet, i: Interval, p: Packet, junk: Slack)
    requires Divided(orig) && Blocked(overlay, s, orig) && Joins(orig, i, p) && WellFormed(p)
    requires Headed(orig, i) < i.hi && Holding(Friendly(orig), s, orig, Headed(orig, i), i.hi)
    requires |s.hdr| >= HEADER_PIECES * PIECE_LEN
    ensures var (r, j) := (Step(overlay, s, p, junk), Grown(orig, i, p));
      && Refusal(r.verdict) && Blocked(overlay, r.state, orig)
      && Headed(orig, j) < j.hi && Holding(Friendly(orig), r.state, orig, Headed(orig, j), j.hi)
  {
    hide Step, Holding, Blocked;
    var lo := Headed(orig, i);
    if Foreign(orig, p) {
      ForeignIsRefused(overlay, Friendly(orig), s, orig, lo, i.hi, p, junk);
    } else {
      SentIsWellFormed(orig, p);
      if p.data.Segment? {
        SegmentsIgnoreOverlay(overlay, Friendly(orig), s, p, junk);
        StaysBlocked(overlay, s, orig, p, junk);
        if From(p) == i.hi || To(p) == i.lo {
          var j := Grown(orig, i, p);
          PieceIsTaken(Friendly(orig), s, orig, lo, i.hi, p, junk, Headed(orig, j), j.hi);
        } else {
          ReplayIsRefused(Friendly(orig), s, orig, lo, i.hi, p, junk);
        }
      } else {
        HeaderIsRefused(overlay, s, orig, p, junk);
      }
    }
  }

  lemma ForeignIsRefused(overlay: Overlay, overlay': Overlay, s: State, orig: Packet, lo: nat, hi: nat, p: Packet,
                         junk: Slack)
    requires Divided(orig) && Holding(overlay', s, orig, lo, hi) && Foreign(orig, p)
    ensures var r := Step(overlay, s, p, junk); r.state == s && (r.verdict == Busy || r.verdict == Invalid)
  {
  }

  /** Otherwise the header packet is refused whenever it comes, and no arrival as one interval ever puts the payload
      out: the merger goes on asking for the bytes it refuses. */
  lemma {:induction false} NeverMerges(overlay: Overlay, s: State, orig: Packet, ps: seq<Packet>, junk: nat -> Slack)
    requires Divided(orig) && OneInterval(orig, ps)
    requires !s.active && |s.hdr| >= HEADER_PIECES * PIECE_LEN && !Welcome(overlay, orig, ps[0])
    ensures AllWellFormed(ps)
    ensures var (r, i) := (After(overlay, s, ps, junk), Received(orig, ps));
      && Refusal(r.verdict) && Blocked(overlay, r.state, orig)
      && Headed(orig, i) < i.hi && Holding(Friendly(orig), r.state, orig, Headed(orig, i), i.hi)
  {
    hide Step, Holding, Blocked, Joins, Sent;
    JoinedAreWellFormed(orig, ps);
    var front, p := ps[..|ps| - 1], ps[|ps| - 1];
    if |ps| == 1 {
      assert ps == [p] && front == [];
      SentIsWellFormed(orig, p);
      FirstBlocks(overlay, s, orig, p, junk(1));
      SegmentsIgnoreOverlay(overlay, Friendly(orig), s, p, junk(1));
      FirstIsTaken(Friendly(orig), s, orig, p, junk(1));
      SegmentsComeAfter(orig, p);
    } else {
      NeverMerges(overlay, s, orig, front, junk);
      BlockedArrival(overlay, After(overlay, s, front, junk).state, orig, Received(orig, front), p, junk(|ps|));
    }
  }

  lemma SegmentsComeAfter(orig: Packet, p: Packet)
    requires Divided(orig) && Sent(orig, p) && p.data.Segment?
    ensures Headed(orig, Interval(From(p), To(p))) == From(p)
  {
  }

  /** Reassembly: with the byte that completes the interval, the payload and its header go out as they were sent, if
      and only if the first piece lets the header packet in. */
  lemma Reassembles(overlay: Overlay, s: State, orig: Packet, ps: seq<Packet>, p: Packet, junk: nat -> Slack)
    requires Divided(orig) && OneInterval(orig, ps + [p]) && |ps| > 0 && Incomplete(orig, ps)
    requires Received(orig, ps + [p]) == Interval(0, |orig.payload|)
    requires !s.active && |s.hdr| >= HEADER_PIECES * PIECE_LEN
    ensures AllWellFormed(ps + [p])
    ensures var r := After(overlay, s, ps + [p], junk);
      if Welcome(overlay, orig, ps[0]) then r.verdict == Merged(orig.data, orig.hdr, Cells(orig.payload)) && !r.state.active
      else Refusal(r.verdict)
  {
    assert (ps + [p])[..|ps|] == ps;
    JoinedAreWellFormed(orig, ps + [p]);
    if Welcome(overlay, orig, ps[0]) {
      HoldsWhatArrived(overlay, s, orig, ps, junk);
      NextArrival(overlay, After(overlay, s, ps, junk).state, orig, Received(orig, ps), p, junk(|ps| + 1));
    } else {
      NeverMerges(overlay, s, orig, ps + [p], junk);
    }
  }

  /** An arrival as one interval that ends with the packet that completes it, if any does. */
  ghost predicate Arrives(orig: Packet, ps: seq<Packet>)
    requires Divided(orig)
  {
    |ps| > 0 && OneInterval(orig, ps) && (|ps| > 1 ==> Incomplete(orig, ps[..|ps| - 1]))
  }

  /** What a run leaves behind, in all three cases. */
  lemma RunEnds(overlay: Overlay, s: State, orig: Packet, ps: seq<Packet>, junk: nat -> Slack)
    requires Divided(orig) && Arrives(orig, ps) && !s.active && |s.hdr| >= HEADER_PIECES * PIECE_LEN
    ensures AllWellFormed(ps)
    ensures var (r, i) := (After(overlay, s, ps, junk), Received(orig, ps));
      if !Welcome(overlay, orig, ps[0]) then Refusal(r.verdict) && Blocked(overlay, r.state, orig)
      else if i == Interval(0, |orig.payload|) then r.verdict == Merged(orig.data, orig.hdr, Cells(orig.payload)) && !r.state.active
      else Refusal(r.verdict) && Holding(overlay, r.state, orig, i.lo, i.hi)
  {
    hide After, Divided, OneInterval, Received, Holding, Welcome, Cells, Blocked;
    OneIsNotAll(orig, ps);
    if !Welcome(overlay, orig, ps[0]) {
      NeverMerges(overlay, s, orig, ps, junk);
    } else if Received(orig, ps) != Interval(0, |orig.payload|) {
      HoldsWhatArrived(overlay, s, orig, ps, junk);
    } else {
      assert ps == ps[..|ps| - 1] + [ps[|ps| - 1]];
      Reassembles(overlay, s, orig, ps[..|ps| - 1], ps[|ps| - 1], junk);
    }
  }

  lemma OneIsNotAll(orig: Packet, ps: seq<Packet>)
    requires Divided(orig) && OneInterval(orig, ps)
    ensures |ps| > 0 && (Received(orig, ps) == Interval(0, |orig.payload|) ==> |ps| > 1)
  {
    hide Sent, Joins, Foreign;
    if |ps| == 1 { SentIsWellFormed(orig, ps[0]); }
  }

  lemma {:induction false} PrefixArrives(orig: Packet, ps: seq<Packet>, i: nat)
    requires Divided(orig) && Arrives(orig, ps) && 0 < i <= |ps|
    ensures Arrives(orig, ps[..i]) && (i < |ps| ==> Incomplete(orig, ps[..i]))
    decreases |ps|
  {
    hide Divided, Received, Joins, Sent;
    if i < |ps| {
      var front := ps[..|ps| - 1];
      assert front[..|front| - 1] == ps[..|ps| - 2];
      PrefixArrives(orig, front, i);
      assert front[..i] == ps[..i];
    } else {
      assert ps[..i] == ps;
    }
  }

  /** Nothing undefined happens on the way. */
  ghost predicate Smooth(overlay: Overlay, s: State, ps: seq<Packet>, junk: nat -> Slack)
    requires |s.hdr| >= HEADER_PIECES * PIECE_LEN && AllWellFormed(ps)
  {
    forall k :: 0 <= k <= |ps| ==> After(overlay, s, ps[..k], junk).verdict != Undefined
  }

  /** The merger itself, fed one packet after the other. */
  method Feed(m: Merger, ps: seq<Packet>, junk: nat -> Slack) returns (ret: int, verdict: Verdict)
    requires |m.hdr| >= HEADER_PIECES * PIECE_LEN && AllWellFormed(ps) && ps != []
    requires Smooth(m.overlay, m.Snapshot(), ps, junk)
    modifies m
    ensures Result(verdict, m.Snapshot()) == After(m.overlay, old(m.Snapshot()), ps, junk)
    ensures verdict != Undefined && ret == Returned(verdict)
  {
    hide Step;
    ghost var s := m.Snapshot();
    ret, verdict := 0, Again;
    for i := 0 to |ps|
      invariant |m.hdr| >= HEADER_PIECES * PIECE_LEN
      invariant Result(verdict, m.Snapshot()) == After(m.overlay, s, ps[..i], junk)
      invariant i > 0 ==> verdict != Undefined && ret == Returned(verdict)
    {
      assert ps[..i + 1][..i] == ps[..i];
      assert After(m.overlay, s, ps[..i + 1], junk).verdict != Undefined;
      ret, verdict := m.MergeSeg(ps[i], junk(i + 1));
    }
    assert ps[..|ps|] == ps;
  }

  lemma RunIsSmooth(overlay: Overlay, s: State, orig: Packet, ps: seq<Packet>, junk: nat -> Slack)
    requires Divided(orig) && Arrives(orig, ps) && !s.active && |s.hdr| >= HEADER_PIECES * PIECE_LEN
    ensures AllWellFormed(ps) && Smooth(overlay, s, ps, junk)
  {
    hide Arrives, Divided, Received, Welcome, Holding, Blocked, Cells, Step;
    RunEnds(overlay, s, orig, ps, junk);
    forall k | 0 <= k <= |ps|
      ensures After(overlay, s, ps[..k], junk).verdict != Undefined
    {
      if k > 0 {
        PrefixArrives(orig, ps, k);
        RunEnds(overlay, s, orig, ps[..k], junk);
        assert ps[..k][0] == ps[0];
      }
    }
  }

  /** Reassembly in place: a merger that is fed an arrival as one interval holds exactly what has come, and with the
      last byte puts out the payload and returns its length, if and only if the first piece lets the header packet
      in. */
  method FeedInterval(m: Merger, ghost orig: Packet, ps: seq<Packet>, junk: nat -> Slack)
    returns (ret: int, verdict: Verdict)
    requires Divided(orig) && Arrives(orig, ps) && !m.active && |m.hdr| >= HEADER_PIECES * PIECE_LEN
    modifies m
    ensures verdict != Undefined && ret == Returned(verdict)
    ensures Received(orig, ps) == Interval(0, |orig.payload|) ==>
      (verdict == Merged(orig.data, orig.hdr, Cells(orig.payload)) <==> Welcome(m.overlay, orig, ps[0]))
    ensures !Welcome(m.overlay, orig, ps[0]) ==> Refusal(verdict)
    ensures Welcome(m.overlay, orig, ps[0]) && Received(orig, ps) != Interval(0, |orig.payload|) ==>
      Refusal(verdict) && Holding(m.overlay, m.Snapshot(), orig, Received(orig, ps).lo, Received(orig, ps).hi)
  {
    hide Divided, OneInterval, Received, Welcome, Holding, Blocked, Cells, Step, After, Smooth;
    RunEnds(m.overlay, m.Snapshot(), orig, ps, junk);
    RunIsSmooth(m.overlay, m.Snapshot(), orig, ps, junk);
    ret, verdict := Feed(m, ps, junk);
  }

  /** The condition on the first piece can fail: here a header packet, whose union shows zeroes, comes after a segment
      of the same residue that brought a piece of ones. */
  lemma HeaderCanBeRefused() returns (overlay: Overlay, orig: Packet, first: Packet)
    ensures Divided(orig) && Sent(orig, first) && !Welcome(overlay, orig, first)
  {
    overlay := _ => [0, 0, 0, 0];
    var ones: Bytes := seq(HEADER_PIECES * PIECE_LEN, _ => 1);
    orig := Packet(StreamData(0, 0, 1, true, []), ones, [10, 20], false, []);
    first := Packet(CreateSegment(orig, 7, 1, 1, 2), ones, [20], false, []);
    assert PieceAt(ones, 0)[0] == 1;
  }

  // Runs without the header packet.

  /** Packets from which no header can be had: all but a segmented header packet of the size it announces. */
  ghost predicate NoHeader(p: Packet) {
    WellFormed(p) && (SeriesOf(p.data).kind == 1 ==> |p.payload| != SeriesOf(p.data).size)
  }

  lemma StaysHeadless(overlay: Overlay, s: State, p: Packet, junk: Slack)
    requires |s.hdr| >= HEADER_PIECES * PIECE_LEN && NoHeader(p) && (s.active ==> !s.available)
    ensures var r := Step(overlay, s, p, junk); !r.verdict.Merged? && (r.state.active ==> !r.state.available)
  {
    hide Wrap32, HasPiece, PieceAt, Overwrite, Resized, FillRanges, Overlap, FirstMemory;
  }

  /** A merger that has no header gets none from such packets: whatever it might put out is without one. */
  lemma {:induction false} HeadlessNeverMerges(overlay: Overlay, s: State, ps: seq<Packet>, junk: nat -> Slack)
    requires |s.hdr| >= HEADER_PIECES * PIECE_LEN && (s.active ==> !s.available)
    requires AllWellFormed(ps) && forall p :: p in ps ==> NoHeader(p)
    ensures var r := After(overlay, s, ps, junk); !r.verdict.Merged? && (r.state.active ==> !r.state.available)
  {
    hide Step, NoHeader;
    if ps != [] {
      HeadlessNeverMerges(overlay, s, ps[..|ps| - 1], junk);
      StaysHeadless(overlay, After(overlay, s, ps[..|ps| - 1], junk).state, ps[|ps| - 1], junk(|ps|));
    }
  }

  ghost predicate AllSegments(ps: seq<Packet>) { forall i :: 0 <= i < |ps| ==> ps[i].data.Segment? }

  lemma {:induction false} OverlayIsIgnored(overlay: Overlay, overlay': Overlay, s: State, ps: seq<Packet>,
                                            junk: nat -> Slack)
    requires |s.hdr| >= HEADER_PIECES * PIECE_LEN && AllWellFormed(ps) && AllSegments(ps)
    ensures After(overlay, s, ps, junk) == After(overlay', s, ps, junk)
  {
    hide Step;
    if ps != [] {
      OverlayIsIgnored(overlay, overlay', s, ps[..|ps| - 1], junk);
      SegmentsIgnoreOverlay(overlay, overlay', After(overlay, s, ps[..|ps| - 1], junk).state, ps[|ps| - 1], junk(|ps|));
    }
  }

  /** Segments alone, arriving as one interval, are held and never put out, not even without a header. */
  lemma SegmentsAreHeld(overlay: Overlay, s: State, orig: Packet, ps: seq<Packet>, junk: nat -> Slack)
    requires Divided(orig) && OneInterval(orig, ps) && AllSegments(ps) && !s.active
    requires |s.hdr| >= HEADER_PIECES * PIECE_LEN
    ensures AllWellFormed(ps)
    ensures var (r, i) := (After(overlay, s, ps, junk), Received(orig, ps));
      && Refusal(r.verdict) && Holding(Friendly(orig), r.state, orig, i.lo, i.hi) && orig.data.dataLength <= i.lo
      && (|ps| == 1 || Received(orig, ps[..|ps| - 1]) != i ==> r.verdict == Again)
  {
    hide *;
    JoinedAreWellFormed(orig, ps);
    NotEmpty(orig, ps);
    SegmentsStayBehind(orig, ps);
    FriendlyWelcomes(orig, ps[0]);
    OverlayIsIgnored(overlay, Friendly(orig), s, ps, junk);
    HoldsWhatArrived(Friendly(orig), s, orig, ps, junk);
  }

  lemma FriendlyWelcomes(orig: Packet, p: Packet)
    requires Divided(orig)
    ensures Welcome(Friendly(orig), orig, p)
  {
  }

  lemma {:induction false} SegmentsStayBehind(orig: Packet, ps: seq<Packet>)
    requires Divided(orig) && OneInterval(orig, ps) && AllSegments(ps)
    ensures orig.data.dataLength <= Received(orig, ps).lo && Incomplete(orig, ps)
  {
    if |ps| > 1 { SegmentsStayBehind(orig, ps[..|ps| - 1]); }
  }

  /** A run in two parts. */
  lemma {:induction false} AfterAppend(overlay: Overlay, s: State, ps: seq<Packet>, qs: seq<Packet>, junk: nat -> Slack)
    requires |s.hdr| >= HEADER_PIECES * PIECE_LEN && AllWellFormed(ps) && AllWellFormed(qs) && qs != []
    ensures AllWellFormed(ps + qs)
    ensures After(overlay, s, ps + qs, junk) == After(overlay, After(overlay, s, ps, junk).state, qs, Later(junk, |ps|))
    decreases |qs|
  {
    hide Step, WellFormed;
    var front := qs[..|qs| - 1];
    assert (ps + qs)[..|ps + qs| - 1] == ps + front;
    if front == [] {
      assert ps + front == ps;
    } else {
      AfterAppend(overlay, s, ps, front, junk);
    }
  }

  function Later(junk: nat -> Slack, n: nat): nat -> Slack { (i: nat) => junk(n + i) }

  /** A packet that needs nothing else, such as a hash packet, makes the merger forget what it was at. The segments that
      follow are taken for the start of a packet whose header never comes, and are not put out. */
  lemma ResetLosesHeader(overlay: Overlay, s: State, orig: Packet, ps: seq<Packet>, p: Packet, qs: seq<Packet>,
                         junk: nat -> Slack)
    requires |s.hdr| >= HEADER_PIECES * PIECE_LEN && AllWellFormed(ps + [p]) && SeriesOf(p.data).kind == 0
    requires Divided(orig) && OneInterval(orig, qs) && AllSegments(qs)
    ensures After(overlay, s, ps + [p], junk).verdict == PassThrough
    ensures AllWellFormed(ps + [p] + qs)
    ensures var (r, i) := (After(overlay, s, ps + [p] + qs, junk), Received(orig, qs));
      Refusal(r.verdict) && Holding(Friendly(orig), r.state, orig, i.lo, i.hi)
  {
    hide Step, Holding, Divided, OneInterval, Received;
    assert (ps + [p])[..|ps|] == ps && (ps + [p])[|ps|] == p;
    ResetStep(overlay, After(overlay, s, ps, junk).state, p, junk(|ps| + 1));
    JoinedAreWellFormed(orig, qs);
    NotEmpty(orig, qs);
    AfterAppend(overlay, s, ps + [p], qs, junk);
    SegmentsAreHeld(overlay, After(overlay, s, ps + [p], junk).state, orig, qs, Later(junk, |ps| + 1));
  }

  lemma NotEmpty(orig: Packet, ps: seq<Packet>)
    requires Divided(orig) && OneInterval(orig, ps)
    ensures ps != [] && |orig.hdr| >= HEADER_PIECES * PIECE_LEN
  {
  }

  lemma ResetStep(overlay: Overlay, s: State, p: Packet, junk: Slack)
    requires |s.hdr| >= HEADER_PIECES * PIECE_LEN && WellFormed(p) && SeriesOf(p.data).kind == 0
    ensures Step(overlay, s, p, junk).verdict == PassThrough && !Step(overlay, s, p, junk).state.active
  {
  }
}
