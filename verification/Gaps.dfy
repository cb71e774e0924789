/** What becomes of a gap: where the record of received ranges goes wrong, and where it does not matter. */
module Gaps {
  import opened FixedWidth
  import opened Packets
  import opened Merging
  import opened Reassembly
  import opened AnyOrder

  /** All of these ranges end before `offset`. */
  ghost predicate AllBelow(ranges: seq<Range>, offset: nat) {
    forall i :: 0 <= i < |ranges| ==> ranges[i].offset + ranges[i].size < offset
  }

  /** A piece beyond all ranges on record passes the overlap checks, and nothing of it is recorded: the new last range
      is whatever the memory behind the list held. */
  lemma BeyondIsForgotten(ranges: seq<Range>, offset: nat, length: nat, junk: Slack)
    requires ranges != [] && AllBelow(ranges, offset) && 0 < length && offset + length <= UINT32_MAX
    ensures Overlap(ranges, offset, length, 0) == PassThrough
    ensures FillRanges(ranges, offset, length, junk) == Stored(ranges + [junk.next])
  {
    BeyondPasses(ranges, offset, length, 0);
    BeyondIsInserted(ranges, offset, length, 0, 0);
  }

  lemma {:induction false} BeyondPasses(ranges: seq<Range>, offset: nat, length: nat, i: nat)
    requires AllBelow(ranges, offset) && 0 < length && offset + length <= UINT32_MAX
    ensures Overlap(ranges, offset, length, i) == PassThrough
    decreases |ranges| - i
  {
    if i < |ranges| {
      BelowIsApart(ranges[i], offset, length);
      BeyondPasses(ranges, offset, length, i + 1);
    }
  }

  lemma {:induction false} BeyondIsInserted(ranges: seq<Range>, offset: nat, length: nat, i: nat, dst: nat)
    requires ranges != [] && AllBelow(ranges, offset) && 0 < length && offset + length <= UINT32_MAX
    requires i < |ranges| || dst == |ranges| - 1
    ensures WorkIn(ranges, offset, length, i, dst) == Insert(|ranges| - 1)
    decreases |ranges| - i
  {
    if i < |ranges| {
      BelowIsApart(ranges[i], offset, length);
      hide Wrap32;
      BeyondIsInserted(ranges, offset, length, i + 1, i);
    }
  }

  lemma BelowIsApart(r: Range, offset: nat, length: nat)
    requires r.offset + r.size < offset && 0 < length && offset + length <= UINT32_MAX
    ensures r.End() == r.offset + r.size < offset && Wrap32(offset + length) == offset + length
    ensures !Clashes(r, offset, length)
  {
    Wrap32Small(r.offset + r.size);
    Wrap32Small(offset + length);
    hide Wrap32;
  }

  /** The merger knows only pieces of this header, and has these ranges on record. */
  ghost predicate Records(s: State, orig: Packet, ranges: seq<Range>)
    requires Divided(orig)
  {
    Agrees(s, orig.hdr) && s.ranges == ranges
  }

  /** So a segment beyond all ranges on record is taken, as often as it comes. */
  lemma BeyondIsTaken(overlay: Overlay, s: State, orig: Packet, c: set<nat>, n: nat, ranges: seq<Range>, p: Packet,
                      junk: Slack)
    requires Divided(orig) && Accounted(s, orig, c, n) && Records(s, orig, ranges) && Sent(orig, p) && p.data.Segment?
    requires ranges != [] && AllBelow(ranges, From(p))
    ensures WellFormed(p) && Takes(overlay, s, p, junk)
    ensures var r := Step(overlay, s, p, junk); !PutOut(r.verdict) ==> Records(r.state, orig, ranges + [junk.next])
  {
    hide Sized, Overlap, FillRanges, Overwrite, PieceBit, Wrap32, AllBelow;
    SentIsWellFormed(orig, p);
    BeyondIsForgotten(ranges, From(p), To(p) - From(p), junk);
    SegmentIsValid(overlay, s, orig, p);
    SegmentHasRoom(s, orig, c, n, p);
    PlacedHasRoom(Sized(Informed(s, p), SeriesOf(p.data).total), p);
  }

  lemma SegmentIsValid(overlay: Overlay, s: State, orig: Packet, p: Packet)
    requires Divided(orig) && Agrees(s, orig.hdr) && Sent(orig, p) && p.data.Segment? && WellFormed(p)
    requires s.total == 0 || s.total == |orig.payload|
    requires Overlap(s.ranges, From(p), To(p) - From(p), 0) == PassThrough
    ensures Validate(overlay, s, p) == PassThrough
  {
    hide Overlap;
    var part := Part(p.data.seqNo);
    if HasPiece(s.mask, part) {
      assert PieceAt(s.hdr, part) == PieceAt(orig.hdr, part);
    }
  }

  lemma SegmentHasRoom(s: State, orig: Packet, c: set<nat>, n: nat, p: Packet)
    requires Divided(orig) && Accounted(s, orig, c, n) && Sent(orig, p) && p.data.Segment?
    ensures var ready := Sized(Informed(s, p), SeriesOf(p.data).total);
      && ready.total == |orig.payload| == ready.len <= |ready.mem| && To(p) <= |ready.mem|
      && |p.payload| == To(p) - From(p)
      && ready.hdr == s.hdr && ready.mask == s.mask && ready.ranges == s.ranges
  {
    SentIsWellFormed(orig, p);
  }

  lemma FirstRecords(overlay: Overlay, s: State, orig: Packet, p: Packet, junk: Slack)
    requires Divided(orig) && Sent(orig, p) && !s.active && |s.hdr| >= HEADER_PIECES * PIECE_LEN
    ensures WellFormed(p)
    ensures Records(Step(overlay, s, p, junk).state, orig, [Range(From(p), To(p) - From(p))])
  {
    hide Holding;
    SentIsWellFormed(orig, p);
    if p.data.Segment? {
      SegmentsIgnoreOverlay(overlay, Friendly(orig), s, p, junk);
      FriendlyWelcomes(orig, p);
    }
    FirstHolds(if p.data.Segment? then Friendly(orig) else overlay, s, orig, p, junk);
  }

  lemma FirstHolds(overlay: Overlay, s: State, orig: Packet, p: Packet, junk: Slack)
    requires Divided(orig) && Sent(orig, p) && !s.active && |s.hdr| >= HEADER_PIECES * PIECE_LEN
    requires p.data.Segment? ==> overlay == Friendly(orig)
    ensures WellFormed(p)
    ensures Records(Step(overlay, s, p, junk).state, orig, [Range(From(p), To(p) - From(p))])
  {
    FirstIsTaken(overlay, s, orig, p, junk);
    hide Step, Sent, Divided, Wrap32;
  }

  /** So the bytes counted may make up the payload without being it: a piece, another one beyond a gap, and that one
      once more, where their sizes add up, put out a payload with the gap as uninitialised memory. If the first piece
      is a segment, it goes out without a header, or, in builds with assertions, ends the program. The memory behind
      the list may hold any range that lies below the repeated piece, such as the zeroes of fresh memory. */
  lemma GapThenReplay(overlay: Overlay, s: State, orig: Packet, first: Packet, p: Packet, junk: Slack, junk': Slack,
                      junk'': Slack)
    requires Divided(orig) && Sent(orig, first) && Sent(orig, p) && !s.active && |s.hdr| >= HEADER_PIECES * PIECE_LEN
    requires To(first) < From(p) && (To(first) - From(first)) + 2 * (To(p) - From(p)) == |orig.payload|
    requires junk'.next.offset + junk'.next.size < From(p)
    ensures WellFormed(first) && WellFormed(p)
    ensures var one := Step(overlay, s, first, junk);
      var two := Step(overlay, one.state, p, junk');
      var three := Step(overlay, two.state, p, junk'');
      && one.verdict == two.verdict == Again
      && (if first.data.Segment? then three.verdict.Headless? else three.verdict.Merged?)
      && HasHoles(three.verdict.payload, orig, BytesOf(first) + BytesOf(p))
      && forall i :: To(first) <= i < From(p) ==> three.verdict.payload[i] == Unset
  {
    hide Sent, Accounted, Records, Step, Takes, Wrap32, Everything, Cells;
    SentIsWellFormed(orig, first);
    SentIsWellFormed(orig, p);
    FirstIsAccounted(overlay, s, orig, first, junk);
    FirstRecords(overlay, s, orig, first, junk);
    var one := Step(overlay, s, first, junk).state;
    var (a, b) := (To(first) - From(first), To(p) - From(p));
    BeyondIsTaken(overlay, one, orig, BytesOf(first), a, [Range(From(first), a)], p, junk');
    NextIsAccounted(overlay, one, orig, BytesOf(first), a, p, junk');
    Wrap32Small(a + b);
    var two := Step(overlay, one, p, junk').state;
    var ranges := [Range(From(first), a)] + [junk'.next];
    BeyondIsTaken(overlay, two, orig, BytesOf(first) + BytesOf(p), a + b, ranges, p, junk'');
    NextIsAccounted(overlay, two, orig, BytesOf(first) + BytesOf(p), a + b, p, junk'');
    Wrap32Small(a + b + b);
    HeaderIsFirst(orig, first);
    HeaderIsFirst(orig, p);
    assert BytesOf(first) + BytesOf(p) + BytesOf(p) == BytesOf(first) + BytesOf(p);
  }

  lemma MiddleIsStored(size: nat, length: nat, second: Range, junk: Slack)
    requires 0 < size && 0 < length && size + length <= UINT32_MAX && !Clashes(second, size, length)
    ensures Overlap([Range(0, size), second], size, length, 0) == PassThrough
    ensures FillRanges([Range(0, size), second], size, length, junk).Stored?
  {
    Wrap32Small(size);
    Wrap32Small(size + length);
    hide Wrap32;
    assert Overlap([Range(0, size), second], size, length, 2) == PassThrough;
    assert Overlap([Range(0, size), second], size, length, 1) == PassThrough;
  }

  lemma MiddleIsTaken(overlay: Overlay, s: State, orig: Packet, c: set<nat>, n: nat, second: Range, p: Packet,
                      junk: Slack)
    requires Divided(orig) && Accounted(s, orig, c, n) && Records(s, orig, [Range(0, From(p)), second]) && Sent(orig, p)
    requires p.data.Segment? && !Clashes(second, From(p), To(p) - From(p))
    ensures WellFormed(p) && Takes(overlay, s, p, junk)
  {
    hide Sized, Overlap, FillRanges, Overwrite, PieceBit, Wrap32;
    SentIsWellFormed(orig, p);
    MiddleIsStored(From(p), To(p) - From(p), second, junk);
    SegmentIsValid(overlay, s, orig, p);
    SegmentHasRoom(s, orig, c, n, p);
    PlacedHasRoom(Sized(Informed(s, p), SeriesOf(p.data).total), p);
  }

  /** Without the repeat the same gap does no harm, unless what lies behind the list happens to clash with the missing
      piece: header, last segment and then what is between them put out what was sent. */
  lemma GapThenMiddle(overlay: Overlay, s: State, orig: Packet, header: Packet, last: Packet, middle: Packet,
                      junk: Slack, junk': Slack, junk'': Slack)
    requires Divided(orig) && Sent(orig, header) && !header.data.Segment? && !s.active
    requires |s.hdr| >= HEADER_PIECES * PIECE_LEN
    requires Sent(orig, last) && last.data.Segment? && orig.data.dataLength < From(last) && To(last) == |orig.payload|
    requires Sent(orig, middle) && middle.data.Segment? && From(middle) == orig.data.dataLength
    requires To(middle) == From(last)
    requires !Clashes(junk'.next, From(middle), To(middle) - From(middle))
    ensures WellFormed(header) && WellFormed(last) && WellFormed(middle)
    ensures var one := Step(overlay, s, header, junk);
      var two := Step(overlay, one.state, last, junk');
      var three := Step(overlay, two.state, middle, junk'');
      one.verdict == two.verdict == Again && three.verdict == Merged(orig.data, orig.hdr, Cells(orig.payload))
  {
    hide Sent, Accounted, Records, Step, Takes, Wrap32, Everything, Cells, Clashes, HasHoles, BytesOf, From, To,
      AllBelow, Refusal;
    var size := orig.data.dataLength;
    HeaderSpan(orig, header);
    OneBelow(Range(0, size), From(last));
    SentIsWellFormed(orig, header);
    SentIsWellFormed(orig, last);
    SentIsWellFormed(orig, middle);
    FirstIsAccounted(overlay, s, orig, header, junk);
    FirstRecords(overlay, s, orig, header, junk);
    var one := Step(overlay, s, header, junk).state;
    var (b, d) := (To(last) - From(last), To(middle) - From(middle));
    BeyondIsTaken(overlay, one, orig, BytesOf(header), size, [Range(0, size)], last, junk');
    NextIsAccounted(overlay, one, orig, BytesOf(header), size, last, junk');
    Wrap32Small(size + b);
    var two := Step(overlay, one, last, junk').state;
    assert [Range(0, size)] + [junk'.next] == [Range(0, size), junk'.next];
    MiddleIsTaken(overlay, two, orig, BytesOf(header) + BytesOf(last), size + b, junk'.next, middle, junk'');
    NextIsAccounted(overlay, two, orig, BytesOf(header) + BytesOf(last), size + b, middle, junk'');
    Wrap32Small(size + b + d);
    AllOfIt(orig, header, last, middle);
  }

  lemma HeaderSpan(orig: Packet, header: Packet)
    requires Divided(orig) && Sent(orig, header) && !header.data.Segment?
    ensures From(header) == 0 && To(header) == orig.data.dataLength
  {
  }

  lemma OneBelow(r: Range, offset: nat)
    requires r.offset + r.size < offset
    ensures AllBelow([r], offset)
  {
  }

  lemma AllOfIt(orig: Packet, header: Packet, last: Packet, middle: Packet)
    requires From(header) == 0 && To(header) == From(middle) <= To(middle) == From(last) <= To(last) == |orig.payload|
    ensures BytesOf(header) + BytesOf(last) + BytesOf(middle) == Everything(orig)
  {
  }
}
