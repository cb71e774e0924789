/** What the merger answers, and what it keeps, packet by packet: each verdict with the packets that get it. */
module Verdicts {
  import opened FixedWidth
  import opened Packets
  import opened Merging
  import opened Reassembly
  import opened AnyOrder

  /** A packet that belongs to a group, and carries as many bytes as it says. */
  ghost predicate Whole(p: Packet) {
    WellFormed(p) && (p.data.Segment? || (p.data.StreamData? && p.data.segmented)) && |p.payload| == Announced(p)
  }

  function Announced(p: Packet): nat
    requires p.data.Segment? || p.data.StreamData?
  {
    if p.data.Segment? then p.data.length else p.data.dataLength
  }

  /** The header packet of the group, modulo 2^32. */
  function Group(p: Packet): int
    requires p.data.Segment? || p.data.StreamData?
  {
    (if p.data.Segment? then p.data.target else p.data.seqNo) % 0x1_0000_0000
  }

  /** EBUSY is for a whole packet of another group than the one the merger is at, and for no other. It changes nothing. */
  lemma BusyIffForeign(overlay: Overlay, s: State, p: Packet, junk: Slack)
    requires |s.hdr| >= HEADER_PIECES * PIECE_LEN && WellFormed(p)
    ensures var r := Step(overlay, s, p, junk);
      && (r.verdict == Busy <==> Whole(p) && s.active && Group(p) != s.target)
      && (r.verdict == Busy ==> r.state == s)
  {
    hide Step;
    BusyMeans(overlay, s, p, junk);
  }

  /** So a merger that holds bytes of `orig` answers it to every whole packet of any other group, and to none of `orig`. */
  lemma OthersAreBusy(overlay: Overlay, s: State, orig: Packet, lo: nat, hi: nat, p: Packet, junk: Slack)
    requires Divided(orig) && Holding(overlay, s, orig, lo, hi) && WellFormed(p)
    ensures Foreign(orig, p) ==> Step(overlay, s, p, junk) == Result(if Whole(p) then Busy else Invalid, s)
    ensures Sent(orig, p) ==> Step(overlay, s, p, junk).verdict != Busy
  {
    BusyIffForeign(overlay, s, p, junk);
    if Sent(orig, p) { SentIsWellFormed(orig, p); }
  }

  /** A packet that does not carry what it says is invalid, whether the merger is at work or not. */
  lemma WrongSizeIsInvalid(overlay: Overlay, s: State, p: Packet, junk: Slack)
    requires |s.hdr| >= HEADER_PIECES * PIECE_LEN && WellFormed(p)
    requires p.data.Segment? || (p.data.StreamData? && p.data.segmented)
    requires |p.payload| != Announced(p)
    ensures Step(overlay, s, p, junk) == Result(Invalid, s)
  {
  }

  /** And so is a segment of the group that contradicts what is known of the packet: its length, or a piece of its
      header. */
  lemma ContradictionIsInvalid(overlay: Overlay, s: State, p: Packet, junk: Slack)
    requires |s.hdr| >= HEADER_PIECES * PIECE_LEN && WellFormed(p) && s.active
    requires p.data.Segment? && Whole(p) && Group(p) == s.target
    requires (s.total != 0 && p.data.total != 0 && p.data.total != s.total)
      || (HasPiece(s.mask, p.data.seqNo % 7) && PieceAt(s.hdr, p.data.seqNo % 7) != p.data.header7)
    ensures Step(overlay, s, p, junk) == Result(Invalid, s)
  {
    hide PieceAt, HasPiece;
  }

  /** With the header packet first, all seven pieces are known from the start. */
  lemma HeaderKnowsAll(overlay: Overlay, s: State, orig: Packet, header: Packet, p: Packet, junk: Slack, junk': Slack)
    requires Divided(orig) && Sent(orig, header) && !header.data.Segment? && !s.active && |s.hdr| >= HEADER_PIECES * PIECE_LEN
    requires WellFormed(p) && p.data.Segment? && Whole(p) && Group(p) == orig.data.seqNo % 0x1_0000_0000
    requires p.data.header7 != PieceAt(orig.hdr, p.data.seqNo % 7)
    ensures WellFormed(header)
    ensures var one := Step(overlay, s, header, junk).state; Step(overlay, one, p, junk') == Result(Invalid, one)
  {
    SentIsWellFormed(orig, header);
    var one := Step(overlay, s, header, junk).state;
    BitsAreDistinct(p.data.seqNo % 7, p.data.seqNo % 7);
    AllKnown(p.data.seqNo % 7);
    ContradictionIsInvalid(overlay, one, p, junk');
  }

  lemma AllKnown(part: nat)
    requires part < HEADER_PIECES
    ensures HasPiece(0x7F, part)
  {
  }

  /** Having put out a packet, the merger starts the next one as a new merger does. */
  lemma AsNew(overlay: Overlay, s: State, p: Packet, junk: Slack, q: Packet, junk': Slack)
    requires |s.hdr| >= HEADER_PIECES * PIECE_LEN && WellFormed(p) && WellFormed(q) && SeriesOf(q.data).kind != 0
    requires PutOut(Step(overlay, s, p, junk).verdict) && |q.payload| == SeriesOf(q.data).size
    requires SeriesOf(q.data).offset != 0 ==> SeriesOf(q.data).offset + |q.payload| <= SeriesOf(q.data).total
    ensures Step(overlay, Step(overlay, s, p, junk).state, q, junk') == Step(overlay, Blank(), q, junk')
  {
    hide FillRanges, Overwrite, Wrap32, Resized, Overlap, HasPiece, PieceAt, FirstMemory, WithPiece;
    PutOutIsEmpty(overlay, s, p, junk);
  }

  lemma PutOutIsEmpty(overlay: Overlay, s: State, p: Packet, junk: Slack)
    requires |s.hdr| >= HEADER_PIECES * PIECE_LEN && WellFormed(p) && PutOut(Step(overlay, s, p, junk).verdict)
    ensures var t := Step(overlay, s, p, junk).state; !t.active && t.data == ZERO_DATA && t.hdr == ZeroHeader()
  {
    hide Start, Validate, Accept;
    StartPutsNothingOut(overlay, s, p);
    AcceptEmpties(s, p, junk);
  }

  lemma StartPutsNothingOut(overlay: Overlay, s: State, p: Packet)
    requires |s.hdr| >= HEADER_PIECES * PIECE_LEN && WellFormed(p)
    ensures !PutOut(Start(overlay, s, p).verdict) && !PutOut(Validate(overlay, s, p))
  {
    hide Overlap, HasPiece, PieceAt;
  }

  lemma AcceptEmpties(s: State, p: Packet, junk: Slack)
    requires PutOut(Accept(s, p, junk).verdict)
    ensures var t := Accept(s, p, junk).state; !t.active && t.data == ZERO_DATA && t.hdr == ZeroHeader()
  {
    hide FillRanges, Overwrite, Wrap32, Resized;
  }

  /** What goes out without a header has the pieces of it that were known, and nothing else is made up. */
  lemma HeadlessHasPieces(overlay: Overlay, s: State, p: Packet, junk: Slack)
    requires |s.hdr| >= HEADER_PIECES * PIECE_LEN && WellFormed(p) && Step(overlay, s, p, junk).verdict.Headless?
    ensures var v := Step(overlay, s, p, junk).verdict; v.hdr == s.hdr && v.data == s.data && !s.available
  {
    hide Start, Validate, Accept;
    StartPutsNothingOut(overlay, s, p);
    AcceptKeepsPieces(s, p, junk);
  }

  lemma AcceptKeepsPieces(s: State, p: Packet, junk: Slack)
    requires Accept(s, p, junk).verdict.Headless?
    ensures var v := Accept(s, p, junk).verdict; v.hdr == s.hdr && v.data == s.data && !s.available
  {
    hide FillRanges, Overwrite, Wrap32, Resized, Finish, Sized, Informed, Placed;
    var stored, t := FillRanges(s.ranges, SeriesOf(p.data).offset, SeriesOf(p.data).size, junk), SeriesOf(p.data);
    var ready := Sized(Informed(s, p), t.total);
    if stored.Stored? && t.offset + |p.payload| <= |ready.mem| {
      PlacedKeepsPieces(s, p, stored.ranges);
      FinishKeepsPieces(Placed(ready, p, stored.ranges));
    }
  }

  lemma PlacedKeepsPieces(s: State, p: Packet, ranges: seq<Range>)
    requires SeriesOf(p.data).offset + |p.payload| <= |Sized(Informed(s, p), SeriesOf(p.data).total).mem|
    ensures var t := Placed(Sized(Informed(s, p), SeriesOf(p.data).total), p, ranges);
      !t.available ==> t.hdr == s.hdr && t.data == s.data && !s.available
  {
    hide *;
    var informed := Informed(s, p);
    InformedKeeps(s, p);
    SizedKeeps(informed, SeriesOf(p.data).total);
    PlacedKeeps(Sized(informed, SeriesOf(p.data).total), p, ranges);
  }

  lemma InformedKeeps(s: State, p: Packet)
    ensures var t := Informed(s, p); !t.available ==> t.hdr == s.hdr && t.data == s.data && !s.available
  {
  }

  lemma SizedKeeps(s: State, total: nat)
    ensures var t := Sized(s, total); t.hdr == s.hdr && t.data == s.data && t.available == s.available
  {
  }

  lemma PlacedKeeps(s: State, p: Packet, ranges: seq<Range>)
    requires SeriesOf(p.data).offset + |p.payload| <= |s.mem|
    ensures var t := Placed(s, p, ranges); t.hdr == s.hdr && t.data == s.data && t.available == s.available
  {
  }

  lemma FinishKeepsPieces(s: State)
    requires Finish(s).verdict.Headless?
    ensures !s.available && Finish(s).verdict.hdr == s.hdr && Finish(s).verdict.data == s.data
  {
  }

  /** What the caller is told: errors are negative, and different ones different. */
  lemma ErrorsAreTold()
    ensures Returned(Again) == -11 && Returned(Busy) == -16 && Returned(Invalid) == -22 && Returned(PassThrough) == 0
  {
  }

  // The newest packet.

  function Newest(ps: seq<Packet>): nat {
    if ps == [] then 0 else
      var before := Newest(ps[..|ps| - 1]);
      if before < ps[|ps| - 1].data.seqNo then ps[|ps| - 1].data.seqNo else before
  }

  /** As long as sequence numbers fit 32 bits, the merger knows the newest of the packets it took. */
  lemma {:induction false} LastIsNewest(overlay: Overlay, s: State, orig: Packet, ps: seq<Packet>, junk: nat -> Slack)
    requires Divided(orig) && Mixed(orig, ps) && !s.active && |s.hdr| >= HEADER_PIECES * PIECE_LEN && AllWellFormed(ps)
    requires Quiet(overlay, s, ps, junk) && forall p :: p in ps ==> p.data.seqNo <= UINT32_MAX
    ensures After(overlay, s, ps, junk).state.last == Newest(Taken(overlay, s, ps, junk))
    decreases |ps|
  {
    hide Sent, Accounted, Foreign, Step, Takes, PutOut, AllBytes, Count, Taken, After, Wrap32;
    MixedAreWellFormed(orig, ps);
    var front, p := ps[..|ps| - 1], ps[|ps| - 1];
    assert front + [p] == ps;
    if |ps| == 1 {
      NothingTaken(overlay, s, junk);
      RunSteps(overlay, s, [], p, junk);
      FirstIsAccounted(overlay, s, orig, p, junk(1));
      FirstIsLast(overlay, s, orig, p, junk(1));
    } else {
      RunIsAccounted(overlay, s, orig, front, junk);
      LastIsNewest(overlay, s, orig, front, junk);
      RunSteps(overlay, s, front, p, junk);
      var ts := Taken(overlay, s, front, junk);
      NextIsNewest(overlay, After(overlay, s, front, junk).state, orig, AllBytes(ts), Count(ts), p, junk(|ps|));
      assert (ts + [p])[..|ts|] == ts;
    }
  }

  lemma FirstIsLast(overlay: Overlay, s: State, orig: Packet, p: Packet, junk: Slack)
    requires Divided(orig) && Sent(orig, p) && !s.active && |s.hdr| >= HEADER_PIECES * PIECE_LEN && WellFormed(p)
    requires p.data.seqNo <= UINT32_MAX
    ensures Step(overlay, s, p, junk).state.last == p.data.seqNo == Newest([p])
  {
    SentIsWellFormed(orig, p);
    Wrap32Small(p.data.seqNo);
    hide Wrap32, FirstMemory, WithPiece;
  }

  lemma NextIsNewest(overlay: Overlay, s: State, orig: Packet, c: set<nat>, n: nat, p: Packet, junk: Slack)
    requires Divided(orig) && Accounted(s, orig, c, n) && (Sent(orig, p) || Foreign(orig, p)) && WellFormed(p)
    requires p.data.seqNo <= UINT32_MAX && !PutOut(Step(overlay, s, p, junk).verdict)
    ensures var t := Step(overlay, s, p, junk).state;
      t.last == if Takes(overlay, s, p, junk) && s.last < p.data.seqNo then p.data.seqNo else s.last
  {
    hide Step, Sent, Foreign, Takes, Placed;
    OthersLeaveNoTrace(overlay, s, orig, c, n, p, junk);
    if Takes(overlay, s, p, junk) {
      SentIsWellFormed(orig, p);
      var ranges := TakenIsPlacedAt(overlay, s, orig, p, junk);
      PlacedIsLast(Sized(Informed(s, p), SeriesOf(p.data).total), p, ranges);
    }
  }

  lemma PlacedIsLast(s: State, p: Packet, ranges: seq<Range>)
    requires SeriesOf(p.data).offset + |p.payload| <= |s.mem| && p.data.seqNo <= UINT32_MAX
    ensures Placed(s, p, ranges).last == if s.last < p.data.seqNo then p.data.seqNo else s.last
  {
    Wrap32Small(p.data.seqNo);
    hide Wrap32, Overwrite;
  }

  // Ranges, and what fill_ranges makes of two of them.

  /** A piece between two ranges: it grows the one it touches. When it touches both they become one, of the size of the
      second; what is left of the first one's size is lost. */
  lemma BetweenTwoRanges(a: nat, x: nat, b: nat, y: nat, offset: nat, size: nat, junk: Slack)
    requires 0 < x && 0 < y && 0 < size && a + x <= offset && offset + size <= b && b + y <= UINT32_MAX
    requires offset == a + x || offset + size == b
    ensures FillRanges([Range(a, x), Range(b, y)], offset, size, junk) == Stored(
      if offset == a + x && offset + size == b then [Range(a, y)]
      else if offset == a + x then [Range(a, x + size), Range(b, y)]
      else [Range(a, x), Range(offset, y + size)])
  {
    hide *;
    if offset == a + x && offset + size == b {
      GapIsFilled(a, x, y, size, junk);
    } else if offset == a + x {
      FirstGrows(a, x, b, y, size, junk);
    } else {
      SecondGrows(a, x, b, y, offset, size, junk);
    }
  }

  lemma GapIsFilled(a: nat, x: nat, y: nat, size: nat, junk: Slack)
    requires 0 < x && 0 < y && 0 < size && a + x + size + y <= UINT32_MAX
    ensures FillRanges([Range(a, x), Range(a + x + size, y)], a + x, size, junk) == Stored([Range(a, y)])
  {
    hide Wrap32, Torn;
    Wrap32Small(a + x);
    Wrap32Small(a + x + size);
    Wrap32Small(x + size);
    var grown := [Range(a, x + size), Range(a + x + size, y)];
    assert WorkIn([Range(a, x), Range(a + x + size, y)], a + x, size, 0, 0) == Consolidate(grown, 0);
  }

  lemma FirstGrows(a: nat, x: nat, b: nat, y: nat, size: nat, junk: Slack)
    requires 0 < x && 0 < y && 0 < size && a + x + size < b && b + y <= UINT32_MAX
    ensures FillRanges([Range(a, x), Range(b, y)], a + x, size, junk) == Stored([Range(a, x + size), Range(b, y)])
  {
    hide Wrap32, Torn;
    Wrap32Small(a + x);
    Wrap32Small(a + x + size);
    Wrap32Small(x + size);
    assert WorkIn([Range(a, x), Range(b, y)], a + x, size, 0, 0) == Filled([Range(a, x + size), Range(b, y)]);
  }

  lemma SecondGrows(a: nat, x: nat, b: nat, y: nat, offset: nat, size: nat, junk: Slack)
    requires 0 < x && 0 < y && 0 < size && a + x < offset && offset + size == b && b + y <= UINT32_MAX
    ensures FillRanges([Range(a, x), Range(b, y)], offset, size, junk) == Stored([Range(a, x), Range(offset, y + size)])
  {
    hide Wrap32, Torn;
    Wrap32Small(a + x);
    Wrap32Small(offset + size);
    Wrap32Small(y + size);
    assert WorkIn([Range(a, x), Range(b, y)], offset, size, 1, 0) == Filled([Range(a, x), Range(offset, y + size)]);
  }

  /** A range whose end has wrapped around refuses what starts between this end and its start. */
  lemma WrappedRefuses(r: Range, offset: nat, size: nat)
    requires (r.offset + r.size) % 0x1_0000_0000 < offset <= r.offset && r != Range(offset, size)
    ensures Overlap([r], offset, size, 0) == Invalid
  {
  }

  /** An insertion behind the list takes in what is there, and one elsewhere, with room, repeats a range. */
  lemma InsertedAt(ranges: seq<Range>, at: nat, junk: Slack, k: nat)
    requires at < |ranges| && k <= |ranges| && (at + 1 < |ranges| ==> junk.room)
    ensures Inserted(ranges, at, junk).Stored? && |Inserted(ranges, at, junk).ranges| == |ranges| + 1
    ensures Inserted(ranges, at, junk).ranges[k] ==
      if at + 1 == |ranges| then (if k == |ranges| then junk.next else ranges[k])
      else ranges[if k <= at then k else k - 1]
  {
  }

  // Recovering a header of a type that cannot come in segments.

  /** A header that cannot be decoded costs its first piece: nothing is available, the other pieces stay, and the
      payload of the segment that brought that piece is not looked at. */
  lemma UnknownIsForgotten(s: State, p: Packet, decode: Bytes -> Decoded, part: nat)
    requires |s.hdr| >= HEADER_PIECES * PIECE_LEN && p.data.Segment? && WellFormed(p) && part < HEADER_PIECES
    requires !s.available && WithOneMore(s, p).mask == 0x7F
    requires decode(WithOneMore(s, p).hdr[..HEADER_PIECES * PIECE_LEN]).Unknown?
    ensures var r := FillHeader(s, p, decode);
      && !r.state.available && (HasPiece(r.state.mask, part) <==> part != 0)
      && r.verdict == if p.data.seqNo % 7 == 0 then Again else PassThrough
  {
    hide WithPiece, PieceAt;
  }
}
