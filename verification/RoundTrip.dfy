/** What the segmenter puts out, the merger puts back together. */
module RoundTrip {
  import opened FixedWidth
  import opened Packets
  import S = Segmenter
  import opened Merging
  import opened Reassembly

  /** The packet with the sizes that its header packet should announce (avt_packet_change_size). */
  function Announced(header: Packet, length: nat): Packet
    requires header.data.StreamData?
  {
    header.(data := ChangeSize(header.data, length, |header.payload|))
  }

  /** What the scheduler queues for the merger: everything but the hash packets, of which the merger would make an
      end. */
  function Queued(ps: seq<Packet>): seq<Packet> {
    if ps == [] then []
    else Queued(ps[..|ps| - 1]) + (if ps[|ps| - 1].data.HashData? then [] else [ps[|ps| - 1]])
  }

  /** The same with the sizes put into the header packet, as the tests of the merger do. */
  function Delivered(orig: Packet, ps: seq<Packet>): seq<Packet> {
    if ps == [] then [] else
      var last := ps[|ps| - 1];
      if last.data.HashData? then Delivered(orig, ps[..|ps| - 1])
      else Delivered(orig, ps[..|ps| - 1]) + [if last.data.Segment? then last else last.(data := orig.data)]
  }

  lemma SliceIsSent(header: Packet, orig: Packet, p: Packet, at: nat)
    requires S.Carries(p, header, at) && !p.data.HashData? && Divided(orig)
    requires orig == Announced(header, orig.data.dataLength)
    requires if at == 0 then |p.payload| == orig.data.dataLength else orig.data.dataLength <= at
    ensures var q := if p.data.Segment? then p else p.(data := orig.data);
      Sent(orig, q) && From(q) == at && To(q) == at + |p.payload|
  {
  }

  /** The slices in their order are one growing interval. */
  lemma {:induction false} InOrder(header: Packet, orig: Packet, ps: seq<Packet>, upto: nat)
    requires S.CarryUpTo(ps, header, upto) && upto > 0
    requires orig.data.StreamData? && orig.data.dataLength == S.FirstLength(ps) && Divided(orig)
    requires header.data.StreamData?
    requires orig == Announced(header, orig.data.dataLength)
    ensures var ds := Delivered(orig, ps);
      && OneInterval(orig, ds) && !ds[0].data.Segment? && Received(orig, ds) == Interval(0, upto)
      && S.FirstLength(ps) <= upto
      && (upto < |orig.payload| ==> Incomplete(orig, ds))
      && (|ds| > 1 ==> Incomplete(orig, ds[..|ds| - 1]))
    decreases |ps|
  {
    hide S.Carries, Sent, OneInterval, Received, Incomplete;
    var front, last := ps[..|ps| - 1], ps[|ps| - 1];
    var before := Delivered(orig, front);
    if last.data.HashData? {
      FirstFound(front, header, upto);
      InOrder(header, orig, front, upto);
    } else {
      var at := upto - |last.payload|;
      var q := if last.data.Segment? then last else last.(data := orig.data);
      FirstFound(front, header, at);
      SliceIsSent(header, orig, last, at);
      if at == 0 {
        OneAlone(orig, q);
        NothingBefore(header, orig, front);
        assert Delivered(orig, ps) == [q];
      } else {
        InOrder(header, orig, front, at);
        OneMore(orig, before, q, 0, at);
      }
    }
  }

  lemma OneAlone(orig: Packet, q: Packet)
    requires Divided(orig) && Sent(orig, q) && From(q) == 0
    ensures OneInterval(orig, [q]) && Received(orig, [q]) == Interval(0, To(q)) && !q.data.Segment?
    ensures To(q) < |orig.payload| ==> Incomplete(orig, [q])
  {
    SentIsWellFormed(orig, q);
  }

  lemma OneMore(orig: Packet, ds: seq<Packet>, q: Packet, lo: nat, at: nat)
    requires Divided(orig) && OneInterval(orig, ds) && Received(orig, ds) == Interval(lo, at)
    requires at < |orig.payload| && Incomplete(orig, ds)
    requires Sent(orig, q) && From(q) == at
    ensures var es := ds + [q];
      && OneInterval(orig, es) && es[0] == ds[0] && Received(orig, es) == Interval(lo, To(q)) && es[..|es| - 1] == ds
      && (lo > 0 || To(q) < |orig.payload| ==> Incomplete(orig, es))
  {
    assert (ds + [q])[..|ds|] == ds;
    NotForeign(orig, q);
    hide Sent;
  }

  lemma NotForeign(orig: Packet, p: Packet)
    requires Divided(orig) && Sent(orig, p)
    ensures !Foreign(orig, p)
  {
    SentIsWellFormed(orig, p);
  }

  lemma {:induction false} FirstFound(ps: seq<Packet>, header: Packet, upto: nat)
    requires S.CarryUpTo(ps, header, upto)
    ensures S.FirstLength(ps) <= upto && (S.FirstLength(ps) > 0 <==> upto > 0)
    ensures |ps| > 1 ==> S.FirstLength(ps) == S.FirstLength(ps[..|ps| - 1])
    decreases |ps|
  {
    if ps != [] {
      FirstFound(ps[..|ps| - 1], header, upto - |ps[|ps| - 1].payload|);
    }
  }

  lemma {:induction false} NothingBefore(header: Packet, orig: Packet, ps: seq<Packet>)
    requires S.CarryUpTo(ps, header, 0)
    ensures ps == []
  {
  }

  lemma LengthsAgree(header: Packet, ps: seq<Packet>)
    requires S.CarryUpTo(ps, header, |header.payload|) && |header.payload| > 0
    ensures header.data.StreamData? && |header.hdr| >= HEADER_PIECES * PIECE_LEN
    ensures 0 < S.FirstLength(ps) <= |header.payload|
  {
    SomethingCarried(ps, header, |header.payload|);
    FirstFound(ps, header, |header.payload|);
  }

  lemma {:induction false} SomethingCarried(ps: seq<Packet>, header: Packet, upto: nat)
    requires S.CarryUpTo(ps, header, upto) && upto > 0
    ensures header.data.StreamData? && |header.hdr| >= HEADER_PIECES * PIECE_LEN
    decreases |ps|
  {
    if ps[|ps| - 1].data.HashData? { SomethingCarried(ps[..|ps| - 1], header, upto); }
  }

  lemma DeliveredArrives(header: Packet, ps: seq<Packet>)
    requires S.CarryUpTo(ps, header, |header.payload|) && S.FirstLength(ps) < |header.payload| <= UINT32_MAX
    ensures header.data.StreamData?
    ensures var orig := Announced(header, S.FirstLength(ps));
      && Divided(orig) && Arrives(orig, Delivered(orig, ps)) && !Delivered(orig, ps)[0].data.Segment?
      && Received(orig, Delivered(orig, ps)) == Interval(0, |orig.payload|)
  {
    hide Received, Incomplete, Delivered, S.CarryUpTo, S.FirstLength, Joins, Sent;
    LengthsAgree(header, ps);
    InOrder(header, Announced(header, S.FirstLength(ps)), ps, |header.payload|);
  }

  /** Round trip: the packets that carry a payload which does not fit the first of them, delivered in order with the
      sizes announced, make the merger put out this payload and header with the last one. */
  lemma RoundTrip(overlay: Overlay, s: State, header: Packet, ps: seq<Packet>, junk: nat -> Slack)
    requires S.CarryUpTo(ps, header, |header.payload|) && S.FirstLength(ps) < |header.payload| <= UINT32_MAX
    requires !s.active && |s.hdr| >= HEADER_PIECES * PIECE_LEN
    ensures header.data.StreamData?
    ensures var orig := Announced(header, S.FirstLength(ps));
      && AllWellFormed(Delivered(orig, ps))
      && After(overlay, s, Delivered(orig, ps), junk).verdict == Merged(orig.data, header.hdr, Cells(header.payload))
  {
    hide Arrives, Received, Delivered, S.CarryUpTo, S.FirstLength, After, Cells, Holding, Divided;
    DeliveredArrives(header, ps);
    var orig := Announced(header, S.FirstLength(ps));
    RunEnds(overlay, s, orig, Delivered(orig, ps), junk);
  }

  /** When the queued header packet announces what it carries, there is nothing to repair. */
  lemma {:induction false} AnnouncedAsQueued(header: Packet, orig: Packet, ps: seq<Packet>, upto: nat)
    requires S.CarryUpTo(ps, header, upto) && orig.data == header.data
    ensures Delivered(orig, ps) == Queued(ps)
    decreases |ps|
  {
    hide S.Carries;
    if ps != [] {
      var last := ps[|ps| - 1];
      AnnouncedAsQueued(header, orig, ps[..|ps| - 1], upto - |last.payload|);
      if !last.data.HashData? { SliceData(header, last, upto - |last.payload|); }
    }
  }

  lemma SliceData(header: Packet, p: Packet, at: nat)
    requires S.Carries(p, header, at)
    ensures |p.hdr| >= HEADER_PIECES * PIECE_LEN && |header.hdr| >= HEADER_PIECES * PIECE_LEN && header.data.StreamData?
    ensures if at == 0 then p.data == header.data && |p.payload| > 0
            else p.data.Segment? && |p.data.header7| == PIECE_LEN
    ensures p.data.Segment? || p.data == header.data
  {
  }

  /** The queue is the header packet and then segments, each of which starts where the bytes before it end. */
  lemma {:induction false} TailInOrder(header: Packet, orig: Packet, ps: seq<Packet>, upto: nat)
    requires S.CarryUpTo(ps, header, upto) && upto > 0 && header.data.StreamData?
    requires orig == Announced(header, S.FirstLength(ps)) && Divided(orig)
    ensures Queued(ps) != [] && S.Carries(Queued(ps)[0], header, 0) && |Queued(ps)[0].payload| == S.FirstLength(ps)
    ensures |Queued(ps)| == 1 <==> upto == S.FirstLength(ps)
    ensures |Queued(ps)| > 1 ==>
      && OneInterval(orig, Queued(ps)[1..]) && AllSegments(Queued(ps)[1..]) && Incomplete(orig, Queued(ps)[1..])
      && Received(orig, Queued(ps)[1..]) == Interval(S.FirstLength(ps), upto)
      && (|Queued(ps)| > 2 ==> Received(orig, Queued(ps)[1..][..|Queued(ps)| - 2]) != Interval(S.FirstLength(ps), upto))
    decreases |ps|
  {
    hide S.Carries, Sent, OneInterval, Received, Incomplete;
    var front, last := ps[..|ps| - 1], ps[|ps| - 1];
    var at := upto - |last.payload|;
    FirstFound(ps, header, upto);
    FirstFound(front, header, at);
    if last.data.HashData? {
      assert Queued(ps) == Queued(front);
      TailInOrder(header, orig, front, upto);
    } else if at == 0 {
      NothingBefore(header, orig, front);
    } else {
      TailInOrder(header, orig, front, at);
      SliceIsSent(header, orig, last, at);
      SliceData(header, last, at);
      TailGrows(orig, Queued(front), last, S.FirstLength(ps), at);
      SliceTakesRoom(header, last, at);
    }
  }

  lemma TailGrows(orig: Packet, qs: seq<Packet>, last: Packet, lo: nat, at: nat)
    requires Divided(orig) && Sent(orig, last) && last.data.Segment? && From(last) == at && qs != [] && 0 < lo
    requires |qs| == 1 ==> lo == at
    requires |qs| > 1 ==>
      && OneInterval(orig, qs[1..]) && AllSegments(qs[1..]) && Incomplete(orig, qs[1..])
      && Received(orig, qs[1..]) == Interval(lo, at)
    ensures var ts := (qs + [last])[1..];
      && OneInterval(orig, ts) && AllSegments(ts) && Incomplete(orig, ts)
      && Received(orig, ts) == Interval(lo, To(last))
      && (|ts| > 1 ==> ts[..|ts| - 1] == qs[1..])
  {
    SentIsWellFormed(orig, last);
    if |qs| == 1 {
      assert (qs + [last])[1..] == [last];
    } else {
      assert (qs + [last])[1..] == qs[1..] + [last];
      hide Sent, OneInterval, Received, Incomplete;
      OneMore(orig, qs[1..], last, lo, at);
    }
  }

  /** With a header packet that does not announce what it carries, the merger refuses it, or lets it pass through with
      the first slice alone if it is not marked as segmented. The segments after it are held, and never put out. */
  lemma QueueIsStuck(overlay: Overlay, s: State, header: Packet, ps: seq<Packet>, upto: nat, junk: nat -> Slack)
    requires S.CarryUpTo(ps, header, upto) && upto > 0 && S.FirstLength(ps) < |header.payload| <= UINT32_MAX
    requires header.data.StreamData? && |header.hdr| >= HEADER_PIECES * PIECE_LEN
    requires !(header.data.segmented && header.data.dataLength == S.FirstLength(ps))
    requires !s.active && |s.hdr| >= HEADER_PIECES * PIECE_LEN
    ensures AllWellFormed(Queued(ps)) && Queued(ps) != []
    ensures After(overlay, s, Queued(ps), junk).verdict ==
      if |Queued(ps)| > 1 then Again else if header.data.segmented then Invalid else PassThrough
  {
    hide S.CarryUpTo, S.Carries, S.FirstLength, Sent, OneInterval, Received, Incomplete, Divided, Holding, Queued,
      After, Step;
    var orig := Announced(header, S.FirstLength(ps));
    FirstFound(ps, header, upto);
    AnnouncedIsDivided(header, S.FirstLength(ps));
    TailInOrder(header, orig, ps, upto);
    var qs := Queued(ps);
    var first, tail := qs[0], qs[1..];
    assert qs == [first] + tail;
    SliceData(header, first, 0);
    FirstVerdict(overlay, s, header, first, junk(1));
    OnePacket(overlay, s, first, junk);
    if |qs| > 1 {
      JoinedAreWellFormed(orig, tail);
      AfterAppend(overlay, s, [first], tail, junk);
      SegmentsAreHeld(overlay, Step(overlay, s, first, junk(1)).state, orig, tail, Later(junk, 1));
    } else {
      assert qs == [first];
    }
  }

  lemma AnnouncedIsDivided(header: Packet, length: nat)
    requires header.data.StreamData? && |header.hdr| >= HEADER_PIECES * PIECE_LEN
    requires 0 < length < |header.payload| <= UINT32_MAX
    ensures Divided(Announced(header, length))
  {
  }

  lemma OnePacket(overlay: Overlay, s: State, p: Packet, junk: nat -> Slack)
    requires |s.hdr| >= HEADER_PIECES * PIECE_LEN && WellFormed(p)
    ensures AllWellFormed([p]) && After(overlay, s, [p], junk) == Step(overlay, s, p, junk(1))
  {
    assert [p][..0] == [];
  }

  /** The beginning of a queue is the queue of a beginning. */
  lemma {:induction false} QueuePrefix(header: Packet, ps: seq<Packet>, upto: nat, k: nat)
    returns (ps': seq<Packet>, upto': nat)
    requires S.CarryUpTo(ps, header, upto) && upto > 0 && 0 < k <= |Queued(ps)|
    ensures S.CarryUpTo(ps', header, upto') && upto' > 0 && Queued(ps') == Queued(ps)[..k]
    ensures S.FirstLength(ps') == S.FirstLength(ps)
    decreases |ps|
  {
    hide S.Carries;
    if k == |Queued(ps)| {
      ps', upto' := ps, upto;
      assert Queued(ps)[..k] == Queued(ps);
    } else {
      var front, last := ps[..|ps| - 1], ps[|ps| - 1];
      FirstFound(ps, header, upto);
      FirstFound(front, header, upto - |last.payload|);
      QueuedMore(ps, k);
      ps', upto' := QueuePrefix(header, front, upto - |last.payload|, k);
    }
  }

  lemma QueuedMore(ps: seq<Packet>, k: nat)
    requires k < |Queued(ps)|
    ensures ps != [] && k <= |Queued(ps[..|ps| - 1])| && Queued(ps)[..k] == Queued(ps[..|ps| - 1])[..k]
  {
    hide *;
    QueuedLast(ps);
    var front := Queued(ps[..|ps| - 1]);
    if Queued(ps) != front { assert (front + [ps[|ps| - 1]])[..k] == front[..k]; }
  }

  lemma QueuedLast(ps: seq<Packet>)
    requires Queued(ps) != []
    ensures ps != [] && (Queued(ps) == Queued(ps[..|ps| - 1]) || Queued(ps) == Queued(ps[..|ps| - 1]) + [ps[|ps| - 1]])
  {
  }

  /** What the scheduler queues as it is comes through if and only if the caller had put the size of the first slice
      into the header, and had marked it as segmented. Otherwise the merger ends up asking for more. */
  lemma QueueComesThrough(overlay: Overlay, s: State, header: Packet, ps: seq<Packet>, junk: nat -> Slack)
    requires S.CarryUpTo(ps, header, |header.payload|) && S.FirstLength(ps) < |header.payload| <= UINT32_MAX
    requires !s.active && |s.hdr| >= HEADER_PIECES * PIECE_LEN
    ensures header.data.StreamData? && AllWellFormed(Queued(ps)) && Queued(ps) != []
    ensures Smooth(overlay, s, Queued(ps), junk)
    ensures After(overlay, s, Queued(ps), junk).verdict ==
      if header.data.segmented && header.data.dataLength == S.FirstLength(ps)
      then Merged(header.data, header.hdr, Cells(header.payload)) else Again
  {
    hide S.CarryUpTo, S.Carries, S.FirstLength, Divided, Arrives, Received, After, Cells, Queued, Delivered, Smooth,
      Step;
    LengthsAgree(header, ps);
    if header.data.segmented && header.data.dataLength == S.FirstLength(ps) {
      var orig := Announced(header, S.FirstLength(ps));
      assert orig.data == header.data;
      AnnouncedAsQueued(header, orig, ps, |header.payload|);
      RoundTrip(overlay, s, header, ps, junk);
      DeliveredArrives(header, ps);
      RunIsSmooth(overlay, s, orig, Delivered(orig, ps), junk);
      DeliveredSomething(orig, ps);
    } else {
      QueueIsStuck(overlay, s, header, ps, |header.payload|, junk);
      StuckIsSmooth(overlay, s, header, ps, junk);
      AnnouncedIsDivided(header, S.FirstLength(ps));
      TailInOrder(header, Announced(header, S.FirstLength(ps)), ps, |header.payload|);
    }
  }

  lemma DeliveredSomething(orig: Packet, ps: seq<Packet>)
    requires Divided(orig) && Arrives(orig, Delivered(orig, ps))
    ensures Delivered(orig, ps) != []
  {
  }

  lemma StuckIsSmooth(overlay: Overlay, s: State, header: Packet, ps: seq<Packet>, junk: nat -> Slack)
    requires S.CarryUpTo(ps, header, |header.payload|) && 0 < S.FirstLength(ps) < |header.payload| <= UINT32_MAX
    requires header.data.StreamData? && |header.hdr| >= HEADER_PIECES * PIECE_LEN
    requires !(header.data.segmented && header.data.dataLength == S.FirstLength(ps))
    requires !s.active && |s.hdr| >= HEADER_PIECES * PIECE_LEN
    ensures AllWellFormed(Queued(ps)) && Smooth(overlay, s, Queued(ps), junk)
  {
    hide S.CarryUpTo, S.Carries, S.FirstLength, Queued, Step;
    QueueIsStuck(overlay, s, header, ps, |header.payload|, junk);
    forall k | 0 <= k <= |Queued(ps)|
      ensures After(overlay, s, Queued(ps)[..k], junk).verdict != Undefined
    {
      if k > 0 {
        var ps', upto' := QueuePrefix(header, ps, |header.payload|, k);
        QueueIsStuck(overlay, s, header, ps', upto', junk);
      }
    }
  }

  /** A payload that fits the header packet comes through, also if and only if the header says so: by not being marked
      as segmented. */
  lemma WholeInOne(overlay: Overlay, s: State, header: Packet, ps: seq<Packet>, junk: nat -> Slack)
    requires S.CarryUpTo(ps, header, |header.payload|) && S.FirstLength(ps) == |header.payload| > 0
    requires !s.active && |s.hdr| >= HEADER_PIECES * PIECE_LEN
    ensures header.data.StreamData?
    ensures |Queued(ps)| == 1 && Queued(ps)[0].payload == header.payload && AllWellFormed(Queued(ps))
    ensures After(overlay, s, Queued(ps), junk).verdict ==
      if !header.data.segmented then PassThrough
      else if header.data.dataLength == |header.payload| then Again else Invalid
  {
    hide S.Carries, S.CarryUpTo, S.FirstLength, Queued, Step;
    OnlyHeader(header, ps, |header.payload|);
    var p := Queued(ps)[0];
    assert Queued(ps) == [p];
    SliceData(header, p, 0);
    FirstVerdict(overlay, s, header, p, junk(1));
    WholeSlice(header, p);
    assert [p][..0] == [];
  }

  lemma WholeSlice(header: Packet, p: Packet)
    requires S.Carries(p, header, 0) && |p.payload| == |header.payload|
    ensures p.payload == header.payload
  {
  }

  lemma FirstVerdict(overlay: Overlay, s: State, header: Packet, p: Packet, junk: Slack)
    requires S.Carries(p, header, 0) && !s.active && |s.hdr| >= HEADER_PIECES * PIECE_LEN
    ensures WellFormed(p) && header.data.StreamData?
    ensures Step(overlay, s, p, junk).verdict ==
      if !header.data.segmented then PassThrough else if header.data.dataLength == |p.payload| then Again else Invalid
    ensures Step(overlay, s, p, junk).verdict != Again ==> !Step(overlay, s, p, junk).state.active
  {
  }

  lemma {:induction false} OnlyHeader(header: Packet, ps: seq<Packet>, upto: nat)
    requires S.CarryUpTo(ps, header, upto) && S.FirstLength(ps) == upto > 0
    ensures |Queued(ps)| == 1 && S.Carries(Queued(ps)[0], header, 0) && |Queued(ps)[0].payload| == upto
    decreases |ps|
  {
    hide S.Carries;
    var front, last := ps[..|ps| - 1], ps[|ps| - 1];
    var at := upto - |last.payload|;
    FirstFound(front, header, at);
    if last.data.HashData? {
      OnlyHeader(header, front, upto);
    } else if at == 0 {
      NothingBefore(header, header, front);
    } else {
      SliceTakesRoom(header, last, at);
    }
  }

  lemma SliceTakesRoom(header: Packet, p: Packet, at: nat)
    requires S.Carries(p, header, at)
    ensures |p.payload| > 0
  {
  }

  /** The queue of a packet that direct_push has finished with, whatever the budgets were. */
  lemma DrainedComesThrough(overlay: Overlay, s: State, scheduler: S.Scheduler, st: S.PacketContext, junk: nat -> Slack)
    requires scheduler.Finished(st) && S.FirstLength(st.emitted) < |st.p.payload| <= UINT32_MAX
    requires !s.active && |s.hdr| >= HEADER_PIECES * PIECE_LEN
    ensures st.p.data.StreamData? && AllWellFormed(Queued(st.emitted))
    ensures After(overlay, s, Queued(st.emitted), junk).verdict ==
      if st.p.data.segmented && st.p.data.dataLength == S.FirstLength(st.emitted)
      then Merged(st.p.data, st.p.hdr, Cells(st.p.payload)) else Again
    ensures var orig := Announced(st.p, S.FirstLength(st.emitted));
      && AllWellFormed(Delivered(orig, st.emitted))
      && After(overlay, s, Delivered(orig, st.emitted), junk).verdict == Merged(orig.data, st.p.hdr, Cells(st.p.payload))
  {
    hide S.CarryUpTo, S.FirstLength, Queued, Delivered, After, Cells, Smooth;
    LengthsAgree(st.p, st.emitted);
    QueueComesThrough(overlay, s, st.p, st.emitted, junk);
    RoundTrip(overlay, s, st.p, st.emitted, junk);
  }

  // Sender and receiver together, in place.

  /** The header that is sent has the fields of the caller's packet, and only its number from the scheduler. */
  lemma SameFields(fmt: Format, p: Packet, header: Packet, seqNo: nat)
    requires p.data.StreamData? && header == S.Numbering(fmt, p, seqNo)
    ensures S.Renumbered(p, header, seqNo) && header.payload == p.payload
    ensures header.data == StreamData(p.data.streamId, seqNo, p.data.dataLength, p.data.segmented, p.data.info)
    ensures header.hdr == fmt.encode(header.data)
  {
    S.NumberingKeeps(fmt, p, seqNo);
    hide S.Numbering;
  }

  /** One push without a bandwidth limit, and its queue as it is: the caller, who knows the size limit, can put the
      length of the first slice into the header beforehand, and the payload comes through if and only if it did. */
  method SendQueue(fmt: Format, scheduler: S.Scheduler, p: Packet, maxPacketSize: nat, m: Merger, junk: nat -> Slack)
    returns (verdict: Verdict, sent: seq<Packet>)
    requires fmt.WellFormed() && p.data.StreamData? && |p.payload| <= UINT32_MAX
    requires fmt.headerLen(StreamDataKind) < maxPacketSize < fmt.headerLen(StreamDataKind) + |p.payload|
    requires maxPacketSize > fmt.headerLen(SegmentKind) && !m.active && |m.hdr| >= HEADER_PIECES * PIECE_LEN
    modifies scheduler, m
    ensures scheduler.staging == old(scheduler.staging) + sent
    ensures var data := StreamData(p.data.streamId, old(scheduler.seqNo), p.data.dataLength, p.data.segmented, p.data.info);
      verdict == if p.data.segmented && p.data.dataLength == maxPacketSize - fmt.headerLen(StreamDataKind)
                 then Merged(data, fmt.encode(data), Cells(p.payload)) else Again
    ensures S.Wired(fmt, sent, p.data.streamId, old(scheduler.seqNo)) && scheduler.seqNo == old(scheduler.seqNo) + |sent|
  {
    hide S.CarryUpTo, S.Bounded, S.Payloads, S.FirstLength, S.Narrowed, Queued, After, Smooth, Cells, Step, Returned;
    ghost var header := S.Numbering(fmt, p, scheduler.seqNo);
    var before := |scheduler.staging|;
    var code, ret;
    ghost var new_;
    code, ret, new_ := scheduler.Bypass(fmt, p, maxPacketSize);
    sent := scheduler.staging[before..];
    assert sent == new_;
    SameFields(fmt, p, header, scheduler.seqNo - |sent|);
    QueueComesThrough(m.overlay, m.Snapshot(), header, sent, junk);
    code, verdict := Feed(m, Queued(sent), junk);
  }

  /** The same with the sizes announced, which always comes through. */
  method SendAndMerge(fmt: Format, scheduler: S.Scheduler, p: Packet, maxPacketSize: nat, m: Merger, junk: nat -> Slack)
    returns (verdict: Verdict, sent: seq<Packet>)
    requires fmt.WellFormed() && p.data.StreamData? && |p.payload| <= UINT32_MAX
    requires fmt.headerLen(StreamDataKind) < maxPacketSize < fmt.headerLen(StreamDataKind) + |p.payload|
    requires maxPacketSize > fmt.headerLen(SegmentKind) && !m.active && |m.hdr| >= HEADER_PIECES * PIECE_LEN
    modifies scheduler, m
    ensures scheduler.staging == old(scheduler.staging) + sent
    ensures var seqNo := old(scheduler.seqNo);
      verdict == Merged(
        StreamData(p.data.streamId, seqNo, maxPacketSize - fmt.headerLen(StreamDataKind), true, p.data.info),
        fmt.encode(StreamData(p.data.streamId, seqNo, p.data.dataLength, p.data.segmented, p.data.info)), Cells(p.payload))
    ensures S.Wired(fmt, sent, p.data.streamId, old(scheduler.seqNo)) && scheduler.seqNo == old(scheduler.seqNo) + |sent|
  {
    hide S.CarryUpTo, S.Bounded, S.Payloads, S.FirstLength, S.Narrowed, Delivered, Arrives, Received, After,
      Smooth, Cells, Step, Returned,
      Divided, Holding, Welcome;
    var header := S.Numbering(fmt, p, scheduler.seqNo);
    var before := |scheduler.staging|;
    var code, ret;
    ghost var new_;
    code, ret, new_ := scheduler.Bypass(fmt, p, maxPacketSize);
    sent := scheduler.staging[before..];
    assert sent == new_;
    SameFields(fmt, p, header, scheduler.seqNo - |sent|);
    LengthsAgree(header, sent);
    var orig := Announced(header, S.FirstLength(sent));
    DeliveredArrives(header, sent);
    RoundTrip(m.overlay, m.Snapshot(), header, sent, junk);
    RunIsSmooth(m.overlay, m.Snapshot(), orig, Delivered(orig, sent), junk);
    DeliveredSomething(orig, sent);
    code, verdict := Feed(m, Delivered(orig, sent), junk);
  }

  /** The queue of direct_push, whatever the budgets: the length that counts is that of the first of them. */
  method DrainQueue(fmt: Format, scheduler: S.Scheduler, st: S.PacketContext, segSizeLim: nat, budgets: nat -> nat,
                    m: Merger,
                    junk: nat -> Slack)
    returns (last: S.PushResult, verdict: Verdict, sent: seq<Packet>)
    requires fmt.WellFormed() && st.Fresh() && st.p.payload != []
    requires segSizeLim > fmt.headerLen(KindOf(st.p.data)) && segSizeLim > fmt.headerLen(SegmentKind)
    requires st.FirstSliceLength(fmt, Min(segSizeLim, budgets(0))) < |st.p.payload|
    requires !m.active && |m.hdr| >= HEADER_PIECES * PIECE_LEN
    modifies scheduler, st, m
    ensures scheduler.staging == old(scheduler.staging) + sent
    ensures last == S.Wrote(0) ==>
      var (p, seqNo) := old((st.p, scheduler.seqNo));
      var data := StreamData(p.data.streamId, seqNo, p.data.dataLength, p.data.segmented, p.data.info);
      verdict == if p.data.segmented && p.data.dataLength == old(st.FirstSliceLength(fmt, Min(segSizeLim, budgets(0))))
                 then Merged(data, fmt.encode(data), Cells(p.payload)) else Again
    ensures S.Wired(fmt, sent, old(st.p.data.streamId), old(scheduler.seqNo))
  {
    hide S.CarryUpTo, S.Bounded, S.FirstLength, S.Narrowed, S.Emits, S.TooSmall, S.Payloads, S.Hashes, Queued,
      After, Smooth, Cells, Step,
      Returned;
    var before := |scheduler.staging|;
    ghost var o := scheduler.Out(st);
    var code, calls;
    ghost var new_;
    verdict := Again;
    code, last, calls, new_ := scheduler.Drain(fmt, st, segSizeLim, budgets);
    S.EmitsMeans(fmt, o, new_, scheduler.Out(st), segSizeLim, segSizeLim);
    sent := scheduler.staging[before..];
    assert sent == new_;
    if last == S.Wrote(0) {
      assert st.emitted == new_;
      SameFields(fmt, old(st.p), st.p, old(scheduler.seqNo));
      QueueComesThrough(m.overlay, m.Snapshot(), st.p, sent, junk);
      code, verdict := Feed(m, Queued(sent), junk);
    }
  }
}
