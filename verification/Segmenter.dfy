/** Cutting a packet into budget-sized pieces, resumable after every one of them (scheduler_push_internal). */
module Segmenter {
  import opened FixedWidth
  import opened Packets

  /** The return value: AVT_ERROR(EAGAIN), or the bytes written, where zero says that the packet is finished. */
  datatype PushResult = Again | Wrote(bytes: nat)

  /** What the callers make of it: both keep the 64-bit result in an `int`. */
  function Narrowed(ret: PushResult): int {
    match ret
    case Again => -EAGAIN
    case Wrote(bytes) => ToInt(bytes)
  }

  /** Up to INT_MAX bytes that is the same, and above, as far as 32 bits reach, a negative number. */
  lemma NarrowedKeeps(ret: PushResult)
    ensures match ret
      case Again => Narrowed(ret) == -11
      case Wrote(n) =>
        && (n <= 0x7FFF_FFFF ==> Narrowed(ret) == n)
        && (0x7FFF_FFFF < n <= 0xFFFF_FFFF ==> Narrowed(ret) == n - 0x1_0000_0000)
  {
  }

  function WireSize(fmt: Format, p: Packet): nat { fmt.headerLen(KindOf(p.data)) + |p.payload| }

  function TotalSize(fmt: Format, ps: seq<Packet>): nat {
    if ps == [] then 0 else TotalSize(fmt, ps[..|ps| - 1]) + WireSize(fmt, ps[|ps| - 1])
  }

  function Payloads(ps: seq<Packet>): Bytes {
    if ps == [] then [] else Payloads(ps[..|ps| - 1]) + ps[|ps| - 1].payload
  }

  /** `p` carries the slice of the payload that starts at `at`: as the header packet itself when `at` is zero,
      and else as a segment that says where it belongs and lends a piece of the header. */
  ghost predicate Carries(p: Packet, header: Packet, at: nat) {
    && 0 < |p.payload| && at + |p.payload| <= |header.payload|
    && p.payload == header.payload[at..at + |p.payload|]
    && header.data.StreamData? && |header.hdr| >= HEADER_PIECES * PIECE_LEN && |p.hdr| >= HEADER_PIECES * PIECE_LEN
    && (if at == 0 then p.data == header.data && p.hdr == header.hdr
        else p.data == CreateSegment(header, p.data.seqNo, at, |p.payload|, |header.payload|))
  }

  /** These packets, in this order, carry the payload up to `upto`, interrupted after the first by no more than hash
      packets that name it. */
  ghost predicate CarryUpTo(ps: seq<Packet>, header: Packet, upto: nat)
    decreases |ps|
  {
    if ps == [] then
      upto == 0
    else
      var last := ps[|ps| - 1];
      if last.data.HashData? then
        last.payload == [] && last.data.target == header.data.seqNo && upto > 0 && CarryUpTo(ps[..|ps| - 1], header, upto)
      else
        |last.payload| <= upto && Carries(last, header, upto - |last.payload|)
        && CarryUpTo(ps[..|ps| - 1], header, upto - |last.payload|)
  }

  /** The length of the first slice. */
  function FirstLength(ps: seq<Packet>): nat { if ps == [] then 0 else |ps[0].payload| }

  lemma FirstStays(ps: seq<Packet>, qs: seq<Packet>)
    requires ps != []
    ensures FirstLength(ps + qs) == FirstLength(ps)
  {
  }

  /** The hashes sent along. */
  function Hashes(ps: seq<Packet>): seq<Bytes> {
    if ps == [] then []
    else Hashes(ps[..|ps| - 1]) + (if ps[|ps| - 1].data.HashData? then [ps[|ps| - 1].data.digest] else [])
  }

  ghost predicate Increasing(ps: seq<Packet>, next: nat) {
    && (forall i, j :: 0 <= i < j < |ps| ==> ps[i].data.seqNo < ps[j].data.seqNo)
    && (forall i :: 0 <= i < |ps| ==> ps[i].data.seqNo < next)
  }

  /** Conservation: what has been carried so far is a prefix of the payload, with nothing lost or repeated. */
  lemma {:induction false} CarriedIsPrefix(ps: seq<Packet>, header: Packet, upto: nat)
    requires CarryUpTo(ps, header, upto)
    ensures upto <= |header.payload| && Payloads(ps) == header.payload[..upto]
    decreases |ps|
  {
    if ps != [] {
      var last := ps[|ps| - 1];
      CarriedIsPrefix(ps[..|ps| - 1], header, upto - |last.payload|);
      assert header.payload[..upto - |last.payload|] + last.payload == header.payload[..upto];
    }
  }

  /** Each packet starts where the payload put out before it ends. */
  lemma {:induction false} SlicesAreContiguous(ps: seq<Packet>, header: Packet, upto: nat, i: nat)
    requires CarryUpTo(ps, header, upto) && i < |ps|
    ensures if ps[i].data.HashData? then ps[i].payload == [] else Carries(ps[i], header, |Payloads(ps[..i])|)
    decreases |ps|
  {
    hide Carries;
    var front := ps[..|ps| - 1];
    if i < |front| {
      SlicesAreContiguous(front, header, upto - |ps[|front|].payload|, i);
      assert front[..i] == ps[..i];
    } else {
      CarriedIsPrefix(front, header, upto - |ps[i].payload|);
    }
  }

  /** AVTSchedulerPacketContext */
  class PacketContext {
    var p: Packet
    var hashSent: bool
    var segOffset: nat
    var plLeft: nat
    var segHdrSize: nat
    var present: bool

    ghost var emitted: seq<Packet>  // every packet put out for p so far

    ghost predicate Fresh()
      reads this
    {
      && segOffset == 0 && !hashSent && emitted == [] && |p.payload| <= UINT32_MAX
      && (p.payload == [] || p.data.StreamData?)
    }

    ghost predicate Started(fmt: Format, next: nat)
      reads this
    {
      && 0 < segOffset && segOffset + plLeft == |p.payload| <= UINT32_MAX
      && segHdrSize == fmt.headerLen(SegmentKind) && (hashSent ==> p.hasHash)
      && p.data.StreamData? && p.hdr == fmt.encode(p.data)
      && Progress(p, emitted, segOffset, hashSent, next)
    }

    ghost predicate Valid(fmt: Format, next: nat)
      reads this
    {
      Fresh() || Started(fmt, next)
    }

    /** What is still to be put out: the rest of the payload, and a pending hash. Every packet takes from it. */
    ghost function Work(): int
      reads this
    {
      |p.payload| - segOffset + (if p.hasHash && !hashSent then 1 else 0)
    }

    predicate HashWaits()
      reads this
    {
      p.hasHash && !hashSent
    }

    /** There is no room for the hash that comes next, or for the least that a segment can be. */
    predicate Stuck(fmt: Format, outLimit: nat)
      reads this
    {
      (HashWaits() && outLimit < fmt.headerLen(HashKind)) || outLimit <= fmt.headerLen(SegmentKind)
    }

    /** There is no room for the header packet, with a byte of payload if there is any. */
    predicate CannotStart(fmt: Format, outLimit: nat)
      reads this
    {
      outLimit < fmt.headerLen(KindOf(p.data)) + (if p.payload == [] then 0 else 1)
    }

    /** How much of the payload goes out with the header packet. */
    function FirstSliceLength(fmt: Format, lim: nat): int
      reads this
    {
      Min(lim - fmt.headerLen(KindOf(p.data)), |p.payload|)
    }

    /** The header packet with its first slice leaves some of the budget. */
    predicate GoesOn(fmt: Format, lim: nat, outLimit: nat)
      reads this
    {
      p.payload != [] && fmt.headerLen(KindOf(p.data)) + FirstSliceLength(fmt, lim) < outLimit
    }

    /** When a call refuses with EAGAIN. */
    predicate Refuses(fmt: Format, lim: nat, outLimit: nat)
      reads this
    {
      if segOffset == 0 then CannotStart(fmt, outLimit) || (GoesOn(fmt, lim, outLimit) && Stuck(fmt, outLimit))
      else Stuck(fmt, outLimit)
    }

    /** And when it does so although it has put something out, of which the caller never hears: the header packet, or
        the hash, or both. */
    predicate Unreported(fmt: Format, lim: nat, outLimit: nat)
      reads this
    {
      && Refuses(fmt, lim, outLimit)
      && if segOffset == 0 then !CannotStart(fmt, outLimit) else HashWaits() && fmt.headerLen(HashKind) <= outLimit
    }

    constructor (p: Packet)
      requires (p.payload == [] || p.data.StreamData?) && |p.payload| <= UINT32_MAX
      ensures Fresh() && this.p == p
    {
      this.p := p;
      hashSent, segOffset, plLeft, segHdrSize, present := false, 0, 0, 0, true;
      emitted := [];
    }

    /** preload_pkt: the next packet takes the place of a finished one. */
    method Load(p: Packet)
      requires segOffset == 0 && !hashSent && (p.payload == [] || p.data.StreamData?) && |p.payload| <= UINT32_MAX
      modifies this
      ensures Fresh() && this.p == p && present
    {
      this.p := p;
      present := true;
      emitted := [];
    }
  }

  /** The packets put out for p carry its payload up to `upto`, and its hash if `hashed`, under increasing sequence
      numbers below `next`. */
  ghost predicate Progress(p: Packet, emitted: seq<Packet>, upto: nat, hashed: bool, next: nat) {
    CarryUpTo(emitted, p, upto) && Increasing(emitted, next) && Hashes(emitted) == if hashed then [p.digest] else []
  }

  lemma ProgressNone(p: Packet, next: nat)
    ensures Progress(p, [], 0, false, next)
  {
  }

  lemma ProgressSlice(p: Packet, emitted: seq<Packet>, upto: nat, hashed: bool, next: nat, q: Packet)
    requires Progress(p, emitted, upto, hashed, next)
    requires !q.data.HashData? && Carries(q, p, upto) && q.data.seqNo == next
    ensures Progress(p, emitted + [q], upto + |q.payload|, hashed, next + 1)
  {
    assert (emitted + [q])[..|emitted|] == emitted;
  }

  lemma ProgressHash(p: Packet, emitted: seq<Packet>, upto: nat, next: nat, q: Packet)
    requires Progress(p, emitted, upto, false, next) && upto > 0
    requires q.data.HashData? && q.payload == [] && q.data.target == p.data.seqNo && q.data.digest == p.digest
    requires q.data.seqNo == next
    ensures Progress(p, emitted + [q], upto, true, next + 1)
  {
    assert (emitted + [q])[..|emitted|] == emitted;
  }

  lemma ProgressDone(p: Packet, emitted: seq<Packet>, hashed: bool, next: nat)
    requires Progress(p, emitted, |p.payload|, hashed, next)
    ensures Payloads(emitted) == p.payload && Hashes(emitted) == if hashed then [p.digest] else []
    ensures CarryUpTo(emitted, p, |p.payload|)
  {
    CarriedIsPrefix(emitted, p, |p.payload|);
    assert p.payload[..|p.payload|] == p.payload;
  }

  /** Between any two calls, whatever their budgets were: what is out is the payload up to the offset, in increasing
      order of sequence number, and what is left is the rest. */
  lemma Conserved(fmt: Format, st: PacketContext, next: nat)
    requires st.Valid(fmt, next)
    ensures Payloads(st.emitted) + st.p.payload[st.segOffset..] == st.p.payload && Increasing(st.emitted, next)
    ensures st.segOffset > 0 ==> st.plLeft == |st.p.payload[st.segOffset..]|
  {
    hide Carries, Hashes;
    if !st.Fresh() {
      CarriedIsPrefix(st.emitted, st.p, st.segOffset);
      hide CarryUpTo, Payloads;
      assert st.p.payload[..st.segOffset] + st.p.payload[st.segOffset..] == st.p.payload;
    } else {
      assert Payloads([]) == [];
    }
  }

  lemma TotalSizeOne(fmt: Format, p: Packet)
    ensures TotalSize(fmt, [p]) == WireSize(fmt, p)
  {
  }

  lemma {:induction false} TotalSizeJoins(fmt: Format, ps: seq<Packet>, qs: seq<Packet>)
    ensures TotalSize(fmt, ps + qs) == TotalSize(fmt, ps) + TotalSize(fmt, qs)
  {
    if qs == [] {
      assert ps + qs == ps;
    } else {
      assert (ps + qs)[..|ps + qs| - 1] == ps + qs[..|qs| - 1];
      TotalSizeJoins(fmt, ps, qs[..|qs| - 1]);
    }
  }

  lemma NothingPutOut(fmt: Format)
    ensures TotalSize(fmt, []) == 0
  {
  }

  lemma HeadersTakeRoom(fmt: Format, kind: Kind)
    requires fmt.WellFormed()
    ensures 0 < fmt.headerLen(kind)
  {
  }

  lemma EveryPacketCounts(fmt: Format, ps: seq<Packet>)
    requires fmt.WellFormed()
    ensures TotalSize(fmt, ps) == 0 ==> ps == []
  {
  }

  lemma {:induction false} HeadersAreShort(fmt: Format, ps: seq<Packet>)
    requires fmt.WellFormed()
    ensures TotalSize(fmt, ps) <= MAX_HEADER_LEN * |ps| + |Payloads(ps)|
  {
    if ps != [] { HeadersAreShort(fmt, ps[..|ps| - 1]); }
  }

  /** Every packet that bears payload respects the size limit. */
  ghost predicate Bounded(fmt: Format, ps: seq<Packet>, lim: nat) {
    forall i :: 0 <= i < |ps| && ps[i].payload != [] ==> WireSize(fmt, ps[i]) <= lim
  }

  /** Each of these packets has its own header encoded, belongs to this stream, and takes the next sequence number. */
  ghost predicate Wired(fmt: Format, ps: seq<Packet>, streamId: int, first: nat) {
    forall i :: 0 <= i < |ps| ==>
      ps[i].hdr == fmt.encode(ps[i].data) && ps[i].data.streamId == streamId && ps[i].data.seqNo == first + i
  }

  /** Segments are as long as the limit lets them be, but for the one that ends the payload; and none of them is before
      a hash packet. */
  ghost predicate Full(fmt: Format, ps: seq<Packet>, lim: nat) {
    && (forall i :: 0 <= i < |ps| && ps[i].data.Segment? ==>
          fmt.headerLen(SegmentKind) + |ps[i].payload| == lim || ps[i].data.offset + |ps[i].payload| == ps[i].data.total)
    && (forall i, j :: 0 <= i < j < |ps| && ps[i].data.Segment? ==> !ps[j].data.HashData?)
  }

  lemma NoneWired(fmt: Format, streamId: int, first: nat, lim: nat)
    ensures Wired(fmt, [], streamId, first) && Full(fmt, [], lim) && AllSegments([])
  {
  }

  lemma WiredMore(fmt: Format, ps: seq<Packet>, qs: seq<Packet>, streamId: int, first: nat)
    requires Wired(fmt, ps, streamId, first) && Wired(fmt, qs, streamId, first + |ps|)
    ensures Wired(fmt, ps + qs, streamId, first)
  {
  }

  ghost predicate AllSegments(ps: seq<Packet>) { forall i :: 0 <= i < |ps| ==> ps[i].data.Segment? }

  ghost predicate NoSegments(ps: seq<Packet>) { forall i :: 0 <= i < |ps| ==> !ps[i].data.Segment? }

  lemma FullMore(fmt: Format, ps: seq<Packet>, qs: seq<Packet>, lim: nat)
    requires (NoSegments(ps) && Full(fmt, qs, lim)) || (Full(fmt, ps, lim) && AllSegments(qs) && Full(fmt, qs, lim))
    ensures Full(fmt, ps + qs, lim) && (AllSegments(ps) && AllSegments(qs) ==> AllSegments(ps + qs))
  {
  }

  lemma NoSegmentsInNone()
    ensures NoSegments([])
  {
  }

  lemma NoSegmentsAreFull(fmt: Format, ps: seq<Packet>, lim: nat)
    requires NoSegments(ps)
    ensures Full(fmt, ps, lim)
  {
  }

  /** A packet without payload: the caller's data, encoded. */
  function Alone(fmt: Format, data: PacketData): Packet { Packet(data, fmt.encode(data), [], false, []) }

  /** The header that is sent is the caller's, field by field, under the scheduler's number. */
  ghost predicate Renumbered(p: Packet, header: Packet, seqNo: nat) {
    && header.payload == p.payload && header.hasHash == p.hasHash && header.digest == p.digest
    && p.data.StreamData? && header.data.StreamData? && header.data.seqNo == seqNo
    && header.data.streamId == p.data.streamId && header.data.info == p.data.info
    && header.data.dataLength == p.data.dataLength && header.data.segmented == p.data.segmented
  }

  /** Lines 123-126: the packet numbered and with its header encoded. */
  function Numbering(fmt: Format, p: Packet, seqNo: nat): Packet {
    var data := Numbered(p.data, seqNo);
    Packet(data, fmt.encode(data), p.payload, p.hasHash, p.digest)
  }

  /** Lines 117 and 134-136: what goes into the queue for it, with the first `len` bytes. */
  function HeaderPacket(header: Packet, len: nat): Packet
    requires len <= |header.payload|
  {
    Packet(header.data, header.hdr, header.payload[..len], false, [])
  }

  /** Lines 186-194: a segment with `len` bytes from `at`. */
  function SegmentPacket(fmt: Format, header: Packet, seqNo: nat, at: nat, len: nat): Packet
    requires header.data.StreamData? && |header.hdr| >= HEADER_PIECES * PIECE_LEN && at + len <= |header.payload|
  {
    var data := CreateSegment(header, seqNo, at, len, |header.payload|);
    Packet(data, fmt.encode(data), header.payload[at..at + len], false, [])
  }

  lemma NumberingKeeps(fmt: Format, p: Packet, seqNo: nat)
    requires p.data.StreamData?
    ensures var header := Numbering(fmt, p, seqNo);
      && header.data.StreamData? && header.hdr == fmt.encode(header.data) && header.payload == p.payload
      && header.hasHash == p.hasHash && Renumbered(p, header, seqNo)
  {
  }

  lemma FirstSlice(fmt: Format, p: Packet, seqNo: nat, len: nat)
    requires fmt.WellFormed() && p.data.StreamData? && 0 < len <= |p.payload|
    ensures var header := Numbering(fmt, p, seqNo);
      var q := HeaderPacket(header, len);
      && Progress(header, [q], len, false, seqNo + 1) && |q.payload| == len
      && WireSize(fmt, q) == TotalSize(fmt, [q]) == fmt.headerLen(StreamDataKind) + len
      && Wired(fmt, [q], p.data.streamId, seqNo) && NoSegments([q])
  {
    var header := Numbering(fmt, p, seqNo);
    var q := HeaderPacket(header, len);
    assert q.payload == header.payload[0..0 + len];
    ProgressNone(header, seqNo);
    TotalSizeOne(fmt, q);
    hide TotalSize;
    ProgressSlice(header, [], 0, false, seqNo, q);
    assert [] + [q] == [q];
  }

  lemma NextSlice(fmt: Format, header: Packet, emitted: seq<Packet>, hashed: bool, seqNo: nat, at: nat, len: nat)
    requires fmt.WellFormed() && header.data.StreamData? && header.hdr == fmt.encode(header.data)
    requires 0 < at && 0 < len && at + len <= |header.payload| && Progress(header, emitted, at, hashed, seqNo)
    ensures |header.hdr| >= HEADER_PIECES * PIECE_LEN
    ensures var q := SegmentPacket(fmt, header, seqNo, at, len);
      && Progress(header, emitted + [q], at + len, hashed, seqNo + 1)
      && WireSize(fmt, q) == TotalSize(fmt, [q]) == fmt.headerLen(SegmentKind) + len
      && Wired(fmt, [q], header.data.streamId, seqNo) && AllSegments([q])
      && q.payload == header.payload[at..at + len] && q.data.offset == at && q.data.total == |header.payload|
  {
    hide Progress, TotalSize;
    var q := SegmentPacket(fmt, header, seqNo, at, len);
    ProgressSlice(header, emitted, at, hashed, seqNo, q);
    TotalSizeOne(fmt, q);
  }

  /** Where emitted packets go: the staging queue, the record of their context, and the bandwidth account. */
  datatype Output = Output(staging: seq<Packet>, emitted: seq<Packet>, charged: nat)

  ghost function Extend(fmt: Format, o: Output, ps: seq<Packet>): Output {
    Output(o.staging + ps, o.emitted + ps, o.charged + TotalSize(fmt, ps))
  }

  lemma ExtendJoins(fmt: Format, o: Output, ps: seq<Packet>, qs: seq<Packet>)
    ensures Extend(fmt, Extend(fmt, o, ps), qs) == Extend(fmt, o, ps + qs)
  {
    TotalSizeJoins(fmt, ps, qs);
    assert o.staging + (ps + qs) == (o.staging + ps) + qs;
    assert o.emitted + (ps + qs) == (o.emitted + ps) + qs;
  }

  /** Putting out `ps`, each within the size limit, leads from `o` to `o'`. */
  ghost predicate Emits(fmt: Format, o: Output, ps: seq<Packet>, o': Output, lim: nat) {
    o' == Extend(fmt, o, ps) && Bounded(fmt, ps, lim)
  }

  lemma EmitsNone(fmt: Format, o: Output, lim: nat)
    ensures Emits(fmt, o, [], o, lim)
  {
  }

  lemma EmitsOne(fmt: Format, o: Output, p: Packet, lim: nat)
    requires WireSize(fmt, p) <= lim || p.payload == []
    ensures Emits(fmt, o, [p], Output(o.staging + [p], o.emitted + [p], o.charged + WireSize(fmt, p)), lim)
  {
    TotalSizeOne(fmt, p);
  }

  lemma PlainIsOut(fmt: Format, o: Output, p: Packet)
    requires p.payload == [] && o.emitted == []
    ensures Payloads([p]) == [] && o.emitted + [p] == [p] && TotalSize(fmt, [p]) == fmt.headerLen(KindOf(p.data))
    ensures Emits(fmt, o, [p], Output(o.staging + [p], o.emitted + [p], o.charged + fmt.headerLen(KindOf(p.data))), 0)
  {
    EmitsOne(fmt, o, p, 0);
    TotalSizeOne(fmt, p);
  }

  lemma EmitsWithin(fmt: Format, o: Output, ps: seq<Packet>, o': Output, lim: nat, lim': nat)
    requires Emits(fmt, o, ps, o', lim) && lim <= lim'
    ensures Emits(fmt, o, ps, o', lim')
  {
  }

  lemma EmitsMeans(fmt: Format, o: Output, ps: seq<Packet>, o': Output, lim: nat, lim': nat)
    requires Emits(fmt, o, ps, o', lim) && lim <= lim'
    ensures o'.staging == o.staging + ps && o'.emitted == o.emitted + ps && Bounded(fmt, ps, lim')
  {
  }

  lemma EmitsMore(fmt: Format, o: Output, ps: seq<Packet>, o': Output, qs: seq<Packet>, o'': Output, lim: nat)
    requires Emits(fmt, o, ps, o', lim) && Emits(fmt, o', qs, o'', lim)
    ensures Emits(fmt, o, ps + qs, o'', lim)
    ensures TotalSize(fmt, ps + qs) == TotalSize(fmt, ps) + TotalSize(fmt, qs)
  {
    ExtendJoins(fmt, o, ps, qs);
    TotalSizeJoins(fmt, ps, qs);
  }

  /** A budget that cannot take one of the packets that may be next. */
  predicate TooSmall(fmt: Format, kind: Kind, outLimit: nat) {
    outLimit <= fmt.headerLen(kind) || outLimit <= fmt.headerLen(HashKind) || outLimit <= fmt.headerLen(SegmentKind)
  }

  lemma RefusalIsSmall(fmt: Format, st: PacketContext, lim: nat, outLimit: nat)
    ensures st.Refuses(fmt, lim, outLimit) ==> TooSmall(fmt, KindOf(st.p.data), outLimit)
  {
  }

  /** Refusals, in terms of the sizes: a header packet needs room for itself and a byte of payload, a hash packet for
      itself, and a segment for itself and a byte. */
  lemma WhenRefused(fmt: Format, st: PacketContext, lim: nat, outLimit: nat)
    ensures var (h, hash, seg) := (fmt.headerLen(KindOf(st.p.data)), fmt.headerLen(HashKind), fmt.headerLen(SegmentKind));
      var tooSmall := (st.p.hasHash && !st.hashSent && outLimit < hash) || outLimit < seg + 1;
      st.Refuses(fmt, lim, outLimit) <==>
        if st.segOffset > 0 then tooSmall
        else if st.p.payload == [] then outLimit < h
        else outLimit < h + 1 || (h + Min(lim - h, |st.p.payload|) < outLimit && tooSmall)
    ensures st.Unreported(fmt, lim, outLimit) ==> st.Refuses(fmt, lim, outLimit)
    ensures st.Refuses(fmt, lim, outLimit) ==> (st.Unreported(fmt, lim, outLimit) <==>
      if st.segOffset > 0 then st.p.hasHash && !st.hashSent && fmt.headerLen(HashKind) <= outLimit
      else fmt.headerLen(KindOf(st.p.data)) + (if st.p.payload == [] then 0 else 1) <= outLimit)
  {
  }

  lemma NeverRefuses(fmt: Format, st: PacketContext, lim: nat)
    requires fmt.WellFormed()
    ensures !st.Refuses(fmt, lim, INT64_MAX) && Payloads([]) == [] && fmt.headerLen(KindOf(st.p.data)) <= MAX_HEADER_LEN
  {
  }

  /** With practically no budget limit, one call never leaves anything of a 32-bit payload behind. */
  lemma NothingLeft(fmt: Format, header: Packet, ps: seq<Packet>, at: nat, bytes: nat)
    requires fmt.WellFormed() && CarryUpTo(ps, header, at) && |header.payload| <= UINT32_MAX
    requires |ps| <= |header.payload| + 1 && bytes == TotalSize(fmt, ps)
    requires at < |header.payload| ==> bytes + fmt.headerLen(SegmentKind) + 1 > INT64_MAX
    ensures at == |header.payload| && Payloads(ps) == header.payload
  {
    CarriedIsPrefix(ps, header, at);
    HeadersAreShort(fmt, ps);
    assert header.payload[..|header.payload|] == header.payload;
  }

  /** AVTScheduler, as far as one packet's segmentation uses it. */
  class Scheduler {
    var seqNo: nat
    var staging: seq<Packet>
    ghost var charged: nat  // bytes reported to the bandwidth window (update_sw)

    /** The packet is out completely, with its hash if it has one, and its context has been reset. */
    ghost predicate Finished(st: PacketContext)
      reads st
    {
      && st.segOffset == 0 && !st.hashSent && !st.present && Payloads(st.emitted) == st.p.payload
      && (st.p.payload != [] ==> CarryUpTo(st.emitted, st.p, |st.p.payload|))
      && (st.p.payload != [] ==> Hashes(st.emitted) == if st.p.hasHash then [st.p.digest] else [])
    }

    ghost function Out(st: PacketContext): Output
      reads this, st
    {
      Output(staging, st.emitted, charged)
    }

    /** One more packet in the queue, under the sequence number it was given, and on the bandwidth account. */
    method Enqueue(fmt: Format, st: PacketContext, p: Packet, size: nat, ghost lim: nat)
      requires size == WireSize(fmt, p) && (size <= lim || p.payload == [])
      modifies this, st`emitted
      ensures Emits(fmt, old(Out(st)), [p], Out(st), lim) && st.emitted == old(st.emitted) + [p]
      ensures seqNo == old(seqNo) + 1
    {
      EmitsOne(fmt, Out(st), p, lim);
      seqNo := seqNo + 1;
      charged := charged + size;
      staging := staging + [p];
      st.emitted := st.emitted + [p];
    }

    /** Lines 116-141: the header packet with the first slice of the payload. */
    method PushHeader(fmt: Format, st: PacketContext, lim: nat) returns (acc: nat, ghost new_: seq<Packet>)
      requires fmt.WellFormed() && st.Fresh() && st.p.payload != []
      requires lim > fmt.headerLen(StreamDataKind)
      modifies this, st
      ensures st.Started(fmt, seqNo) && !st.hashSent && st.p.hasHash == old(st.p.hasHash)
      ensures st.p.payload == old(st.p.payload) && KindOf(st.p.data) == old(KindOf(st.p.data))
      ensures Emits(fmt, old(Out(st)), new_, Out(st), lim) && acc == TotalSize(fmt, new_) <= lim
      ensures acc == fmt.headerLen(StreamDataKind) + old(st.FirstSliceLength(fmt, lim))
      ensures FirstLength(new_) == old(st.FirstSliceLength(fmt, lim))
      ensures |new_| == 1 && st.Work() < old(st.Work()) && st.p == Numbering(fmt, old(st.p), old(seqNo))
      ensures Renumbered(old(st.p), st.p, old(seqNo)) && seqNo == old(seqNo) + 1
      ensures Wired(fmt, new_, old(st.p.data.streamId), old(seqNo)) && NoSegments(new_)
    {
      hide Wired, NoSegments, Progress, TotalSize, Format.WellFormed, Emits, Numbering, HeaderPacket;
      var hdrSize := fmt.headerLen(StreamDataKind);
      var plSize := |st.p.payload|;
      var segPlSize := Min(lim - hdrSize, plSize);
      var header := Numbering(fmt, st.p, seqNo);
      NumberingKeeps(fmt, st.p, seqNo);
      FirstSlice(fmt, st.p, seqNo, segPlSize);
      var p := HeaderPacket(header, segPlSize);
      new_ := [p];
      acc := hdrSize + segPlSize;
      st.p := header;
      st.segOffset := segPlSize;
      st.plLeft := plSize - segPlSize;
      st.segHdrSize := fmt.headerLen(SegmentKind);
      Enqueue(fmt, st, p, acc, lim);
      assert st.emitted == [p];
    }

    /** Lines 151-175: the hash packet, once per payload. */
    method PushHash(fmt: Format, st: PacketContext) returns (acc: nat, ghost new_: seq<Packet>)
      requires fmt.WellFormed() && st.Started(fmt, seqNo) && st.p.hasHash && !st.hashSent
      modifies this, st`hashSent, st`emitted
      ensures st.Started(fmt, seqNo) && st.hashSent
      ensures Emits(fmt, old(Out(st)), new_, Out(st), 0) && acc == TotalSize(fmt, new_) == fmt.headerLen(HashKind)
      ensures |new_| == 1 && seqNo == old(seqNo) + 1
      ensures Wired(fmt, new_, st.p.data.streamId, old(seqNo)) && NoSegments(new_)
    {
      var data := HashData(st.p.data.streamId, seqNo, st.p.data.seqNo, st.p.digest);
      var p := Packet(data, fmt.encode(data), [], false, []);
      new_ := [p];
      TotalSizeOne(fmt, p);
      ProgressHash(st.p, st.emitted, st.segOffset, seqNo, p);
      hide Progress, TotalSize, Emits;
      acc := fmt.headerLen(HashKind);
      Enqueue(fmt, st, p, acc, 0);
      st.hashSent := true;
    }

    /** Lines 184-202: one segment. */
    method PushSegment(fmt: Format, st: PacketContext, lim: nat) returns (acc: nat, ghost p: Packet)
      requires fmt.WellFormed() && st.Started(fmt, seqNo) && st.plLeft > 0 && lim > st.segHdrSize
      modifies this, st`segOffset, st`plLeft, st`emitted
      ensures st.Started(fmt, seqNo) && st.plLeft < old(st.plLeft)
      ensures Emits(fmt, old(Out(st)), [p], Out(st), lim) && acc == TotalSize(fmt, [p]) <= lim
      ensures acc == st.segHdrSize + (old(st.plLeft) - st.plLeft) && st.Work() < old(st.Work())
      ensures Wired(fmt, [p], st.p.data.streamId, old(seqNo)) && seqNo == old(seqNo) + 1
      ensures AllSegments([p]) && Full(fmt, [p], lim)
    {
      hide Wired, Progress, TotalSize, Format.WellFormed, Emits, SegmentPacket, WireSize;
      var segPlSize := Min(lim - st.segHdrSize, st.plLeft);
      NextSlice(fmt, st.p, st.emitted, st.hashSent, seqNo, st.segOffset, segPlSize);
      var q := SegmentPacket(fmt, st.p, seqNo, st.segOffset, segPlSize);
      p := q;
      acc := st.segHdrSize + segPlSize;
      Enqueue(fmt, st, q, acc, lim);
      st.segOffset := st.segOffset + segPlSize;
      st.plLeft := st.plLeft - segPlSize;
    }

    /** Lines 151-155: nothing to do without a pending hash, and a refusal when the budget is too small for it. */
    method PushPendingHash(fmt: Format, st: PacketContext, outLimit: nat)
      returns (ok: bool, acc: nat, ghost new_: seq<Packet>)
      requires fmt.WellFormed() && st.Started(fmt, seqNo)
      modifies this, st`hashSent, st`emitted
      ensures st.Started(fmt, seqNo) && (ok ==> (st.hashSent <==> st.p.hasHash)) && st.segHdrSize == fmt.headerLen(SegmentKind)
      ensures Emits(fmt, old(Out(st)), new_, Out(st), 0) && acc == TotalSize(fmt, new_)
      ensures |new_| <= old(st.Work()) - st.Work()
      ensures if new_ == [] then acc == 0 else 0 < acc == fmt.headerLen(HashKind) <= outLimit
      ensures ok == !old(st.HashWaits() && outLimit < fmt.headerLen(HashKind))
      ensures new_ != [] <==> old(st.HashWaits()) && fmt.headerLen(HashKind) <= outLimit
      ensures Wired(fmt, new_, st.p.data.streamId, old(seqNo)) && NoSegments(new_) && seqNo == old(seqNo) + |new_|
    {
      ok, acc, new_ := true, 0, [];
      EmitsNone(fmt, Out(st), 0);
      if st.p.hasHash && !st.hashSent {
        if outLimit < fmt.headerLen(HashKind) {
          ok := false;
        } else {
          acc, new_ := PushHash(fmt, st);
        }
      }
    }

    /** Lines 183-207: segments until the payload or the budget runs out. */
    method PushSegments(fmt: Format, st: PacketContext, lim: nat, outLimit: nat, before: nat)
      returns (outAcc: nat, ghost new_: seq<Packet>)
      requires fmt.WellFormed() && st.Started(fmt, seqNo) && lim > fmt.headerLen(SegmentKind)
      modifies this, st`segOffset, st`plLeft, st`emitted
      ensures st.Started(fmt, seqNo) && |new_| <= old(st.Work()) - st.Work()
      ensures Emits(fmt, old(Out(st)), new_, Out(st), lim) && outAcc == before + TotalSize(fmt, new_)
      ensures outAcc <= Max(before, outLimit) + lim
      ensures st.plLeft > 0 ==> outAcc + fmt.headerLen(SegmentKind) + 1 > outLimit
      ensures Wired(fmt, new_, st.p.data.streamId, old(seqNo)) && seqNo == old(seqNo) + |new_|
      ensures AllSegments(new_) && Full(fmt, new_, lim)
    {
      hide TotalSize, Progress, Emits, Wired, Full, AllSegments, CarryUpTo, Carries, Increasing, Hashes, Format.WellFormed,
        SegmentPacket, CreateSegment;
      outAcc, new_ := before, [];
      NothingPutOut(fmt);
      HeadersTakeRoom(fmt, SegmentKind);
      NoneWired(fmt, st.p.data.streamId, seqNo, lim);
      EmitsNone(fmt, Out(st), lim);
      while st.plLeft > 0
        invariant st.Started(fmt, seqNo) && |new_| <= old(st.Work()) - st.Work()
        invariant Emits(fmt, old(Out(st)), new_, Out(st), lim) && outAcc == before + TotalSize(fmt, new_)
        invariant outAcc <= Max(before, outLimit)
        invariant Wired(fmt, new_, st.p.data.streamId, old(seqNo)) && seqNo == old(seqNo) + |new_|
        invariant AllSegments(new_) && Full(fmt, new_, lim)
        decreases st.plLeft
      {
        ghost var o := Out(st);
        var acc, p := PushSegment(fmt, st, lim);
        WiredMore(fmt, new_, [p], st.p.data.streamId, old(seqNo));
        FullMore(fmt, new_, [p], lim);
        EmitsMore(fmt, old(Out(st)), new_, o, [p], Out(st), lim);
        new_ := new_ + [p];
        outAcc := outAcc + acc;
        if outAcc + st.segHdrSize + 1 > outLimit {
          return;
        }
      }
    }

    /** Lines 209-213: the context is ready for the next packet. */
    method FinishContext(fmt: Format, st: PacketContext)
      requires st.Started(fmt, seqNo) && st.plLeft == 0 && (st.hashSent <==> st.p.hasHash)
      modifies st`segOffset, st`present, st`hashSent
      ensures Finished(st)
    {
      ProgressDone(st.p, st.emitted, st.hashSent, seqNo);
      st.segOffset := 0;
      st.present := false;
      st.hashSent := false;
    }

    /** Lines 148-215: the pending hash, then segments until the payload or the budget runs out. */
    method Resume(fmt: Format, st: PacketContext, lim: nat, outLimit: nat, before: nat)
      returns (ret: PushResult, ghost new_: seq<Packet>)
      requires fmt.WellFormed() && st.Started(fmt, seqNo)
      requires (before < outLimit || before == 0) && lim <= outLimit
      requires outLimit > fmt.headerLen(SegmentKind) ==> lim > fmt.headerLen(SegmentKind)
      modifies this, st`segOffset, st`plLeft, st`hashSent, st`present, st`emitted
      ensures Emits(fmt, old(Out(st)), new_, Out(st), lim)
      ensures match ret
        case Again => st.Started(fmt, seqNo) && |new_| <= old(st.Work()) - st.Work()
        case Wrote(n) =>
          && n == before + TotalSize(fmt, new_)
          && if n == 0 then Finished(st) && new_ == [] else st.Started(fmt, seqNo) && |new_| <= old(st.Work()) - st.Work()
      ensures before + TotalSize(fmt, new_) < outLimit + lim + fmt.headerLen(HashKind)
      ensures ret == Again <==> old(st.Stuck(fmt, outLimit))
      ensures ret == Again ==> (new_ != [] <==> old(st.HashWaits()) && fmt.headerLen(HashKind) <= outLimit)
      ensures ret.Wrote? && ret.bytes > 0 && st.plLeft > 0 ==> ret.bytes + fmt.headerLen(SegmentKind) + 1 > outLimit
      ensures Wired(fmt, new_, st.p.data.streamId, old(seqNo)) && seqNo == old(seqNo) + |new_| && Full(fmt, new_, lim)
    {
      hide TotalSize, Progress, Emits, Format.WellFormed, PacketContext.Started, PacketContext.Work, Finished, Wired,
        Full, NoSegments;
      var outAcc := before;
      new_ := [];
      HeadersTakeRoom(fmt, HashKind);
      EmitsNone(fmt, Out(st), lim);
      var ok, acc;
      ok, acc, new_ := PushPendingHash(fmt, st, outLimit);
      ghost var o := Out(st);
      EmitsWithin(fmt, old(Out(st)), new_, o, 0, lim);
      outAcc := outAcc + acc;
      NoSegmentsAreFull(fmt, new_, lim);
      if !ok || outLimit < st.segHdrSize + 1 {
        return Again, new_;
      }
      ghost var more;
      ret, more := FinishOrPush(fmt, st, lim, outLimit, outAcc);
      EmitsMore(fmt, old(Out(st)), new_, o, more, Out(st), lim);
      WiredMore(fmt, new_, more, st.p.data.streamId, old(seqNo));
      FullMore(fmt, new_, more, lim);
      new_ := new_ + more;
    }

    /** Lines 183-215: segments, or when there was nothing at all to put out, the end. */
    method FinishOrPush(fmt: Format, st: PacketContext, lim: nat, outLimit: nat, before: nat)
      returns (ret: PushResult, ghost new_: seq<Packet>)
      requires fmt.WellFormed() && st.Started(fmt, seqNo) && (st.hashSent <==> st.p.hasHash)
      requires fmt.headerLen(SegmentKind) < lim <= outLimit
      modifies this, st`segOffset, st`plLeft, st`hashSent, st`present, st`emitted
      ensures Emits(fmt, old(Out(st)), new_, Out(st), lim)
      ensures ret.Wrote? && ret.bytes == before + TotalSize(fmt, new_) <= Max(before, outLimit) + lim
      ensures if ret.bytes == 0 then Finished(st) && new_ == []
              else st.Started(fmt, seqNo) && |new_| <= old(st.Work()) - st.Work()
      ensures ret.bytes > 0 && st.plLeft > 0 ==> ret.bytes + fmt.headerLen(SegmentKind) + 1 > outLimit
      ensures Wired(fmt, new_, st.p.data.streamId, old(seqNo)) && seqNo == old(seqNo) + |new_| && Full(fmt, new_, lim)
    {
      hide Wired, Full, AllSegments, CarryUpTo, Increasing, Hashes;
      var outAcc;
      outAcc, new_ := PushSegments(fmt, st, lim, outLimit, before);
      hide TotalSize, Progress, Emits, Format.WellFormed, PacketContext.Started, PacketContext.Work, Finished;
      EveryPacketCounts(fmt, new_);
      if outAcc == 0 {
        FinishContext(fmt, st);
      }
      ret := Wrote(outAcc);
    }

    /** scheduler_push_internal */
    method Push(fmt: Format, st: PacketContext, segSizeLim: nat, outLimit: nat)
      returns (ret: PushResult, ghost new_: seq<Packet>)
      requires fmt.WellFormed() && st.Valid(fmt, seqNo)
      requires segSizeLim > fmt.headerLen(KindOf(st.p.data)) && segSizeLim > fmt.headerLen(SegmentKind)
      modifies this, st
      ensures st.p.payload == old(st.p.payload) && KindOf(st.p.data) == old(KindOf(st.p.data))
      ensures old(st.segOffset) == 0 < st.segOffset ==> st.p == Numbering(fmt, old(st.p), old(seqNo))
      ensures old(st.segOffset) == 0 < st.segOffset ==> Renumbered(old(st.p), st.p, old(seqNo))
      ensures old(st.segOffset) > 0 ==> st.p == old(st.p)
      ensures ret == Wrote(0) ==> st.p.payload == [] || old(st.segOffset) > 0
      ensures st.p.payload == [] ==> ret == Again || ret == Wrote(0)
      ensures st.p.data.streamId == old(st.p.data.streamId)
      ensures if old(st.p.payload) == [] then new_ == [] || new_ == [Alone(fmt, old(st.p.data))]
              else Wired(fmt, new_, old(st.p.data.streamId), old(seqNo))
      ensures seqNo == old(seqNo) + (if old(st.p.payload) == [] then 0 else |new_|)
      ensures st.p.payload != [] ==> Full(fmt, new_, Min(segSizeLim, outLimit))
      ensures old(st.segOffset) == 0 ==>
        (new_ == [] <==> outLimit < old(fmt.headerLen(KindOf(st.p.data)) + (if st.p.payload == [] then 0 else 1)))
      ensures Emits(fmt, old(Out(st)), new_, Out(st), Min(segSizeLim, outLimit))
      ensures match ret
        case Again => st.Valid(fmt, seqNo)
        case Wrote(n) => if n == 0 then Finished(st)
                         else st.Started(fmt, seqNo) && n == TotalSize(fmt, new_) && new_ != []
      ensures if ret == Wrote(0) then |new_| <= 1 && (old(st.p.payload) != [] ==> new_ == [])
              else |new_| <= old(st.Work()) - st.Work()
      ensures TotalSize(fmt, new_) < outLimit + Min(segSizeLim, outLimit) + fmt.headerLen(HashKind)
      ensures ret.Wrote? && ret.bytes > 0 && st.plLeft > 0 ==> ret.bytes + fmt.headerLen(SegmentKind) + 1 > outLimit
      ensures ret == Again <==> old(st.Refuses(fmt, Min(segSizeLim, outLimit), outLimit))
      ensures ret == Again ==> (new_ != [] <==> old(st.Unreported(fmt, Min(segSizeLim, outLimit), outLimit)))
      ensures old(st.segOffset) == 0 && st.p.payload != [] && new_ != [] ==>
        FirstLength(new_) == old(st.FirstSliceLength(fmt, Min(segSizeLim, outLimit)))
    {
      hide FirstLength, PacketContext.FirstSliceLength, Numbering, KindOf, Progress, Emits, TotalSize, Wired, Full,
        Format.WellFormed, Finished, PacketContext.Fresh, PacketContext.Started, PacketContext.Work, NoSegments, Renumbered,
        Alone;
      var lim := Min(segSizeLim, outLimit);
      HeadersTakeRoom(fmt, HashKind);
      var early, before;
      early, ret, before, new_ := Begin(fmt, st, lim, outLimit);
      if early {
        return;
      }
      ghost var more;
      ghost var o := Out(st);
      ret, more := Resume(fmt, st, lim, outLimit, before);
      EmitsMore(fmt, old(Out(st)), new_, o, more, Out(st), lim);
      if new_ != [] { FirstStays(new_, more); }
      WiredMore(fmt, new_, more, old(st.p.data.streamId), old(seqNo));
      FullMore(fmt, new_, more, lim);
      new_ := new_ + more;
    }

    /** Lines 89-145: unless the packet is being resumed, start it. `early` says that the call ends here. */
    method Begin(fmt: Format, st: PacketContext, lim: nat, outLimit: nat)
      returns (early: bool, ret: PushResult, acc: nat, ghost new_: seq<Packet>)
      requires fmt.WellFormed() && st.Valid(fmt, seqNo) && lim <= outLimit
      requires lim == outLimit || lim > fmt.headerLen(KindOf(st.p.data))
      modifies this, st
      ensures st.p.payload == old(st.p.payload) && KindOf(st.p.data) == old(KindOf(st.p.data))
      ensures st.p == if old(st.segOffset) == 0 < st.segOffset then Numbering(fmt, old(st.p), old(seqNo)) else old(st.p)
      ensures Emits(fmt, old(Out(st)), new_, Out(st), lim) && TotalSize(fmt, new_) <= outLimit
      ensures !early ==> st.Started(fmt, seqNo) && st.segOffset > 0 && (acc < outLimit || acc == 0)
      ensures !early ==> acc == TotalSize(fmt, new_) && (new_ == [] <==> acc == 0)
      ensures early && ret == Again ==> st.Valid(fmt, seqNo) && new_ == []
      ensures early && ret == Again <==> old(st.segOffset == 0 && st.CannotStart(fmt, outLimit))
      ensures !early <==> old(st.segOffset > 0 || (!st.CannotStart(fmt, outLimit) && st.GoesOn(fmt, lim, outLimit)))
      ensures !early ==> st.HashWaits() == old(st.HashWaits()) && (new_ == [] <==> old(st.segOffset) > 0)
      ensures old(st.segOffset) == 0 && st.p.payload != [] && new_ != [] ==> FirstLength(new_) == old(st.FirstSliceLength(fmt, lim))
      ensures early && ret.Wrote? ==> if ret.bytes == 0 then Finished(st) && st.p.payload == []
        else st.Started(fmt, seqNo) && ret.bytes == TotalSize(fmt, new_) >= outLimit && new_ != []
      ensures if early && ret == Wrote(0) then |new_| <= 1 else |new_| <= old(st.Work()) - st.Work()
      ensures old(st.segOffset) == 0 < st.segOffset ==> Renumbered(old(st.p), st.p, old(seqNo))
      ensures if old(st.p.payload) == [] then new_ == [] || new_ == [Alone(fmt, old(st.p.data))]
              else Wired(fmt, new_, old(st.p.data.streamId), old(seqNo))
      ensures seqNo == old(seqNo) + (if old(st.p.payload) == [] then 0 else |new_|)
      ensures st.p.payload != [] ==> NoSegments(new_) && Full(fmt, new_, lim)
      ensures st.p.payload == [] ==> early && (ret == Again || ret == Wrote(0))
      ensures st.p.data.streamId == old(st.p.data.streamId)
      ensures old(st.segOffset) == 0 ==>
        (new_ == [] <==> outLimit < old(fmt.headerLen(KindOf(st.p.data)) + (if st.p.payload == [] then 0 else 1)))
    {
      hide TotalSize, Progress, Emits, Numbering, Format.WellFormed, Wired, Full, NoSegments;
      NoneWired(fmt, st.p.data.streamId, seqNo, lim);
      NoSegmentsInNone();
      early, ret, acc, new_ := false, Again, 0, [];
      NothingPutOut(fmt);
      HeadersTakeRoom(fmt, KindOf(st.p.data));
      EmitsNone(fmt, Out(st), lim);
      if st.segOffset == 0 {
        var hdrSize := fmt.headerLen(KindOf(st.p.data));
        if outLimit < hdrSize + (if st.p.payload == [] then 0 else 1) {
          early := true;
        } else if st.p.payload == [] {
          new_ := PushPlain(fmt, st);
          EmitsWithin(fmt, old(Out(st)), new_, Out(st), 0, lim);
          early, ret := true, Wrote(0);
        } else {
          acc, new_ := PushHeader(fmt, st, lim);
          if acc >= outLimit {
            early, ret := true, Wrote(acc);
          }
        }
        if st.p.payload != [] { NoSegmentsAreFull(fmt, new_, lim); }
      }
    }

    /** Lines 101-112: a packet without payload goes out as it is. */
    method PushPlain(fmt: Format, st: PacketContext) returns (ghost new_: seq<Packet>)
      requires fmt.WellFormed() && st.Fresh() && st.p.payload == []
      modifies this, st`segOffset, st`present, st`emitted
      ensures Finished(st) && Emits(fmt, old(Out(st)), new_, Out(st), 0)
      ensures st.p == old(st.p) && new_ == [Alone(fmt, st.p.data)] && seqNo == old(seqNo)
      ensures |new_| == 1 && TotalSize(fmt, new_) == fmt.headerLen(KindOf(st.p.data))
    {
      hide Emits, TotalSize, CarryUpTo, Hashes, Payloads, WireSize;
      var p := Packet(st.p.data, fmt.encode(st.p.data), [], false, []);
      new_ := [p];
      PlainIsOut(fmt, Out(st), p);
      staging := staging + [p];
      charged := charged + fmt.headerLen(KindOf(st.p.data));
      st.emitted := st.emitted + [p];
      st.segOffset := 0;
      st.present := false;
    }

    /** One round of the loop: it ends, or there is less work than before. */
    method PushOnce(fmt: Format, st: PacketContext, segSizeLim: nat, outLimit: nat)
      returns (ret: PushResult, ghost new_: seq<Packet>)
      requires fmt.WellFormed() && st.Valid(fmt, seqNo)
      requires segSizeLim > fmt.headerLen(KindOf(st.p.data)) && segSizeLim > fmt.headerLen(SegmentKind)
      modifies this, st
      ensures st.p.payload == old(st.p.payload) && KindOf(st.p.data) == old(KindOf(st.p.data))
      ensures Emits(fmt, old(Out(st)), new_, Out(st), segSizeLim)
      ensures if ret == Wrote(0) then Finished(st) && (st.p.payload != [] ==> new_ == [])
              else st.Valid(fmt, seqNo) && 0 <= st.Work() <= old(st.Work())
      ensures 0 <= old(st.Work())
      ensures ret.Wrote? && ret.bytes > 0 ==> st.Work() < old(st.Work()) && st.segOffset > 0 && new_ != []
      ensures ret.Wrote? ==> ret.bytes < outLimit + Min(segSizeLim, outLimit) + fmt.headerLen(HashKind)
      ensures ret == Wrote(0) ==> st.p.payload == [] || old(st.segOffset) > 0
      ensures st.p.payload == [] ==> ret == Again || ret == Wrote(0)
      ensures ret == Again ==> TooSmall(fmt, KindOf(st.p.data), outLimit)
      ensures old(st.segOffset) == 0 && st.p.payload != [] && new_ != [] ==>
        FirstLength(new_) == old(st.FirstSliceLength(fmt, Min(segSizeLim, outLimit)))
      ensures old(st.segOffset) == 0 < st.segOffset ==> st.p == Numbering(fmt, old(st.p), old(seqNo))
      ensures old(st.segOffset) == 0 < st.segOffset ==> Renumbered(old(st.p), st.p, old(seqNo))
      ensures old(st.segOffset) > 0 ==> st.p == old(st.p)
      ensures if old(st.p.payload) == [] then new_ == [] || new_ == [Alone(fmt, old(st.p.data))]
              else Wired(fmt, new_, old(st.p.data.streamId), old(seqNo))
      ensures seqNo == old(seqNo) + (if old(st.p.payload) == [] then 0 else |new_|)
      ensures st.p.data.streamId == old(st.p.data.streamId)
    {
      hide Progress, Emits, TotalSize, Format.WellFormed, Finished, Numbering, KindOf, TooSmall, FirstLength, Wired, Full,
        PacketContext.FirstSliceLength;
      RefusalIsSmall(fmt, st, Min(segSizeLim, outLimit), outLimit);
      ret, new_ := Push(fmt, st, segSizeLim, outLimit);
      EmitsWithin(fmt, old(Out(st)), new_, Out(st), Min(segSizeLim, outLimit), segSizeLim);
    }

    /** direct_push, lines 286-289: push until nothing is left or the budget is too small. `budgets` gives the budget
        of each call; calls that make progress are at most as many as there is work. A call that writes more than
        INT_MAX bytes may end the loop as well, because its result no longer looks positive. */
    method Drain(fmt: Format, st: PacketContext, segSizeLim: nat, budgets: nat -> nat)
      returns (code: int, last: PushResult, calls: nat, ghost new_: seq<Packet>)
      requires fmt.WellFormed() && st.Valid(fmt, seqNo)
      requires segSizeLim > fmt.headerLen(KindOf(st.p.data)) && segSizeLim > fmt.headerLen(SegmentKind)
      modifies this, st
      ensures code == Narrowed(last) <= 0 && 0 < calls <= 1 + old(st.Work())
      ensures st.p.payload == old(st.p.payload) && Emits(fmt, old(Out(st)), new_, Out(st), segSizeLim)
      ensures if last == Wrote(0) then Finished(st) else st.Valid(fmt, seqNo)
      ensures last == Again ==> TooSmall(fmt, KindOf(st.p.data), budgets(calls - 1))
      ensures last.Wrote? && last.bytes > 0 ==>
        INT_MAX < last.bytes < budgets(calls - 1) + Min(segSizeLim, budgets(calls - 1)) + fmt.headerLen(HashKind)
      ensures old(st.segOffset) == 0 && st.p.payload != [] && new_ != [] ==>
        FirstLength(new_) == old(st.FirstSliceLength(fmt, Min(segSizeLim, budgets(0))))
      ensures old(st.segOffset) == 0 && st.p.payload != [] && last == Wrote(0) ==>
        new_ != [] && st.p == Numbering(fmt, old(st.p), old(seqNo)) && Renumbered(old(st.p), st.p, old(seqNo))
      ensures if old(st.p.payload) == [] then new_ == [] || new_ == [Alone(fmt, old(st.p.data))]
              else Wired(fmt, new_, old(st.p.data.streamId), old(seqNo))
      ensures seqNo == old(seqNo) + (if old(st.p.payload) == [] then 0 else |new_|)
    {
      hide Progress, Emits, TotalSize, Format.WellFormed, Finished, KindOf, TooSmall, PacketContext.Started,
        PacketContext.Work, Wired, Renumbered, Alone, PacketContext.Fresh, Bounded, Extend, Full, WireSize, Numbered,
        FirstLength, PacketContext.FirstSliceLength, Numbering, Narrowed;
      last, new_ := PushOnce(fmt, st, segSizeLim, budgets(0));
      calls := 1;
      NarrowedKeeps(last);
      while Narrowed(last) > 0
        invariant st.p.payload == old(st.p.payload) && KindOf(st.p.data) == old(KindOf(st.p.data))
        invariant Emits(fmt, old(Out(st)), new_, Out(st), segSizeLim)
        invariant if last == Wrote(0) then Finished(st) else st.Valid(fmt, seqNo)
        invariant 0 < calls <= 1 + old(st.Work())
        invariant last.Wrote? && last.bytes > 0 ==>
          && calls <= old(st.Work()) - st.Work() && 0 <= st.Work() && new_ != [] && st.segOffset > 0
          && last.bytes < budgets(calls - 1) + Min(segSizeLim, budgets(calls - 1)) + fmt.headerLen(HashKind)
        invariant last == Again ==> TooSmall(fmt, KindOf(st.p.data), budgets(calls - 1))
        invariant Narrowed(last) > 0 ==> last.Wrote? && last.bytes > 0
        invariant last.Wrote? && last.bytes > 0 && Narrowed(last) <= 0 ==> last.bytes > INT_MAX
        invariant old(st.segOffset) == 0 && st.p.payload != [] && new_ != [] ==>
          FirstLength(new_) == old(st.FirstSliceLength(fmt, Min(segSizeLim, budgets(0))))
        invariant old(st.segOffset) == 0 && st.p.payload != [] && new_ != [] && last.Wrote? ==>
          st.p == Numbering(fmt, old(st.p), old(seqNo)) && Renumbered(old(st.p), st.p, old(seqNo))
        invariant if old(st.p.payload) == [] then new_ == [] || new_ == [Alone(fmt, old(st.p.data))]
                  else Wired(fmt, new_, old(st.p.data.streamId), old(seqNo))
        invariant seqNo == old(seqNo) + (if old(st.p.payload) == [] then 0 else |new_|)
        invariant st.p.data.streamId == old(st.p.data.streamId)
        invariant old(st.p.payload) == [] ==> Narrowed(last) <= 0
        invariant old(st.segOffset) == 0 && st.p.payload != [] && last == Wrote(0) ==> new_ != []
        decreases Narrowed(last) > 0, st.Work()
      {
        ghost var o, ps := Out(st), [];
        last, ps := PushOnce(fmt, st, segSizeLim, budgets(calls));
        EmitsMore(fmt, old(Out(st)), new_, o, ps, Out(st), segSizeLim);
        FirstStays(new_, ps);
        WiredMore(fmt, new_, ps, old(st.p.data.streamId), old(seqNo));
        NarrowedKeeps(last);
        new_ := new_ + ps;
        calls := calls + 1;
      }
      code := Narrowed(last);
    }

    /** avt_scheduler_push without a bandwidth limit, lines 446-452: one call puts out the whole packet. */
    method Bypass(fmt: Format, p: Packet, maxPacketSize: nat)
      returns (code: int, ret: PushResult, ghost new_: seq<Packet>)
      requires fmt.WellFormed() && (p.payload == [] || p.data.StreamData?) && |p.payload| <= UINT32_MAX
      requires maxPacketSize > fmt.headerLen(KindOf(p.data)) && maxPacketSize > fmt.headerLen(SegmentKind)
      modifies this
      ensures ret.Wrote? && (ret.bytes == 0 <==> p.payload == []) && code == Narrowed(ret)
      ensures Payloads(new_) == p.payload && staging == old(staging) + new_ && Bounded(fmt, new_, maxPacketSize)
      ensures p.payload != [] ==> CarryUpTo(new_, Numbering(fmt, p, old(seqNo)), |p.payload|)
      ensures p.payload != [] ==> FirstLength(new_) == Min(maxPacketSize - fmt.headerLen(KindOf(p.data)), |p.payload|)
      ensures p.payload != [] ==>
        && Renumbered(p, Numbering(fmt, p, old(seqNo)), old(seqNo)) && Wired(fmt, new_, p.data.streamId, old(seqNo))
        && Full(fmt, new_, Min(maxPacketSize, INT64_MAX)) && seqNo == old(seqNo) + |new_|
      ensures p.payload == [] ==> new_ == [Alone(fmt, p.data)] && seqNo == old(seqNo)
    {
      hide TotalSize, Payloads, CarryUpTo, TooSmall, KindOf, Numbering, Format.WellFormed, Emits, Bounded,
        FirstLength, Narrowed, Wired, Full, Renumbered, Alone;
      var st := new PacketContext(p);
      NeverRefuses(fmt, st, Min(maxPacketSize, INT64_MAX));
      ghost var o := Out(st);
      ret, new_ := Push(fmt, st, maxPacketSize, INT64_MAX);
      code := Narrowed(ret);
      EmitsMeans(fmt, o, new_, Out(st), Min(maxPacketSize, INT64_MAX), maxPacketSize);
      assert st.emitted == new_;
      if st.Started(fmt, seqNo) {
        NothingLeft(fmt, st.p, new_, st.segOffset, ret.bytes);
      }
    }
  }
}
