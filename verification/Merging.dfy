/** Putting a payload back together from the pieces that arrive (merger.c). */
module Merging {
  import opened FixedWidth
  import opened Packets

  /** A byte of allocated memory, which may never have been written. */
  datatype Cell = Unset | Set(value: Byte)

  type Memory = seq<Cell>

  function Cells(bs: Bytes): Memory { seq(|bs|, i requires 0 <= i < |bs| => Set(bs[i])) }

  function Fresh(n: nat): Memory { seq(n, _ => Unset) }

  function Overwrite(mem: Memory, at: nat, bs: Bytes): Memory
    requires at + |bs| <= |mem|
  {
    mem[..at] + Cells(bs) + mem[at + |bs|..]
  }

  /** Writing puts the bytes in their place and touches no others. */
  lemma OverwriteAt(mem: Memory, at: nat, bs: Bytes)
    requires at + |bs| <= |mem|
    ensures var r := Overwrite(mem, at, bs);
      |r| == |mem| && forall i :: 0 <= i < |mem| ==> r[i] == if at <= i < at + |bs| then Set(bs[i - at]) else mem[i]
  {
  }

  /** avt_buffer_resize on an allocation: it grows with uninitialised memory, and never gives any back. */
  function Resized(mem: Memory, len: nat, n: nat): Memory {
    if len >= n || n < |mem| then mem else mem + Fresh(n - |mem|)
  }

  /** AVTMergerRange; offsets are 32 bits wide. */
  datatype Range = Range(offset: nat, size: nat)
  {
    function End(): int { Wrap32(offset + size) }
  }

  /** What avt_packet_series tells about a packet: 1 for a header with more to come, -1 for a segment, and 0 for the
      packets that need nothing else. */
  datatype Series = Series(kind: int, offset: nat, size: nat, total: nat)

  function SeriesOf(data: PacketData): Series {
    match data
    case StreamData(_, _, dataLength, segmented, _) =>
      if segmented then Series(1, 0, dataLength, 0) else Series(0, 0, dataLength, dataLength)
    case Segment(_, _, _, total, offset, length, _) => Series(-1, offset, length, total)
    case _ => Series(0, 0, 0, 0)
  }

  /** What the union shows of a packet that is no segment where a segment has its header piece. */
  type Overlay = PacketData -> Piece

  type Piece = bs: Bytes | |bs| == PIECE_LEN witness [0, 0, 0, 0]

  function PieceOf(overlay: Overlay, data: PacketData): Bytes {
    if data.Segment? then data.header7 else overlay(data)
  }

  function Part(seqNo: nat): nat { seqNo % HEADER_PIECES }

  /** The mask has the first piece in its 7th bit and the last one in its lowest. */
  function PieceBit(part: nat): bv8
    requires part < HEADER_PIECES
  {
    if part == 0 then 0x40 else if part == 1 then 0x20 else if part == 2 then 0x10 else if part == 3 then 0x08
    else if part == 4 then 0x04 else if part == 5 then 0x02 else 0x01
  }

  predicate HasPiece(mask: bv8, part: nat)
    requires part < HEADER_PIECES
  {
    mask & PieceBit(part) != 0
  }

  function PieceAt(hdr: Bytes, part: nat): Bytes
    requires part < HEADER_PIECES && |hdr| >= HEADER_PIECES * PIECE_LEN
  {
    hdr[PIECE_LEN * part..PIECE_LEN * part + PIECE_LEN]
  }

  function WithPiece(hdr: Bytes, part: nat, piece: Bytes): Bytes
    requires part < HEADER_PIECES && |hdr| >= HEADER_PIECES * PIECE_LEN && |piece| == PIECE_LEN
  {
    hdr[..PIECE_LEN * part] + piece + hdr[PIECE_LEN * part + PIECE_LEN..]
  }

  lemma BitsAreDistinct(i: nat, j: nat)
    requires i < HEADER_PIECES && j < HEADER_PIECES
    ensures HasPiece(PieceBit(i), j) <==> i == j
  {
  }

  /** Putting in one piece leaves the others alone. */
  lemma WithPieceAt(hdr: Bytes, i: nat, piece: Bytes, j: nat)
    requires i < HEADER_PIECES && j < HEADER_PIECES && |hdr| >= HEADER_PIECES * PIECE_LEN && |piece| == PIECE_LEN
    ensures |WithPiece(hdr, i, piece)| == |hdr|
    ensures PieceAt(WithPiece(hdr, i, piece), j) == if i == j then piece else PieceAt(hdr, j)
  {
  }

  /** AVTMerger. `mem` is the payload buffer's allocation and `len` the part of it in use. */
  datatype State = State(active: bool, target: int, last: int, available: bool, mask: bv8, data: PacketData, hdr: Bytes,
                         mem: Memory, len: nat, tracked: int, total: nat, ranges: seq<Range>)

  /** Undefined stands for an access outside an array, and for the failed assertion of line 421. Headless is what the
      assertion of line 461 is against, a payload that is complete by count but has no header: builds with assertions
      stop there, and builds without put it out with whatever header data there is. */
  datatype Verdict =
    | Again
    | Busy
    | Invalid
    | PassThrough
    | Merged(data: PacketData, hdr: Bytes, payload: Memory)
    | Headless(data: PacketData, hdr: Bytes, payload: Memory)
    | Undefined

  /** What the caller sees: an `int`, to which the 32-bit count of the payload is narrowed. */
  function Returned(v: Verdict): int
    requires v != Undefined
  {
    match v
    case Again => -EAGAIN
    case Busy => -EBUSY
    case Invalid => -EINVAL
    case PassThrough => 0
    case Merged(_, _, payload) => ToInt(|payload|)
    case Headless(_, _, payload) => ToInt(|payload|)
  }

  /** A payload of up to INT_MAX bytes is announced by its length; a longer one comes out under a negative number, which
      its caller takes for an error. */
  lemma LengthIsReturned(v: Verdict)
    requires (v.Merged? || v.Headless?) && 0 < |v.payload| <= UINT32_MAX
    ensures if |v.payload| <= INT_MAX then Returned(v) == |v.payload| else Returned(v) == |v.payload| - TWO_TO_32 < 0
  {
  }

  datatype Result = Result(verdict: Verdict, state: State)

  function ZeroHeader(): Bytes { seq(HEADER_PIECES * PIECE_LEN, _ => 0) }
  const ZERO_DATA: PacketData := Plain(0, 0, 0)

  ghost predicate WellFormed(p: Packet) {
    |p.hdr| >= HEADER_PIECES * PIECE_LEN && (p.data.Segment? ==> |p.data.header7| == PIECE_LEN)
  }

  /** Every header piece the merger knows is that of `hdr`. */
  ghost predicate Agrees(s: State, hdr: Bytes)
    requires |hdr| >= HEADER_PIECES * PIECE_LEN
  {
    && |s.hdr| >= HEADER_PIECES * PIECE_LEN
    && forall part :: 0 <= part < HEADER_PIECES && HasPiece(s.mask, part) ==> PieceAt(s.hdr, part) == PieceAt(hdr, part)
  }

  function TargetOf(data: PacketData): int {
    Wrap32(if data.Segment? then data.target else data.seqNo)
  }

  /** The overlap checks of validate_packet, from the i-th range on. */
  function Overlap(ranges: seq<Range>, offset: nat, size: nat, i: nat): (v: Verdict)
    ensures v == PassThrough || v == Again || v == Invalid
    decreases |ranges| - i
  {
    if i >= |ranges| then PassThrough
    else
      var r := ranges[i];
      if r.offset == offset && r.size == size then Again
      else if r.End() < offset && r.offset >= offset then Invalid
      else if Wrap32(offset + size) > r.offset && Wrap32(offset + size) <= r.End() then Invalid
      else Overlap(ranges, offset, size, i + 1)
  }

  /** One range refuses a piece that repeats it, or that ends inside it. (The test in the middle needs an end that
      wrapped around.) */
  predicate Clashes(r: Range, offset: nat, size: nat) {
    || r == Range(offset, size)
    || (r.End() < offset && r.offset >= offset)
    || r.offset < Wrap32(offset + size) <= r.End()
  }

  predicate FirstClash(ranges: seq<Range>, offset: nat, size: nat, i: nat, j: nat)
    requires j < |ranges|
  {
    Clashes(ranges[j], offset, size) && forall k :: i <= k < j ==> !Clashes(ranges[k], offset, size)
  }

  /** A piece passes when it clashes with no range, and is a repeat when the first range it clashes with is its own. */
  lemma {:induction false} OverlapMeans(ranges: seq<Range>, offset: nat, size: nat, i: nat)
    requires i <= |ranges|
    ensures var v := Overlap(ranges, offset, size, i);
      && (v == PassThrough <==> forall j :: i <= j < |ranges| ==> !Clashes(ranges[j], offset, size))
      && (v == Again <==>
            exists j :: i <= j < |ranges| && FirstClash(ranges, offset, size, i, j) && ranges[j] == Range(offset, size))
    decreases |ranges| - i
  {
    if i < |ranges| { OverlapMeans(ranges, offset, size, i + 1); }
  }

  /** validate_packet, where PassThrough means that the packet is fine. */
  function Validate(overlay: Overlay, s: State, p: Packet): Verdict
    requires |s.hdr| >= HEADER_PIECES * PIECE_LEN
  {
    var t := SeriesOf(p.data);
    if s.total != 0 && t.total != 0 && t.total != s.total then Invalid
    else if HasPiece(s.mask, Part(p.data.seqNo)) && PieceAt(s.hdr, Part(p.data.seqNo)) != PieceOf(overlay, p.data) then Invalid
    else Overlap(s.ranges, t.offset, t.size, 0)
  }

  datatype Stored = Stored(ranges: seq<Range>) | Overrun

  datatype Filled = Filled(ranges: seq<Range>) | Insert(at: nat) | Consolidate(ranges: seq<Range>, at: nat)

  /** What there is in memory for the list to run into: the range behind its last one, which an insertion brings in, and
      whether the allocation has room for the move of line 116. */
  datatype Slack = Slack(next: Range, room: bool)

  /** The loop of fill_ranges, from the i-th range on. */
  function WorkIn(ranges: seq<Range>, offset: nat, size: nat, i: nat, dst: nat): (f: Filled)
    ensures f.Consolidate? ==> f.at + 2 <= |f.ranges|
    decreases |ranges| - i
  {
    if i >= |ranges| then Insert(dst)
    else
      var r := ranges[i];
      if Wrap32(offset + size) == r.offset then
        var grown := ranges[i := Range(offset, Wrap32(r.size + size))];
        if i == 0 || grown[i - 1].End() < offset then Filled(grown) else Consolidate(grown, i - 1)
      else if r.End() == offset then
        var grown := ranges[i := Range(r.offset, Wrap32(r.size + size))];
        if i == |ranges| - 1 || grown[i].End() < grown[i + 1].offset then Filled(grown) else Consolidate(grown, i)
      else
        WorkIn(ranges, offset, size, i + 1, if offset > r.End() then i else dst)
  }

  /** x with its lowest bytes, which come first in memory, taken from y. */
  function Spliced(x: nat, y: nat, bytes: nat): nat
    decreases bytes
  {
    if bytes == 0 then x else y % 256 + 256 * Spliced(x / 256, y / 256, bytes - 1)
  }

  /** The first bytes of `next` over those of r. A range takes 8 bytes, offset first. */
  function Torn(r: Range, next: Range, bytes: nat): Range
    requires bytes < 8
  {
    if bytes <= 4 then Range(Spliced(r.offset, next.offset, bytes), r.size)
    else Range(next.offset, Spliced(r.size, next.size, bytes - 4))
  }

  /** Line 124: to close up after the first of these ranges, the others are to move up by one, but the move is of as
      many bytes as there are ranges. The last one is dropped. */
  function MovedUp(ranges: seq<Range>): (r: seq<Range>)
    requires ranges != []
    ensures |r| == |ranges| - 1
  {
    var bytes := |ranges| - 1;
    var (whole, rest) := (bytes / 8, bytes % 8);
    ranges[1..whole + 1]
      + (if rest == 0 then ranges[whole..bytes] else [Torn(ranges[whole], ranges[whole + 1], rest)] + ranges[whole + 1..bytes])
  }

  // The same seen as bytes in memory.

  /** Byte i of x, the lowest being the first. */
  function ByteOf(x: nat, i: nat): nat
    decreases i
  {
    if i == 0 then x % 256 else ByteOf(x / 256, i - 1)
  }

  function RangeByte(r: Range, i: nat): nat { if i < 4 then ByteOf(r.offset, i) else ByteOf(r.size, i - 4) }

  function ByteAt(ranges: seq<Range>, i: nat): nat
    requires i < 8 * |ranges|
  {
    RangeByte(ranges[i / 8], i % 8)
  }

  lemma {:induction false} SplicedBytes(x: nat, y: nat, bytes: nat, i: nat)
    ensures ByteOf(Spliced(x, y, bytes), i) == ByteOf(if i < bytes then y else x, i)
    decreases bytes
  {
    if bytes > 0 {
      var z := Spliced(x, y, bytes);
      assert z % 256 == y % 256 && z / 256 == Spliced(x / 256, y / 256, bytes - 1);
      if i > 0 { SplicedBytes(x / 256, y / 256, bytes - 1, i - 1); }
    }
  }

  lemma TornBytes(r: Range, next: Range, bytes: nat, i: nat)
    requires bytes < 8 && i < 8
    ensures RangeByte(Torn(r, next, bytes), i) == RangeByte(if i < bytes then next else r, i)
  {
    if bytes <= 4 {
      SplicedBytes(r.offset, next.offset, bytes, i);
    } else if i >= 4 {
      SplicedBytes(r.size, next.size, bytes - 4, i - 4);
    }
    hide ByteOf, Spliced;
  }

  /** It is this memmove, of as many bytes as there are ranges to move, from the second range to the first. */
  lemma MovedUpIsMove(ranges: seq<Range>, i: nat)
    requires ranges != [] && i < 8 * (|ranges| - 1)
    ensures ByteAt(MovedUp(ranges), i) == ByteAt(ranges, if i < |ranges| - 1 then i + 8 else i)
  {
    hide RangeByte, Torn;
    var whole, rest := (|ranges| - 1) / 8, (|ranges| - 1) % 8;
    if i / 8 == whole && rest > 0 { TornBytes(ranges[whole], ranges[whole + 1], rest, i % 8); }
  }

  /** An insertion stores nothing. Behind the list it brings in what the memory holds there. Elsewhere line 116, which
      takes ranges to be as large as a whole merger, leaves the allocation, or else moves all the ranges from there on
      and leaves the first of them in two places. */
  function Inserted(ranges: seq<Range>, at: nat, junk: Slack): Stored {
    if at + 1 == |ranges| then Stored(ranges + [junk.next])
    else if at + 1 < |ranges| && junk.room then Stored(ranges[..at + 1] + ranges[at..])
    else Overrun
  }

  /** A consolidation keeps the size of the second range only. */
  function Consolidated(ranges: seq<Range>, at: nat): seq<Range>
    requires at + 2 <= |ranges|
  {
    ranges[..at] + [Range(ranges[at].offset, ranges[at + 1].size)] + MovedUp(ranges[at + 1..])
  }

  /** fill_ranges as it is written. */
  function FillRanges(ranges: seq<Range>, offset: nat, size: nat, junk: Slack): Stored {
    match WorkIn(ranges, offset, size, 0, 0)
    case Filled(grown) => Stored(grown)
    case Insert(at) => Inserted(ranges, at, junk)
    case Consolidate(grown, at) => Stored(Consolidated(grown, at))
  }

  /** Lines 305-332: what a first piece says about the packet. */
  function Identified(overlay: Overlay, s: State, p: Packet): State
    requires |s.hdr| >= HEADER_PIECES * PIECE_LEN && WellFormed(p)
  {
    var part := Part(p.data.seqNo);
    if SeriesOf(p.data).kind > 0 then
      s.(target := TargetOf(p.data), last := Wrap32(p.data.seqNo), available := true, mask := 0x7F, data := p.data, hdr := p.hdr)
    else
      s.(target := TargetOf(p.data), last := Wrap32(p.data.seqNo), available := false, mask := PieceBit(part),
         hdr := WithPiece(s.hdr, part, PieceOf(overlay, p.data)))
  }

  /** Lines 365-384: the buffer is set up for all of the payload, as far as its length is known. */
  function FirstMemory(p: Packet): Memory
    requires SeriesOf(p.data).offset != 0 ==> SeriesOf(p.data).offset + |p.payload| <= SeriesOf(p.data).total
  {
    var t := SeriesOf(p.data);
    if t.offset != 0 then Overwrite(Fresh(t.total), t.offset, p.payload)
    else Resized(Cells(p.payload), |p.payload|, t.total)
  }

  /** Lines 305-397: the first piece of a packet. */
  function Start(overlay: Overlay, s: State, p: Packet): Result
    requires |s.hdr| >= HEADER_PIECES * PIECE_LEN && WellFormed(p)
  {
    var t := SeriesOf(p.data);
    if t.offset != 0 && t.offset + |p.payload| > t.total then
      Result(Undefined, s)
    else
      Result(Again, Identified(overlay, s, p).(active := true, mem := FirstMemory(p), len := t.total, tracked := t.size,
                                               total := t.total, ranges := [Range(t.offset, t.size)]))
  }

  /** m->p = (AVTPktd){ } and m->active = false */
  function Emptied(s: State): State {
    s.(active := false, data := ZERO_DATA, hdr := ZeroHeader(), mem := [], len := 0)
  }

  /** Lines 418-428: the total length becomes known with the first segment. */
  function Sized(s: State, total: nat): State {
    if s.total == 0 then s.(mem := Resized(s.mem, s.len, total), len := total, total := total) else s
  }

  /** Lines 411-416: a header packet brings the header. */
  function Informed(s: State, p: Packet): State {
    if SeriesOf(p.data).kind == 1 then s.(available := true, data := p.data, hdr := p.hdr) else s
  }

  /** Lines 435-448: the piece in its place. */
  function Placed(s: State, p: Packet, ranges: seq<Range>): State
    requires SeriesOf(p.data).offset + |p.payload| <= |s.mem|
  {
    var t := SeriesOf(p.data);
    s.(mem := Overwrite(s.mem, t.offset, p.payload), tracked := Wrap32(s.tracked + t.size), ranges := ranges,
       last := if s.last < p.data.seqNo then Wrap32(p.data.seqNo) else s.last)
  }

  /** Lines 456-466: the payload goes out once all of it has been counted. */
  function Finish(s: State): Result {
    if s.tracked != s.total then Result(Again, s)
    else if s.len > |s.mem| then Result(Undefined, s)
    else if !s.available then Result(Headless(s.data, s.hdr, s.mem[..s.len]), Emptied(s))
    else Result(Merged(s.data, s.hdr, s.mem[..s.len]), Emptied(s))
  }

  /** Lines 406-468: a piece that passed the checks. */
  function Accept(s: State, p: Packet, junk: Slack): Result {
    var t := SeriesOf(p.data);
    var ready := Sized(Informed(s, p), t.total);
    var stored := FillRanges(s.ranges, t.offset, t.size, junk);
    if ready.total == 0 || stored.Overrun? || t.offset + |p.payload| > |ready.mem| then Result(Undefined, s)
    else Finish(Placed(ready, p, stored.ranges))
  }

  /** avt_pkt_merge_seg */
  function Step(overlay: Overlay, s: State, p: Packet, junk: Slack): (r: Result)
    requires |s.hdr| >= HEADER_PIECES * PIECE_LEN && WellFormed(p)
    ensures |r.state.hdr| >= HEADER_PIECES * PIECE_LEN
  {
    var t := SeriesOf(p.data);
    if t.kind == 0 then Result(PassThrough, s.(active := false, mem := [], len := 0))
    else if |p.payload| != t.size then Result(Invalid, s)
    else if !s.active then Start(overlay, s, p)
    else if TargetOf(p.data) != s.target then Result(Busy, s)
    else
      var refusal := Validate(overlay, s, p);
      if refusal != PassThrough then Result(refusal, s) else Accept(s, p, junk)
  }

  /** AVT_ERROR(EBUSY) is for a packet that carries what it says and belongs to another group, and for no other. */
  lemma BusyMeans(overlay: Overlay, s: State, p: Packet, junk: Slack)
    requires |s.hdr| >= HEADER_PIECES * PIECE_LEN && WellFormed(p)
    ensures var r := Step(overlay, s, p, junk);
      && (r.verdict == Busy <==>
            && SeriesOf(p.data).kind != 0 && |p.payload| == SeriesOf(p.data).size
            && s.active && TargetOf(p.data) != s.target)
      && (r.verdict == Busy ==> r.state == s)
  {
    hide Start, Validate, Accept;
    NeverBusy(overlay, s, p, junk);
  }

  lemma NeverBusy(overlay: Overlay, s: State, p: Packet, junk: Slack)
    requires |s.hdr| >= HEADER_PIECES * PIECE_LEN && WellFormed(p)
    ensures Start(overlay, s, p).verdict != Busy && Validate(overlay, s, p) != Busy && Accept(s, p, junk).verdict != Busy
  {
    hide Overlap, HasPiece, PieceAt, FillRanges, Overwrite, Wrap32, Resized;
  }

  /** What the generated decoders make of a header of which only the pieces are known, where Unknown stands for a packet
      type that cannot come in segments. */
  datatype Decoded = Known(data: PacketData) | Unknown

  /** fill_phantom_header, where PassThrough stands for its zero. */
  function FillHeader(s: State, p: Packet, decode: Bytes -> Decoded): Result
    requires |s.hdr| >= HEADER_PIECES * PIECE_LEN && p.data.Segment? && WellFormed(p)
  {
    Decode(WithOneMore(s, p), Part(p.data.seqNo), decode)
  }

  /** Lines 135-141: one piece put into the header and its bit into the mask. */
  function WithOneMore(s: State, p: Packet): State
    requires |s.hdr| >= HEADER_PIECES * PIECE_LEN && p.data.Segment? && WellFormed(p)
  {
    var part := Part(p.data.seqNo);
    s.(hdr := WithPiece(s.hdr, part, p.data.header7), mask := s.mask | PieceBit(part))
  }

  /** Lines 143-187: with all the pieces there, the header is decoded, and its type dropped again if it is unknown. */
  function Decode(s: State, part: nat, decode: Bytes -> Decoded): Result
    requires |s.hdr| >= HEADER_PIECES * PIECE_LEN
  {
    if s.mask != 0x7F then Result(PassThrough, s)
    else match decode(s.hdr[..HEADER_PIECES * PIECE_LEN])
      case Known(data) => Result(PassThrough, s.(data := data, available := true))
      case Unknown => Result(if part == 0 then Again else PassThrough, s.(mask := s.mask & 0x3F))
  }

  /** A merger that has seen nothing. */
  function Blank(): (s: State)
    ensures |s.hdr| == HEADER_PIECES * PIECE_LEN
  {
    State(false, 0, 0, false, 0, ZERO_DATA, ZeroHeader(), [], 0, 0, 0, [])
  }

  class Merger {
    const overlay: Overlay
    var active: bool
    var target: int
    var last: int
    var available: bool
    var mask: bv8
    var data: PacketData
    var hdr: Bytes
    var mem: Memory
    var len: nat
    var tracked: int
    var total: nat
    var ranges: seq<Range>

    function Snapshot(): State
      reads this
    {
      State(active, target, last, available, mask, data, hdr, mem, len, tracked, total, ranges)
    }

    constructor (overlay: Overlay)
      ensures this.overlay == overlay && Snapshot() == Blank()
    {
      this.overlay := overlay;
      active, target, last, available, mask := false, 0, 0, false, 0;
      data, hdr, mem, len, tracked, total, ranges := ZERO_DATA, ZeroHeader(), [], 0, 0, 0, [];
    }

    /** Lines 211-214: the bytes one by one. */
    method SamePiece(part: nat, piece: Bytes) returns (same: bool)
      requires |hdr| >= HEADER_PIECES * PIECE_LEN && part < HEADER_PIECES && |piece| == PIECE_LEN
      ensures same == (PieceAt(hdr, part) == piece)
    {
      ghost var known := PieceAt(hdr, part);
      for i := 0 to PIECE_LEN
        invariant forall k :: 0 <= k < i ==> known[k] == piece[k]
      {
        assert known[i] == hdr[PIECE_LEN * part + i];
        if hdr[PIECE_LEN * part + i] != piece[i] {
          return false;
        }
      }
      same := true;
    }

    /** validate_packet */
    method ValidatePacket(p: Packet) returns (verdict: Verdict)
      requires |hdr| >= HEADER_PIECES * PIECE_LEN && WellFormed(p)
      ensures verdict == Validate(overlay, Snapshot(), p)
    {
      var t := SeriesOf(p.data);
      if total != 0 && t.total != 0 && t.total != total {
        return Invalid;
      }
      var part := Part(p.data.seqNo);
      if HasPiece(mask, part) {
        var same := SamePiece(part, PieceOf(overlay, p.data));
        if !same {
          return Invalid;
        }
      }
      hide HasPiece, PieceAt, PieceOf, SeriesOf, Wrap32;
      for i := 0 to |ranges|
        invariant Overlap(ranges, t.offset, t.size, i) == Overlap(ranges, t.offset, t.size, 0)
      {
        var r := ranges[i];
        if r.offset == t.offset && r.size == t.size {
          return Again;
        } else if r.End() < t.offset && r.offset >= t.offset {
          return Invalid;
        } else if Wrap32(t.offset + t.size) > r.offset && Wrap32(t.offset + t.size) <= r.End() {
          return Invalid;
        }
      }
      verdict := PassThrough;
    }

    /** fill_ranges */
    method WorkInRange(offset: nat, size: nat, junk: Slack) returns (fine: bool)
      modifies this`ranges
      ensures FillRanges(old(ranges), offset, size, junk) == if fine then Stored(ranges) else Overrun
    {
      hide Inserted, Consolidated;
      var dst, consolidate, i := 0, -1, 0;
      while i < |ranges|
        invariant i <= |ranges| && consolidate == -1 && ranges == old(ranges)
        invariant WorkIn(ranges, offset, size, i, dst) == WorkIn(old(ranges), offset, size, 0, 0)
      {
        var r := ranges[i];
        if Wrap32(offset + size) == r.offset {
          ranges := ranges[i := Range(offset, Wrap32(r.size + size))];
          if i == 0 || ranges[i - 1].End() < offset {
            return true;
          }
          consolidate := i - 1;
          break;
        } else if r.End() == offset {
          ranges := ranges[i := Range(r.offset, Wrap32(r.size + size))];
          if i == |ranges| - 1 || ranges[i].End() < ranges[i + 1].offset {
            return true;
          }
          consolidate := i;
          break;
        } else if offset > r.End() {
          dst := i;
        }
        i := i + 1;
      }
      if consolidate < 0 {
        fine := AddRange(dst, junk);
      } else {
        fine := true;
        CloseUp(consolidate);
      }
    }

    /** Lines 97-121, where the new range is not stored. */
    method AddRange(dst: nat, junk: Slack) returns (fine: bool)
      modifies this`ranges
      ensures (if fine then Stored(ranges) else Overrun) == Inserted(old(ranges), dst, junk)
    {
      fine := dst + 1 == |ranges| || (dst + 1 < |ranges| && junk.room);
      if dst + 1 == |ranges| {
        ranges := ranges + [junk.next];
      } else if fine {
        ranges := ranges[..dst + 1] + ranges[dst..];
      }
    }

    /** Lines 123-127 */
    method CloseUp(at: nat)
      requires at + 2 <= |ranges|
      modifies this`ranges
      ensures ranges == Consolidated(old(ranges), at)
    {
      ranges := ranges[at := Range(ranges[at].offset, ranges[at + 1].size)];
      ranges := ranges[..at + 1] + MovedUp(ranges[at + 1..]);
    }

    /** avt_pkt_merge_seg. `ret` is the number returned, and `verdict` what it stands for. */
    method MergeSeg(p: Packet, junk: Slack) returns (ret: int, verdict: Verdict)
      requires |hdr| >= HEADER_PIECES * PIECE_LEN && WellFormed(p)
      modifies this
      ensures verdict == Step(overlay, old(Snapshot()), p, junk).verdict
      ensures verdict == Busy <==>
        && SeriesOf(p.data).kind != 0 && |p.payload| == SeriesOf(p.data).size
        && old(active) && TargetOf(p.data) != old(target)
      ensures verdict == Busy ==> ret == -EBUSY && Snapshot() == old(Snapshot())
      ensures verdict != Undefined ==>
        ret == Returned(verdict) && Snapshot() == Step(overlay, old(Snapshot()), p, junk).state
    {
      BusyMeans(overlay, Snapshot(), p, junk);
      hide Step;
      verdict := Judge(p, junk);
      ret := if verdict == Undefined then 0 else Returned(verdict);
    }

    method Judge(p: Packet, junk: Slack) returns (verdict: Verdict)
      requires |hdr| >= HEADER_PIECES * PIECE_LEN && WellFormed(p)
      modifies this
      ensures verdict == Step(overlay, old(Snapshot()), p, junk).verdict
      ensures verdict != Undefined ==> Snapshot() == Step(overlay, old(Snapshot()), p, junk).state
    {
      var t := SeriesOf(p.data);
      if t.kind == 0 {
        active, mem, len := false, [], 0;
        return PassThrough;
      }
      if |p.payload| != t.size {
        return Invalid;
      }
      if !active {
        verdict := Begin(p);
        return;
      }
      if TargetOf(p.data) != target {
        return Busy;
      }
      verdict := ValidatePacket(p);
      if verdict == PassThrough {
        verdict := Add(p, junk);
      }
    }

    /** Lines 305-332 */
    method Identify(p: Packet)
      requires |hdr| >= HEADER_PIECES * PIECE_LEN && WellFormed(p)
      modifies this
      ensures Snapshot() == Identified(overlay, old(Snapshot()), p)
    {
      target, last := TargetOf(p.data), Wrap32(p.data.seqNo);
      if SeriesOf(p.data).kind > 0 {
        data, hdr, available, mask := p.data, p.hdr, true, 0x7F;
      } else {
        hdr := WithPiece(hdr, Part(p.data.seqNo), PieceOf(overlay, p.data));
        available, mask := false, PieceBit(Part(p.data.seqNo));
      }
    }

    method Begin(p: Packet) returns (verdict: Verdict)
      requires |hdr| >= HEADER_PIECES * PIECE_LEN && WellFormed(p)
      modifies this
      ensures verdict == Start(overlay, old(Snapshot()), p).verdict
      ensures verdict != Undefined ==> Snapshot() == Start(overlay, old(Snapshot()), p).state
    {
      hide Identified, Overwrite, Resized, Cells, WithPiece, PieceBit;
      var t := SeriesOf(p.data);
      Identify(p);
      if t.offset == 0 {
        mem := Resized(Cells(p.payload), |p.payload|, t.total);
      } else if t.offset + |p.payload| <= t.total {
        mem := Overwrite(Fresh(t.total), t.offset, p.payload);
      } else {
        return Undefined;
      }
      len, ranges, tracked, total, active := t.total, [Range(t.offset, t.size)], t.size, t.total, true;
      verdict := Again;
    }

    /** Lines 411-428 */
    method Prepare(p: Packet)
      modifies this
      ensures Snapshot() == Sized(Informed(old(Snapshot()), p), SeriesOf(p.data).total)
    {
      var t := SeriesOf(p.data);
      hide Resized, SeriesOf;
      if t.kind == 1 {
        data, hdr, available := p.data, p.hdr, true;
      }
      if total == 0 {
        mem := Resized(mem, len, t.total);
        len, total := t.total, t.total;
      }
    }

    /** Lines 435-448 */
    method Place(p: Packet)
      requires SeriesOf(p.data).offset + |p.payload| <= |mem|
      modifies this`mem, this`tracked, this`last
      ensures Snapshot() == Placed(old(Snapshot()), p, ranges)
    {
      var t := SeriesOf(p.data);
      mem := Overwrite(mem, t.offset, p.payload);
      tracked := Wrap32(tracked + t.size);
      if last < p.data.seqNo {
        last := Wrap32(p.data.seqNo);
      }
    }

    method Add(p: Packet, junk: Slack) returns (verdict: Verdict)
      modifies this
      ensures verdict == Accept(old(Snapshot()), p, junk).verdict
      ensures verdict != Undefined ==> Snapshot() == Accept(old(Snapshot()), p, junk).state
    {
      var t := SeriesOf(p.data);
      hide FillRanges, Finish, SeriesOf, Resized, Overwrite, Wrap32;
      Prepare(p);
      var fine := WorkInRange(t.offset, t.size, junk);
      if total == 0 || !fine || t.offset + |p.payload| > |mem| {
        return Undefined;
      }
      Place(p);
      verdict := Output();
    }

    /** Lines 456-468 */
    method Output() returns (verdict: Verdict)
      modifies this
      ensures verdict == Finish(old(Snapshot())).verdict
      ensures verdict != Undefined ==> Snapshot() == Finish(old(Snapshot())).state
    {
      if tracked != total {
        return Again;
      }
      if len > |mem| {
        return Undefined;
      }
      verdict := if available then Merged(data, hdr, mem[..len]) else Headless(data, hdr, mem[..len]);
      data, hdr, mem, len, active := ZERO_DATA, ZeroHeader(), [], 0, false;
    }

    /** fill_phantom_header */
    method FillPhantomHeader(p: Packet, decode: Bytes -> Decoded) returns (verdict: Verdict)
      requires |hdr| >= HEADER_PIECES * PIECE_LEN && p.data.Segment? && WellFormed(p)
      modifies this`hdr, this`mask, this`data, this`available
      ensures Result(verdict, Snapshot()) == FillHeader(old(Snapshot()), p, decode)
    {
      hide WithOneMore, Decode;
      PutPiece(p);
      verdict := DecodeHeader(Part(p.data.seqNo), decode);
    }

    method PutPiece(p: Packet)
      requires |hdr| >= HEADER_PIECES * PIECE_LEN && p.data.Segment? && WellFormed(p)
      modifies this`hdr, this`mask
      ensures Snapshot() == WithOneMore(old(Snapshot()), p) && |hdr| >= HEADER_PIECES * PIECE_LEN
    {
      hide PieceBit;
      var part := Part(p.data.seqNo);
      hdr := hdr[..PIECE_LEN * part] + p.data.header7 + hdr[PIECE_LEN * part + PIECE_LEN..];
      mask := mask | PieceBit(part);
    }

    method DecodeHeader(part: nat, decode: Bytes -> Decoded) returns (verdict: Verdict)
      requires |hdr| >= HEADER_PIECES * PIECE_LEN
      modifies this`mask, this`data, this`available
      ensures Result(verdict, Snapshot()) == Decode(old(Snapshot()), part, decode)
    {
      verdict := PassThrough;
      if mask == 0x7F {
        match decode(hdr[..HEADER_PIECES * PIECE_LEN]) {
          case Known(d) =>
            data, available := d, true;
          case Unknown =>
            mask := mask & 0x3F;
            if part == 0 {
              verdict := Again;
            }
        }
      }
    }
  }
}
