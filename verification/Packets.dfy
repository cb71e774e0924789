/** The packets that carry a payload in pieces. */
module Packets {
  import opened FixedWidth

  const HEADER_PIECES := 7
  const PIECE_LEN := 4
  const MAX_HEADER_LEN := 384

  /** union AVTPacketData, as far as segmentation looks at it. `info` stands for the fields it never touches. */
  datatype PacketData =
    | StreamData(streamId: int, seqNo: nat, dataLength: nat, segmented: bool, info: Bytes)
    | Segment(streamId: int, seqNo: nat, target: nat, total: nat, offset: nat, length: nat, header7: Bytes)
    | HashData(streamId: int, seqNo: nat, target: nat, digest: Bytes)
    | Plain(streamId: int, seqNo: nat, descriptor: int)

  /** AVTPktd */
  datatype Packet = Packet(data: PacketData, hdr: Bytes, payload: Bytes, hasHash: bool, digest: Bytes)

  datatype Kind = StreamDataKind | SegmentKind | HashKind | PlainKind(descriptor: int)

  function KindOf(data: PacketData): Kind {
    match data
    case StreamData(_, _, _, _, _) => StreamDataKind
    case Segment(_, _, _, _, _, _, _) => SegmentKind
    case HashData(_, _, _, _) => HashKind
    case Plain(_, _, descriptor) => PlainKind(descriptor)
  }

  /** The generated encoders, left open: each kind of packet has one header size, and every header has room for
      the seven 4-byte pieces that segments carry and fits the 384 bytes set aside for it. */
  datatype Format = Format(headerLen: Kind -> nat, encode: PacketData -> Bytes)
  {
    ghost predicate WellFormed() {
      && (forall data :: |encode(data)| == headerLen(KindOf(data)))
      && (forall kind :: HEADER_PIECES * PIECE_LEN <= headerLen(kind) <= MAX_HEADER_LEN)
    }
  }

  /** The piece of a header that a segment with this sequence number carries. */
  function HeaderPiece(hdr: Bytes, seqNo: nat): Bytes
    requires |hdr| >= HEADER_PIECES * PIECE_LEN
  {
    var part := seqNo % HEADER_PIECES;
    hdr[PIECE_LEN * part..PIECE_LEN * part + PIECE_LEN]
  }

  /** avt_packet_create_segment; only stream data can be segmented, other packets reach its unreachable arm. */
  function CreateSegment(p: Packet, seqNo: nat, offset: nat, length: nat, total: nat): PacketData
    requires p.data.StreamData? && |p.hdr| >= HEADER_PIECES * PIECE_LEN
  {
    Segment(p.data.streamId, seqNo, p.data.seqNo, total, offset, length, HeaderPiece(p.hdr, seqNo))
  }

  /** The same header under another sequence number. */
  function Numbered(data: PacketData, seqNo: nat): PacketData {
    data.(seqNo := seqNo)
  }

  /** avt_packet_change_size for stream data, as the tests call it (through a pointer). */
  function ChangeSize(data: PacketData, length: nat, total: nat): PacketData
    requires data.StreamData?
  {
    StreamData(data.streamId, data.seqNo, length, length < total, data.info)
  }
}
