/** Recovering the header from the pieces that the segments of a packet carry. */
module PhantomHeader {
  import opened FixedWidth
  import opened Packets
  import opened Merging

  /** Segments of the packet whose header is `hdr`, with any sequence numbers. */
  ghost predicate Lends(hdr: Bytes, p: Packet)
    requires |hdr| >= HEADER_PIECES * PIECE_LEN
  {
    WellFormed(p) && p.data.Segment? && p.data.header7 == PieceAt(hdr, Part(p.data.seqNo))
  }

  lemma MaskGrows(mask: bv8, i: nat, j: nat)
    requires i < HEADER_PIECES && j < HEADER_PIECES && mask & 0x80 == 0
    ensures HasPiece(mask | PieceBit(i), j) <==> HasPiece(mask, j) || i == j
    ensures (mask | PieceBit(i)) & 0x80 == 0 && (mask == 0x7F ==> mask | PieceBit(i) == 0x7F)
  {
  }

  /** The mask is full when it has all seven bits. */
  lemma FullMask(mask: bv8)
    requires mask & 0x80 == 0
    ensures mask == 0x7F <==> forall part :: 0 <= part < HEADER_PIECES ==> HasPiece(mask, part)
  {
    if forall part :: 0 <= part < HEADER_PIECES ==> HasPiece(mask, part) {
      assert HasPiece(mask, 0) && HasPiece(mask, 1) && HasPiece(mask, 2) && HasPiece(mask, 3) && HasPiece(mask, 4)
        && HasPiece(mask, 5) && HasPiece(mask, 6);
    }
  }

  lemma AllPieces(s: State, hdr: Bytes)
    requires |hdr| >= HEADER_PIECES * PIECE_LEN && |s.hdr| >= HEADER_PIECES * PIECE_LEN
    requires forall part :: 0 <= part < HEADER_PIECES ==> PieceAt(s.hdr, part) == PieceAt(hdr, part)
    ensures s.hdr[..HEADER_PIECES * PIECE_LEN] == hdr[..HEADER_PIECES * PIECE_LEN]
  {
    forall i | 0 <= i < HEADER_PIECES * PIECE_LEN
      ensures s.hdr[i] == hdr[i]
    {
      assert PieceAt(s.hdr, i / PIECE_LEN)[i % PIECE_LEN] == PieceAt(hdr, i / PIECE_LEN)[i % PIECE_LEN];
    }
  }

  lemma OneMoreAgrees(s: State, hdr: Bytes, p: Packet)
    requires |hdr| >= HEADER_PIECES * PIECE_LEN && Agrees(s, hdr) && Lends(hdr, p) && s.mask & 0x80 == 0
    ensures var t := WithOneMore(s, p);
      && Agrees(t, hdr) && t.mask & 0x80 == 0 && (s.mask == 0x7F ==> t.mask == 0x7F)
      && forall j :: 0 <= j < HEADER_PIECES ==> (HasPiece(t.mask, j) <==> HasPiece(s.mask, j) || j == Part(p.data.seqNo))
  {
    var t, part := WithOneMore(s, p), Part(p.data.seqNo);
    forall j | 0 <= j < HEADER_PIECES
      ensures HasPiece(t.mask, j) <==> HasPiece(s.mask, j) || j == part
      ensures PieceAt(t.hdr, j) == if j == part then PieceAt(hdr, part) else PieceAt(s.hdr, j)
    {
      MaskGrows(s.mask, part, j);
      WithPieceAt(s.hdr, part, p.data.header7, j);
    }
    MaskGrows(s.mask, part, part);
    WithPieceAt(s.hdr, part, p.data.header7, part);
    hide HasPiece, PieceAt, PieceBit, WithPiece;
  }

  lemma PieceIsFilled(s: State, hdr: Bytes, p: Packet, decode: Bytes -> Decoded)
    requires |hdr| >= HEADER_PIECES * PIECE_LEN && Agrees(s, hdr) && Lends(hdr, p) && s.mask & 0x80 == 0
    requires decode(hdr[..HEADER_PIECES * PIECE_LEN]).Known?
    ensures var (r, t) := (FillHeader(s, p, decode), WithOneMore(s, p));
      && r.verdict == PassThrough && r.state.hdr == t.hdr && r.state.mask == t.mask && Agrees(t, hdr)
      && (r.state.available <==> s.available || t.mask == 0x7F)
      && (t.mask == 0x7F ==> r.state.data == decode(hdr[..HEADER_PIECES * PIECE_LEN]).data)
  {
    OneMoreAgrees(s, hdr, p);
    var t := WithOneMore(s, p);
    FullMask(t.mask);
    if t.mask == 0x7F { AllPieces(t, hdr); }
    hide HasPiece, PieceAt, PieceBit, WithPiece;
  }

  ghost predicate Segments(ps: seq<Packet>) { forall p :: p in ps ==> WellFormed(p) && p.data.Segment? }

  /** The merger after fill_phantom_header has seen these segments. */
  ghost function Fed(s: State, ps: seq<Packet>, decode: Bytes -> Decoded): (r: State)
    requires |s.hdr| >= HEADER_PIECES * PIECE_LEN
    requires Segments(ps)
    ensures |r.hdr| >= HEADER_PIECES * PIECE_LEN
  {
    if ps == [] then s else FillHeader(Fed(s, ps[..|ps| - 1], decode), ps[|ps| - 1], decode).state
  }

  /** The residues of the sequence numbers say which pieces are there. */
  ghost predicate Hit(ps: seq<Packet>, part: nat) { exists i :: 0 <= i < |ps| && Part(ps[i].data.seqNo) == part }

  lemma HitMore(ps: seq<Packet>, p: Packet, j: nat)
    ensures Hit(ps + [p], j) <==> Hit(ps, j) || j == Part(p.data.seqNo)
  {
    if j == Part(p.data.seqNo) { assert (ps + [p])[|ps|] == p; }
    if Hit(ps, j) {
      var i :| 0 <= i < |ps| && Part(ps[i].data.seqNo) == j;
      assert (ps + [p])[i] == ps[i];
    }
  }

  lemma {:induction false} PiecesAreCollected(s: State, hdr: Bytes, ps: seq<Packet>, decode: Bytes -> Decoded)
    requires |hdr| >= HEADER_PIECES * PIECE_LEN && |s.hdr| >= HEADER_PIECES * PIECE_LEN
    requires s.mask == 0 && !s.available && decode(hdr[..HEADER_PIECES * PIECE_LEN]).Known?
    requires Segments(ps) && forall p :: p in ps ==> Lends(hdr, p)
    ensures var t := Fed(s, ps, decode);
      && Agrees(t, hdr) && t.mask & 0x80 == 0 && (t.available <==> t.mask == 0x7F)
      && (forall j :: 0 <= j < HEADER_PIECES ==> (HasPiece(t.mask, j) <==> Hit(ps, j)))
      && (t.available ==> t.data == decode(hdr[..HEADER_PIECES * PIECE_LEN]).data)
  {
    if ps != [] {
      var front, p := ps[..|ps| - 1], ps[|ps| - 1];
      PiecesAreCollected(s, hdr, front, decode);
      OneMoreAgrees(Fed(s, front, decode), hdr, p);
      PieceIsFilled(Fed(s, front, decode), hdr, p, decode);
      forall j | 0 <= j < HEADER_PIECES
        ensures Hit(ps, j) <==> Hit(front, j) || j == Part(p.data.seqNo)
      {
        assert ps == front + [p];
        HitMore(front, p, j);
      }
      hide HasPiece, FillHeader, PieceAt, Lends, Hit, WithOneMore;
    }
  }

  /** Header recovery: the header becomes available exactly when the segments, in whatever order and with whatever
      repeats, have hit every residue, and it is then the sender's. */
  lemma HeaderIsRecovered(s: State, hdr: Bytes, ps: seq<Packet>, decode: Bytes -> Decoded)
    requires |hdr| >= HEADER_PIECES * PIECE_LEN && |s.hdr| >= HEADER_PIECES * PIECE_LEN
    requires s.mask == 0 && !s.available
    requires Segments(ps) && forall p :: p in ps ==> Lends(hdr, p)
    requires decode(hdr[..HEADER_PIECES * PIECE_LEN]).Known?
    ensures var t := Fed(s, ps, decode);
      && (t.available <==> forall part :: 0 <= part < HEADER_PIECES ==> Hit(ps, part))
      && (t.available <==> t.mask == 0x7F)
      && (t.available ==> t.hdr[..HEADER_PIECES * PIECE_LEN] == hdr[..HEADER_PIECES * PIECE_LEN])
      && (t.available ==> t.data == decode(hdr[..HEADER_PIECES * PIECE_LEN]).data)
  {
    PiecesAreCollected(s, hdr, ps, decode);
    var t := Fed(s, ps, decode);
    FullMask(t.mask);
    if t.mask == 0x7F { AllPieces(t, hdr); }
  }

  /** How many steps it takes from a sequence number to one with this residue. */
  function StepsTo(seqNo: nat, part: nat): (k: nat)
    requires part < HEADER_PIECES
    ensures k < HEADER_PIECES && Part(seqNo + k) == part
  {
    if Part(seqNo) <= part then part - Part(seqNo) else part + HEADER_PIECES - Part(seqNo)
  }

  /** Any seven segments in a row are enough. */
  lemma SevenInARow(ps: seq<Packet>, i: nat, part: nat)
    requires i + HEADER_PIECES <= |ps| && part < HEADER_PIECES
    requires forall j :: i <= j < i + HEADER_PIECES ==> ps[j].data.seqNo == ps[i].data.seqNo + (j - i)
    ensures Hit(ps, part)
  {
    var j := i + StepsTo(ps[i].data.seqNo, part);
    assert ps[j].data.seqNo == ps[i].data.seqNo + (j - i);
  }
}
