/** Pieces that arrive in any order, with gaps and repeats: when what the merger puts out is what was sent. */
module AnyOrder {
  import opened FixedWidth
  import opened Packets
  import opened Merging
  import opened Reassembly

  /** The merger counts this packet's bytes and copies them. */
  ghost predicate Takes(overlay: Overlay, s: State, p: Packet, junk: Slack)
    requires |s.hdr| >= HEADER_PIECES * PIECE_LEN && WellFormed(p)
  {
    && SeriesOf(p.data).kind != 0 && |p.payload| == SeriesOf(p.data).size
    && (s.active ==> TargetOf(p.data) == s.target && Validate(overlay, s, p) == PassThrough)
    && Step(overlay, s, p, junk).verdict != Undefined
  }

  /** The packets of a run that it takes. */
  ghost function Taken(overlay: Overlay, s: State, ps: seq<Packet>, junk: nat -> Slack): seq<Packet>
    requires |s.hdr| >= HEADER_PIECES * PIECE_LEN && AllWellFormed(ps)
  {
    if ps == [] then []
    else
      var front, p := ps[..|ps| - 1], ps[|ps| - 1];
      Taken(overlay, s, front, junk) + (if Takes(overlay, After(overlay, s, front, junk).state, p, junk(|ps|)) then [p] else [])
  }

  /** The offsets from a up to b. */
  ghost function Span(a: nat, b: nat): set<nat> { set i: nat | i < b && AtLeast(i, a) }

  predicate AtLeast(i: nat, a: nat) { a <= i }

  ghost function BytesOf(p: Packet): set<nat> { Span(From(p), To(p)) }

  ghost function AllBytes(ps: seq<Packet>): set<nat> {
    if ps == [] then {} else AllBytes(ps[..|ps| - 1]) + BytesOf(ps[|ps| - 1])
  }

  function Count(ps: seq<Packet>): nat {
    if ps == [] then 0 else Count(ps[..|ps| - 1]) + (To(ps[|ps| - 1]) - From(ps[|ps| - 1]))
  }

  predicate Disjoint(p: Packet, q: Packet) { To(p) <= From(q) || To(q) <= From(p) }

  /** No byte is among them twice. */
  ghost predicate Apart(ps: seq<Packet>) { forall i, j :: 0 <= i < j < |ps| ==> Disjoint(ps[i], ps[j]) }

  ghost predicate NoneEmpty(ps: seq<Packet>) { forall i :: 0 <= i < |ps| ==> From(ps[i]) < To(ps[i]) }

  // Counting bytes.

  lemma {:induction false} SpanSize(a: nat, b: nat)
    requires a <= b
    ensures |Span(a, b)| == b - a
    decreases b
  {
    if a < b {
      SpanSize(a, b - 1);
      assert Span(a, b) == Span(a, b - 1) + {b - 1};
    } else {
      assert Span(a, b) == {};
    }
  }

  lemma {:induction false} SubsetSize(a: set<nat>, b: set<nat>)
    requires a <= b
    ensures |a| <= |b| && (|a| == |b| ==> a == b)
  {
    assert b == a + (b - a);
  }

  lemma {:induction false} BytesAmong(ps: seq<Packet>, i: nat)
    ensures i in AllBytes(ps) <==> exists k :: 0 <= k < |ps| && i in BytesOf(ps[k])
  {
    if ps != [] {
      var front := ps[..|ps| - 1];
      BytesAmong(front, i);
      if i in AllBytes(front) {
        var k :| 0 <= k < |front| && i in BytesOf(front[k]);
        assert i in BytesOf(ps[k]);
      }
      if exists k :: 0 <= k < |ps| && i in BytesOf(ps[k]) {
        var k :| 0 <= k < |ps| && i in BytesOf(ps[k]);
        if k < |front| { assert front[k] == ps[k]; }
      }
    }
  }

  /** The bytes are as many as were counted exactly when none was counted twice. */
  lemma {:induction false} CountsBytes(ps: seq<Packet>)
    requires NoneEmpty(ps)
    ensures |AllBytes(ps)| <= Count(ps) && (|AllBytes(ps)| == Count(ps) <==> Apart(ps))
  {
    if ps != [] {
      var front, p := ps[..|ps| - 1], ps[|ps| - 1];
      CountsBytes(front);
      SpanSize(From(p), To(p));
      UnionSize(AllBytes(front), BytesOf(p));
      ApartFrom(front, p);
      ApartMore(front, p);
      assert ps == front + [p];
      hide Apart, BytesOf;
    }
  }

  lemma UnionSize(a: set<nat>, b: set<nat>)
    ensures |a + b| <= |a| + |b| && (|a + b| == |a| + |b| <==> a !! b)
  {
    assert a + b == a + (b - a);
    SubsetSize(b - a, b);
    if a !! b { assert b - a == b; }
  }

  lemma ApartMore(ps: seq<Packet>, p: Packet)
    ensures Apart(ps + [p]) <==> Apart(ps) && forall k :: 0 <= k < |ps| ==> Disjoint(ps[k], p)
  {
    var qs := ps + [p];
    assert qs[|ps|] == p && forall k :: 0 <= k < |ps| ==> qs[k] == ps[k];
  }

  lemma ApartFrom(ps: seq<Packet>, p: Packet)
    requires NoneEmpty(ps) && From(p) < To(p)
    ensures AllBytes(ps) !! BytesOf(p) <==> forall k :: 0 <= k < |ps| ==> Disjoint(ps[k], p)
  {
    if forall k :: 0 <= k < |ps| ==> Disjoint(ps[k], p) {
      forall i | i in AllBytes(ps)
        ensures i !in BytesOf(p)
      {
        BytesAmong(ps, i);
      }
    } else {
      var k :| 0 <= k < |ps| && !Disjoint(ps[k], p);
      var i := if From(ps[k]) < From(p) then From(p) else From(ps[k]);
      assert i in BytesOf(ps[k]) && i in BytesOf(p);
      BytesAmong(ps, i);
    }
  }

  // What the merger keeps track of, whatever it takes.

  /** The bytes c of the payload, and no others, have been written. */
  ghost predicate InPlace(s: State, orig: Packet, c: set<nat>)
    requires Divided(orig)
  {
    && (forall i :: i in c ==> i < |orig.payload| && i < |s.mem| && s.mem[i] == Set(orig.payload[i]))
    && (forall i :: 0 <= i < |s.mem| && i !in c ==> s.mem[i] == Unset)
    && (if s.total == 0 then s.len == 0 else s.total == s.len == |orig.payload| <= |s.mem|)
  }

  /** The merger is at work on `orig`, has counted n bytes, modulo 2^32, and has the bytes c in place. */
  ghost predicate Accounted(s: State, orig: Packet, c: set<nat>, n: nat)
    requires Divided(orig)
  {
    && s.active && s.target == Wrap32(orig.data.seqNo) && |s.hdr| >= HEADER_PIECES * PIECE_LEN
    && (s.available <==> 0 in c) && (s.available ==> s.data == orig.data && s.hdr == orig.hdr)
    && s.tracked == Wrap32(n) && InPlace(s, orig, c)
    && s.ranges != [] && (s.total == 0 ==> s.ranges == [Range(0, orig.data.dataLength)])
  }

  lemma FirstIsAccounted(overlay: Overlay, s: State, orig: Packet, p: Packet, junk: Slack)
    requires Divided(orig) && Sent(orig, p) && !s.active && |s.hdr| >= HEADER_PIECES * PIECE_LEN
    ensures WellFormed(p) && Takes(overlay, s, p, junk)
    ensures var r := Step(overlay, s, p, junk);
      r.verdict == Again && Accounted(r.state, orig, BytesOf(p), To(p) - From(p))
  {
    SentIsWellFormed(orig, p);
    FirstBytes(orig, p);
    FirstIsFilled(orig, p);
    Wrap32Small(To(p) - From(p));
    hide Wrap32, FirstMemory, WithPiece, HasPiece, PieceBit;
  }

  lemma FirstIsFilled(orig: Packet, p: Packet)
    requires Divided(orig) && Sent(orig, p)
    ensures From(p) != 0 ==> To(p) <= SeriesOf(p.data).total
    ensures forall i :: 0 <= i < |FirstMemory(p)| && i !in BytesOf(p) ==> FirstMemory(p)[i] == Unset
  {
    SentIsWellFormed(orig, p);
    if From(p) != 0 { OverwriteAt(Fresh(SeriesOf(p.data).total), From(p), p.payload); }
  }

  /** Only the move of line 116 can go wrong. */
  lemma RoomIsEnough(ranges: seq<Range>, offset: nat, size: nat, junk: Slack)
    requires ranges != []
    ensures var f := FillRanges(ranges, offset, size, junk); (junk.room ==> f.Stored?) && (f.Stored? ==> f.ranges != [])
  {
    WorksInWithin(ranges, offset, size, 0, 0);
  }

  lemma {:induction false} WorksInWithin(ranges: seq<Range>, offset: nat, size: nat, i: nat, dst: nat)
    requires i <= |ranges| && dst < |ranges|
    ensures var f := WorkIn(ranges, offset, size, i, dst);
      if f.Insert? then f.at < |ranges| else |f.ranges| == |ranges|
    decreases |ranges| - i
  {
    hide Wrap32;
    if i < |ranges| { WorksInWithin(ranges, offset, size, i + 1, if offset > ranges[i].End() then i else dst); }
  }

  /** A piece that is taken goes into its place, and the merger is done when the count says so. */
  lemma TakenIsPlacedAt(overlay: Overlay, s: State, orig: Packet, p: Packet, junk: Slack) returns (ranges: seq<Range>)
    requires Divided(orig) && Sent(orig, p) && s.active && s.ranges != [] && |s.hdr| >= HEADER_PIECES * PIECE_LEN
    requires WellFormed(p) && Takes(overlay, s, p, junk)
    ensures ranges != []
    ensures var ready := Sized(Informed(s, p), SeriesOf(p.data).total);
      && ready.total != 0 && To(p) <= |ready.mem| && |p.payload| == To(p) - From(p)
      && Step(overlay, s, p, junk) == Finish(Placed(ready, p, ranges))
  {
    hide Validate, FillRanges, Finish, Placed, Sized, Informed, Sent;
    SentIsWellFormed(orig, p);
    RoomIsEnough(s.ranges, From(p), To(p) - From(p), junk);
    var stored := FillRanges(s.ranges, From(p), To(p) - From(p), junk);
    ranges := if stored.Stored? then stored.ranges else s.ranges;
  }

  /** And one that is not taken leaves no trace. */
  lemma OthersLeaveNoTrace(overlay: Overlay, s: State, orig: Packet, c: set<nat>, n: nat, p: Packet, junk: Slack)
    requires Divided(orig) && Accounted(s, orig, c, n) && (Sent(orig, p) || Foreign(orig, p)) && WellFormed(p)
    ensures Foreign(orig, p) ==> !Takes(overlay, s, p, junk)
    ensures !Takes(overlay, s, p, junk) ==>
      var r := Step(overlay, s, p, junk); r.state == s && (Refusal(r.verdict) || (r.verdict == Undefined && !junk.room))
  {
    hide HasPiece, PieceAt, Wrap32, Overwrite, FillRanges, Overlap, Placed, Finish;
    RoomIsEnough(s.ranges, SeriesOf(p.data).offset, SeriesOf(p.data).size, junk);
    if Sent(orig, p) {
      SentIsWellFormed(orig, p);
      if !p.data.Segment? && s.total == 0 { HeaderIsRepeat(s, orig, c, n, p); }
    }
    var ready := Sized(Informed(s, p), SeriesOf(p.data).total);
    if From(p) + |p.payload| <= |ready.mem| { PlacedHasRoom(ready, p); }
  }

  /** The assertion of line 421 holds: the header packet does not come a second time as long as it is alone. */
  lemma HeaderIsRepeat(s: State, orig: Packet, c: set<nat>, n: nat, p: Packet)
    requires Divided(orig) && Accounted(s, orig, c, n) && Sent(orig, p) && !p.data.Segment? && s.total == 0
    ensures Overlap(s.ranges, SeriesOf(p.data).offset, SeriesOf(p.data).size, 0) == Again
  {
  }

  lemma PlacedHasRoom(s: State, p: Packet)
    requires s.len <= |s.mem| && SeriesOf(p.data).offset + |p.payload| <= |s.mem|
    ensures forall ranges :: Finish(Placed(s, p, ranges)).verdict != Undefined
  {
    OverwriteAt(s.mem, SeriesOf(p.data).offset, p.payload);
    hide Overwrite;
  }

  lemma SizedInPlace(s: State, orig: Packet, c: set<nat>, p: Packet)
    requires Divided(orig) && InPlace(s, orig, c) && Sent(orig, p)
    ensures var t := Sized(Informed(s, p), SeriesOf(p.data).total);
      t.total != 0 ==> InPlace(t, orig, c) && t.total == |orig.payload|
  {
    SentIsWellFormed(orig, p);
  }

  lemma PlacedInPlace(s: State, orig: Packet, c: set<nat>, p: Packet, ranges: seq<Range>)
    requires Divided(orig) && InPlace(s, orig, c) && Sent(orig, p) && s.total != 0
    requires To(p) <= |s.mem| && |p.payload| == To(p) - From(p)
    ensures InPlace(Placed(s, p, ranges), orig, c + BytesOf(p))
  {
    hide Overwrite, Sent, Wrap32;
    SentIsWellFormed(orig, p);
    OverwriteAt(s.mem, From(p), p.payload);
  }

  lemma HeaderIsFirst(orig: Packet, p: Packet)
    requires Divided(orig) && Sent(orig, p)
    ensures !p.data.Segment? <==> 0 in BytesOf(p)
    ensures !p.data.Segment? ==> p.data == orig.data && p.hdr == orig.hdr
  {
  }

  lemma PlacedIsAccounted(s: State, orig: Packet, c: set<nat>, n: nat, p: Packet, ranges: seq<Range>)
    requires Divided(orig) && Accounted(s, orig, c, n) && Sent(orig, p)
    requires var ready := Sized(Informed(s, p), SeriesOf(p.data).total);
      ready.total != 0 && To(p) <= |ready.mem| && |p.payload| == To(p) - From(p) && ranges != []
    ensures var t := Placed(Sized(Informed(s, p), SeriesOf(p.data).total), p, ranges);
      Accounted(t, orig, c + BytesOf(p), n + (To(p) - From(p))) && t.total == |orig.payload|
  {
    hide Wrap32, Overwrite, InPlace, Sent, Resized, Span;
    SentIsWellFormed(orig, p);
    HeaderIsFirst(orig, p);
    SizedInPlace(s, orig, c, p);
    PlacedInPlace(Sized(Informed(s, p), SeriesOf(p.data).total), orig, c, p, ranges);
    Wrap32Adds(n, To(p) - From(p));
    Wrap32Adds(To(p) - From(p), n);
  }

  predicate PutOut(v: Verdict) { v.Merged? || v.Headless? }

  /** The bytes of the whole payload. */
  ghost function Everything(orig: Packet): set<nat> { Span(0, |orig.payload|) }

  /** A payload of the right length with the bytes c in it, and uninitialised memory for the others. */
  ghost predicate HasHoles(payload: Memory, orig: Packet, c: set<nat>) {
    && |payload| == |orig.payload|
    && forall i :: 0 <= i < |payload| ==> payload[i] == if i in c then Set(orig.payload[i]) else Unset
  }

  /** With the count complete: what goes out is right when all bytes are in place. */
  lemma OutIsRight(s: State, orig: Packet, c: set<nat>, n: nat)
    requires Divided(orig) && Accounted(s, orig, c, n) && s.total == |orig.payload|
    ensures var r := Finish(s);
      && (if Wrap32(n) == |orig.payload| then PutOut(r.verdict) else r == Result(Again, s))
      && (PutOut(r.verdict) ==>
            && (r.verdict == Merged(orig.data, orig.hdr, Cells(orig.payload)) <==> c == Everything(orig))
            && (r.verdict.Merged? <==> 0 in c) && HasHoles(r.verdict.payload, orig, c))
  {
    hide Wrap32;
    if Wrap32(n) == |orig.payload| {
      if c == Everything(orig) {
        assert s.mem[..s.len] == Cells(orig.payload);
      } else if s.mem[..s.len] == Cells(orig.payload) {
        MissingByte(s, orig, c, n);
      }
    }
  }

  lemma MissingByte(s: State, orig: Packet, c: set<nat>, n: nat)
    requires Divided(orig) && Accounted(s, orig, c, n) && s.total == |orig.payload|
    requires s.mem[..s.len] == Cells(orig.payload)
    ensures c == Everything(orig)
  {
    forall i | 0 <= i < |orig.payload|
      ensures i in c
    {
      assert s.mem[..s.len][i] == Cells(orig.payload)[i] == Set(orig.payload[i]);
    }
    assert forall i :: i in c ==> i in Everything(orig);
    assert forall i :: i in Everything(orig) ==> i in c;
  }

  // Whole runs.

  /** Pieces of `orig`, in any order and as often as you like, with pieces of other packets in between. */
  ghost predicate Mixed(orig: Packet, ps: seq<Packet>)
    requires Divided(orig)
  {
    && ps != [] && Sent(orig, ps[0])
    && forall i :: 0 <= i < |ps| ==> WellFormed(ps[i]) && (Sent(orig, ps[i]) || Foreign(orig, ps[i]))
  }

  /** No payload has been put out yet, and nothing undefined has happened. */
  ghost predicate Quiet(overlay: Overlay, s: State, ps: seq<Packet>, junk: nat -> Slack)
    requires |s.hdr| >= HEADER_PIECES * PIECE_LEN && AllWellFormed(ps)
  {
    var v := After(overlay, s, ps, junk).verdict;
    !PutOut(v) && v != Undefined && (ps != [] ==> Quiet(overlay, s, ps[..|ps| - 1], junk))
  }

  lemma MixedAreWellFormed(orig: Packet, ps: seq<Packet>)
    requires Divided(orig) && Mixed(orig, ps)
    ensures AllWellFormed(ps) && |ps| > 0 && (|ps| > 1 ==> Mixed(orig, ps[..|ps| - 1]))
  {
  }

  /** One more packet, taken or not. */
  lemma NextIsAccounted(overlay: Overlay, s: State, orig: Packet, c: set<nat>, n: nat, p: Packet, junk: Slack)
    requires Divided(orig) && Accounted(s, orig, c, n) && (Sent(orig, p) || Foreign(orig, p)) && WellFormed(p)
    ensures |s.hdr| >= HEADER_PIECES * PIECE_LEN
    ensures var (r, taken) := (Step(overlay, s, p, junk), Takes(overlay, s, p, junk));
      var c' := if taken then c + BytesOf(p) else c;
      var n' := if taken then n + (To(p) - From(p)) else n;
      && From(p) <= To(p) && (taken ==> Sent(orig, p))
      && (PutOut(r.verdict) <==> taken && Wrap32(n') == |orig.payload|)
      && (taken && !PutOut(r.verdict) ==> r.verdict == Again)
      && (r.verdict == Undefined ==> !junk.room)
      && (!PutOut(r.verdict) && r.verdict != Undefined ==> Accounted(r.state, orig, c', n'))
      && (PutOut(r.verdict) ==>
            && (r.verdict == Merged(orig.data, orig.hdr, Cells(orig.payload)) <==> c' == Everything(orig))
            && (r.verdict.Merged? <==> 0 in c') && HasHoles(r.verdict.payload, orig, c'))
  {
    hide HasHoles, Step, Sent, Everything, Cells, Finish, Wrap32, Takes;
    OthersLeaveNoTrace(overlay, s, orig, c, n, p, junk);
    if Takes(overlay, s, p, junk) {
      SentIsWellFormed(orig, p);
      var ranges := TakenIsPlacedAt(overlay, s, orig, p, junk);
      PlacedIsAccounted(s, orig, c, n, p, ranges);
      OutIsRight(Placed(Sized(Informed(s, p), SeriesOf(p.data).total), p, ranges), orig, c + BytesOf(p),
                 n + (To(p) - From(p)));
    }
  }

  lemma {:induction false} RunIsAccounted(overlay: Overlay, s: State, orig: Packet, ps: seq<Packet>, junk: nat -> Slack)
    requires Divided(orig) && Mixed(orig, ps) && !s.active && |s.hdr| >= HEADER_PIECES * PIECE_LEN && AllWellFormed(ps)
    requires Quiet(overlay, s, ps, junk)
    ensures var ts := Taken(overlay, s, ps, junk);
      Accounted(After(overlay, s, ps, junk).state, orig, AllBytes(ts), Count(ts)) && forall t :: t in ts ==> Sent(orig, t)
  {
    hide Sent, Accounted, Foreign, Step, Takes, PutOut, AllBytes, Count, Taken, After;
    MixedAreWellFormed(orig, ps);
    var front, p := ps[..|ps| - 1], ps[|ps| - 1];
    var ts := Taken(overlay, s, front, junk);
    if |ps| == 1 {
      assert [] + [p] == ps;
      NothingTaken(overlay, s, junk);
      RunSteps(overlay, s, [], p, junk);
      FirstIsAccounted(overlay, s, orig, p, junk(1));
      SentIsWellFormed(orig, p);
      OneTaken(p);
    } else {
      RunIsAccounted(overlay, s, orig, front, junk);
      NextIsAccounted(overlay, After(overlay, s, front, junk).state, orig, AllBytes(ts), Count(ts), p, junk(|ps|));
      OneMoreTaken(ts, p);
      assert front + [p] == ps;
      RunSteps(overlay, s, front, p, junk);
    }
  }

  lemma NothingTaken(overlay: Overlay, s: State, junk: nat -> Slack)
    requires |s.hdr| >= HEADER_PIECES * PIECE_LEN
    ensures Taken(overlay, s, [], junk) == [] && After(overlay, s, [], junk) == Result(Again, s)
  {
  }

  lemma RunSteps(overlay: Overlay, s: State, ps: seq<Packet>, p: Packet, junk: nat -> Slack)
    requires |s.hdr| >= HEADER_PIECES * PIECE_LEN && AllWellFormed(ps) && WellFormed(p)
    ensures AllWellFormed(ps + [p])
    ensures var (before, ts) := (After(overlay, s, ps, junk).state, Taken(overlay, s, ps, junk));
      && After(overlay, s, ps + [p], junk) == Step(overlay, before, p, junk(|ps| + 1))
      && Taken(overlay, s, ps + [p], junk) == if Takes(overlay, before, p, junk(|ps| + 1)) then ts + [p] else ts
  {
    hide Step, Takes, WellFormed;
    var all := ps + [p];
    assert all[..|all| - 1] == ps && all[|all| - 1] == p;
  }

  lemma OneTaken(p: Packet)
    requires From(p) <= To(p)
    ensures AllBytes([p]) == BytesOf(p) && Count([p]) == To(p) - From(p)
  {
  }

  lemma OneMoreTaken(ts: seq<Packet>, p: Packet)
    requires From(p) <= To(p)
    ensures AllBytes(ts + [p]) == AllBytes(ts) + BytesOf(p) && Count(ts + [p]) == Count(ts) + (To(p) - From(p))
  {
    assert (ts + [p])[..|ts|] == ts;
  }

  lemma SentAreNotEmpty(orig: Packet, ts: seq<Packet>)
    requires Divided(orig) && forall t :: t in ts ==> Sent(orig, t)
    ensures NoneEmpty(ts)
  {
    forall i | 0 <= i < |ts|
      ensures From(ts[i]) < To(ts[i])
    {
      SentIsWellFormed(orig, ts[i]);
    }
  }

  lemma {:induction false} SentAreWithin(orig: Packet, ts: seq<Packet>)
    requires Divided(orig) && forall t :: t in ts ==> Sent(orig, t)
    ensures AllBytes(ts) <= Everything(orig)
  {
    if ts != [] {
      SentAreWithin(orig, ts[..|ts| - 1]);
      SentIsWellFormed(orig, ts[|ts| - 1]);
    }
  }

  /** Whatever the order, the gaps and the repeats: the first payload that is put out is the one that was sent, header
      included, if and only if no byte of it was taken twice. It is put out when the bytes taken are as many as it has.
      (Beyond 2^32 bytes taken the count of the merger wraps around.) */
  lemma RightIffApart(overlay: Overlay, s: State, orig: Packet, ps: seq<Packet>, p: Packet, junk: nat -> Slack)
    requires Divided(orig) && Mixed(orig, ps) && Mixed(orig, ps + [p]) && !s.active
    requires |s.hdr| >= HEADER_PIECES * PIECE_LEN
    requires AllWellFormed(ps) && Quiet(overlay, s, ps, junk)
    ensures AllWellFormed(ps + [p])
    ensures var (r, ts) := (After(overlay, s, ps + [p], junk), Taken(overlay, s, ps + [p], junk));
      Count(ts) <= UINT32_MAX ==>
        && (PutOut(r.verdict) <==> Taken(overlay, s, ps, junk) != ts && Count(ts) == |orig.payload|)
        && (PutOut(r.verdict) ==> (r.verdict == Merged(orig.data, orig.hdr, Cells(orig.payload)) <==> Apart(ts)))
  {
    hide Sent, Accounted, Foreign, Step, Takes, PutOut, Cells, Mixed, Quiet, AllBytes, Count, Taken, After, Apart,
      Everything;
    MixedAreWellFormed(orig, ps + [p]);
    RunIsAccounted(overlay, s, orig, ps, junk);
    LastOfMixed(orig, ps, p);
    RunSteps(overlay, s, ps, p, junk);
    var before, all := Taken(overlay, s, ps, junk), Taken(overlay, s, ps + [p], junk);
    NextIsAccounted(overlay, After(overlay, s, ps, junk).state, orig, AllBytes(before), Count(before), p,
                    junk(|ps| + 1));
    if Takes(overlay, After(overlay, s, ps, junk).state, p, junk(|ps| + 1)) {
      OneMoreTaken(before, p);
      SentIsApart(orig, all);
    }
  }

  lemma SentIsApart(orig: Packet, ts: seq<Packet>)
    requires Divided(orig) && forall t :: t in ts ==> Sent(orig, t)
    ensures Count(ts) <= UINT32_MAX ==> Wrap32(Count(ts)) == Count(ts)
    ensures Count(ts) == |orig.payload| ==> (AllBytes(ts) == Everything(orig) <==> Apart(ts))
  {
    hide Sent, Apart, AllBytes, Count, Everything;
    SentAreNotEmpty(orig, ts);
    SentAreWithin(orig, ts);
    CountsBytes(ts);
    EverythingCounted(orig, AllBytes(ts));
  }

  lemma LastOfMixed(orig: Packet, ps: seq<Packet>, p: Packet)
    requires Divided(orig) && Mixed(orig, ps + [p])
    ensures WellFormed(p) && (Sent(orig, p) || Foreign(orig, p))
  {
    assert (ps + [p])[|ps|] == p;
  }

  lemma EverythingCounted(orig: Packet, c: set<nat>)
    requires c <= Everything(orig)
    ensures c == Everything(orig) <==> |c| == |orig.payload|
  {
    SpanSize(0, |orig.payload|);
    SubsetSize(c, Everything(orig));
  }

  /** Pieces of which no byte is sent twice, in whatever order and with whatever gaps, never make the merger put out
      anything but the payload: a condition on what is received, before it is. */
  ghost predicate SentOnce(orig: Packet, ps: seq<Packet>)
    requires Divided(orig)
  {
    forall i, j :: 0 <= i < j < |ps| && Sent(orig, ps[i]) && Sent(orig, ps[j]) ==> Disjoint(ps[i], ps[j])
  }

  lemma OnceIsRight(overlay: Overlay, s: State, orig: Packet, ps: seq<Packet>, p: Packet, junk: nat -> Slack)
    requires Divided(orig) && Mixed(orig, ps) && Mixed(orig, ps + [p]) && SentOnce(orig, ps + [p])
    requires !s.active && |s.hdr| >= HEADER_PIECES * PIECE_LEN && AllWellFormed(ps) && Quiet(overlay, s, ps, junk)
    ensures AllWellFormed(ps + [p])
    ensures var v := After(overlay, s, ps + [p], junk).verdict;
      PutOut(v) ==> v == Merged(orig.data, orig.hdr, Cells(orig.payload))
  {
    hide Sent, Accounted, Foreign, Step, Takes, PutOut, Cells, Mixed, Quiet, AllBytes, Count, Taken, After, Apart,
      Everything, SentOnce;
    RightIffApart(overlay, s, orig, ps, p, junk);
    RunIsAccounted(overlay, s, orig, ps, junk);
    var all := Taken(overlay, s, ps + [p], junk);
    TakenComeFrom(overlay, s, orig, ps, junk);
    LastOfMixed(orig, ps, p);
    RunSteps(overlay, s, ps, p, junk);
    NextIsAccounted(overlay, After(overlay, s, ps, junk).state, orig, AllBytes(Taken(overlay, s, ps, junk)),
                    Count(Taken(overlay, s, ps, junk)), p, junk(|ps| + 1));
    assert forall t :: t in all ==> Sent(orig, t);
    OnceIsApart(overlay, s, orig, ps, p, junk);
    SentAreNotEmpty(orig, all);
    CountsBytes(all);
    SentAreWithin(orig, all);
    SpanSize(0, |orig.payload|);
    EverythingFits(orig, AllBytes(all));
  }

  lemma EverythingFits(orig: Packet, c: set<nat>)
    requires c <= Everything(orig)
    ensures |c| <= |orig.payload|
  {
    SpanSize(0, |orig.payload|);
    SubsetSize(c, Everything(orig));
  }

  lemma {:induction false} TakenComeFrom(overlay: Overlay, s: State, orig: Packet, ps: seq<Packet>, junk: nat -> Slack)
    requires Divided(orig) && |s.hdr| >= HEADER_PIECES * PIECE_LEN && AllWellFormed(ps)
    ensures forall t :: t in Taken(overlay, s, ps, junk) ==> t in ps
  {
    hide Takes, WellFormed, After;
    if ps != [] { TakenComeFrom(overlay, s, orig, ps[..|ps| - 1], junk); }
  }

  /** What is taken of such pieces is apart. */
  lemma {:induction false} OnceIsApart(overlay: Overlay, s: State, orig: Packet, ps: seq<Packet>, p: Packet,
                                       junk: nat -> Slack)
    requires Divided(orig) && |s.hdr| >= HEADER_PIECES * PIECE_LEN && AllWellFormed(ps + [p])
    requires SentOnce(orig, ps + [p])
    requires AllWellFormed(ps) && forall t :: t in Taken(overlay, s, ps + [p], junk) ==> Sent(orig, t)
    ensures Apart(Taken(overlay, s, ps + [p], junk))
    decreases |ps|
  {
    hide Takes, After, Taken, Sent;
    var all := ps + [p];
    assert WellFormed(p) by { assert all[|ps|] == p; }
    RunSteps(overlay, s, ps, p, junk);
    var ts := Taken(overlay, s, ps, junk);
    if ps == [] {
      NothingTaken(overlay, s, junk);
    } else {
      var front, q := ps[..|ps| - 1], ps[|ps| - 1];
      assert front + [q] == ps;
      assert forall t :: t in ts ==> t in Taken(overlay, s, all, junk);
      OncePrefix(orig, ps, p);
      OnceIsApart(overlay, s, orig, front, q, junk);
    }
    if Taken(overlay, s, all, junk) == ts + [p] {
      assert p in Taken(overlay, s, all, junk);
      TakenComeFrom(overlay, s, orig, ps, junk);
      forall k | 0 <= k < |ts|
        ensures Disjoint(ts[k], p)
      {
        assert ts[k] in Taken(overlay, s, all, junk);
        var a :| 0 <= a < |ps| && ps[a] == ts[k];
        assert all[a] == ts[k] && all[|ps|] == p;
      }
      ApartMore(ts, p);
    }
  }

  lemma OncePrefix(orig: Packet, ps: seq<Packet>, p: Packet)
    requires Divided(orig) && SentOnce(orig, ps + [p]) && AllWellFormed(ps)
    ensures SentOnce(orig, ps)
    ensures ps != [] ==> AllWellFormed(ps[..|ps| - 1])
  {
    hide Sent, Disjoint;
    assert forall i :: 0 <= i < |ps| ==> (ps + [p])[i] == ps[i];
  }
}
