/** One file position made to look like a reading and a writing one (io_template.c over io_file.c). */
module FileCursors {
  import opened FixedWidth
  import opened Packets

  /** Writing at a position inside the file replaces what is there and grows the file at its end. */
  function Splice(content: Bytes, at: nat, bs: Bytes): Bytes
    requires at <= |content|
  {
    content[..at] + bs + (if at + |bs| <= |content| then content[at + |bs|..] else [])
  }

  function Wire(p: Packet): Bytes { p.hdr + p.payload }

  function WireAll(ps: seq<Packet>): Bytes {
    if ps == [] then [] else WireAll(ps[..|ps| - 1]) + Wire(ps[|ps| - 1])
  }

  lemma SpliceJoins(content: Bytes, at: nat, a: Bytes, b: Bytes)
    requires at <= |content|
    ensures Splice(Splice(content, at, a), at + |a|, b) == Splice(content, at, a + b)
  {
  }

  lemma SpliceNothing(content: Bytes, at: nat)
    requires at <= |content|
    ensures Splice(content, at, []) == content
  {
  }

  /** A write leaves alone what it does not overlap. */
  lemma SpliceElsewhere(content: Bytes, at: nat, bs: Bytes, from: nat, to: nat)
    requires at <= |content| && from <= to <= |content| && (to <= at || at + |bs| <= from)
    ensures to <= |Splice(content, at, bs)| && Splice(content, at, bs)[from..to] == content[from..to]
  {
  }

  /** The file as its user should see it: bytes, a place to read from and a place to write to. */
  datatype TwoCursors = TwoCursors(content: Bytes, rpos: nat, wpos: nat)
  {
    predicate Valid() { wpos <= |content| }
  }

  datatype Op =
    | Seek(at: nat)
    | Read(length: nat)
    | WritePkt(p: Packet)
    | WriteVec(ps: seq<Packet>)
    | Rewrite(p: Packet, at: nat)

  datatype Reply = Offset(at: nat) | Data(at: nat, bytes: Bytes) | EndOfFile

  datatype Outcome = Outcome(after: TwoCursors, reply: Reply)

  /** What each operation does to such a file when nothing fails. Reading and writing return the position
      before them. */
  function Apply(f: TwoCursors, op: Op): Outcome
    requires f.Valid()
  {
    match op
    case Seek(at) => Outcome(f.(rpos := at), Offset(at))
    case Read(length) =>
      var bs := if f.rpos <= |f.content| then f.content[f.rpos..Min(f.rpos + length, |f.content|)] else [];
      Outcome(f.(rpos := f.rpos + |bs|), Data(f.rpos, bs))
    case WritePkt(p) =>
      Outcome(f.(content := Splice(f.content, f.wpos, Wire(p)), wpos := f.wpos + |Wire(p)|), Offset(f.wpos))
    case WriteVec(ps) =>
      Outcome(f.(content := Splice(f.content, f.wpos, WireAll(ps)), wpos := f.wpos + |WireAll(ps)|), Offset(f.wpos))
    case Rewrite(p, at) =>
      if at > f.wpos then Outcome(f, EndOfFile)
      else Outcome(f.(content := Splice(f.content, at, Wire(p))), Offset(at + |Wire(p)|))
  }

  /** AVTIOCtx with the file behind it. */
  class Io {
    var content: Bytes
    var pos: nat
    var rpos: nat
    var wpos: nat
    var isWrite: bool

    /** There is only one position, and it is the one last used. */
    predicate Valid()
      reads this
    {
      pos == (if isWrite then wpos else rpos) && wpos <= |content|
    }

    function View(): TwoCursors
      reads this
    {
      TwoCursors(content, rpos, wpos)
    }

    constructor ()
      ensures Valid() && View() == TwoCursors([], 0, 0)
    {
      content, pos, rpos, wpos, isWrite := [], 0, 0, 0, false;
    }

    // The file itself: fseeko, fread and fwrite.

    method SeekTo(at: nat)
      modifies this`pos
      ensures pos == at
    {
      pos := at;
    }

    method ReadFile(length: nat) returns (bs: Bytes)
      modifies this`pos
      ensures bs == if old(pos) <= |content| then content[old(pos)..Min(old(pos) + length, |content|)] else []
      ensures pos == old(pos) + |bs|
    {
      bs := if pos <= |content| then content[pos..Min(pos + length, |content|)] else [];
      pos := pos + |bs|;
    }

    method WriteFile(bs: Bytes)
      requires pos <= |content|
      modifies this`pos, this`content
      ensures content == Splice(old(content), old(pos), bs) && pos == old(pos) + |bs| <= |content|
    {
      content := Splice(content, pos, bs);
      pos := pos + |bs|;
    }

    // The template.

    method Seek(at: nat) returns (reply: Reply)
      requires Valid()
      modifies this
      ensures Valid() && Outcome(View(), reply) == Apply(old(View()), Op.Seek(at))
    {
      SeekTo(at);
      isWrite := false;
      rpos := at;
      reply := Offset(rpos);
    }

    method ReadInput(length: nat) returns (reply: Reply)
      requires Valid()
      modifies this
      ensures Valid() && Outcome(View(), reply) == Apply(old(View()), Read(length))
    {
      if isWrite {
        SeekTo(rpos);
        isWrite := false;
      }
      var bs := ReadFile(length);
      var ret := rpos + |bs|;
      rpos, ret := ret, rpos;
      reply := Data(ret, bs);
    }

    method StartWriting()
      requires Valid()
      modifies this`pos, this`isWrite
      ensures isWrite && pos == wpos
    {
      if !isWrite {
        SeekTo(wpos);
        isWrite := true;
      }
    }

    method PutPacket(p: Packet)
      requires pos <= |content|
      modifies this`pos, this`content
      ensures content == Splice(old(content), old(pos), Wire(p)) && pos == old(pos) + |Wire(p)| <= |content|
    {
      WriteFile(p.hdr);
      WriteFile(p.payload);
      SpliceJoins(old(content), old(pos), p.hdr, p.payload);
    }

    method WritePacket(p: Packet) returns (reply: Reply)
      requires Valid()
      modifies this
      ensures Valid() && Outcome(View(), reply) == Apply(old(View()), WritePkt(p))
    {
      StartWriting();
      PutPacket(p);
      var ret := wpos + |p.hdr| + |p.payload|;
      wpos, ret := ret, wpos;
      reply := Offset(ret);
    }

    method WriteVector(ps: seq<Packet>) returns (reply: Reply)
      requires Valid()
      modifies this
      ensures Valid() && Outcome(View(), reply) == Apply(old(View()), WriteVec(ps))
    {
      hide Splice, Wire;
      SpliceNothing(content, wpos);
      StartWriting();
      for i := 0 to |ps|
        invariant isWrite && wpos == old(wpos) <= old(|content|) && rpos == old(rpos)
        invariant content == Splice(old(content), wpos, WireAll(ps[..i]))
        invariant pos == wpos + |WireAll(ps[..i])| <= |content|
      {
        PutPacket(ps[i]);
        assert ps[..i + 1][..i] == ps[..i];
        SpliceJoins(old(content), wpos, WireAll(ps[..i]), Wire(ps[i]));
      }
      assert ps[..|ps|] == ps;
      var out := pos;
      wpos, out := out, wpos;
      reply := Offset(out);
    }

    method RewritePacket(p: Packet, at: nat) returns (reply: Reply)
      requires Valid()
      modifies this
      ensures Valid() && Outcome(View(), reply) == Apply(old(View()), Rewrite(p, at))
    {
      var backup := if isWrite then wpos else rpos;
      if at > wpos {
        return EndOfFile;
      }
      if backup != at {
        SeekTo(at);
      }
      PutPacket(p);
      var off := at + |p.hdr| + |p.payload|;
      SeekTo(backup);
      reply := Offset(off);
    }
  }

  /** A run of operations. */
  function Run(f: TwoCursors, ops: seq<Op>): (r: TwoCursors)
    requires f.Valid()
    ensures r.Valid() && r.wpos >= f.wpos
  {
    if ops == [] then f else Apply(Run(f, ops[..|ops| - 1]), ops[|ops| - 1]).after
  }

  /** No rewrite touches the bytes from `from` to `to`. */
  ghost predicate Spared(ops: seq<Op>, from: nat, to: nat) {
    forall op :: op in ops && op.Rewrite? ==> to <= op.at || op.at + |Wire(op.p)| <= from
  }

  /** Bytes before the writing position stay as they are until they are rewritten, whatever else happens. */
  lemma {:induction false} WrittenBytesStay(f: TwoCursors, ops: seq<Op>, from: nat, to: nat)
    requires f.Valid() && from <= to <= f.wpos && Spared(ops, from, to)
    ensures Run(f, ops).content[from..to] == f.content[from..to]
  {
    if ops != [] {
      var g, op := Run(f, ops[..|ops| - 1]), ops[|ops| - 1];
      WrittenBytesStay(f, ops[..|ops| - 1], from, to);
      match op
      case Seek(_) =>
      case Read(_) =>
      case WritePkt(p) => SpliceElsewhere(g.content, g.wpos, Wire(p), from, to);
      case WriteVec(ps) => SpliceElsewhere(g.content, g.wpos, WireAll(ps), from, to);
      case Rewrite(p, at) => if at <= g.wpos { SpliceElsewhere(g.content, at, Wire(p), from, to); }
    }
  }

  /** Reading back at the offset that a write returned gives the packet, after any operations that do not rewrite it. */
  lemma ReadBack(f: TwoCursors, p: Packet, ops: seq<Op>)
    requires f.Valid()
    requires Apply(f, WritePkt(p)).reply.Offset?
    requires Spared(ops, Apply(f, WritePkt(p)).reply.at, Apply(f, WritePkt(p)).reply.at + |Wire(p)|)
    ensures var at := Apply(f, WritePkt(p)).reply.at;
      var g := Run(Apply(f, WritePkt(p)).after, ops);
      Apply(Apply(g, Seek(at)).after, Read(|Wire(p)|)).reply == Data(at, Wire(p))
  {
    var g := Apply(f, WritePkt(p)).after;
    WrittenBytesStay(g, ops, f.wpos, g.wpos);
    assert g.content[f.wpos..g.wpos] == Wire(p);
  }

  /** A reader finds the header first and then the payload. */
  lemma HeaderThenPayload(f: TwoCursors, p: Packet, ops: seq<Op>)
    requires f.Valid() && Apply(f, WritePkt(p)).reply.Offset?
    requires Spared(ops, Apply(f, WritePkt(p)).reply.at, Apply(f, WritePkt(p)).reply.at + |p.hdr| + |p.payload|)
    ensures var at := Apply(f, WritePkt(p)).reply.at;
      var g := Apply(Run(Apply(f, WritePkt(p)).after, ops), Seek(at)).after;
      var (one, two) := (Apply(g, Read(|p.hdr|)), Apply(Apply(g, Read(|p.hdr|)).after, Read(|p.payload|)));
      one.reply == Data(at, p.hdr) && two.reply == Data(at + |p.hdr|, p.payload)
  {
    var at := f.wpos;
    var g := Apply(Run(Apply(f, WritePkt(p)).after, ops), Seek(at)).after;
    ReadBack(f, p, ops);
    ReadsJoin(g, |p.hdr|, |p.payload|);
    ReadIsFull(g, |Wire(p)|);
    ReadIsFull(g, |p.hdr|);
    assert p.hdr == Wire(p)[..|p.hdr|] && p.payload == Wire(p)[|p.hdr|..];
  }

  /** And after a rewrite in place it gives the new packet, while every byte outside is as before. */
  lemma RewriteBack(f: TwoCursors, p: Packet, at: nat, ops: seq<Op>)
    requires f.Valid() && at + |Wire(p)| <= f.wpos && Spared(ops, at, at + |Wire(p)|)
    ensures var g := Apply(f, Rewrite(p, at)).after;
      && Apply(Apply(Run(g, ops), Seek(at)).after, Read(|Wire(p)|)).reply == Data(at, Wire(p))
      && |g.content| == |f.content| && g.content[..at] == f.content[..at]
      && g.content[at + |Wire(p)|..] == f.content[at + |Wire(p)|..]
  {
    var g := Apply(f, Rewrite(p, at)).after;
    WrittenBytesStay(g, ops, at, at + |Wire(p)|);
    assert g.content[at..at + |Wire(p)|] == Wire(p);
  }

  // The reading position.

  /** Two reads in a row give what one read of both lengths gives, and leave the file where that does. */
  lemma ReadsJoin(f: TwoCursors, m: nat, n: nat)
    requires f.Valid()
    ensures var (one, all) := (Apply(f, Read(m)), Apply(f, Read(m + n)));
      var two := Apply(one.after, Read(n));
      && one.reply.Data? && two.reply.Data? && all.reply.Data?
      && one.reply.bytes + two.reply.bytes == all.reply.bytes && two.after == all.after
      && one.reply.at == all.reply.at && two.reply.at == one.reply.at + |one.reply.bytes|
  {
  }

  /** A read gives all of the bytes that were asked for, if the file has them, and else those that it has. */
  lemma ReadIsFull(f: TwoCursors, length: nat)
    requires f.Valid()
    ensures var r := Apply(f, Read(length)).reply;
      && r.Data? && r.at == f.rpos && |r.bytes| <= length && Apply(f, Read(length)).after.content == f.content
      && (f.rpos + length <= |f.content| ==> r.bytes == f.content[f.rpos..f.rpos + length])
      && (|r.bytes| < length ==> f.rpos + |r.bytes| >= |f.content|)
  {
  }

  /** Reading starts where the last seek went, or the last read ended, whatever was written in between. */
  lemma {:induction false} ReadingGoesOn(f: TwoCursors, ops: seq<Op>, length: nat)
    requires f.Valid() && forall op :: op in ops ==> !op.Seek? && !op.Read?
    ensures Run(f, ops).rpos == f.rpos && Apply(Run(f, ops), Read(length)).reply.at == f.rpos
  {
    if ops != [] { ReadingGoesOn(f, ops[..|ops| - 1], length); }
  }

  /** And writing where the last write ended, whatever was read and rewritten in between. */
  lemma {:induction false} WritingGoesOn(f: TwoCursors, ops: seq<Op>, p: Packet)
    requires f.Valid() && forall op :: op in ops ==> !op.WritePkt? && !op.WriteVec?
    ensures Run(f, ops).wpos == f.wpos && Apply(Run(f, ops), WritePkt(p)).reply == Offset(f.wpos)
  {
    if ops != [] { WritingGoesOn(f, ops[..|ops| - 1], p); }
  }

  lemma SeekGoesThere(f: TwoCursors, at: nat)
    requires f.Valid()
    ensures Apply(f, Seek(at)).reply == Offset(at) && Apply(f, Seek(at)).after == TwoCursors(f.content, at, f.wpos)
  {
  }

  /** Reading at the offset that a vector write returned gives all of its packets, after any operations that do not
      rewrite them. */
  lemma VectorReadBack(f: TwoCursors, ps: seq<Packet>, ops: seq<Op>)
    requires f.Valid() && Apply(f, WriteVec(ps)).reply.Offset?
    requires Spared(ops, Apply(f, WriteVec(ps)).reply.at, Apply(f, WriteVec(ps)).reply.at + |WireAll(ps)|)
    ensures var at := Apply(f, WriteVec(ps)).reply.at;
      var g := Run(Apply(f, WriteVec(ps)).after, ops);
      Apply(Apply(g, Seek(at)).after, Read(|WireAll(ps)|)).reply == Data(at, WireAll(ps))
  {
    var g := Apply(f, WriteVec(ps)).after;
    WrittenBytesStay(g, ops, f.wpos, g.wpos);
    assert g.content[f.wpos..g.wpos] == WireAll(ps);
  }

  /** A rewrite is refused, and does nothing, exactly when it would leave a hole. Otherwise it returns where it ended:
      a second one from there is like a single one of both packets' bytes. */
  lemma RewriteGoesOn(f: TwoCursors, p: Packet, q: Packet, at: nat)
    requires f.Valid()
    ensures Apply(f, Rewrite(p, at)).reply == EndOfFile <==> at > f.wpos
    ensures at > f.wpos ==> Apply(f, Rewrite(p, at)).after == f
    ensures at <= f.wpos ==>
      var one := Apply(f, Rewrite(p, at));
      && one.reply.Offset? && one.after.rpos == f.rpos && one.after.wpos == f.wpos
      && (one.reply.at <= f.wpos ==>
            Apply(one.after, Rewrite(q, one.reply.at)).after.content == Splice(f.content, at, Wire(p) + Wire(q)))
  {
    if at <= f.wpos { SpliceJoins(f.content, at, Wire(p), Wire(q)); }
  }

  function Writes(ps: seq<Packet>): seq<Op> {
    if ps == [] then [] else Writes(ps[..|ps| - 1]) + [WritePkt(ps[|ps| - 1])]
  }

  /** Writing several packets at once is writing them one after the other. */
  lemma {:induction false} VectorIsPackets(f: TwoCursors, ps: seq<Packet>)
    requires f.Valid()
    ensures Apply(f, WriteVec(ps)).after == Run(f, Writes(ps))
  {
    hide Splice, Wire;
    if ps == [] {
      SpliceNothing(f.content, f.wpos);
    } else {
      var front, p := ps[..|ps| - 1], ps[|ps| - 1];
      VectorIsPackets(f, front);
      SpliceJoins(f.content, f.wpos, WireAll(front), Wire(p));
      assert Writes(ps)[..|Writes(ps)| - 1] == Writes(front);
    }
  }
}
