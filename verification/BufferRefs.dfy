/** Reference-counted buffers as the atomic steps that threads interleave (buffer.h, buffer.c). */
module BufferRefs {

  type Id = nat

  /** What a handle (AVTBuffer) is in the middle of. Taking has counted itself in avt_buffer_quick_ref and has yet to
      copy `src`; Dropping has counted itself out in avt_buffer_quick_unref, and has yet to free the buffer if it was
      the last one, and to clear itself. */
  datatype Handle =
    | Empty
    | Live(buf: Id)
    | Taking(buf: Id, src: nat)
    | Dropping(buf: Id, last: bool)

  /** The counter of a buffer, and how often its free callback has run. */
  datatype Buffer = Buffer(count: int, freed: nat)

  datatype Pool = Pool(handles: map<nat, Handle>, buffers: map<Id, Buffer>)

  datatype Step =
    | Create(h: nat, buf: Id)
    | Sub(h: nat)
    | Free(h: nat)
    | Clear(h: nat)
    | Add(dst: nat, src: nat)
    | Copy(dst: nat)

  /** Which step may come next. Beyond what the code tests, a caller owes two things: a handle is not released during a
      call that copies it, and a call that copies has two different handles. */
  ghost predicate Enabled(p: Pool, step: Step) {
    match step
    case Create(h, buf) => h in p.handles && p.handles[h] == Empty && buf !in p.buffers
    case Sub(h) => h in p.handles && p.handles[h].Live? && p.handles[h].buf in p.buffers && !Copied(p, h)
    case Free(h) => h in p.handles && p.handles[h].Dropping? && p.handles[h].last && p.handles[h].buf in p.buffers
    case Clear(h) => h in p.handles && p.handles[h].Dropping? && !p.handles[h].last
    case Add(dst, src) =>
      && dst in p.handles && src in p.handles && dst != src
      && p.handles[dst] == Empty && p.handles[src].Live? && p.handles[src].buf in p.buffers
    case Copy(dst) => dst in p.handles && p.handles[dst].Taking? && p.handles[dst].src in p.handles
  }

  ghost predicate Copied(p: Pool, h: nat) {
    exists d :: d in p.handles && p.handles[d].Taking? && p.handles[d].src == h
  }

  ghost function Next(p: Pool, step: Step): Pool
    requires Enabled(p, step)
  {
    match step
    case Create(h, buf) => Pool(p.handles[h := Live(buf)], p.buffers[buf := Buffer(1, 0)])
    case Sub(h) =>
      var buf := p.handles[h].buf;
      var old_ := p.buffers[buf].count;
      Pool(p.handles[h := Dropping(buf, old_ <= 1)], p.buffers[buf := p.buffers[buf].(count := old_ - 1)])
    case Free(h) =>
      var buf := p.handles[h].buf;
      Pool(p.handles[h := Dropping(buf, false)], p.buffers[buf := p.buffers[buf].(freed := p.buffers[buf].freed + 1)])
    case Clear(h) => p.(handles := p.handles[h := Empty])
    case Add(dst, src) =>
      var buf := p.handles[src].buf;
      Pool(p.handles[dst := Taking(buf, src)], p.buffers[buf := p.buffers[buf].(count := p.buffers[buf].count + 1)])
    case Copy(dst) => p.(handles := p.handles[dst := p.handles[p.handles[dst].src]])
  }

  predicate Holds(handle: Handle, buf: Id) { (handle.Live? || handle.Taking?) && handle.buf == buf }

  predicate Frees(handle: Handle, buf: Id) { handle == Dropping(buf, true) }

  ghost function Holders(p: Pool, buf: Id): set<nat> { set h | h in p.handles && Holds(p.handles[h], buf) }

  ghost function Freeing(p: Pool, buf: Id): set<nat> { set h | h in p.handles && Frees(p.handles[h], buf) }

  /** The counter is the number of handles on the buffer. Once there are none, the callback has run, or one handle is
      about to run it; before that, it has not run and nobody is about to. */
  ghost predicate BufferFine(p: Pool, buf: Id)
    requires buf in p.buffers
  {
    && p.buffers[buf].count == |Holders(p, buf)|
    && p.buffers[buf].freed + |Freeing(p, buf)| == if p.buffers[buf].count == 0 then 1 else 0
  }

  ghost predicate Fine(p: Pool) {
    && (forall buf :: buf in p.buffers ==> BufferFine(p, buf))
    && (forall h :: h in p.handles && p.handles[h] != Empty ==> p.handles[h].buf in p.buffers)
    && (forall h :: h in p.handles && p.handles[h].Taking? ==>
          p.handles[h].src in p.handles && p.handles[p.handles[h].src] == Live(p.handles[h].buf))
  }

  lemma WithoutElement(a: set<nat>, x: nat)
    ensures |a| == |a - {x}| + (if x in a then 1 else 0)
  {
    if x in a { assert a == (a - {x}) + {x}; } else { assert a == a - {x}; }
  }

  lemma OneElementApart(a: set<nat>, b: set<nat>, x: nat)
    requires a - {x} == b - {x}
    ensures |b| == |a| - (if x in a then 1 else 0) + (if x in b then 1 else 0)
  {
    WithoutElement(a, x);
    WithoutElement(b, x);
  }

  /** Changing one handle. */
  lemma HoldersChange(p: Pool, q: Pool, h: nat, handle: Handle, buf: Id)
    requires h in p.handles && q.handles == p.handles[h := handle]
    ensures |Holders(q, buf)| == |Holders(p, buf)| - (if Holds(p.handles[h], buf) then 1 else 0)
                                 + (if Holds(handle, buf) then 1 else 0)
    ensures |Freeing(q, buf)| == |Freeing(p, buf)| - (if Frees(p.handles[h], buf) then 1 else 0)
                                 + (if Frees(handle, buf) then 1 else 0)
  {
    assert Holders(q, buf) - {h} == Holders(p, buf) - {h};
    assert Freeing(q, buf) - {h} == Freeing(p, buf) - {h};
    OneElementApart(Holders(p, buf), Holders(q, buf), h);
    OneElementApart(Freeing(p, buf), Freeing(q, buf), h);
  }

  lemma CreateKeepsFine(p: Pool, h: nat, buf: Id)
    requires Fine(p) && Enabled(p, Create(h, buf))
    ensures Fine(Next(p, Create(h, buf)))
  {
    hide Holders, Freeing;
    var q := Next(p, Create(h, buf));
    NobodyHolds(p, buf);
    forall b | b in q.buffers
      ensures BufferFine(q, b)
    {
      HoldersChange(p, q, h, q.handles[h], b);
      if b != buf { assert BufferFine(p, b); }
    }
  }

  lemma NobodyHolds(p: Pool, buf: Id)
    requires Fine(p) && buf !in p.buffers
    ensures Holders(p, buf) == {} && Freeing(p, buf) == {}
  {
  }

  lemma HoldersCount(p: Pool, h: nat, buf: Id)
    requires h in p.handles
    ensures Holds(p.handles[h], buf) ==> |Holders(p, buf)| > 0
    ensures Frees(p.handles[h], buf) ==> |Freeing(p, buf)| > 0
  {
    if Holds(p.handles[h], buf) { assert h in Holders(p, buf); }
    if Frees(p.handles[h], buf) { assert h in Freeing(p, buf); }
  }

  lemma SubKeepsFine(p: Pool, h: nat)
    requires Fine(p) && Enabled(p, Sub(h))
    ensures Fine(Next(p, Sub(h)))
  {
    hide Holders, Freeing;
    var q := Next(p, Sub(h));
    forall b | b in q.buffers
      ensures BufferFine(q, b)
    {
      HoldersChange(p, q, h, q.handles[h], b);
      assert BufferFine(p, b);
      HoldersCount(p, h, b);
    }
  }

  lemma FreeKeepsFine(p: Pool, h: nat)
    requires Fine(p) && Enabled(p, Free(h))
    ensures Fine(Next(p, Free(h)))
  {
    hide Holders, Freeing;
    var q := Next(p, Free(h));
    forall b | b in q.buffers
      ensures BufferFine(q, b)
    {
      HoldersChange(p, q, h, q.handles[h], b);
      assert BufferFine(p, b);
      HoldersCount(p, h, b);
    }
  }

  lemma ClearKeepsFine(p: Pool, h: nat)
    requires Fine(p) && Enabled(p, Clear(h))
    ensures Fine(Next(p, Clear(h)))
  {
    hide Holders, Freeing;
    var q := Next(p, Clear(h));
    forall b | b in q.buffers
      ensures BufferFine(q, b)
    {
      HoldersChange(p, q, h, q.handles[h], b);
      assert BufferFine(p, b);
    }
  }

  lemma AddKeepsFine(p: Pool, dst: nat, src: nat)
    requires Fine(p) && Enabled(p, Add(dst, src))
    ensures Fine(Next(p, Add(dst, src)))
  {
    hide Holders, Freeing;
    var q := Next(p, Add(dst, src));
    forall b | b in q.buffers
      ensures BufferFine(q, b)
    {
      HoldersChange(p, q, dst, q.handles[dst], b);
      assert BufferFine(p, b);
      HoldersCount(p, src, b);
    }
  }

  lemma CopyKeepsFine(p: Pool, dst: nat)
    requires Fine(p) && Enabled(p, Copy(dst))
    ensures Fine(Next(p, Copy(dst)))
  {
    hide Holders, Freeing;
    var q := Next(p, Copy(dst));
    forall b | b in q.buffers
      ensures BufferFine(q, b)
    {
      HoldersChange(p, q, dst, q.handles[dst], b);
      assert BufferFine(p, b);
    }
  }

  lemma StepKeepsFine(p: Pool, step: Step)
    requires Fine(p) && Enabled(p, step)
    ensures Fine(Next(p, step))
  {
    hide Fine, Enabled, Next;
    match step
    case Create(h, buf) => CreateKeepsFine(p, h, buf);
    case Sub(h) => SubKeepsFine(p, h);
    case Free(h) => FreeKeepsFine(p, h);
    case Clear(h) => ClearKeepsFine(p, h);
    case Add(dst, src) => AddKeepsFine(p, dst, src);
    case Copy(dst) => CopyKeepsFine(p, dst);
  }

  /** Handles to begin with are empty, and there are no buffers. */
  ghost predicate Initial(p: Pool) {
    p.buffers == map[] && forall h :: h in p.handles ==> p.handles[h] == Empty
  }

  /** The steps of any number of threads in any order. */
  ghost predicate Leads(p: Pool, steps: seq<Step>, q: Pool)
    decreases |steps|
  {
    if steps == [] then p == q
    else Enabled(p, steps[0]) && Leads(Next(p, steps[0]), steps[1..], q)
  }

  lemma {:induction false} RunKeepsFine(p: Pool, steps: seq<Step>, q: Pool)
    requires Fine(p) && Leads(p, steps, q)
    ensures Fine(q)
    decreases |steps|
  {
    if steps != [] {
      StepKeepsFine(p, steps[0]);
      RunKeepsFine(Next(p, steps[0]), steps[1..], q);
    }
  }

  /** In every interleaving: the counter is the number of handles on the buffer, the callback has run at most once, and
      not while there was a handle on it or a thread that was about to run it. */
  lemma CounterIsExact(p: Pool, steps: seq<Step>, q: Pool, buf: Id)
    requires Initial(p) && Leads(p, steps, q) && buf in q.buffers
    ensures q.buffers[buf].count == |Holders(q, buf)| && q.buffers[buf].freed <= 1 && |Freeing(q, buf)| <= 1
    ensures q.buffers[buf].freed == 1 ==> Holders(q, buf) == {} && Freeing(q, buf) == {}
  {
    RunKeepsFine(p, steps, q);
    assert BufferFine(q, buf);
  }

  /** It is the step that drops the last handle, and no other, after which the callback must run. */
  lemma LastDropFrees(p: Pool, steps: seq<Step>, q: Pool, h: nat)
    requires Initial(p) && Leads(p, steps, q) && Enabled(q, Sub(h))
    ensures var buf := q.handles[h].buf;
      && (Next(q, Sub(h)).handles[h] == Dropping(buf, true) <==> Holders(q, buf) == {h})
      && (Holders(Next(q, Sub(h)), buf) == {} <==> Holders(q, buf) == {h})
  {
    RunKeepsFine(p, steps, q);
    var buf := q.handles[h].buf;
    assert BufferFine(q, buf) && h in Holders(q, buf);
    var r := Next(q, Sub(h));
    assert Holders(r, buf) == Holders(q, buf) - {h};
    assert |Holders(r, buf)| == |Holders(q, buf)| - 1;
  }

  /** Once every thread is done and every handle has been released, each buffer has been freed exactly once. */
  lemma NothingLeaks(p: Pool, steps: seq<Step>, q: Pool, buf: Id)
    requires Initial(p) && Leads(p, steps, q) && buf in q.buffers
    requires forall h :: h in q.handles ==> q.handles[h] == Empty
    ensures q.buffers[buf].freed == 1
  {
    RunKeepsFine(p, steps, q);
    assert BufferFine(q, buf) && Holders(q, buf) == {} && Freeing(q, buf) == {};
  }

  /** A buffer without handles never gets one again. */
  lemma {:induction false} FreedStaysFreed(p: Pool, steps: seq<Step>, q: Pool, buf: Id)
    requires Fine(p) && Leads(p, steps, q) && buf in p.buffers && p.buffers[buf].count == 0
    ensures buf in q.buffers && q.buffers[buf].count == 0
    decreases |steps|
  {
    if steps != [] {
      var r := Next(p, steps[0]);
      StepKeepsFine(p, steps[0]);
      assert BufferFine(p, buf);
      if steps[0].Add? {
        assert BufferFine(p, p.handles[steps[0].src].buf);
        assert steps[0].src in Holders(p, p.handles[steps[0].src].buf);
      }
      if steps[0].Sub? {
        assert BufferFine(p, p.handles[steps[0].h].buf);
        assert steps[0].h in Holders(p, p.handles[steps[0].h].buf);
      }
      FreedStaysFreed(r, steps[1..], q, buf);
    }
  }

  /** A counter of one means that no one else has the buffer: what avt_buffer_resize relies on before it reallocates. */
  lemma OneMeansExclusive(p: Pool, steps: seq<Step>, q: Pool, h: nat, other: nat)
    requires Initial(p) && Leads(p, steps, q) && h in q.handles && other in q.handles && q.handles[h].Live?
    requires q.handles[h].buf in q.buffers && q.buffers[q.handles[h].buf].count == 1
    ensures Holds(q.handles[other], q.handles[h].buf) ==> other == h
  {
    RunKeepsFine(p, steps, q);
    var buf := q.handles[h].buf;
    assert BufferFine(q, buf) && h in Holders(q, buf);
    if Holds(q.handles[other], buf) && other != h {
      assert {h, other} <= Holders(q, buf);
      assert |{h, other}| == 2;
      Subset({h, other}, Holders(q, buf));
    }
  }

  lemma {:induction false} Subset(a: set<nat>, b: set<nat>)
    requires a <= b
    ensures |a| <= |b|
  {
    if a != {} {
      var x :| x in a;
      Subset(a - {x}, b - {x});
    }
  }

  /** No call is under way. */
  ghost predicate Settled(p: Pool) {
    Fine(p) && forall h :: h in p.handles ==> p.handles[h] == Empty || p.handles[h].Live?
  }

  /** Then the handles say everything: how far each counter is and whether its buffer is gone. */
  lemma HandlesSayAll(p: Pool, buf: Id)
    requires Settled(p) && buf in p.buffers
    ensures p.buffers[buf] == Buffer(|Holders(p, buf)|, if Holders(p, buf) == {} then 1 else 0)
  {
    assert BufferFine(p, buf) && Freeing(p, buf) == {};
  }

  /** The calls as their threads make them, one atomic step after the other. */
  class Buffers {
    var handles: map<nat, Handle>
    var buffers: map<Id, Buffer>

    ghost function View(): Pool
      reads this
    {
      Pool(handles, buffers)
    }

    constructor (empty: set<nat>)
      ensures Initial(View()) && Settled(View()) && handles.Keys == empty
    {
      handles, buffers := map h | h in empty :: Empty, map[];
    }

    /** avt_buffer_quick_create */
    method QuickCreate(h: nat, buf: Id)
      requires Settled(View()) && h in handles && handles[h] == Empty && buf !in buffers
      modifies this
      ensures Settled(View()) && handles == old(handles)[h := Live(buf)] && buffers.Keys == old(buffers.Keys) + {buf}
    {
      StepKeepsFine(View(), Create(h, buf));
      buffers := buffers[buf := Buffer(1, 0)];
      handles := handles[h := Live(buf)];
    }

    // The atomic steps.

    method FetchSub(h: nat) returns (before: int)
      requires Enabled(View(), Sub(h))
      modifies this
      ensures View() == Next(old(View()), Sub(h)) && before == old(buffers[handles[h].buf].count)
    {
      var buf := handles[h].buf;
      before := buffers[buf].count;
      buffers := buffers[buf := buffers[buf].(count := before - 1)];
      handles := handles[h := Dropping(buf, before <= 1)];
    }

    method CallFree(h: nat)
      requires Enabled(View(), Free(h))
      modifies this
      ensures View() == Next(old(View()), Free(h))
    {
      var buf := handles[h].buf;
      buffers := buffers[buf := buffers[buf].(freed := buffers[buf].freed + 1)];
      handles := handles[h := Dropping(buf, false)];
    }

    method ClearHandle(h: nat)
      requires Enabled(View(), Clear(h))
      modifies this
      ensures View() == Next(old(View()), Clear(h))
    {
      handles := handles[h := Empty];
    }

    method FetchAdd(dst: nat, src: nat)
      requires Enabled(View(), Add(dst, src))
      modifies this
      ensures View() == Next(old(View()), Add(dst, src))
    {
      var buf := handles[src].buf;
      buffers := buffers[buf := buffers[buf].(count := buffers[buf].count + 1)];
      handles := handles[dst := Taking(buf, src)];
    }

    method CopyHandle(dst: nat, src: nat)
      requires Enabled(View(), Copy(dst)) && handles[dst].src == src
      modifies this
      ensures View() == Next(old(View()), Copy(dst))
    {
      handles := handles[dst := handles[src]];
    }

    /** avt_buffer_quick_unref */
    method QuickUnref(h: nat)
      requires Settled(View()) && h in handles
      modifies this
      ensures Settled(View()) && handles == old(handles)[h := Empty] && buffers.Keys == old(buffers.Keys)
    {
      if handles[h] != Empty {
        UnrefSteps(View(), h);
        hide Next, Enabled, Settled;
        var before := FetchSub(h);
        if before <= 1 {
          CallFree(h);
        }
        ClearHandle(h);
      }
    }

    /** avt_buffer_quick_ref: the destination shares the source's buffer. With the two the same handle it is released
        instead, and what it referred to may be gone. */
    method QuickRef(dst: nat, src: nat)
      requires Settled(View()) && dst in handles && src in handles
      modifies this
      ensures Settled(View()) && buffers.Keys == old(buffers.Keys)
      ensures handles == old(handles)[dst := if dst == src then Empty else old(handles)[src]]
    {
      hide Next, Enabled, Settled;
      QuickUnref(dst);
      if handles[src] != Empty {
        RefSteps(View(), dst, src);
        FetchAdd(dst, src);
        CopyHandle(dst, src);
      }
    }
  }

  /** One release, uninterrupted. */
  lemma UnrefSteps(p: Pool, h: nat)
    requires Settled(p) && h in p.handles && p.handles[h] != Empty
    ensures Enabled(p, Sub(h)) && p.handles[h].Live? && p.handles[h].buf in p.buffers
    ensures var one := Next(p, Sub(h));
      && var last := p.buffers[p.handles[h].buf].count <= 1;
      && (last ==> Enabled(one, Free(h)))
      && var two := if last then Next(one, Free(h)) else one;
      && Enabled(two, Clear(h))
      && var three := Next(two, Clear(h));
      && Settled(three) && three.handles == p.handles[h := Empty] && three.buffers.Keys == p.buffers.Keys
  {
    hide BufferFine;
    var one := Next(p, Sub(h));
    StepKeepsFine(p, Sub(h));
    var two := if one.handles[h].last then Next(one, Free(h)) else one;
    if one.handles[h].last { StepKeepsFine(one, Free(h)); }
    StepKeepsFine(two, Clear(h));
    assert Next(two, Clear(h)).handles == p.handles[h := Empty];
  }

  /** Sharing a buffer with an empty handle, uninterrupted. */
  lemma RefSteps(p: Pool, dst: nat, src: nat)
    requires Settled(p) && dst in p.handles && src in p.handles && p.handles[dst] == Empty && p.handles[src] != Empty
    ensures Enabled(p, Add(dst, src))
    ensures var one := Next(p, Add(dst, src));
      && Enabled(one, Copy(dst)) && one.handles[dst].src == src
      && var two := Next(one, Copy(dst));
      && Settled(two) && two.handles == p.handles[dst := p.handles[src]] && two.buffers.Keys == p.buffers.Keys
  {
    var one := Next(p, Add(dst, src));
    StepKeepsFine(p, Add(dst, src));
    StepKeepsFine(one, Copy(dst));
    assert Next(one, Copy(dst)).handles == p.handles[dst := p.handles[src]];
  }
}
