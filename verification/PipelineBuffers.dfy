/** Who owns each buffer: every allocation is in one place at a time. */
module PipelineBuffers {
  import opened Framing
  import opened MsgQueue
  import opened Pipeline

  function One(p: bool): nat { if p then 1 else 0 }

  /** How often `b` occurs in `xs`. */
  function Count(xs: seq<Buf>, b: Buf): nat {
    if xs == [] then 0 else Count(xs[..|xs| - 1], b) + One(xs[|xs| - 1] == b)
  }

  /** How many of the records lie in `b`. */
  function In(ms: seq<Record>, b: Buf): nat {
    if ms == [] then 0 else In(ms[..|ms| - 1], b) + One(ms[|ms| - 1].buf == b)
  }

  /** How many of the producers are working on `b`. */
  function Working(ps: seq<Producer>, b: Buf): nat {
    if ps == [] then 0
    else Working(ps[..|ps| - 1], b) + One(!ps[|ps| - 1].Idle? && ps[|ps| - 1].buf == b)
  }

  /** How often the log thread holds `b`. */
  function Held(pc: LogPc, b: Buf): nat {
    One(!pc.Top? && !pc.Exited? && pc.dummy == b) + One(pc.Got? && pc.slot.data.buf == b)
  }

  /** All the places where `b` can be, added up. */
  ghost function Places(s: Sys, b: Buf): nat
    requires s.ring.Valid()
  {
    Working(s.producers, b) + In(Records(s.ring.Queued()), b) + Held(s.pc, b) + Count(s.freed, b) + In(s.dropped, b)
  }

  /** `b` is in one place once it is allocated; a failed receive has freed one int a second time. */
  ghost predicate BufferInv(s: Sys, b: Buf) {
    && s.ring.Valid()
    && (s.failed ==> s.pc.Exited? && |s.freed| >= 2 && s.freed[|s.freed| - 1] == s.freed[|s.freed| - 2])
    && Places(s, b) == One(b < s.next) + One(s.failed && s.freed[|s.freed| - 1] == b)
    && In(Handled(s), b) <= Count(s.freed, b)
    && (s.pc.Got? ==> s.taken != [] && s.taken[|s.taken| - 1] == s.pc.slot.data)
  }

  lemma {:induction false} WorkingUpdate(ps: seq<Producer>, t: nat, p: Producer, b: Buf)
    requires t < |ps|
    ensures Working(ps[t := p], b) + One(!ps[t].Idle? && ps[t].buf == b) == Working(ps, b) + One(!p.Idle? && p.buf == b)
    decreases |ps|
  {
    var n := |ps| - 1;
    var ps' := ps[t := p];
    if t == n {
      assert ps'[..n] == ps[..n];
    } else {
      assert ps'[..n] == ps[..n][t := p];
      WorkingUpdate(ps[..n], t, p, b);
    }
  }

  lemma InOne(ms: seq<Record>, m: Record, b: Buf)
    ensures In(ms + [m], b) == In(ms, b) + One(m.buf == b)
  {
    assert (ms + [m])[..|ms|] == ms;
  }

  lemma {:induction false} InFirst(ms: seq<Record>, b: Buf)
    requires ms != []
    ensures In(ms, b) == One(ms[0].buf == b) + In(ms[1..], b)
    decreases |ms|
  {
    var n := |ms| - 1;
    if n > 0 {
      InFirst(ms[..n], b);
      assert ms[..n][1..] == ms[1..][..n - 1];
    }
  }

  lemma CountTwo(xs: seq<Buf>, x: Buf, y: Buf, b: Buf)
    ensures Count(xs + [x, y], b) == Count(xs, b) + One(x == b) + One(y == b)
  {
    var ys := xs + [x, y];
    assert ys[..|xs| + 1] == xs + [x];
    assert (xs + [x])[..|xs|] == xs;
  }

  lemma {:induction false} NoneWorking(n: nat, b: Buf)
    ensures Working(seq(n, _ => Idle), b) == 0
    decreases n
  {
    if n > 0 {
      assert seq(n, _ => Idle)[..n - 1] == seq(n - 1, _ => Idle);
      NoneWorking(n - 1, b);
    }
  }

  lemma BuffersBump(s: Sys, t: nat, b: Buf)
    requires BufferInv(s, b) && Enabled(s, Bump(t))
    ensures BufferInv(Do(s, Bump(t)), b)
  {
    AllocateKeeps(s, Do(s, Bump(t)), t, b);
  }

  /** A producer takes the next buffer, and the rest is left alone. */
  ghost predicate Allocated(s: Sys, s': Sys, t: nat) {
    && t < |s.producers| && s.producers[t].Idle? && s'.next == s.next + 1
    && s'.producers == s.producers[t := Bumped(s.next, s.bumps + 2)]
    && s'.ring == s.ring && s'.pc == s.pc && s'.taken == s.taken && s'.freed == s.freed
    && s'.dropped == s.dropped && s'.failed == s.failed
  }

  lemma AllocateKeeps(s: Sys, s': Sys, t: nat, b: Buf)
    requires BufferInv(s, b) && Allocated(s, s', t)
    ensures BufferInv(s', b)
  {
    WorkingUpdate(s.producers, t, Bumped(s.next, s.bumps + 2), b);
    assert Handled(s') == Handled(s);
  }

  lemma BuffersRead(s: Sys, t: nat, b: Buf)
    requires BufferInv(s, b) && Enabled(s, ReadId(t))
    ensures BufferInv(Do(s, ReadId(t)), b)
  {
    WorkingUpdate(s.producers, t, Filling(s.producers[t].buf, s.id), b);
  }

  /** Sending leaves everything but the producer, the queue and the dropped records alone. */
  ghost predicate Sent(s: Sys, s': Sys, t: nat, m: Record) {
    && t < |s.producers| && s.producers[t].Filling? && s.producers[t].buf == m.buf
    && s'.producers == s.producers[t := Idle]
    && s'.pc == s.pc && s'.taken == s.taken && s'.freed == s.freed && s'.next == s.next && s'.failed == s.failed
  }

  lemma SentSame(s: Sys, s': Sys, t: nat, m: Record, b: Buf)
    requires Sent(s, s', t, m)
    ensures Handled(s') == Handled(s) && Working(s'.producers, b) + One(m.buf == b) == Working(s.producers, b)
  {
    WorkingUpdate(s.producers, t, Idle, b);
  }

  lemma DropBalance(s: Sys, s': Sys, t: nat, m: Record, b: Buf)
    requires BufferInv(s, b) && Sent(s, s', t, m) && s'.dropped == s.dropped + [m] && s'.ring == s.ring
    ensures BufferInv(s', b)
  {
    SentSame(s, s', t, m, b);
    InOne(s.dropped, m, b);
  }

  lemma SendBalance(s: Sys, s': Sys, t: nat, m: Record, b: Buf)
    requires BufferInv(s, b) && Sent(s, s', t, m) && s'.dropped == s.dropped && s'.ring.Valid()
    requires Records(s'.ring.Queued()) == Records(s.ring.Queued()) + [m]
    ensures BufferInv(s', b)
  {
    SentSame(s, s', t, m, b);
    InOne(Records(s.ring.Queued()), m, b);
  }

  lemma BuffersSend(s: Sys, t: nat, data: Bytes, b: Buf)
    requires BufferInv(s, b) && Enabled(s, Send(t, data))
    ensures BufferInv(Do(s, Send(t, data)), b)
  {
    var m := Record(s.producers[t].buf, t, s.producers[t].rid, data);
    var s' := Do(s, Send(t, data));
    PutAppends(s.ring, Slot(0, |data|, m));
    if s.ring.Full() {
      DropBalance(s, s', t, m, b);
    } else {
      RecordsOne(s.ring.Queued(), Slot(0, |data|, m));
      SendBalance(s, s', t, m, b);
    }
  }

  /** The log thread takes the head of the queue, and leaves the rest alone. */
  ghost predicate TakenFrom(s: Sys, s': Sys, ms: seq<Record>) {
    && s.pc.Seen? && s'.pc.Got? && s'.pc.dummy == s.pc.dummy && s'.ring.Valid() && ms != []
    && s'.pc.slot.data == ms[0] && Records(s'.ring.Queued()) == ms[1..] && s'.taken == s.taken + [ms[0]]
    && s'.producers == s.producers && s'.freed == s.freed && s'.dropped == s.dropped
    && s'.next == s.next && s'.failed == s.failed
  }

  lemma TakeKeeps(s: Sys, s': Sys, ms: seq<Record>, b: Buf)
    requires BufferInv(s, b) && ms == Records(s.ring.Queued()) && TakenFrom(s, s', ms)
    ensures BufferInv(s', b)
  {
    InFirst(ms, b);
    assert Handled(s') == Handled(s);
  }

  lemma RecordsTail(q: seq<Slot<Record>>)
    requires q != []
    ensures Records(q[1..]) == Records(q)[1..] && Records(q)[0] == q[0].data
  {
  }

  lemma BuffersGet(s: Sys, b: Buf)
    requires BufferInv(s, b) && Enabled(s, Get)
    ensures BufferInv(Do(s, Get), b)
  {
    GetTakesOldest(s.ring);
    if s.ring.counter > 0 {
      RecordsTail(s.ring.Queued());
      TakeKeeps(s, Do(s, Get), Records(s.ring.Queued()), b);
    }
  }

  /** The log thread frees the message it holds and its int, and leaves the rest alone. */
  ghost predicate Released(s: Sys, s': Sys) {
    && s.pc.Got? && (s'.pc.Top? || s'.pc.Exited?) && s'.freed == s.freed + [s.pc.slot.data.buf, s.pc.dummy]
    && s'.producers == s.producers && s'.ring == s.ring && s'.taken == s.taken && s'.dropped == s.dropped
    && s'.next == s.next && s'.failed == s.failed
  }

  lemma ReleaseBalance(s: Sys, s': Sys, b: Buf)
    requires s.ring.Valid() && Released(s, s')
    ensures Places(s', b) == Places(s, b)
    ensures Count(s'.freed, b) == Count(s.freed, b) + One(s.pc.slot.data.buf == b) + One(s.pc.dummy == b)
  {
    CountTwo(s.freed, s.pc.slot.data.buf, s.pc.dummy, b);
  }

  lemma HandledGrows(s: Sys, s': Sys, b: Buf)
    requires Released(s, s') && s.taken != [] && s.taken[|s.taken| - 1] == s.pc.slot.data
    ensures In(Handled(s'), b) == In(Handled(s), b) + One(s.pc.slot.data.buf == b)
  {
    InOne(Handled(s), s.pc.slot.data, b);
    assert Handled(s') == Handled(s) + [s.pc.slot.data];
  }

  lemma ReleaseKeeps(s: Sys, s': Sys, b: Buf)
    requires BufferInv(s, b) && Released(s, s') && !s.failed
    ensures BufferInv(s', b)
  {
    ReleaseBalance(s, s', b);
    HandledGrows(s, s', b);
  }

  lemma BuffersConsume(s: Sys, b: Buf)
    requires BufferInv(s, b) && Enabled(s, Consume)
    ensures BufferInv(Do(s, Consume), b)
  {
    ReleaseKeeps(s, Do(s, Consume), b);
  }

  lemma BuffersFail(s: Sys, b: Buf)
    requires BufferInv(s, b) && Enabled(s, FailRecv)
    ensures BufferInv(Do(s, FailRecv), b)
  {
    CountTwo(s.freed, s.pc.dummy, s.pc.dummy, b);
  }

  lemma BufferStep(s: Sys, step: Step, b: Buf)
    requires BufferInv(s, b) && Enabled(s, step)
    ensures BufferInv(Do(s, step), b)
  {
    match step
    case Bump(t) => BuffersBump(s, t, b);
    case ReadId(t) => BuffersRead(s, t, b);
    case Send(t, data) => BuffersSend(s, t, data, b);
    case Get => BuffersGet(s, b);
    case Consume => BuffersConsume(s, b);
    case FailRecv => BuffersFail(s, b);
    case Allocate =>
    case Look =>
  }

  lemma {:induction false} RunBuffers(producers: nat, capacity: nat, steps: seq<Step>, b: Buf)
    requires 0 < capacity
    ensures var o := Exec(producers, capacity, steps); o.Reached? ==> BufferInv(o.s, b)
    decreases |steps|
  {
    if steps == [] {
      NoneWorking(producers, b);
    } else {
      var init, last := steps[..|steps| - 1], steps[|steps| - 1];
      RunBuffers(producers, capacity, init, b);
      var o := Exec(producers, capacity, init);
      if o.Reached? && Enabled(o.s, last) {
        BufferStep(o.s, last, b);
      }
    }
  }

  lemma {:induction false} InPositive(ms: seq<Record>, m: Record)
    requires m in ms
    ensures In(ms, m.buf) > 0
    decreases |ms|
  {
    var n := |ms| - 1;
    if m != ms[n] {
      InPositive(ms[..n], m);
    }
  }

  /** In every interleaving whose receives succeed, every buffer ever allocated is in exactly one
      place: with a producer, queued, with the log thread, freed, or lost with a dropped record. */
  lemma OnePlaceEach(producers: nat, capacity: nat, steps: seq<Step>, s: Sys, b: Buf)
    requires 0 < capacity && Reachable(producers, capacity, steps, s) && !s.failed
    ensures s.ring.Valid() && Places(s, b) == One(b < s.next)
  {
    RunBuffers(producers, capacity, steps, b);
  }

  /** An accepted record's buffer is in exactly one of the queue, the log thread's hands and the
      freed memory. */
  lemma AcceptedHasOneOwner(producers: nat, capacity: nat, steps: seq<Step>, s: Sys, m: Record)
    requires 0 < capacity && Reachable(producers, capacity, steps, s) && !s.failed && m in s.accepted
    ensures s.ring.Valid()
    ensures In(Records(s.ring.Queued()), m.buf) + Held(s.pc, m.buf) + Count(s.freed, m.buf) == 1
  {
    AcceptedIsTakenAndQueued(producers, capacity, steps, s);
    RunBuffers(producers, capacity, steps, m.buf);
    SomewhereOwned(s, m);
  }

  lemma SomewhereOwned(s: Sys, m: Record)
    requires BufferInv(s, m.buf) && s.accepted == s.taken + Records(s.ring.Queued()) && m in s.accepted
    ensures In(Records(s.ring.Queued()), m.buf) + Held(s.pc, m.buf) + Count(s.freed, m.buf) >= 1
  {
    if m in Records(s.ring.Queued()) {
      InPositive(Records(s.ring.Queued()), m);
    } else {
      assert m in s.taken;
      if m in Handled(s) {
        InPositive(Handled(s), m);
      }
    }
  }

  /** Why a failed receive changes nothing for the other buffers: the one it freed twice takes up
      both of its places. */
  lemma FreedTwice(s: Sys, b: Buf)
    requires BufferInv(s, b) && s.failed && s.freed[|s.freed| - 1] == b
    ensures Count(s.freed, b) == 2 && In(s.dropped, b) == 0 && In(Records(s.ring.Queued()), b) == 0
  {
    var n := |s.freed|;
    assert s.freed == s.freed[..n - 2] + [b, b];
    CountTwo(s.freed[..n - 2], b, b, b);
  }

  /** A record dropped for want of room was reported as sent, so its buffer is never freed. */
  lemma DroppedIsLost(producers: nat, capacity: nat, steps: seq<Step>, s: Sys, m: Record)
    requires 0 < capacity && Reachable(producers, capacity, steps, s) && m in s.dropped
    ensures Count(s.freed, m.buf) == 0
  {
    RunBuffers(producers, capacity, steps, m.buf);
    InPositive(s.dropped, m);
    if s.failed && s.freed[|s.freed| - 1] == m.buf {
      FreedTwice(s, m.buf);
    }
  }

  lemma {:induction false} AllIdle(ps: seq<Producer>, b: Buf)
    requires forall t :: 0 <= t < |ps| ==> ps[t].Idle?
    ensures Working(ps, b) == 0
    decreases |ps|
  {
    if ps != [] {
      AllIdle(ps[..|ps| - 1], b);
    }
  }

  /** Once the producers are idle and the log thread holds nothing, the buffers that were not freed are
      exactly those of the records sent to a full queue and of those still queued, which a thread that
      has stopped will not take. */
  lemma LeakedIffDropped(producers: nat, capacity: nat, steps: seq<Step>, s: Sys, b: Buf)
    requires 0 < capacity && Reachable(producers, capacity, steps, s)
    requires forall t :: 0 <= t < |s.producers| ==> s.producers[t].Idle?
    requires s.pc.Top? || s.pc.Exited?
    ensures s.ring.Valid()
    ensures b < s.next ==> (Count(s.freed, b) == 0 <==> In(s.dropped, b) + In(Records(s.ring.Queued()), b) == 1)
  {
    RunBuffers(producers, capacity, steps, b);
    AllIdle(s.producers, b);
    if s.failed && s.freed[|s.freed| - 1] == b {
      FreedTwice(s, b);
    }
  }

  /** No buffer is freed twice if and only if the schedule has no failed receive: the failure path
      frees one pointer under two names. */
  lemma NoDoubleFreeIff(producers: nat, capacity: nat, steps: seq<Step>, s: Sys)
    requires 0 < capacity && Reachable(producers, capacity, steps, s)
    ensures (forall b :: Count(s.freed, b) <= 1) <==> FailRecv !in steps
  {
    FailedIff(producers, capacity, steps);
    if s.failed {
      RunBuffers(producers, capacity, steps, 0);
      var b := s.freed[|s.freed| - 1];
      RunBuffers(producers, capacity, steps, b);
      FreedTwice(s, b);
    } else {
      forall b
        ensures Count(s.freed, b) <= 1
      {
        RunBuffers(producers, capacity, steps, b);
      }
    }
  }
}
