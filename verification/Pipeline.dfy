/** The running tracer: any number of producers that number, fill and send records, the shared
    queue, and the log thread, as a state machine over the steps that a lock or a single memory
    access makes atomic. */
module Pipeline {
  import opened Framing
  import opened LogThread
  import opened MsgQueue

  /** An allocation, numbered in the order of allocation. */
  type Buf = nat

  const U32 := 0x1_0000_0000

  /** A record in a buffer: the producer, the id it was given, and its bytes. */
  datatype Record = Record(buf: Buf, tid: nat, rid: nat, data: Bytes)

  /** What an assembler sends: a framed record that begins with its id. */
  predicate Assembled(m: Record) {
    Framed(m.data) && Decode(m.data[..4]) == m.rid
  }

  /** A producer: between records, between its increment of the id and its read of it, or filling
      and sending the record. */
  datatype Producer = Idle | Bumped(buf: Buf, own: nat) | Filling(buf: Buf, rid: nat)

  /** The log thread: about to allocate, waiting for a message, past the unlocked look at the
      counter, holding a message, holding none although the look found one, or gone. */
  datatype LogPc =
    | Top
    | Waiting(dummy: Buf)
    | Seen(dummy: Buf)
    | Got(dummy: Buf, slot: Slot<Record>)
    | GotNothing(dummy: Buf)
    | Exited

  /** The number a producer's increment made, and the number it then read. */
  datatype Issue = Issue(own: nat, rid: nat)

  /** The shared state, and the history of the run. */
  datatype Sys = Sys(
    id: nat,
    producers: seq<Producer>,
    ring: Ring<Record>,
    pc: LogPc,
    log: Log,
    next: Buf,
    // history
    bumps: nat,
    issued: seq<Issue>,
    accepted: seq<Record>,
    dropped: seq<Record>,
    taken: seq<Record>,
    freed: seq<Buf>,
    failed: bool)

  datatype Step =
    | Bump(t: nat)
    | ReadId(t: nat)
    | Send(t: nat, data: Bytes)
    | Allocate
    | Look
    | Get
    | Consume
    | FailRecv

  function Init(producers: nat, capacity: nat): Sys {
    var slots := seq(capacity, _ => Slot(0, 0, Record(0, 0, 0, [])));
    Sys(1, seq(producers, _ => Idle), Ring(slots, 0, 0, 0), Top, EMPTY_LOG, 0,
        0, [], [], [], [], [], false)
  }

  predicate Enabled(s: Sys, step: Step) {
    match step
    case Bump(t) => t < |s.producers| && s.producers[t].Idle?
    case ReadId(t) => t < |s.producers| && s.producers[t].Bumped?
    case Send(t, data) =>
      && t < |s.producers| && s.producers[t].Filling?
      && Assembled(Record(s.producers[t].buf, t, s.producers[t].rid, data))
      && s.ring.writeIndex < |s.ring.slots|
    case Allocate => s.pc.Top?
    case Look => s.pc.Waiting? && s.ring.counter != 0
    case Get => s.pc.Seen? && s.ring.readIndex < |s.ring.slots|
    case Consume => s.pc.Got?
    case FailRecv => s.pc.Waiting?
  }

  function Do(s: Sys, step: Step): Sys
    requires Enabled(s, step)
  {
    match step
    // kmalloc of the record, then the increment under the lock
    case Bump(t) =>
      s.(id := (s.id + 1) % U32, bumps := s.bumps + 1, next := s.next + 1,
         producers := s.producers[t := Bumped(s.next, s.bumps + 2)])
    // the read after the lock is released
    case ReadId(t) =>
      s.(producers := s.producers[t := Filling(s.producers[t].buf, s.id)],
         issued := s.issued + [Issue(s.producers[t].own, s.id)])
    // the whole of trfsMqSend's critical section
    case Send(t, data) =>
      var m := Record(s.producers[t].buf, t, s.producers[t].rid, data);
      var s' := s.(producers := s.producers[t := Idle], ring := s.ring.Put(Slot(0, |data|, m)));
      if s.ring.Full() then s'.(dropped := s.dropped + [m]) else s'.(accepted := s.accepted + [m])
    // kmalloc of the int that msg1 and msg2 point to
    case Allocate => s.(pc := Waiting(s.next), next := s.next + 1)
    // the wait ends with a counter that is not zero
    case Look => s.(pc := Seen(s.pc.dummy))
    // trfsMqGetMsg under the lock
    case Get =>
      if s.ring.counter == 0 then s.(pc := GotNothing(s.pc.dummy))
      else
        var slot := s.ring.slots[s.ring.readIndex];
        s.(pc := Got(s.pc.dummy, slot), ring := s.ring.Get(), taken := s.taken + [slot.data])
    // pack the record and free it and the int, or leave the loop and free both
    case Consume =>
      var m := s.pc.slot.data;
      s.(log := Take(s.log, m.data), freed := s.freed + [m.buf, s.pc.dummy],
         pc := if Stops(m.data) then Exited else Top)
    // the exit flag, or a wait cut short with nothing queued: msg1 and msg2 are still the same pointer
    case FailRecv =>
      s.(pc := Exited, freed := s.freed + [s.pc.dummy, s.pc.dummy], log := s.log.(page := [], running := false),
         failed := true)
  }

  datatype Outcome = Stuck | Reached(s: Sys)

  /** The state after a schedule, if each of its steps can be taken in turn. */
  function Exec(producers: nat, capacity: nat, steps: seq<Step>): Outcome {
    if steps == [] then Reached(Init(producers, capacity))
    else
      match Exec(producers, capacity, steps[..|steps| - 1])
      case Stuck => Stuck
      case Reached(s) => if Enabled(s, steps[|steps| - 1]) then Reached(Do(s, steps[|steps| - 1])) else Stuck
  }

  // ----- the queue, the log thread and the file -----

  function Records(slots: seq<Slot<Record>>): (ms: seq<Record>)
    ensures |ms| == |slots|
  {
    seq(|slots|, i requires 0 <= i < |slots| => slots[i].data)
  }

  lemma RecordsOne(slots: seq<Slot<Record>>, x: Slot<Record>)
    ensures Records(slots + [x]) == Records(slots) + [x.data]
  {
  }

  function Datas(ms: seq<Record>): (ds: seq<Bytes>)
    ensures |ds| == |ms|
  {
    seq(|ms|, i requires 0 <= i < |ms| => ms[i].data)
  }

  /** The messages the log thread is done with. */
  function Handled(s: Sys): seq<Record> {
    if s.pc.Got? && s.taken != [] then s.taken[..|s.taken| - 1] else s.taken
  }

  ghost predicate AllAssembled(ms: seq<Record>) {
    forall i :: 0 <= i < |ms| ==> Assembled(ms[i])
  }

  ghost predicate QueueInv(s: Sys) {
    && s.ring.Valid()
    && s.accepted == s.taken + Records(s.ring.Queued())
    && AllAssembled(s.accepted)
    && (forall x :: x in s.ring.Queued() ==> x.len == |x.data.data|)
  }

  /** The last of the messages, and none before it, stops the thread. */
  ghost predicate StoppedAtLast(ds: seq<Bytes>) {
    ds != [] && Stops(ds[|ds| - 1]) && TakeAll(ds[..|ds| - 1]).running
  }

  /** The writes of a running log, without its page. */
  ghost predicate LostPage(l: Log, before: Log) {
    before.running && l == Log(before.flushes, [], false)
  }

  ghost predicate LogInv(s: Sys) {
    && !s.pc.GotNothing?
    && (s.pc.Seen? ==> s.ring.counter > 0)
    && (s.pc.Got? ==> s.taken != [] && s.taken[|s.taken| - 1] == s.pc.slot.data)
    && (s.pc.Got? ==> s.pc.slot.len == |s.pc.slot.data.data|)
    && (s.pc.Exited? <==> !s.log.running)
    && (s.failed ==> s.pc.Exited?)
    && (s.pc.Exited? && !s.failed ==> s.taken != [] && StoppedAtLast(Datas(s.taken)))
    && (!s.failed ==> s.log == TakeAll(Datas(Handled(s))))
    && (s.failed ==> LostPage(s.log, TakeAll(Datas(Handled(s)))))
  }

  lemma QueueSend(s: Sys, t: nat, data: Bytes)
    requires QueueInv(s) && Enabled(s, Send(t, data))
    ensures QueueInv(Do(s, Send(t, data)))
  {
    var m := Record(s.producers[t].buf, t, s.producers[t].rid, data);
    var x := Slot(0, |data|, m);
    PutAppends(s.ring, x);
    var q := s.ring.Queued();
    if !s.ring.Full() {
      RecordsOne(q, x);
    }
  }

  lemma QueueGet(s: Sys)
    requires QueueInv(s) && Enabled(s, Get)
    ensures QueueInv(Do(s, Get))
  {
    GetTakesOldest(s.ring);
    if s.ring.counter > 0 {
      var q := s.ring.Queued();
      assert Records(q) == [q[0].data] + Records(q[1..]);
      assert s.accepted == (s.taken + [q[0].data]) + Records(q[1..]);
    }
  }

  lemma QueueStep(s: Sys, step: Step)
    requires QueueInv(s) && Enabled(s, step)
    ensures QueueInv(Do(s, step))
  {
    match step
    case Send(t, data) => QueueSend(s, t, data);
    case Get => QueueGet(s);
    case _ =>
  }

  lemma LogGet(s: Sys)
    requires QueueInv(s) && LogInv(s) && Enabled(s, Get)
    ensures LogInv(Do(s, Get))
  {
    GetTakesOldest(s.ring);
    assert Handled(Do(s, Get)) == Handled(s);
  }

  lemma LogConsume(s: Sys)
    requires LogInv(s) && Enabled(s, Consume)
    ensures LogInv(Do(s, Consume))
  {
    var ds := Datas(s.taken);
    assert ds[..|ds| - 1] == Datas(Handled(s));
    assert Handled(Do(s, Consume)) == s.taken;
  }

  lemma LogStep(s: Sys, step: Step)
    requires QueueInv(s) && LogInv(s) && Enabled(s, step)
    ensures LogInv(Do(s, step))
  {
    match step
    case Get => LogGet(s);
    case Consume => LogConsume(s);
    case _ => assert Handled(Do(s, step)) == Handled(s);
  }

  lemma {:induction false} RunInv(producers: nat, capacity: nat, steps: seq<Step>)
    requires 0 < capacity
    ensures var o := Exec(producers, capacity, steps); o.Reached? ==> QueueInv(o.s) && LogInv(o.s)
    decreases |steps|
  {
    if steps != [] {
      var init, last := steps[..|steps| - 1], steps[|steps| - 1];
      RunInv(producers, capacity, init);
      var o := Exec(producers, capacity, init);
      if o.Reached? && Enabled(o.s, last) {
        QueueStep(o.s, last);
        LogStep(o.s, last);
      }
    }
  }

  /** A receive has failed if and only if the schedule says so. */
  lemma {:induction false} FailedIff(producers: nat, capacity: nat, steps: seq<Step>)
    ensures var o := Exec(producers, capacity, steps); o.Reached? ==> (o.s.failed <==> FailRecv in steps)
    decreases |steps|
  {
    if steps != [] {
      var init, last := steps[..|steps| - 1], steps[|steps| - 1];
      FailedIff(producers, capacity, init);
      assert steps == init + [last];
      var o := Exec(producers, capacity, init);
      if o.Reached? && Enabled(o.s, last) {
        FailedStep(o.s, last);
      }
    }
  }

  lemma FailedStep(s: Sys, step: Step)
    requires Enabled(s, step)
    ensures Do(s, step).failed <==> s.failed || step == FailRecv
  {
  }

  ghost predicate Reachable(producers: nat, capacity: nat, steps: seq<Step>, s: Sys) {
    Exec(producers, capacity, steps) == Reached(s)
  }

  /** In every interleaving, once the log thread has seen a counter that is not zero, outside the
      lock, the locked Get finds a message: the oldest accepted one not yet handed out, with its length. */
  lemma GetFindsOldest(producers: nat, capacity: nat, steps: seq<Step>, s: Sys)
    requires 0 < capacity && Reachable(producers, capacity, steps, s)
    ensures !s.pc.GotNothing?
    ensures Enabled(s, Get) ==>
              && |s.taken| < |s.accepted|
              && Do(s, Get).pc.Got?
              && Do(s, Get).pc.slot.data == s.accepted[|s.taken|]
              && Do(s, Get).pc.slot.len == |s.accepted[|s.taken|].data|
  {
    RunInv(producers, capacity, steps);
    if Enabled(s, Get) {
      GetTakesOldest(s.ring);
    }
  }

  /** In every interleaving the records handed to the log thread are the first of those accepted, in
      the order of acceptance, and the rest are queued. */
  lemma AcceptedIsTakenAndQueued(producers: nat, capacity: nat, steps: seq<Step>, s: Sys)
    requires 0 < capacity && Reachable(producers, capacity, steps, s)
    ensures s.ring.Valid() && s.accepted == s.taken + Records(s.ring.Queued())
  {
    RunInv(producers, capacity, steps);
  }

  lemma DatasFramed(ms: seq<Record>)
    requires AllAssembled(ms)
    ensures AllFramed(Datas(ms)) && AllPackable(Datas(ms))
    ensures NoneStops(Datas(ms)) <==> forall i :: 0 <= i < |ms| ==> ms[i].rid != LOG_COMPLETE
  {
    forall i | 0 <= i < |ms|
      ensures Stops(Datas(ms)[i]) <==> ms[i].rid == LOG_COMPLETE
    {
      assert Assembled(ms[i]);
    }
    if NoneStops(Datas(ms)) {
      forall i | 0 <= i < |ms|
        ensures ms[i].rid != LOG_COMPLETE
      {
        assert !Stops(Datas(ms)[i]);
      }
    }
  }

  lemma HandledPrefix(s: Sys)
    requires QueueInv(s)
    ensures Handled(s) == s.accepted[..|Handled(s)|] && AllAssembled(Handled(s))
  {
  }

  /** In every interleaving whose receives succeed, the log thread is gone just when the last record
      it handled had id 127, and the trace file, flushed, is all the records it handled just until then. */
  lemma TraceFileHoldsHandled(producers: nat, capacity: nat, steps: seq<Step>, s: Sys)
    requires 0 < capacity && Reachable(producers, capacity, steps, s) && !s.failed
    ensures s.pc.Exited? <==> Handled(s) != [] && Handled(s)[|Handled(s)| - 1].rid == LOG_COMPLETE
    ensures !s.pc.Exited? ==> forall m :: m in Handled(s) ==> m.rid != LOG_COMPLETE
    ensures FlushedFile(s.log) == Concat(Datas(Handled(s))) <==> !s.pc.Exited?
  {
    RunInv(producers, capacity, steps);
    var ms := Handled(s);
    HandledPrefix(s);
    DatasFramed(ms);
    WholeTraceIff(Datas(ms));
    var k := PackingInvariant(Datas(ms));
  }

  /** In every interleaving, a log thread that is gone, whether it took a record with id 127 for the end
      of tracing or a receive failed, leaves in the trace file the records it had written, and loses
      those in its page and no others. */
  lemma ExitLosesLastPage(producers: nat, capacity: nat, steps: seq<Step>, s: Sys) returns (k: nat, n: nat)
    requires 0 < capacity && Reachable(producers, capacity, steps, s) && s.pc.Exited?
    ensures n + (if FailRecv in steps then 0 else 1) == |Handled(s)|
    ensures k <= n && (n > 0 ==> k < n)
    ensures TraceFile(s.log) == FlushedFile(s.log) == Concat(Datas(Handled(s))[..k])
    ensures var lost := Concat(Datas(Handled(s))[k..n]); |lost| <= PAGE_SIZE && (n > 0 ==> lost != [])
  {
    RunInv(producers, capacity, steps);
    FailedIff(producers, capacity, steps);
    HandledPrefix(s);
    DatasFramed(Handled(s));
    if s.failed {
      k, n := FailLeaves(s);
    } else {
      k, n := StopLeaves(s);
    }
  }

  lemma FailLeaves(s: Sys) returns (k: nat, n: nat)
    requires s.failed && LogInv(s) && AllPackable(Datas(Handled(s)))
    ensures n == |Handled(s)| && k <= n && (n > 0 ==> k < n)
    ensures TraceFile(s.log) == FlushedFile(s.log) == Concat(Datas(Handled(s))[..k])
    ensures var lost := Concat(Datas(Handled(s))[k..n]); |lost| <= PAGE_SIZE && (n > 0 ==> lost != [])
  {
    var ds := Datas(Handled(s));
    n := |ds|;
    var _ := PackingInvariant(ds);
    k := LastPage(ds);
    assert ds[k..n] == ds[k..];
  }

  lemma StopLeaves(s: Sys) returns (k: nat, n: nat)
    requires s.pc.Exited? && !s.failed && LogInv(s) && AllPackable(Datas(Handled(s)))
    ensures n + 1 == |Handled(s)| && k <= n && (n > 0 ==> k < n)
    ensures TraceFile(s.log) == FlushedFile(s.log) == Concat(Datas(Handled(s))[..k])
    ensures var lost := Concat(Datas(Handled(s))[k..n]); |lost| <= PAGE_SIZE && (n > 0 ==> lost != [])
  {
    var ds := Datas(Handled(s));
    n := |ds| - 1;
    var _ := PackingInvariant(ds[..n]);
    k := StopLosesLastPage(ds, n);
  }
}
