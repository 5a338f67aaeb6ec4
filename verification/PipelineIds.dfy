/** Record ids: the counter is incremented under a lock and read after the lock is released. */
module PipelineIds {
  import opened Framing
  import opened Pipeline

  // ----- order -----

  /** Every id a producer has had accepted is below the one it is about to use. */
  ghost predicate Below(m: Record, s: Sys) {
    && m.tid < |s.producers|
    && m.rid <= s.id
    && (s.producers[m.tid].Bumped? ==> m.rid < s.producers[m.tid].own)
    && (s.producers[m.tid].Filling? ==> m.rid < s.producers[m.tid].rid)
  }

  ghost predicate InOrder(ms: seq<Record>) {
    forall i, j :: 0 <= i < j < |ms| && ms[i].tid == ms[j].tid ==> ms[i].rid < ms[j].rid
  }

  ghost predicate OrderInv(s: Sys) {
    && s.id == s.bumps + 1
    && (forall t :: 0 <= t < |s.producers| && s.producers[t].Bumped? ==> s.producers[t].own <= s.id)
    && (forall t :: 0 <= t < |s.producers| && s.producers[t].Filling? ==> s.producers[t].rid <= s.id)
    && (forall m :: m in s.accepted ==> Below(m, s))
    && InOrder(s.accepted)
  }

  lemma OrderSend(s: Sys, t: nat, data: Bytes)
    requires OrderInv(s) && Enabled(s, Send(t, data))
    ensures OrderInv(Do(s, Send(t, data)))
  {
    var s' := Do(s, Send(t, data));
    forall m | m in s'.accepted
      ensures Below(m, s')
    {
      if m in s.accepted {
        assert Below(m, s);
      }
    }
    if !s.ring.Full() {
      var n := |s.accepted|;
      forall i | 0 <= i < n && s'.accepted[i].tid == s'.accepted[n].tid
        ensures s'.accepted[i].rid < s'.accepted[n].rid
      {
        assert Below(s.accepted[i], s);
      }
    }
  }

  lemma OrderStep(s: Sys, step: Step)
    requires OrderInv(s) && Enabled(s, step) && Do(s, step).bumps + 1 < U32
    ensures OrderInv(Do(s, step))
  {
    var s' := Do(s, step);
    if step.Send? {
      OrderSend(s, step.t, step.data);
    } else {
      forall m | m in s'.accepted
        ensures Below(m, s')
      {
        assert Below(m, s);
      }
    }
  }

  /** Fewer than 2^32 increments: the counter has not wrapped. */
  ghost predicate NoWrap(s: Sys) { s.bumps + 1 < U32 }

  lemma {:induction false} RunOrder(producers: nat, capacity: nat, steps: seq<Step>)
    ensures var o := Exec(producers, capacity, steps); o.Reached? && NoWrap(o.s) ==> OrderInv(o.s)
    decreases |steps|
  {
    if steps != [] {
      var init, last := steps[..|steps| - 1], steps[|steps| - 1];
      RunOrder(producers, capacity, init);
      var o := Exec(producers, capacity, init);
      if o.Reached? && Enabled(o.s, last) && NoWrap(Do(o.s, last)) {
        OrderStep(o.s, last);
      }
    }
  }

  /** In every interleaving with fewer than 2^32 ids, each producer's records reach the log thread,
      and so the trace file, in strictly increasing order of id. */
  lemma FileOrderPerProducer(producers: nat, capacity: nat, steps: seq<Step>, s: Sys)
    requires 0 < capacity && Reachable(producers, capacity, steps, s) && NoWrap(s)
    ensures InOrder(s.taken) && InOrder(Handled(s))
  {
    RunInv(producers, capacity, steps);
    RunOrder(producers, capacity, steps);
    assert forall i :: 0 <= i < |s.taken| ==> s.taken[i] == s.accepted[i];
  }

  /** How many increments a schedule has. */
  function Increments(steps: seq<Step>): nat {
    if steps == [] then 0
    else Increments(steps[..|steps| - 1]) + if steps[|steps| - 1].Bump? then 1 else 0
  }

  /** In every interleaving the counter is one more than the increments made so far, modulo 2^32. */
  lemma {:induction false} CounterWraps(producers: nat, capacity: nat, steps: seq<Step>)
    ensures var o := Exec(producers, capacity, steps);
            o.Reached? ==> o.s.id == (1 + Increments(steps)) % 0x1_0000_0000 && o.s.bumps == Increments(steps)
    decreases |steps|
  {
    if steps != [] {
      var init, last := steps[..|steps| - 1], steps[|steps| - 1];
      CounterWraps(producers, capacity, init);
      var o := Exec(producers, capacity, init);
      if o.Reached? && Enabled(o.s, last) {
        CounterStep(o.s, last);
        WrapsOnce(o.s.id, Increments(init));
      }
    }
  }

  lemma WrapsOnce(id: nat, n: nat)
    requires id == (1 + n) % 0x1_0000_0000
    ensures (id + 1) % 0x1_0000_0000 == (2 + n) % 0x1_0000_0000
  {
  }

  lemma CounterStep(s: Sys, step: Step)
    requires Enabled(s, step)
    ensures Do(s, step).bumps == s.bumps + if step.Bump? then 1 else 0
    ensures Do(s, step).id == if step.Bump? then (s.id + 1) % 0x1_0000_0000 else s.id
  {
  }

  // ----- uniqueness -----

  ghost predicate Pending(s: Sys, own: nat) {
    exists t :: 0 <= t < |s.producers| && s.producers[t].Bumped? && s.producers[t].own == own
  }

  ghost predicate IssuedTo(s: Sys, own: nat) {
    exists i :: 0 <= i < |s.issued| && s.issued[i].own == own
  }

  /** Every increment belongs to one producer, which has read an id since or is about to (`CoveredInv`). */
  ghost predicate OwnersInv(s: Sys) {
    && s.id == s.bumps + 1
    && (forall i :: 0 <= i < |s.issued| ==> 2 <= s.issued[i].own <= s.issued[i].rid <= s.id)
    && (forall i, j :: 0 <= i < j < |s.issued| ==> s.issued[i].own != s.issued[j].own)
    && (forall t :: 0 <= t < |s.producers| && s.producers[t].Bumped? ==>
          2 <= s.producers[t].own <= s.id && !IssuedTo(s, s.producers[t].own))
    && (forall t, u :: 0 <= t < u < |s.producers| && s.producers[t].Bumped? && s.producers[u].Bumped? ==>
          s.producers[t].own != s.producers[u].own)
  }

  ghost predicate CoveredInv(s: Sys) {
    forall v :: 2 <= v <= s.id ==> Pending(s, v) || IssuedTo(s, v)
  }

  predicate SomeBumped(producers: seq<Producer>) {
    exists t :: 0 <= t < |producers| && producers[t].Bumped?
  }

  /** A race shows: some producer read, or will read, more than its own increment made. */
  ghost predicate RaceShows(s: Sys) {
    || (exists i :: 0 <= i < |s.issued| && s.issued[i].own < s.issued[i].rid)
    || (exists t :: 0 <= t < |s.producers| && s.producers[t].Bumped? && s.producers[t].own < s.id)
  }

  /** From step `i` on, producer `t` has incremented and not yet read. */
  ghost predicate OpenFrom(steps: seq<Step>, i: nat, t: nat) {
    i < |steps| && steps[i] == Bump(t) && forall k :: i < k < |steps| ==> steps[k] != ReadId(t)
  }

  /** Between an increment and the read that follows it lies another increment. */
  ghost predicate Overlap(steps: seq<Step>, i: nat, j: nat) {
    i < j < |steps| && steps[j].Bump? && steps[i].Bump? && OpenFrom(steps[..j], i, steps[i].t)
  }

  ghost predicate Raced(steps: seq<Step>) {
    exists i: nat, j: nat :: Overlap(steps, i, j)
  }

  lemma OpenNext(steps: seq<Step>, step: Step, i: nat, t: nat)
    ensures i < |steps| ==> (OpenFrom(steps + [step], i, t) <==> OpenFrom(steps, i, t) && step != ReadId(t))
    ensures i == |steps| ==> (OpenFrom(steps + [step], i, t) <==> step == Bump(t))
  {
    var all := steps + [step];
    assert all[|steps|] == step && forall k :: 0 <= k < |steps| ==> all[k] == steps[k];
  }

  ghost predicate IsOpen(steps: seq<Step>, t: nat) {
    exists i: nat :: OpenFrom(steps, i, t)
  }

  lemma IsOpenNext(steps: seq<Step>, step: Step, t: nat)
    ensures IsOpen(steps + [step], t) <==> step == Bump(t) || (IsOpen(steps, t) && step != ReadId(t))
  {
    OpenNext(steps, step, |steps|, t);
    if IsOpen(steps, t) {
      var i: nat :| OpenFrom(steps, i, t);
      OpenNext(steps, step, i, t);
    }
    if IsOpen(steps + [step], t) {
      var i: nat :| OpenFrom(steps + [step], i, t);
      OpenNext(steps, step, i, t);
    }
  }

  /** The producers that have incremented and not yet read are those the schedule says. */
  ghost predicate WindowInv(s: Sys, steps: seq<Step>) {
    forall t :: 0 <= t ==> (IsOpen(steps, t) <==> t < |s.producers| && s.producers[t].Bumped?)
  }

  lemma {:induction false} RunWindows(producers: nat, capacity: nat, steps: seq<Step>)
    ensures var o := Exec(producers, capacity, steps); o.Reached? ==> WindowInv(o.s, steps)
    decreases |steps|
  {
    if steps != [] {
      var init, last := steps[..|steps| - 1], steps[|steps| - 1];
      RunWindows(producers, capacity, init);
      var o := Exec(producers, capacity, init);
      if o.Reached? && Enabled(o.s, last) {
        assert init + [last] == steps;
        WindowStep(o.s, init, last);
      }
    }
  }

  lemma WindowStep(s: Sys, steps: seq<Step>, step: Step)
    requires WindowInv(s, steps) && Enabled(s, step)
    ensures WindowInv(Do(s, step), steps + [step])
  {
    var s' := Do(s, step);
    forall t | 0 <= t
      ensures IsOpen(steps + [step], t) <==> t < |s'.producers| && s'.producers[t].Bumped?
    {
      IsOpenNext(steps, step, t);
      assert IsOpen(steps, t) <==> t < |s.producers| && s.producers[t].Bumped?;
      OnePhase(s, step, t);
    }
  }

  lemma OnePhase(s: Sys, step: Step, t: nat)
    requires Enabled(s, step)
    ensures var s' := Do(s, step);
            && |s'.producers| == |s.producers|
            && (t < |s.producers| ==>
                (s'.producers[t].Bumped? <==> step == Bump(t) || (s.producers[t].Bumped? && step != ReadId(t))))
    ensures step == Bump(t) ==> t < |s.producers|
  {
  }

  lemma OverlapNext(steps: seq<Step>, step: Step, i: nat, j: nat)
    ensures j < |steps| ==> (Overlap(steps + [step], i, j) <==> Overlap(steps, i, j))
    ensures j == |steps| && i < j ==>
              (Overlap(steps + [step], i, j) <==> step.Bump? && steps[i].Bump? && OpenFrom(steps, i, steps[i].t))
  {
    var all := steps + [step];
    if j <= |steps| {
      assert all[..j] == steps[..j];
      assert j == |steps| ==> steps[..j] == steps;
    }
  }

  lemma RacedNext(steps: seq<Step>, step: Step)
    ensures Raced(steps + [step]) <==> Raced(steps) || (step.Bump? && exists t: nat :: IsOpen(steps, t))
  {
    if Raced(steps) {
      var i: nat, j: nat :| Overlap(steps, i, j);
      OverlapNext(steps, step, i, j);
    }
    if step.Bump? && exists t: nat :: IsOpen(steps, t) {
      var t: nat :| IsOpen(steps, t);
      var i: nat :| OpenFrom(steps, i, t);
      OverlapNext(steps, step, i, |steps|);
    }
    if Raced(steps + [step]) {
      var i: nat, j: nat :| Overlap(steps + [step], i, j);
      OverlapNext(steps, step, i, j);
      if j == |steps| {
        assert IsOpen(steps, steps[i].t);
      }
    }
  }

  ghost predicate RaceInv(s: Sys, steps: seq<Step>) {
    Raced(steps) <==> RaceShows(s)
  }

  lemma OwnersBump(s: Sys, t: nat)
    requires OwnersInv(s) && Enabled(s, Bump(t)) && Do(s, Bump(t)).bumps + 1 < U32
    ensures OwnersInv(Do(s, Bump(t)))
  {
  }

  lemma OwnersRead(s: Sys, t: nat)
    requires OwnersInv(s) && Enabled(s, ReadId(t))
    ensures OwnersInv(Do(s, ReadId(t)))
  {
    var s' := Do(s, ReadId(t));
    forall u | 0 <= u < |s'.producers| && s'.producers[u].Bumped?
      ensures !IssuedTo(s', s'.producers[u].own)
    {
      assert u != t && s'.producers[u] == s.producers[u];
    }
  }

  lemma CoveredBump(s: Sys, t: nat)
    requires OwnersInv(s) && CoveredInv(s) && Enabled(s, Bump(t)) && Do(s, Bump(t)).bumps + 1 < U32
    ensures CoveredInv(Do(s, Bump(t)))
  {
    var s' := Do(s, Bump(t));
    forall v | 2 <= v <= s'.id
      ensures Pending(s', v) || IssuedTo(s', v)
    {
      if v == s'.id {
        assert s'.producers[t].own == v;
      } else if Pending(s, v) {
        var u :| 0 <= u < |s.producers| && s.producers[u].Bumped? && s.producers[u].own == v;
        assert s'.producers[u] == s.producers[u];
      } else {
        var i :| 0 <= i < |s.issued| && s.issued[i].own == v;
        assert s'.issued[i].own == v;
      }
    }
  }

  lemma CoveredRead(s: Sys, t: nat)
    requires CoveredInv(s) && Enabled(s, ReadId(t))
    ensures CoveredInv(Do(s, ReadId(t)))
  {
    var s' := Do(s, ReadId(t));
    var n := |s.issued|;
    var own := s.producers[t].own;
    forall v | 2 <= v <= s'.id
      ensures Pending(s', v) || IssuedTo(s', v)
    {
      if v == own {
        assert s'.issued[n].own == v;
      } else if Pending(s, v) {
        var u :| 0 <= u < |s.producers| && s.producers[u].Bumped? && s.producers[u].own == v;
        assert s'.producers[u] == s.producers[u];
      } else {
        var i :| 0 <= i < n && s.issued[i].own == v;
        assert s'.issued[i].own == v;
      }
    }
  }

  lemma RaceBump(s: Sys, t: nat)
    requires OwnersInv(s) && Enabled(s, Bump(t)) && Do(s, Bump(t)).bumps + 1 < U32
    ensures RaceShows(Do(s, Bump(t))) <==> RaceShows(s) || SomeBumped(s.producers)
  {
    var s' := Do(s, Bump(t));
    if SomeBumped(s.producers) {
      var u :| 0 <= u < |s.producers| && s.producers[u].Bumped?;
      assert s'.producers[u] == s.producers[u] && s'.producers[u].own < s'.id;
    } else if RaceShows(s) {
      var i :| 0 <= i < |s.issued| && s.issued[i].own < s.issued[i].rid;
      assert s'.issued[i] == s.issued[i];
    }
  }

  lemma RaceRead(s: Sys, t: nat)
    requires OwnersInv(s) && Enabled(s, ReadId(t))
    ensures RaceShows(Do(s, ReadId(t))) <==> RaceShows(s)
  {
    var s' := Do(s, ReadId(t));
    var n := |s.issued|;
    if RaceShows(s) {
      if i :| 0 <= i < n && s.issued[i].own < s.issued[i].rid {
        assert s'.issued[i] == s.issued[i];
      } else {
        var u :| 0 <= u < |s.producers| && s.producers[u].Bumped? && s.producers[u].own < s.id;
        if u == t {
          assert s'.issued[n].own < s'.issued[n].rid;
        } else {
          assert s'.producers[u] == s.producers[u];
        }
      }
    }
  }

  lemma SomeOpen(s: Sys, steps: seq<Step>)
    requires WindowInv(s, steps)
    ensures SomeBumped(s.producers) <==> exists t: nat :: IsOpen(steps, t)
  {
    if SomeBumped(s.producers) {
      var t :| 0 <= t < |s.producers| && s.producers[t].Bumped?;
      assert IsOpen(steps, t);
    }
  }

  lemma RaceStep(s: Sys, steps: seq<Step>, step: Step)
    requires OwnersInv(s) && RaceInv(s, steps) && WindowInv(s, steps) && Enabled(s, step)
    requires step.Bump? || step.ReadId? || (RaceShows(Do(s, step)) <==> RaceShows(s))
    requires Do(s, step).bumps + 1 < U32
    ensures RaceInv(Do(s, step), steps + [step])
  {
    RacedNext(steps, step);
    SomeOpen(s, steps);
    match step
    case Bump(t) => RaceBump(s, t);
    case ReadId(t) => RaceRead(s, t);
    case _ =>
  }

  /** Steps other than the two on the counter leave these invariants alone. */
  lemma OtherStep(s: Sys, step: Step)
    requires Enabled(s, step) && !step.Bump? && !step.ReadId? && OwnersInv(s) && CoveredInv(s)
    ensures OwnersInv(Do(s, step)) && CoveredInv(Do(s, step)) && (RaceShows(Do(s, step)) <==> RaceShows(s))
  {
    SameCounter(s, Do(s, step));
  }

  lemma SameCounter(s: Sys, s': Sys)
    requires s'.issued == s.issued && s'.id == s.id && s'.bumps == s.bumps
    requires |s'.producers| == |s.producers|
    requires forall t :: 0 <= t < |s.producers| && (s.producers[t].Bumped? || s'.producers[t].Bumped?) ==>
               s'.producers[t] == s.producers[t]
    requires OwnersInv(s) && CoveredInv(s)
    ensures OwnersInv(s') && CoveredInv(s') && (RaceShows(s') <==> RaceShows(s))
  {
    forall v | 2 <= v <= s'.id
      ensures Pending(s', v) || IssuedTo(s', v)
    {
      assert Pending(s, v) || IssuedTo(s, v);
    }
  }

  ghost predicate IdsInv(s: Sys, steps: seq<Step>) {
    OwnersInv(s) && CoveredInv(s) && RaceInv(s, steps)
  }

  lemma IdsStep(s: Sys, steps: seq<Step>, step: Step)
    requires IdsInv(s, steps) && WindowInv(s, steps) && Enabled(s, step) && NoWrap(Do(s, step))
    ensures IdsInv(Do(s, step), steps + [step])
  {
    match step
    case Bump(t) => OwnersBump(s, t); CoveredBump(s, t); RaceStep(s, steps, step);
    case ReadId(t) => OwnersRead(s, t); CoveredRead(s, t); RaceStep(s, steps, step);
    case _ => OtherStep(s, step); RaceStep(s, steps, step);
  }

  lemma {:induction false} RunIds(producers: nat, capacity: nat, steps: seq<Step>)
    ensures var o := Exec(producers, capacity, steps); o.Reached? && NoWrap(o.s) ==> IdsInv(o.s, steps)
    decreases |steps|
  {
    if steps != [] {
      var init, last := steps[..|steps| - 1], steps[|steps| - 1];
      RunIds(producers, capacity, init);
      RunWindows(producers, capacity, init);
      var o := Exec(producers, capacity, init);
      if o.Reached? && Enabled(o.s, last) && NoWrap(Do(o.s, last)) {
        assert init + [last] == steps;
        IdsStep(o.s, init, last);
      }
    }
  }

  ghost predicate DistinctIds(issued: seq<Issue>) {
    forall i, j :: 0 <= i < j < |issued| ==> issued[i].rid != issued[j].rid
  }

  /** With distinct ids and no read outstanding, every producer read what its own increment made:
      the last one could read nothing else, so the one before could not, and so on down. */
  lemma {:induction false} ReadsOwn(s: Sys, v: nat)
    requires OwnersInv(s) && CoveredInv(s) && !SomeBumped(s.producers) && DistinctIds(s.issued) && 2 <= v <= s.id + 1
    ensures forall i :: 0 <= i < |s.issued| && s.issued[i].own >= v ==> s.issued[i].rid == s.issued[i].own
    decreases s.id + 1 - v
  {
    if v <= s.id {
      ReadsOwn(s, v + 1);
      forall i | 0 <= i < |s.issued| && s.issued[i].own == v
        ensures s.issued[i].rid == v
      {
        var w := s.issued[i].rid;
        if w > v {
          assert !Pending(s, w);
          assert IssuedTo(s, w);
          var j :| 0 <= j < |s.issued| && s.issued[j].own == w;
          assert false;
        }
      }
    }
  }

  /** Once every producer that incremented the counter has read it, and with fewer than 2^32
      increments, the ids read are all different if and only if the schedule has no increment
      between another one and the read that follows that. */
  lemma IdsDistinctIff(producers: nat, capacity: nat, steps: seq<Step>, s: Sys)
    requires Reachable(producers, capacity, steps, s) && NoWrap(s) && !SomeBumped(s.producers)
    ensures DistinctIds(s.issued) <==> !Raced(steps)
  {
    RunIds(producers, capacity, steps);
    if DistinctIds(s.issued) {
      ReadsOwn(s, 2);
    }
  }

  /** Two producers that both increment before either reads get the same id. */
  lemma DuplicateIdRun(capacity: nat)
    ensures var o := Exec(2, capacity, [Bump(0), Bump(1), ReadId(0), ReadId(1)]);
            o.Reached? && o.s.issued == [Issue(2, 3), Issue(3, 3)]
  {
    var steps := [Bump(0), Bump(1), ReadId(0), ReadId(1)];
    var s0 := Init(2, capacity);
    var s1 := Do(s0, Bump(0));
    var s2 := Do(s1, Bump(1));
    var s3 := Do(s2, ReadId(0));
    assert steps[..3] == [Bump(0), Bump(1), ReadId(0)];
    assert steps[..3][..2] == [Bump(0), Bump(1)];
    assert steps[..3][..2][..1] == [Bump(0)];
    assert Exec(2, capacity, [Bump(0)]) == Reached(s1);
    assert Exec(2, capacity, steps[..3][..2]) == Reached(s2);
    assert Exec(2, capacity, steps[..3]) == Reached(s3);
  }

  // ----- the record with id 127 -----

  /** With one producer and nothing dropped, the records accepted are numbered 2, 3, 4 and so on. */
  ghost predicate SerialInv(s: Sys) {
    && |s.producers| == 1
    && s.id == s.bumps + 1
    && (s.dropped == [] ==>
        && (forall i :: 0 <= i < |s.accepted| ==> s.accepted[i].rid == i + 2)
        && s.bumps == |s.accepted| + (if s.producers[0].Idle? then 0 else 1)
        && (s.producers[0].Filling? ==> s.producers[0].rid == |s.accepted| + 2))
  }

  lemma {:induction false} RunSerial(capacity: nat, steps: seq<Step>)
    ensures var o := Exec(1, capacity, steps); o.Reached? && NoWrap(o.s) ==> SerialInv(o.s)
    decreases |steps|
  {
    if steps != [] {
      var init, last := steps[..|steps| - 1], steps[|steps| - 1];
      RunSerial(capacity, init);
      var o := Exec(1, capacity, init);
      if o.Reached? && Enabled(o.s, last) && NoWrap(Do(o.s, last)) {
        SerialStep(o.s, last);
      }
    }
  }

  lemma SerialStep(s: Sys, step: Step)
    requires SerialInv(s) && Enabled(s, step) && NoWrap(Do(s, step))
    ensures SerialInv(Do(s, step))
  {
  }

  /** With one producer, nothing dropped and no failed receive, the log thread never handles more
      than 126 records: the 126th has id 127, which it takes for the end of tracing. */
  lemma TraceEndsAt126(capacity: nat, steps: seq<Step>, s: Sys)
    requires 0 < capacity && Reachable(1, capacity, steps, s) && NoWrap(s) && s.dropped == [] && !s.failed
    ensures |Handled(s)| <= 126
    ensures s.pc.Exited? <==> |Handled(s)| == 126
  {
    RunInv(1, capacity, steps);
    RunSerial(capacity, steps);
    TraceFileHoldsHandled(1, capacity, steps, s);
    HandledPrefix(s);
    var n := |Handled(s)|;
    assert n > 0 ==> Handled(s)[n - 1] == s.accepted[n - 1];
    assert n > 125 ==> Handled(s)[125] == s.accepted[125];
  }
}
