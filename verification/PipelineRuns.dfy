/** Schedules in which the events of the other theorems happen. */
module PipelineRuns {
  import opened Framing
  import opened Pipeline
  import opened PipelineIds
  import opened PipelineBuffers

  lemma Then(producers: nat, capacity: nat, steps: seq<Step>, s: Sys, step: Step)
    requires Reachable(producers, capacity, steps, s) && Enabled(s, step)
    ensures Reachable(producers, capacity, steps + [step], Do(s, step))
  {
    assert (steps + [step])[..|steps|] == steps;
  }

  /** The shortest record with an id. */
  function Shortest(rid: nat): Bytes {
    Encode(rid, 4) + [7, 0, 0]
  }

  lemma ShortestIsAssembled(buf: Buf, tid: nat, rid: nat)
    requires rid < U32
    ensures Assembled(Record(buf, tid, rid, Shortest(rid)))
  {
    assert Shortest(rid)[..4] == Encode(rid, 4);
    assert Pow256(4) == 256 * Pow256(3) && Pow256(2) == 256 * Pow256(1);
    DecodeEncode(rid, 4);
  }

  /** The single producer makes a record and sends it: one more is accepted, or dropped if the queue is full. */
  ghost predicate Produced(s: Sys, s': Sys, data: Bytes) {
    && s'.producers == [Idle] && s'.pc == s.pc && s'.taken == s.taken && s'.failed == s.failed
    && s'.bumps == s.bumps + 1 && s'.id == NextId(s) && |s'.ring.slots| == |s.ring.slots|
    && (!s.ring.Full() ==>
        && s'.ring.counter == s.ring.counter + 1 && s'.dropped == s.dropped
        && |s'.accepted| == |s.accepted| + 1 && s'.accepted[..|s.accepted|] == s.accepted
        && s'.accepted[|s.accepted|].data == data && s'.accepted[|s.accepted|].rid == NextId(s))
    && (s.ring.Full() ==> s'.ring == s.ring && s'.accepted == s.accepted && |s'.dropped| == |s.dropped| + 1)
  }

  /** The id that the single producer will give its next record. */
  function NextId(s: Sys): nat { (s.id + 1) % U32 }

  lemma Produce(capacity: nat, steps: seq<Step>, s: Sys, data: Bytes) returns (steps': seq<Step>, s': Sys)
    requires 0 < capacity && Reachable(1, capacity, steps, s) && s.producers == [Idle]
    requires Assembled(Record(0, 0, NextId(s), data))
    ensures Reachable(1, capacity, steps', s') && Produced(s, s', data)
  {
    RunInv(1, capacity, steps);
    Then(1, capacity, steps, s, Bump(0));
    var s1 := Do(s, Bump(0));
    Then(1, capacity, steps + [Bump(0)], s1, ReadId(0));
    var s2 := Do(s1, ReadId(0));
    steps' := steps + [Bump(0)] + [ReadId(0)];
    Then(1, capacity, steps', s2, Send(0, data));
    steps' := steps' + [Send(0, data)];
    s' := Do(s2, Send(0, data));
  }

  /** The log thread takes the oldest queued record and handles it. */
  ghost predicate Consumed(s: Sys, s': Sys) {
    && s'.producers == s.producers && (s'.pc.Top? || s'.pc.Exited?)
    && |s.taken| < |s.accepted| && s'.taken == s.taken + [s.accepted[|s.taken|]]
    && s'.accepted == s.accepted && s'.dropped == s.dropped && s'.failed == s.failed && s'.bumps == s.bumps
    && s'.ring.counter + 1 == s.ring.counter && s'.id == s.id
  }

  lemma ConsumeOne(capacity: nat, steps: seq<Step>, s: Sys) returns (steps': seq<Step>, s': Sys)
    requires 0 < capacity && Reachable(1, capacity, steps, s) && s.pc.Top? && s.ring.counter > 0
    ensures Reachable(1, capacity, steps', s') && Consumed(s, s')
  {
    RunInv(1, capacity, steps);
    Then(1, capacity, steps, s, Allocate);
    var s1 := Do(s, Allocate);
    Then(1, capacity, steps + [Allocate], s1, Look);
    var s2 := Do(s1, Look);
    steps' := steps + [Allocate] + [Look];
    GetFindsOldest(1, capacity, steps', s2);
    Then(1, capacity, steps', s2, Get);
    var s3 := Do(s2, Get);
    steps' := steps' + [Get];
    Then(1, capacity, steps', s3, Consume);
    steps' := steps' + [Consume];
    s' := Do(s3, Consume);
  }

  /** Record `i` of `datas` is one that can be sent with id `i + 2`. */
  ghost predicate Sendable(datas: seq<Bytes>) {
    forall i :: 0 <= i < |datas| ==> Assembled(Record(0, 0, i + 2, datas[i]))
  }

  /** At rest, with the records of `datas` handled, numbered from 2 on. */
  ghost predicate HandledAll(s: Sys, datas: seq<Bytes>) {
    && s.producers == [Idle] && s.ring.counter == 0 && (s.pc.Top? || s.pc.Exited?) && s.taken == s.accepted
    && !s.failed && s.dropped == [] && s.bumps == |datas| && s.id == s.bumps + 1
    && Datas(s.taken) == datas && forall i :: 0 <= i < |s.taken| ==> s.taken[i].rid == i + 2
  }

  lemma HandledOneMore(s: Sys, s1: Sys, s2: Sys, datas: seq<Bytes>, data: Bytes)
    requires HandledAll(s, datas) && |datas| < 126 && !s.ring.Full()
    requires Produced(s, s1, data) && Consumed(s1, s2)
    ensures HandledAll(s2, datas + [data])
  {
    assert s1.accepted == s.accepted + [s1.accepted[|s.accepted|]];
    assert Datas(s2.taken) == datas + [data];
  }

  lemma StillRunning(capacity: nat, steps: seq<Step>, s: Sys, datas: seq<Bytes>)
    requires 0 < capacity && Reachable(1, capacity, steps, s) && HandledAll(s, datas) && |datas| < 126
    ensures s.pc.Top?
  {
    assert |Handled(s)| == |Datas(s.taken)|;
    TraceEndsAt126(capacity, steps, s);
  }

  lemma RoomForOne(capacity: nat, steps: seq<Step>, s: Sys)
    requires 0 < capacity && Reachable(1, capacity, steps, s) && s.ring.counter == 0
    ensures !s.ring.Full()
  {
    RunInv(1, capacity, steps);
  }

  lemma Round(capacity: nat, steps: seq<Step>, s: Sys, datas: seq<Bytes>, data: Bytes)
    returns (steps': seq<Step>, s': Sys)
    requires 0 < capacity && Reachable(1, capacity, steps, s) && HandledAll(s, datas) && |datas| < 126
    requires Assembled(Record(0, 0, |datas| + 2, data))
    ensures Reachable(1, capacity, steps', s') && HandledAll(s', datas + [data])
    ensures |s'.taken| == |s.taken| + 1 && s'.taken == s.taken + [s'.taken[|s.taken|]]
  {
    StillRunning(capacity, steps, s, datas);
    RoomForOne(capacity, steps, s);
    var steps1, s1 := Produce(capacity, steps, s, data);
    steps', s' := ConsumeOne(capacity, steps1, s1);
    HandledOneMore(s, s1, s', datas, data);
  }

  lemma {:induction false} Rounds(capacity: nat, datas: seq<Bytes>) returns (steps: seq<Step>, s: Sys)
    requires 0 < capacity && |datas| <= 126 && Sendable(datas)
    ensures Reachable(1, capacity, steps, s) && HandledAll(s, datas)
    decreases |datas|
  {
    if datas == [] {
      steps, s := [], Init(1, capacity);
    } else {
      var n := |datas| - 1;
      var init := datas[..n];
      assert Sendable(init);
      steps, s := Rounds(capacity, init);
      steps, s := Round(capacity, steps, s, init, datas[n]);
      assert init + [datas[n]] == datas;
    }
  }

  function Shortests(n: nat): (datas: seq<Bytes>)
    ensures |datas| == n
  {
    seq(n, i requires 0 <= i < n => Shortest(i + 2))
  }

  /** For every queue and every number of records up to 126 there is a run of one producer that drops
      nothing and in which the log thread handles that many; so it does stop at the 126th. */
  lemma TraceReaches(capacity: nat, n: nat) returns (steps: seq<Step>, s: Sys)
    requires 0 < capacity && n <= 126
    ensures Reachable(1, capacity, steps, s) && NoWrap(s) && !s.failed && s.dropped == [] && |Handled(s)| == n
    ensures s.pc.Exited? <==> n == 126
  {
    forall i | 0 <= i < n
      ensures Assembled(Record(0, 0, i + 2, Shortests(n)[i]))
    {
      ShortestIsAssembled(0, 0, i + 2);
    }
    steps, s := Rounds(capacity, Shortests(n));
    TraceEndsAt126(capacity, steps, s);
  }

  lemma {:induction false} Backlog(capacity: nat, n: nat) returns (steps: seq<Step>, s: Sys)
    requires 0 < capacity && n <= capacity
    ensures Reachable(1, capacity, steps, s) && s.producers == [Idle] && s.ring.counter == n
    ensures s.dropped == [] && |s.ring.slots| == capacity && s.pc.Top? && !s.failed
    decreases n
  {
    if n == 0 {
      steps, s := [], Init(1, capacity);
    } else {
      steps, s := Backlog(capacity, n - 1);
      ShortestIsAssembled(0, 0, NextId(s));
      steps, s := Produce(capacity, steps, s, Shortest(NextId(s)));
    }
  }

  /** For every queue there is a run that drops a record. */
  lemma DropHappens(capacity: nat) returns (steps: seq<Step>, s: Sys)
    requires 0 < capacity
    ensures Reachable(1, capacity, steps, s) && |s.dropped| == 1 && Count(s.freed, s.dropped[0].buf) == 0
  {
    steps, s := Backlog(capacity, capacity);
    ShortestIsAssembled(0, 0, NextId(s));
    steps, s := Produce(capacity, steps, s, Shortest(NextId(s)));
    DroppedIsLost(1, capacity, steps, s, s.dropped[0]);
  }

  /** With any number of producers, a receive that fails at once frees the first buffer twice. */
  lemma DoubleFreeHappens(producers: nat, capacity: nat) returns (s: Sys)
    ensures Reachable(producers, capacity, [Allocate, FailRecv], s) && s.failed && Count(s.freed, 0) == 2
  {
    var s0 := Init(producers, capacity);
    Then(producers, capacity, [], s0, Allocate);
    var s1 := Do(s0, Allocate);
    assert [] + [Allocate] == [Allocate];
    Then(producers, capacity, [Allocate], s1, FailRecv);
    assert [Allocate] + [FailRecv] == [Allocate, FailRecv];
    s := Do(s1, FailRecv);
    CountTwo([], 0, 0, 0);
  }
}
