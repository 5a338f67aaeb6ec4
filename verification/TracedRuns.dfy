/** Runs whose records are those of given events. */
module TracedRuns {
  import opened Framing
  import opened Pipeline
  import opened PipelineRuns
  import opened Records
  import opened RoundTrip

  /** The message is the record of the event. */
  ghost predicate CarriesOne(m: Record, e: Event, mem: Bytes) {
    Traced(e, m.rid, mem) && m.data == Assemble(e, m.rid, mem)
  }

  ghost predicate Carries(ms: seq<Record>, evs: seq<Event>, mems: seq<Bytes>) {
    |ms| == |evs| == |mems| && forall i :: 0 <= i < |ms| ==> CarriesOne(ms[i], evs[i], mems[i])
  }

  lemma CarriesOneMore(ms: seq<Record>, m: Record, evs: seq<Event>, mems: seq<Bytes>)
    requires |evs| == |mems| == |ms| + 1 && Carries(ms, evs[..|ms|], mems[..|ms|])
    requires CarriesOne(m, evs[|ms|], mems[|ms|])
    ensures Carries(ms + [m], evs, mems)
  {
    forall i | 0 <= i < |ms|
      ensures CarriesOne(ms[i], evs[i], mems[i])
    {
      assert CarriesOne(ms[i], evs[..|ms|][i], mems[..|ms|][i]);
    }
  }

  /** An event that can be traced with the id, in a record of at most a page. */
  ghost predicate Traceable(e: Event, rid: nat, mem: Bytes) {
    Traced(e, rid, mem) && RecordSize(e) <= PAGE_SIZE
  }

  /** The events can be traced with the ids 2, 3, 4 and so on. */
  ghost predicate AllTraceable(evs: seq<Event>, mems: seq<Bytes>)
    requires |evs| == |mems|
  {
    evs == [] ||
    var n := |evs| - 1;
    Traceable(evs[n], n + 2, mems[n]) && AllTraceable(evs[..n], mems[..n])
  }

  lemma RecordIsAssembled(e: Event, rid: nat, mem: Bytes, data: Bytes)
    requires Traceable(e, rid, mem) && data == Assemble(e, rid, mem)
    ensures Assembled(Record(0, 0, rid, data))
  {
    AssembledIsFramed(e, rid, mem);
  }

  lemma EventRound(capacity: nat, steps: seq<Step>, s: Sys, datas: seq<Bytes>, e: Event, mem: Bytes)
    returns (steps': seq<Step>, s': Sys, data: Bytes)
    requires 0 < capacity && Reachable(1, capacity, steps, s) && HandledAll(s, datas) && |datas| < 126
    requires Traceable(e, |datas| + 2, mem)
    ensures Reachable(1, capacity, steps', s') && HandledAll(s', datas + [data])
    ensures |s'.taken| == |s.taken| + 1 && s'.taken == s.taken + [s'.taken[|s.taken|]]
    ensures CarriesOne(s'.taken[|s.taken|], e, mem)
  {
    data := Assemble(e, |datas| + 2, mem);
    RecordIsAssembled(e, |datas| + 2, mem, data);
    steps', s' := Round(capacity, steps, s, datas, data);
    LastHandled(s', datas, data);
  }

  lemma LastHandled(s: Sys, datas: seq<Bytes>, data: Bytes)
    requires HandledAll(s, datas + [data])
    ensures |s.taken| == |datas| + 1 && s.taken[|datas|].data == data && s.taken[|datas|].rid == |datas| + 2
  {
    assert |s.taken| == |Datas(s.taken)|;
    assert Datas(s.taken)[|datas|] == data;
  }

  lemma {:induction false} EventRounds(capacity: nat, evs: seq<Event>, mems: seq<Bytes>)
    returns (steps: seq<Step>, s: Sys, datas: seq<Bytes>)
    requires 0 < capacity && |evs| == |mems| <= 126 && AllTraceable(evs, mems)
    ensures Reachable(1, capacity, steps, s) && HandledAll(s, datas) && |datas| == |evs|
    ensures Carries(s.taken, evs, mems)
    decreases |evs|
  {
    if evs == [] {
      steps, s, datas := [], Init(1, capacity), [];
    } else {
      var n := |evs| - 1;
      var steps0, s0, datas0 := EventRounds(capacity, evs[..n], mems[..n]);
      var data;
      steps, s, data := EventRound(capacity, steps0, s0, datas0, evs[n], mems[n]);
      CarriesOneMore(s0.taken, s.taken[n], evs, mems);
      datas := datas0 + [data];
    }
  }

  /** Any events, up to 125 of them, whose records fit a page have a run of one producer, over a queue
      of any size, in which the log thread handles exactly their records and has not stopped. */
  lemma AnyEventsRun(capacity: nat, evs: seq<Event>, mems: seq<Bytes>) returns (steps: seq<Step>, s: Sys)
    requires 0 < capacity && |evs| == |mems| <= 125 && AllTraceable(evs, mems)
    ensures Reachable(1, capacity, steps, s) && !s.failed && !s.pc.Exited? && Carries(Handled(s), evs, mems)
  {
    var datas;
    steps, s, datas := EventRounds(capacity, evs, mems);
    StillRunning(capacity, steps, s, datas);
  }
}
