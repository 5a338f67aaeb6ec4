/** From the traced operation to the replayed system call. */
module EndToEnd {
  import opened Framing
  import opened LogThread
  import opened Pipeline
  import opened TracedRuns
  import Reader
  import ReaderExact
  import opened ReaderIntended
  import opened Records
  import opened Decoding
  import opened RoundTrip
  import opened Omap
  import opened OmapTrace
  import opened Replay

  // ----- the file -----

  /** In every interleaving whose receives succeed and in which the log thread has not stopped, the
      trace file, flushed and read back with the rewind by what is left, gives the records the log
      thread handled: the first of those accepted, each once, in the order of acceptance. */
  lemma ReadBackIsAccepted(producers: nat, capacity: nat, steps: seq<Step>, s: Sys)
    requires 0 < capacity && Reachable(producers, capacity, steps, s) && !s.failed && !s.pc.Exited?
    ensures |Handled(s)| <= |s.accepted| && Handled(s) == s.accepted[..|Handled(s)|]
    ensures ReadAll(FlushedFile(s.log)) == Datas(Handled(s))
  {
    RunInv(producers, capacity, steps);
    TraceFileHoldsHandled(producers, capacity, steps, s);
    HandledPrefix(s);
    DatasFramed(Handled(s));
    ReadsBack(Datas(Handled(s)));
  }

  /** The reader as written replays that file record for record if and only if every page end inside
      it falls on a record boundary. */
  lemma ReaderAsWrittenOnTrace(producers: nat, capacity: nat, steps: seq<Step>, s: Sys, mem: Bytes)
    requires 0 < capacity && Reachable(producers, capacity, steps, s) && !s.failed && !s.pc.Exited?
    requires |mem| == Reader.PAGE_AND_PEEK
    ensures FlushedFile(s.log) == Concat(Datas(Handled(s)))
    ensures (exists n: nat :: ReaderExact.Replays(Datas(Handled(s)), mem, n))
       <==> ReaderExact.PageAligned(Datas(Handled(s)))
  {
    RunInv(producers, capacity, steps);
    TraceFileHoldsHandled(producers, capacity, steps, s);
    HandledPrefix(s);
    DatasFramed(Handled(s));
    ReaderExact.ReplaysIffAligned(Datas(Handled(s)), mem);
  }

  // ----- the operations -----

  function DecodeAll(recs: seq<Bytes>, stacks: seq<Bytes>): (ops: seq<Op>)
    requires |recs| == |stacks|
    ensures |ops| == |recs|
  {
    seq(|recs|, i requires 0 <= i < |recs| => DecodeOp(recs[i], stacks[i]))
  }

  function OpsOf(evs: seq<Event>): (ops: seq<Op>)
    ensures |ops| == |evs|
  {
    seq(|evs|, i requires 0 <= i < |evs| => OpOf(evs[i]))
  }

  /** The operations that the records of the events decode to. */
  function ReplayedOps(evs: seq<Event>, stacks: seq<Bytes>): (ops: seq<Op>)
    requires |evs| == |stacks|
    ensures |ops| == |evs|
  {
    seq(|evs|, i requires 0 <= i < |evs| => ReplayedAs(evs[i], stacks[i]))
  }

  ghost predicate AllFaithful(evs: seq<Event>, stacks: seq<Bytes>)
    requires |evs| == |stacks|
  {
    forall i :: 0 <= i < |evs| ==> Faithful(evs[i], stacks[i])
  }

  lemma RecordsDecode(ms: seq<Record>, evs: seq<Event>, mems: seq<Bytes>, stacks: seq<Bytes>)
    requires Carries(ms, evs, mems) && |evs| == |stacks|
    ensures DecodeAll(Datas(ms), stacks) == ReplayedOps(evs, stacks)
  {
    forall i | 0 <= i < |evs|
      ensures DecodeOp(Datas(ms)[i], stacks[i]) == ReplayedAs(evs[i], stacks[i])
    {
      RecordDecodes(evs[i], ms[i].rid, mems[i], stacks[i]);
    }
  }

  lemma RecordsDecodeFaithfullyIff(ms: seq<Record>, evs: seq<Event>, mems: seq<Bytes>, stacks: seq<Bytes>)
    requires Carries(ms, evs, mems) && |evs| == |stacks|
    ensures DecodeAll(Datas(ms), stacks) == OpsOf(evs) <==> AllFaithful(evs, stacks)
  {
    forall i | 0 <= i < |evs|
      ensures DecodeOp(Datas(ms)[i], stacks[i]) == OpOf(evs[i]) <==> Faithful(evs[i], stacks[i])
    {
      DecodesFaithfullyIff(evs[i], ms[i].rid, mems[i], stacks[i]);
    }
    if DecodeAll(Datas(ms), stacks) == OpsOf(evs) {
      forall i | 0 <= i < |evs|
        ensures Faithful(evs[i], stacks[i])
      {
        assert DecodeAll(Datas(ms), stacks)[i] == OpsOf(evs)[i];
      }
    }
  }

  /** What was traced is what is replayed, with the intended rewind: for every interleaving of
      producers and log thread, if the handled records are those of `evs`, the records that the
      intended reader reads from the flushed file decode, in order, to the operations of `evs` as the
      code replays them, and to the traced operations themselves if and only if all are faithful. */
  lemma TracedIsReplayed(producers: nat, capacity: nat, steps: seq<Step>, s: Sys,
                         evs: seq<Event>, mems: seq<Bytes>, stacks: seq<Bytes>)
    requires 0 < capacity && Reachable(producers, capacity, steps, s) && !s.failed && !s.pc.Exited?
    requires Carries(Handled(s), evs, mems) && |evs| == |stacks|
    ensures |ReadAll(FlushedFile(s.log))| == |stacks|
    ensures DecodeAll(ReadAll(FlushedFile(s.log)), stacks) == ReplayedOps(evs, stacks)
    ensures DecodeAll(ReadAll(FlushedFile(s.log)), stacks) == OpsOf(evs) <==> AllFaithful(evs, stacks)
  {
    ReadBackIsAccepted(producers, capacity, steps, s);
    RecordsDecode(Handled(s), evs, mems, stacks);
    RecordsDecodeFaithfullyIff(Handled(s), evs, mems, stacks);
  }

  /** The same for the reader as written, whatever its page held before, on a trace all of whose page
      ends are record boundaries: it finishes, and what it dispatched decodes so. */
  lemma TracedIsReplayedAsWritten(producers: nat, capacity: nat, steps: seq<Step>, s: Sys,
                                  evs: seq<Event>, mems: seq<Bytes>, stacks: seq<Bytes>, page: Bytes)
    returns (n: nat)
    requires 0 < capacity && Reachable(producers, capacity, steps, s) && !s.failed && !s.pc.Exited?
    requires Carries(Handled(s), evs, mems) && |evs| == |stacks|
    requires |page| == Reader.PAGE_AND_PEEK && ReaderExact.PageAligned(Datas(Handled(s)))
    ensures var st := Reader.Run(FlushedFile(s.log), page, n);
            && st.status == Reader.Complete && |st.out| == |stacks|
            && DecodeAll(st.out, stacks) == ReplayedOps(evs, stacks)
            && (DecodeAll(st.out, stacks) == OpsOf(evs) <==> AllFaithful(evs, stacks))
  {
    ReaderAsWrittenOnTrace(producers, capacity, steps, s, page);
    n :| ReaderExact.Replays(Datas(Handled(s)), page, n);
    RecordsDecode(Handled(s), evs, mems, stacks);
    RecordsDecodeFaithfullyIff(Handled(s), evs, mems, stacks);
  }

  // ----- the descriptors -----

  /** What an operation does to the descriptor list, in the state it finds. */
  function UseOf(os: Os, st: State, op: Op): seq<Use> {
    match op
    case OpenOp(path, flags, mode, key) => [Opened(key, os(st.calls + [Replay.Open(path, flags, mode)]))]
    case CloseOp(key) => [Closed(key)]
    case _ => []
  }

  /** The opens, with the descriptors the operating system gave, and the closes of a run. */
  function OpensAndCloses(mode: Mode, os: Os, ops: seq<Op>): seq<Use> {
    if ops == [] then []
    else
      var n := |ops| - 1;
      var st := RunAll(mode, os, ops[..n]);
      OpensAndCloses(mode, os, ops[..n]) + if st.aborted then [] else UseOf(os, st, ops[n])
  }

  lemma UseFollows(mode: Mode, os: Os, st: State, op: Op, uses: seq<Use>)
    requires !st.aborted && st.entries == ListAfter(uses)
    ensures RunOp(mode, os, st, op).entries == ListAfter(uses + UseOf(os, st, op))
  {
    match op
    case OpenOp(_, _, _, _) => assert (uses + UseOf(os, st, op))[..|uses|] == uses;
    case CloseOp(_) => assert (uses + UseOf(os, st, op))[..|uses|] == uses;
    case _ => assert uses + [] == uses;
  }

  lemma {:induction false} EntriesFollow(mode: Mode, os: Os, ops: seq<Op>)
    ensures RunAll(mode, os, ops).entries == ListAfter(OpensAndCloses(mode, os, ops))
    decreases |ops|
  {
    if ops != [] {
      var n := |ops| - 1;
      var st, uses := RunAll(mode, os, ops[..n]), OpensAndCloses(mode, os, ops[..n]);
      EntriesFollow(mode, os, ops[..n]);
      if st.aborted {
        assert uses + [] == uses;
      } else {
        UseFollows(mode, os, st, ops[n], uses);
      }
    }
  }

  /** In every replay, whatever the mode, the descriptor that a read, a write or a close uses is the
      one the operating system gave for the oldest open of its file and process that has not been
      closed, or -1. */
  lemma DescriptorIsOldestOpen(mode: Mode, os: Os, ops: seq<Op>, key: Key)
    ensures var q := QueueOf(OpensAndCloses(mode, os, ops), key);
            Lookup(RunAll(mode, os, ops).entries, key) == if q == [] then -1 else q[0]
  {
    EntriesFollow(mode, os, ops);
    ListIsQueuePerKey(OpensAndCloses(mode, os, ops), key);
  }

  // ----- the calls -----

  /** The system call that repeats an event, on the descriptor `fd` where it takes one. */
  function CallOf(e: Event, fd: int): Call {
    match e
    case OpenEv(flags, mode, _, _, _, name) => Replay.Open(name, flags, mode)
    case ReadEv(_, _, count, _, _, _) => Replay.Read(fd, count)
    case WriteEv(_, _, _, _, _, payload) => Replay.Write(fd, payload)
    case CloseEv(_, _, _, _) => Replay.Close(fd)
    case MkdirEv(dmode, _, name) => Replay.Mkdir(name, dmode)
    case RmdirEv(_, name) => Replay.Rmdir(name)
    case UnlinkEv(_, name) => Replay.Unlink(name)
    case LinkEv(_, name, newName) => Replay.Link(name, newName)
    case SymlinkEv(_, name, target) => Replay.Symlink(target, name)
    case RenameEv(_, name, newName) => Replay.Rename(name, newName)
  }

  /** The calls that the record of an event makes on replay: one, but none for a symlink whose target
      does not fit.  A link's new name is cut to the length of the old one, and rename's first path
      runs on into what its buffer held. */
  function CallsFor(e: Event, stack: Bytes, fd: int): seq<Call> {
    match e
    case LinkEv(_, name, newName) => [Replay.Link(name, Cut(newName, |name|))]
    case SymlinkEv(_, name, target) => if |target| < PATH_MAX then [Replay.Symlink(target, name)] else []
    case RenameEv(_, name, newName) => [Replay.Rename(name + CStr(Leftover(name, stack)), newName)]
    case _ => [CallOf(e, fd)]
  }

  function CallsForAll(evs: seq<Event>, stacks: seq<Bytes>, fds: seq<int>): seq<Call>
    requires |evs| == |stacks| == |fds|
  {
    if evs == [] then []
    else
      var n := |evs| - 1;
      CallsForAll(evs[..n], stacks[..n], fds[..n]) + CallsFor(evs[n], stacks[n], fds[n])
  }

  ghost predicate TakesDescriptor(e: Event) { e.ReadEv? || e.WriteEv? || e.CloseEv? }

  /** The descriptor of the oldest open, among `ops`, of the event's file and process that has not
      been closed, or -1. */
  ghost function DescriptorFor(os: Os, ops: seq<Op>, e: Event): int {
    if TakesDescriptor(e) then
      var q := QueueOf(OpensAndCloses(Plain, os, ops), Key(e.addr, Signed(e.pid)));
      if q == [] then -1 else q[0]
    else -1
  }

  /** The descriptors of all the events, each among the events before it. */
  ghost function Descriptors(os: Os, evs: seq<Event>, stacks: seq<Bytes>): (fds: seq<int>)
    requires |evs| == |stacks|
    ensures |fds| == |evs|
  {
    if evs == [] then []
    else
      var n := |evs| - 1;
      Descriptors(os, evs[..n], stacks[..n]) + [DescriptorFor(os, ReplayedOps(evs[..n], stacks[..n]), evs[n])]
  }

  lemma CallWith(entries: seq<Entry>, e: Event, stack: Bytes, fd: int)
    requires TakesDescriptor(e) ==> Lookup(entries, Key(e.addr, Signed(e.pid))) == fd
    ensures CallFor(entries, ReplayedAs(e, stack)) == CallsFor(e, stack, fd)
  {
  }

  lemma NextCall(os: Os, st: State, op: Op, calls: seq<Call>)
    requires !st.aborted && CallFor(st.entries, op) == calls
    ensures RunOp(Plain, os, st, op).calls == st.calls + calls
  {
  }

  lemma {:induction false} CallsFollow(os: Os, evs: seq<Event>, stacks: seq<Bytes>)
    requires |evs| == |stacks|
    ensures RunAll(Plain, os, ReplayedOps(evs, stacks)).calls == CallsForAll(evs, stacks, Descriptors(os, evs, stacks))
    decreases |evs|
  {
    if evs != [] {
      var n := |evs| - 1;
      var e, stack, ops := evs[n], stacks[n], ReplayedOps(evs[..n], stacks[..n]);
      var st, fd := RunAll(Plain, os, ops), DescriptorFor(os, ops, e);
      var fds := Descriptors(os, evs[..n], stacks[..n]);
      CallsFollow(os, evs[..n], stacks[..n]);
      CheckIsPlain(os, ops);
      if TakesDescriptor(e) {
        DescriptorIsOldestOpen(Plain, os, ops, Key(e.addr, Signed(e.pid)));
      }
      CallWith(st.entries, e, stack, fd);
      NextCall(os, st, ReplayedAs(e, stack), CallsFor(e, stack, fd));
      RunLast(os, evs, stacks);
      assert (fds + [fd])[..n] == fds;
    }
  }

  lemma RunLast(os: Os, evs: seq<Event>, stacks: seq<Bytes>)
    requires |evs| == |stacks| && evs != []
    ensures var n := |evs| - 1;
            RunAll(Plain, os, ReplayedOps(evs, stacks)) ==
            RunOp(Plain, os, RunAll(Plain, os, ReplayedOps(evs[..n], stacks[..n])), ReplayedAs(evs[n], stacks[n]))
  {
    var n := |evs| - 1;
    assert ReplayedOps(evs, stacks)[..n] == ReplayedOps(evs[..n], stacks[..n]);
  }

  lemma {:induction false} DescriptorsPrefix(os: Os, evs: seq<Event>, stacks: seq<Bytes>, n: nat)
    requires |evs| == |stacks| && n <= |evs|
    ensures Descriptors(os, evs, stacks)[..n] == Descriptors(os, evs[..n], stacks[..n])
    decreases |evs|
  {
    if n == |evs| {
      assert evs[..n] == evs && stacks[..n] == stacks;
    } else {
      var m := |evs| - 1;
      DescriptorsPrefix(os, evs[..m], stacks[..m], n);
      assert evs[..m][..n] == evs[..n] && stacks[..m][..n] == stacks[..n];
    }
  }

  /** The calls of a run in any mode are those of the first `m` events, of all unless it was aborted. */
  lemma CallsInMode(mode: Mode, os: Os, evs: seq<Event>, stacks: seq<Bytes>) returns (m: nat)
    requires |evs| == |stacks|
    ensures m <= |evs| && (!RunAll(mode, os, ReplayedOps(evs, stacks)).aborted ==> m == |evs|)
    ensures RunAll(mode, os, ReplayedOps(evs, stacks)).calls ==
            CallsForAll(evs[..m], stacks[..m], Descriptors(os, evs, stacks)[..m])
  {
    var ops := ReplayedOps(evs, stacks);
    m := |evs|;
    CheckIsPlain(os, ops);
    assert ops[..|evs|] == ops;
    if mode == Strict {
      var k := StrictIsPrefix(os, ops);
      m := if k < |evs| then k + 1 else k;
    }
    CallsFollow(os, evs[..m], stacks[..m]);
    DescriptorsPrefix(os, evs, stacks, m);
    assert ReplayedOps(evs[..m], stacks[..m]) == ops[..m];
  }

  /** The calls are those of the events, one each, with the traced arguments. */
  ghost predicate Repeats(calls: seq<Call>, evs: seq<Event>, fds: seq<int>) {
    |calls| == |evs| == |fds| && forall i :: 0 <= i < |evs| ==> calls[i] == CallOf(evs[i], fds[i])
  }

  lemma FaithfulCall(e: Event, stack: Bytes, fd: int)
    requires Faithful(e, stack)
    ensures CallsFor(e, stack, fd) == [CallOf(e, fd)]
  {
    match e
    case LinkEv(_, name, newName) => WholeCut(newName);
    case RenameEv(_, name, _) => assert name + [] == name;
    case _ =>
  }

  lemma {:induction false} FaithfulCalls(evs: seq<Event>, stacks: seq<Bytes>, fds: seq<int>)
    requires |evs| == |stacks| == |fds| && AllFaithful(evs, stacks)
    ensures Repeats(CallsForAll(evs, stacks, fds), evs, fds)
    decreases |evs|
  {
    if evs != [] {
      var n := |evs| - 1;
      FaithfulCalls(evs[..n], stacks[..n], fds[..n]);
      FaithfulCall(evs[n], stacks[n], fds[n]);
    }
  }

  /** The calls of a run are those of the first `m` events, in order, and of all unless the run was
      aborted; where all events are faithful, they are the traced calls, one each. */
  ghost predicate RepeatsCalls(st: State, os: Os, evs: seq<Event>, stacks: seq<Bytes>, m: nat)
    requires |evs| == |stacks|
  {
    var fds := Descriptors(os, evs, stacks);
    && m <= |evs| && (!st.aborted ==> m == |evs|)
    && st.calls == CallsForAll(evs[..m], stacks[..m], fds[..m])
    && (AllFaithful(evs, stacks) ==> Repeats(st.calls, evs[..m], fds[..m]))
  }

  lemma ReplayRepeatsCalls(mode: Mode, os: Os, ops: seq<Op>, evs: seq<Event>, stacks: seq<Bytes>) returns (m: nat)
    requires |evs| == |stacks| && ops == ReplayedOps(evs, stacks)
    ensures RepeatsCalls(RunAll(mode, os, ops), os, evs, stacks, m)
  {
    m := CallsInMode(mode, os, evs, stacks);
    if AllFaithful(evs, stacks) {
      FaithfulCalls(evs[..m], stacks[..m], Descriptors(os, evs, stacks)[..m]);
    }
  }

  /** For every interleaving, mode and operating system, replaying the flushed file, read with the
      intended rewind, makes the calls of the events in order, of all unless -s ends the run, each
      file operation on the descriptor that the oldest open of its file and process was given on
      replay; where all events are faithful, these are the traced calls, one each. */
  lemma TracedCallsAreRepeated(producers: nat, capacity: nat, steps: seq<Step>, s: Sys, evs: seq<Event>,
                               mems: seq<Bytes>, stacks: seq<Bytes>, mode: Mode, os: Os)
    returns (m: nat)
    requires 0 < capacity && Reachable(producers, capacity, steps, s) && !s.failed && !s.pc.Exited?
    requires Carries(Handled(s), evs, mems) && |evs| == |stacks|
    ensures |ReadAll(FlushedFile(s.log))| == |stacks|
    ensures RepeatsCalls(RunAll(mode, os, DecodeAll(ReadAll(FlushedFile(s.log)), stacks)), os, evs, stacks, m)
  {
    TracedIsReplayed(producers, capacity, steps, s, evs, mems, stacks);
    m := ReplayRepeatsCalls(mode, os, DecodeAll(ReadAll(FlushedFile(s.log)), stacks), evs, stacks);
  }

  /** The same for the reader as written, on a trace all of whose page ends are record boundaries. */
  lemma TracedCallsAreRepeatedAsWritten(producers: nat, capacity: nat, steps: seq<Step>, s: Sys, evs: seq<Event>,
                                        mems: seq<Bytes>, stacks: seq<Bytes>, page: Bytes, mode: Mode, os: Os)
    returns (n: nat, m: nat)
    requires 0 < capacity && Reachable(producers, capacity, steps, s) && !s.failed && !s.pc.Exited?
    requires Carries(Handled(s), evs, mems) && |evs| == |stacks|
    requires |page| == Reader.PAGE_AND_PEEK && ReaderExact.PageAligned(Datas(Handled(s)))
    ensures var st := Reader.Run(FlushedFile(s.log), page, n);
            && st.status == Reader.Complete && |st.out| == |stacks|
            && RepeatsCalls(RunAll(mode, os, DecodeAll(st.out, stacks)), os, evs, stacks, m)
  {
    n := TracedIsReplayedAsWritten(producers, capacity, steps, s, evs, mems, stacks, page);
    m := ReplayRepeatsCalls(mode, os, DecodeAll(Reader.Run(FlushedFile(s.log), page, n).out, stacks), evs, stacks);
  }
}
