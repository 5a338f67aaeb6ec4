/** Replaying decoded records: the system calls issued, the descriptor list and the three modes. */
module Replay {
  import opened Framing
  import opened Omap
  import opened Decoding

  /** treplay without a flag, with -n and with -s. */
  datatype Mode = Plain | Check | Strict

  datatype Call =
    | Mkdir(path: Bytes, dmode: int)
    | Rmdir(path: Bytes)
    | Unlink(path: Bytes)
    | Link(from: Bytes, to: Bytes)
    | Symlink(target: Bytes, path: Bytes)
    | Rename(from: Bytes, to: Bytes)
    | Open(path: Bytes, flags: int, mode: nat)
    | Read(fd: int, count: nat)
    | Write(fd: int, data: Bytes)
    | Close(fd: int)

  /** The operating system: the result of the last call of a history. */
  type Os = seq<Call> -> int

  /** What is printed, the paths in it apart. */
  datatype Line = Success | CanBeReplayed | Failure | Aborting | OpenedFile | ReadingFile | WritingFile | ClosingFile

  /** The descriptor list, the calls issued and the lines printed so far, and whether the run was aborted. */
  datatype State = State(entries: seq<Entry>, calls: seq<Call>, output: seq<Line>, aborted: bool)

  const START := State([], [], [], false)

  /** The call an operation makes, if any. */
  function CallFor(entries: seq<Entry>, op: Op): (calls: seq<Call>) {
    match op
    case MkdirOp(path, dmode, _) => [Mkdir(path, dmode)]
    case RmdirOp(path, _) => [Rmdir(path)]
    case UnlinkOp(path, _) => [Unlink(path)]
    case LinkOp(from, to, _) => [Link(from, to)]
    case SymlinkOp(target, path, _) => [Symlink(target, path)]
    case RenameOp(from, to, _) => [Rename(from, to)]
    case OpenOp(path, flags, mode, _) => [Open(path, flags, mode)]
    case ReadOp(key, count, _) => [Read(Lookup(entries, key), count)]
    case WriteOp(key, data) => [Write(Lookup(entries, key), data)]
    case CloseOp(key) => [Close(Lookup(entries, key))]
    case TruncateOp => []
    case Skipped => []
    case Overrun => []
  }

  /** Whether the replay function compares the result with a recorded one. */
  predicate Compares(op: Op) {
    match op
    case OpenOp(_, _, _, _) => false
    case CloseOp(_) => false
    case TruncateOp => false
    case Skipped => false
    case Overrun => false
    case _ => true
  }

  /** What the result is compared with: a write compares with the count, the others with the recorded result. */
  function Recorded(op: Op): int
    requires Compares(op)
  {
    if op.WriteOp? then |op.data| else op.ret
  }

  /** How `MAP_RETVAL` ends: the replay function goes on, returns, or the program exits. */
  datatype Next = GoOn | Return | Exit

  /** `MAP_RETVAL`: what it prints and how it ends. */
  function AfterRetval(mode: Mode, agree: bool): (seq<Line>, Next) {
    if agree then
      if mode == Check then ([Success, CanBeReplayed], Return) else ([Success], GoOn)
    else if mode == Strict then ([Failure, Aborting], Exit)
    else ([Failure], GoOn)
  }

  /** What the replay function prints last. */
  function Trailer(op: Op): seq<Line> {
    match op
    case OpenOp(_, _, _, _) => [OpenedFile]
    case ReadOp(_, _, _) => [ReadingFile]
    case WriteOp(_, _) => [WritingFile]
    case CloseOp(_) => [ClosingFile]
    case _ => []
  }

  function NewEntries(entries: seq<Entry>, op: Op, result: int): seq<Entry> {
    match op
    case OpenOp(_, _, _, key) => entries + [Entry(result, key)]
    case CloseOp(key) => DeleteFirst(entries, key)
    case _ => entries
  }

  /** One record replayed. */
  function RunOp(mode: Mode, os: Os, st: State, op: Op): State {
    if st.aborted then st
    else
      var calls := st.calls + CallFor(st.entries, op);
      var result := os(calls);
      var entries := NewEntries(st.entries, op, result);
      if Compares(op) then
        var (lines, next) := AfterRetval(mode, result == Recorded(op));
        State(entries, calls, st.output + lines + (if next == GoOn then Trailer(op) else []), next == Exit)
      else State(entries, calls, st.output + Trailer(op), false)
  }

  function RunAll(mode: Mode, os: Os, ops: seq<Op>): State {
    if ops == [] then START else RunOp(mode, os, RunAll(mode, os, ops[..|ops| - 1]), ops[|ops| - 1])
  }

  /** The replay program's state. */
  class Replayer {
    const mode: Mode
    const os: Os
    const omap: List
    var calls: seq<Call>
    var output: seq<Line>
    var exited: bool

    ghost predicate Valid()
      reads this, omap, omap.spine
    {
      omap.Valid()
    }

    ghost function View(): State
      reads this, omap, omap.spine
    {
      State(omap.Entries(), calls, output, exited)
    }

    constructor (mode: Mode, os: Os)
      ensures Valid() && View() == START && this.mode == mode && this.os == os && fresh(omap) && fresh(omap.spine)
    {
      this.mode, this.os := mode, os;
      omap := new List();
      calls, output, exited := [], [], false;
    }

    /** A system call. */
    method Syscall(c: Call) returns (result: int)
      requires Valid()
      modifies this`calls
      ensures Valid() && omap.Entries() == old(omap.Entries())
      ensures calls == old(calls) + [c] && result == os(calls)
    {
      calls := calls + [c];
      result := os(calls);
    }

    method Printf(line: Line)
      requires Valid()
      modifies this`output
      ensures Valid() && omap.Entries() == old(omap.Entries())
      ensures output == old(output) + [line]
    {
      output := output + [line];
    }

    /** `MAP_RETVAL`. */
    method MapRetval(r1: int, r2: int) returns (next: Next)
      requires Valid() && !exited
      modifies this`output, this`exited
      ensures Valid() && omap.Entries() == old(omap.Entries())
      ensures var (lines, end) := AfterRetval(mode, r1 == r2); output == old(output) + lines && next == end
      ensures exited == next.Exit?
    {
      if r1 == r2 {
        Printf(Success);
        if mode == Check {
          Printf(CanBeReplayed);
          assert output == old(output) + [Success, CanBeReplayed];
          return Return;
        }
      } else {
        Printf(Failure);
        if mode == Strict {
          Printf(Aborting);
          assert output == old(output) + [Failure, Aborting];
          exited := true;
          return Exit;
        }
      }
      return GoOn;
    }

    /** mkdir, rmdir, unlink, link, symlink and rename: the call and the comparison. */
    method RunPathOp(op: Op)
      requires Valid() && !exited
      requires op.MkdirOp? || op.RmdirOp? || op.UnlinkOp? || op.LinkOp? || op.SymlinkOp? || op.RenameOp?
      modifies this`calls, this`output, this`exited
      ensures View() == RunOp(mode, os, old(View()), op)
    {
      var ret := Syscall(CallFor([], op)[0]);
      var _ := MapRetval(ret, op.ret);
    }

    method RunOpen(op: Op)
      requires Valid() && !exited && op.OpenOp?
      modifies this`calls, this`output, omap, omap.spine
      ensures Valid() && View() == RunOp(mode, os, old(View()), op)
      ensures forall n :: n in omap.spine ==> n in old(omap.spine) || fresh(n)
    {
      var ret := Syscall(Open(op.path, op.flags, op.mode));
      omap.Add(ret, op.key.addr, op.key.pid);
      assert omap.Entries() == NewEntries(old(omap.Entries()), op, ret);
      Printf(OpenedFile);
    }

    method RunRead(op: Op)
      requires Valid() && !exited && op.ReadOp?
      modifies this`calls, this`output, this`exited
      ensures View() == RunOp(mode, os, old(View()), op)
    {
      var fd := omap.GetFd(op.key.addr, op.key.pid);
      var bytes := Syscall(Read(fd, op.count));
      var next := MapRetval(bytes, op.ret);
      if next == GoOn {
        Printf(ReadingFile);
      }
    }

    method RunWrite(op: Op)
      requires Valid() && !exited && op.WriteOp?
      modifies this`calls, this`output, this`exited
      ensures View() == RunOp(mode, os, old(View()), op)
    {
      var fd := omap.GetFd(op.key.addr, op.key.pid);
      var bytes := Syscall(Write(fd, op.data));
      var next := MapRetval(bytes, |op.data|);
      if next == GoOn {
        Printf(WritingFile);
      }
    }

    method RunClose(op: Op)
      requires Valid() && !exited && op.CloseOp?
      modifies this`calls, this`output, omap, omap.spine
      ensures Valid() && View() == RunOp(mode, os, old(View()), op)
      ensures forall n :: n in omap.spine ==> n in old(omap.spine) || fresh(n)
    {
      var fd := omap.GetFd(op.key.addr, op.key.pid);
      omap.Delete(op.key.addr, op.key.pid);
      var _ := Syscall(Close(fd));
      Printf(ClosingFile);
    }

    /** The switch over the record's type. */
    method Dispatch(op: Op)
      requires Valid() && !exited
      modifies this, omap, omap.spine
      ensures Valid() && View() == RunOp(mode, os, old(View()), op)
      ensures forall n :: n in omap.spine ==> n in old(omap.spine) || fresh(n)
    {
      match op
      case OpenOp(_, _, _, _) => RunOpen(op);
      case ReadOp(_, _, _) => RunRead(op);
      case WriteOp(_, _) => RunWrite(op);
      case CloseOp(_) => RunClose(op);
      case TruncateOp => NoCall(View(), op);
      case Skipped => NoCall(View(), op);
      case Overrun => NoCall(View(), op);
      case _ => RunPathOp(op);
    }

    lemma NoCall(st: State, op: Op)
      requires !st.aborted && (op.TruncateOp? || op.Skipped? || op.Overrun?)
      ensures RunOp(mode, os, st, op) == st
    {
      assert st.calls + [] == st.calls && st.output + [] == st.output;
    }

    method Replay(ops: seq<Op>)
      requires Valid() && View() == START
      modifies this, omap, omap.spine
      ensures Valid() && View() == RunAll(mode, os, ops)
    {
      var i := 0;
      while i < |ops| && !exited
        invariant 0 <= i <= |ops| && Valid() && View() == RunAll(mode, os, ops[..i])
        invariant forall n :: n in omap.spine ==> n in old(omap.spine) || fresh(n)
      {
        assert forall i :: 0 <= i < |omap.spine| ==> omap.spine[i] in old(omap.spine) || fresh(omap.spine[i]);
        Dispatch(ops[i]);
        RunNext(mode, os, ops, i);
        i := i + 1;
      }
      if i < |ops| {
        AbortedStays(mode, os, ops, i, |ops|);
      }
      assert ops[..|ops|] == ops;
    }
  }

  lemma RunNext(mode: Mode, os: Os, ops: seq<Op>, i: nat)
    requires i < |ops|
    ensures RunAll(mode, os, ops[..i + 1]) == RunOp(mode, os, RunAll(mode, os, ops[..i]), ops[i])
  {
    assert ops[..i + 1][..i] == ops[..i];
  }

  lemma {:induction false} AbortedStays(mode: Mode, os: Os, ops: seq<Op>, i: nat, n: nat)
    requires i <= n <= |ops| && RunAll(mode, os, ops[..i]).aborted
    ensures RunAll(mode, os, ops[..n]) == RunAll(mode, os, ops[..i])
    decreases n - i
  {
    if i < n {
      AbortedStays(mode, os, ops, i, n - 1);
      assert ops[..n][..n - 1] == ops[..n - 1];
    }
  }

  // ----- the comparisons -----

  /** The result that record `i` gets in a run that nothing aborts. */
  ghost function ResultAt(os: Os, ops: seq<Op>, i: nat): int
    requires i < |ops|
  {
    var st := RunAll(Plain, os, ops[..i]);
    os(st.calls + CallFor(st.entries, ops[i]))
  }

  ghost predicate AgreesAt(os: Os, ops: seq<Op>, i: nat)
    requires i < |ops|
  {
    Compares(ops[i]) && ResultAt(os, ops, i) == Recorded(ops[i])
  }

  ghost predicate FailsAt(os: Os, ops: seq<Op>, i: nat)
    requires i < |ops|
  {
    Compares(ops[i]) && ResultAt(os, ops, i) != Recorded(ops[i])
  }

  // ----- with -n -----

  /** The same calls, the same list, and neither run aborted. */
  ghost predicate SameRun(c: State, p: State) {
    c.calls == p.calls && c.entries == p.entries && !c.aborted && !p.aborted
  }

  lemma CheckStep(os: Os, c: State, p: State, op: Op)
    requires SameRun(c, p)
    ensures SameRun(RunOp(Check, os, c, op), RunOp(Plain, os, p, op))
  {
  }

  /** For every trace and operating system, -n makes the calls and keeps the list of a run without
      a flag, although it leaves a replay function early, and neither exits. */
  lemma {:induction false} CheckIsPlain(os: Os, ops: seq<Op>)
    ensures SameRun(RunAll(Check, os, ops), RunAll(Plain, os, ops))
    decreases |ops|
  {
    if ops != [] {
      var n := |ops| - 1;
      CheckIsPlain(os, ops[..n]);
      CheckStep(os, RunAll(Check, os, ops[..n]), RunAll(Plain, os, ops[..n]), ops[n]);
    }
  }

  /** What record `i` of a run prints. */
  ghost predicate Prints(mode: Mode, os: Os, ops: seq<Op>, i: nat, lines: seq<Line>)
    requires i < |ops|
  {
    RunAll(mode, os, ops[..i + 1]).output == RunAll(mode, os, ops[..i]).output + lines
  }

  ghost function CheckLines(os: Os, ops: seq<Op>, i: nat): seq<Line>
    requires i < |ops|
  {
    if AgreesAt(os, ops, i) then [Success, CanBeReplayed] else PlainLines(os, ops, i)
  }

  ghost function PlainLines(os: Os, ops: seq<Op>, i: nat): seq<Line>
    requires i < |ops|
  {
    if AgreesAt(os, ops, i) then [Success] + Trailer(ops[i])
    else if FailsAt(os, ops, i) then [Failure] + Trailer(ops[i])
    else Trailer(ops[i])
  }

  lemma PlainPrints(os: Os, ops: seq<Op>, i: nat)
    requires i < |ops|
    ensures Prints(Plain, os, ops, i, PlainLines(os, ops, i))
  {
    RunNext(Plain, os, ops, i);
    CheckIsPlain(os, ops[..i]);
    var out := RunAll(Plain, os, ops[..i]).output;
    Grouped(out, [Success], Trailer(ops[i]));
    Grouped(out, [Failure], Trailer(ops[i]));
  }

  lemma CheckPrints(os: Os, ops: seq<Op>, i: nat)
    requires i < |ops|
    ensures Prints(Check, os, ops, i, CheckLines(os, ops, i))
  {
    RunNext(Check, os, ops, i);
    CheckIsPlain(os, ops[..i]);
    var out := RunAll(Check, os, ops[..i]).output;
    Grouped(out, [Failure], Trailer(ops[i]));
    Grouped(out, [Success, CanBeReplayed], []);
  }

  lemma Grouped(a: seq<Line>, b: seq<Line>, c: seq<Line>)
    ensures a + b + c == a + (b + c)
    ensures c == [] ==> a + b + c == a + b
  {
  }

  /** Record `i` prints the same with -n and without a flag if and only if its comparison, if it
      makes one, fails. */
  lemma PrintsAlikeIff(os: Os, ops: seq<Op>, i: nat, lines: seq<Line>)
    requires i < |ops| && Prints(Plain, os, ops, i, lines)
    ensures Prints(Check, os, ops, i, lines) <==> !AgreesAt(os, ops, i)
  {
    PlainPrints(os, ops, i);
    CheckPrints(os, ops, i);
    SameLines(RunAll(Plain, os, ops[..i]).output, lines, PlainLines(os, ops, i));
    var out := RunAll(Check, os, ops[..i]).output;
    if Prints(Check, os, ops, i, lines) {
      SameLines(out, lines, CheckLines(os, ops, i));
      Marked(os, ops, i);
    }
  }

  lemma SameLines(out: seq<Line>, a: seq<Line>, b: seq<Line>)
    requires out + a == out + b
    ensures a == b
  {
    assert a == (out + a)[|out|..];
    assert b == (out + b)[|out|..];
  }

  /** With -n an agreeing comparison, and nothing else, prints that the operation can be replayed. */
  lemma Marked(os: Os, ops: seq<Op>, i: nat)
    requires i < |ops|
    ensures CanBeReplayed !in PlainLines(os, ops, i)
    ensures CanBeReplayed in CheckLines(os, ops, i) <==> AgreesAt(os, ops, i)
  {
    if AgreesAt(os, ops, i) {
      assert CheckLines(os, ops, i)[1] == CanBeReplayed;
    }
  }

  ghost predicate SomeAgrees(os: Os, ops: seq<Op>, n: nat)
    requires n <= |ops|
  {
    exists i :: 0 <= i < n && AgreesAt(os, ops, i)
  }

  lemma SomeAgreesNext(os: Os, ops: seq<Op>, n: nat)
    requires n < |ops|
    ensures SomeAgrees(os, ops, n + 1) <==> SomeAgrees(os, ops, n) || AgreesAt(os, ops, n)
  {
    if SomeAgrees(os, ops, n) {
      var i :| 0 <= i < n && AgreesAt(os, ops, i);
      assert i < n + 1;
    }
  }

  lemma InEither(out: seq<Line>, lines: seq<Line>)
    ensures CanBeReplayed in out + lines <==> CanBeReplayed in out || CanBeReplayed in lines
  {
  }

  /** After `n` records: the plain output never says that an operation can be replayed, and the output
      with -n does just when some comparison has agreed. */
  ghost predicate MarkedAt(os: Os, ops: seq<Op>, n: nat)
    requires n <= |ops|
  {
    && CanBeReplayed !in RunAll(Plain, os, ops[..n]).output
    && (CanBeReplayed in RunAll(Check, os, ops[..n]).output <==> SomeAgrees(os, ops, n))
  }

  lemma MarkedNext(os: Os, ops: seq<Op>, n: nat)
    requires n < |ops| && MarkedAt(os, ops, n)
    ensures MarkedAt(os, ops, n + 1)
  {
    PlainPrints(os, ops, n);
    CheckPrints(os, ops, n);
    Marked(os, ops, n);
    SomeAgreesNext(os, ops, n);
    InEither(RunAll(Plain, os, ops[..n]).output, PlainLines(os, ops, n));
    InEither(RunAll(Check, os, ops[..n]).output, CheckLines(os, ops, n));
  }

  lemma {:induction false} MarkedOutput(os: Os, ops: seq<Op>, n: nat)
    requires n <= |ops|
    ensures MarkedAt(os, ops, n)
    decreases n
  {
    if n > 0 {
      MarkedOutput(os, ops, n - 1);
      MarkedNext(os, ops, n - 1);
    }
  }

  lemma {:induction false} AlikeWithout(os: Os, ops: seq<Op>, n: nat)
    requires n <= |ops| && forall i :: 0 <= i < n ==> !AgreesAt(os, ops, i)
    ensures RunAll(Check, os, ops[..n]).output == RunAll(Plain, os, ops[..n]).output
    decreases n
  {
    if n > 0 {
      AlikeWithout(os, ops, n - 1);
      PlainPrints(os, ops, n - 1);
      CheckPrints(os, ops, n - 1);
    }
  }

  /** The whole output is the same with -n and without a flag if and only if no comparison agrees. */
  lemma OutputAlikeIff(os: Os, ops: seq<Op>)
    ensures RunAll(Check, os, ops).output == RunAll(Plain, os, ops).output
       <==> !SomeAgrees(os, ops, |ops|)
  {
    assert ops[..|ops|] == ops;
    MarkedOutput(os, ops, |ops|);
    if !SomeAgrees(os, ops, |ops|) {
      AlikeWithout(os, ops, |ops|);
    }
  }

  // ----- with -s -----

  lemma {:induction false} StrictUntil(os: Os, ops: seq<Op>, n: nat)
    requires n <= |ops| && !RunAll(Strict, os, ops[..n]).aborted
    ensures RunAll(Strict, os, ops[..n]) == RunAll(Plain, os, ops[..n])
    decreases n
  {
    if n > 0 {
      RunNext(Strict, os, ops, n - 1);
      RunNext(Plain, os, ops, n - 1);
      StrictUntil(os, ops, n - 1);
    }
  }

  /** In every mode, the record that ends a run is one that compares, and whose comparison fails: no
      open, no close, no truncate and none that is not dispatched; and only -s ends a run. */
  lemma OnlyComparisonsAbort(mode: Mode, os: Os, ops: seq<Op>, i: nat)
    requires i < |ops| && !RunAll(mode, os, ops[..i]).aborted
    ensures RunAll(mode, os, ops[..i + 1]).aborted <==> mode == Strict && FailsAt(os, ops, i)
    ensures RunAll(mode, os, ops[..i + 1]).aborted ==> Compares(ops[i])
  {
    RunNext(mode, os, ops, i);
    if mode == Strict {
      StrictUntil(os, ops, i);
    }
  }

  /** `k` is the first record whose comparison fails, or the length of the trace. */
  ghost predicate StopsAt(os: Os, ops: seq<Op>, k: nat) {
    && k <= |ops|
    && (forall i :: 0 <= i < k ==> !FailsAt(os, ops, i))
    && (k < |ops| ==> FailsAt(os, ops, k))
  }

  lemma {:induction false} FirstFailure(os: Os, ops: seq<Op>, n: nat) returns (k: nat)
    requires n <= |ops| && forall i :: 0 <= i < n ==> !FailsAt(os, ops, i)
    ensures StopsAt(os, ops, k)
    decreases |ops| - n
  {
    if n == |ops| || FailsAt(os, ops, n) {
      k := n;
    } else {
      k := FirstFailure(os, ops, n + 1);
    }
  }

  lemma {:induction false} StrictRunsTo(os: Os, ops: seq<Op>, n: nat)
    requires n <= |ops| && forall i :: 0 <= i < n ==> !FailsAt(os, ops, i)
    ensures !RunAll(Strict, os, ops[..n]).aborted
    decreases n
  {
    if n > 0 {
      StrictRunsTo(os, ops, n - 1);
      OnlyComparisonsAbort(Strict, os, ops, n - 1);
    }
  }

  /** The plain run of the first `k` records, the call of the next, and the words of the abort. */
  ghost function CutAfter(os: Os, ops: seq<Op>, k: nat): State
    requires k < |ops|
  {
    var p := RunAll(Plain, os, ops[..k]);
    State(p.entries, p.calls + CallFor(p.entries, ops[k]), p.output + [Failure, Aborting], true)
  }

  lemma CutHere(os: Os, ops: seq<Op>, k: nat)
    requires k < |ops| && FailsAt(os, ops, k) && !RunAll(Strict, os, ops[..k]).aborted
    ensures RunAll(Strict, os, ops[..k + 1]) == CutAfter(os, ops, k)
    ensures RunAll(Plain, os, ops[..k + 1]).calls == CutAfter(os, ops, k).calls
    ensures RunAll(Plain, os, ops[..k + 1]).entries == CutAfter(os, ops, k).entries
  {
    StrictUntil(os, ops, k);
    RunNext(Strict, os, ops, k);
    RunNext(Plain, os, ops, k);
    Grouped(RunAll(Plain, os, ops[..k]).output, [Failure, Aborting], []);
  }

  /** For every trace and operating system the run with -s is the plain run, cut right after the
      call of the first record whose comparison fails, if there is one. */
  lemma StrictIsPrefix(os: Os, ops: seq<Op>) returns (k: nat)
    ensures StopsAt(os, ops, k)
    ensures k == |ops| ==> RunAll(Strict, os, ops) == RunAll(Plain, os, ops)
    ensures k < |ops| ==>
              && RunAll(Strict, os, ops) == CutAfter(os, ops, k)
              && RunAll(Strict, os, ops).calls == RunAll(Plain, os, ops[..k + 1]).calls
              && RunAll(Strict, os, ops).entries == RunAll(Plain, os, ops[..k + 1]).entries
  {
    k := FirstFailure(os, ops, 0);
    StrictRunsTo(os, ops, k);
    assert ops[..|ops|] == ops;
    if k == |ops| {
      StrictUntil(os, ops, k);
    } else {
      CutHere(os, ops, k);
      AbortedStays(Strict, os, ops, k + 1, |ops|);
    }
  }
}
