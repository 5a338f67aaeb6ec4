/** What a replay compares, in terms of the traced events. */
module StrictReplay {
  import opened Framing
  import opened LogThread
  import opened Pipeline
  import opened ReaderIntended
  import opened Records
  import opened Decoding
  import opened RoundTrip
  import opened Replay
  import opened TracedRuns
  import opened EndToEnd

  /** Opens and closes are not compared, nor is a symlink that makes no call. */
  predicate Compared(e: Event) {
    match e
    case OpenEv(_, _, _, _, _, _) => false
    case CloseEv(_, _, _, _) => false
    case SymlinkEv(_, _, target) => |target| < 256
    case _ => true
  }

  /** A write is compared with the bytes it was given, everything else with the traced result. */
  function TracedResult(e: Event): int {
    if e.WriteEv? then |e.payload| else e.ret
  }

  /** What the operating system answers to the call of record `i`, in a run that nothing aborts. */
  ghost function AnswerAt(os: Os, evs: seq<Event>, stacks: seq<Bytes>, i: nat): int
    requires |evs| == |stacks| && i < |evs|
  {
    os(RunAll(Plain, os, ReplayedOps(evs, stacks)[..i + 1]).calls)
  }

  /** The operating system does to record `i` what it did when it was traced, as far as replay looks. */
  ghost predicate RepeatsAt(os: Os, evs: seq<Event>, stacks: seq<Bytes>, i: nat)
    requires |evs| == |stacks| && i < |evs|
  {
    Compared(evs[i]) ==> AnswerAt(os, evs, stacks, i) == TracedResult(evs[i])
  }

  ghost predicate RepeatsAll(os: Os, evs: seq<Event>, stacks: seq<Bytes>)
    requires |evs| == |stacks|
  {
    forall i :: 0 <= i < |evs| ==> RepeatsAt(os, evs, stacks, i)
  }

  lemma OpCompares(e: Event, stack: Bytes)
    ensures Compares(ReplayedAs(e, stack)) == Compared(e)
    ensures Compared(e) ==> Recorded(ReplayedAs(e, stack)) == TracedResult(e)
  {
  }

  lemma AnswerIsResult(os: Os, evs: seq<Event>, stacks: seq<Bytes>, i: nat)
    requires |evs| == |stacks| && i < |evs|
    ensures AnswerAt(os, evs, stacks, i) == ResultAt(os, ReplayedOps(evs, stacks), i)
  {
    var ops := ReplayedOps(evs, stacks);
    CheckIsPlain(os, ops[..i]);
    RunNext(Plain, os, ops, i);
    NextCall(os, RunAll(Plain, os, ops[..i]), ops[i], CallFor(RunAll(Plain, os, ops[..i]).entries, ops[i]));
  }

  /** The comparison of record `i` fails if and only if its event is compared and the operating system
      answers otherwise than when it was traced. */
  lemma FailsIff(os: Os, evs: seq<Event>, stacks: seq<Bytes>, i: nat)
    requires |evs| == |stacks| && i < |evs|
    ensures FailsAt(os, ReplayedOps(evs, stacks), i) <==> !RepeatsAt(os, evs, stacks, i)
    ensures AgreesAt(os, ReplayedOps(evs, stacks), i) <==> Compared(evs[i]) && RepeatsAt(os, evs, stacks, i)
  {
    OpCompares(evs[i], stacks[i]);
    AnswerIsResult(os, evs, stacks, i);
  }

  /** A run with -s goes through if and only if the operating system repeats, for every record that is
      compared, what was traced, and takes every write whole; it is then the plain run. */
  lemma StrictPassesIff(os: Os, evs: seq<Event>, stacks: seq<Bytes>)
    requires |evs| == |stacks|
    ensures var ops := ReplayedOps(evs, stacks);
            && (!RunAll(Strict, os, ops).aborted <==> RepeatsAll(os, evs, stacks))
            && (RepeatsAll(os, evs, stacks) ==> RunAll(Strict, os, ops) == RunAll(Plain, os, ops))
  {
    var ops := ReplayedOps(evs, stacks);
    var k := StrictIsPrefix(os, ops);
    CheckIsPlain(os, ops);
    forall i | 0 <= i < |evs|
      ensures FailsAt(os, ops, i) <==> !RepeatsAt(os, evs, stacks, i)
    {
      FailsIff(os, evs, stacks, i);
    }
  }

  /** For every interleaving: replaying the flushed file, read with the intended rewind, with -s on an
      operating system that repeats what was traced makes the calls of all the events and does not
      abort; on any other it does abort. */
  lemma TracedPassesStrict(producers: nat, capacity: nat, steps: seq<Step>, s: Sys, evs: seq<Event>,
                           mems: seq<Bytes>, stacks: seq<Bytes>, os: Os)
    requires 0 < capacity && Reachable(producers, capacity, steps, s) && !s.failed && !s.pc.Exited?
    requires Carries(Handled(s), evs, mems) && |evs| == |stacks|
    ensures |ReadAll(FlushedFile(s.log))| == |stacks|
    ensures var st := RunAll(Strict, os, DecodeAll(ReadAll(FlushedFile(s.log)), stacks));
            && (!st.aborted <==> RepeatsAll(os, evs, stacks))
            && (!st.aborted ==> st.calls == CallsForAll(evs, stacks, Descriptors(os, evs, stacks)))
  {
    TracedIsReplayed(producers, capacity, steps, s, evs, mems, stacks);
    StrictPassesIff(os, evs, stacks);
    CallsFollow(os, evs, stacks);
  }

  // ----- what is printed -----

  function Verdict(e: Event, answer: int): Line {
    if answer == TracedResult(e) then Success else Failure
  }

  /** The lines that replaying the record of an event prints without a flag. */
  function LinesFor(e: Event, answer: int): seq<Line> {
    match e
    case OpenEv(_, _, _, _, _, _) => [OpenedFile]
    case CloseEv(_, _, _, _) => [ClosingFile]
    case ReadEv(_, _, _, _, _, _) => [Verdict(e, answer), ReadingFile]
    case WriteEv(_, _, _, _, _, _) => [Verdict(e, answer), WritingFile]
    case SymlinkEv(_, _, target) => if |target| < 256 then [Verdict(e, answer)] else []
    case _ => [Verdict(e, answer)]
  }

  lemma PrintsForEvent(os: Os, evs: seq<Event>, stacks: seq<Bytes>, i: nat)
    requires |evs| == |stacks| && i < |evs|
    ensures Prints(Plain, os, ReplayedOps(evs, stacks), i, LinesFor(evs[i], AnswerAt(os, evs, stacks, i)))
  {
    var ops := ReplayedOps(evs, stacks);
    PlainPrints(os, ops, i);
    FailsIff(os, evs, stacks, i);
    PlainLinesAre(ops[i], evs[i], stacks[i], AnswerAt(os, evs, stacks, i), PlainLines(os, ops, i));
  }

  lemma PlainLinesAre(op: Op, e: Event, stack: Bytes, answer: int, lines: seq<Line>)
    requires op == ReplayedAs(e, stack)
    requires lines == (if Compared(e) then [Verdict(e, answer)] else []) + Trailer(op)
    ensures lines == LinesFor(e, answer)
  {
  }
}
