/** Exactly which trace files the reader, as written, replays record for record. */
module ReaderExact {
  import opened Framing
  import opened Reader

  ghost predicate Live(st: State) { st.status == Running || st.status == Complete }

  /** The part of `fsize` that the file cannot account for; only a failed seek adds to it. */
  ghost function Excess(file: Bytes, st: State): int { st.pos + st.fsize - |file| }

  /** The bytes dispatched more than once; only a rewind adds to it. */
  ghost function Slip(st: State): int { |Concat(st.out)| - st.pos }

  ghost predicate Balanced(file: Bytes, st: State) {
    && Excess(file, st) >= 0
    && (Excess(file, st) == 0 ==> Slip(st) >= 0)
    && (st.status == Complete ==> st.fsize <= 0)
  }

  ghost predicate Tight(file: Bytes, st: State) {
    Excess(file, st) == 0 && Slip(st) == 0
  }

  ghost predicate LiveTight(file: Bytes, st: State) { Live(st) && Tight(file, st) }

  /** A turn keeps the balance, and one that ends tight began tight and did not rewind. */
  ghost predicate Linked(file: Bytes, st: State, st': State) {
    && Balanced(file, st')
    && (LiveTight(file, st') ==>
        LiveTight(file, st) && st.out <= st'.out && st'.pos == Min(st.pos + PAGE_SIZE, |file|))
  }

  lemma TurnLinked(file: Bytes, st: State)
    requires WellFormed(file, st) && Balanced(file, st)
    ensures Linked(file, st, ReadTurn(file, st))
  {
    if st.status == Running && st.fsize > 0 && Chunk(file, st.pos) != [] {
      var chunk := Chunk(file, st.pos);
      var mem := chunk + st.mem[|chunk|..];
      var split := SplitFrom(mem, 0, |chunk|);
      ConcatAppend(st.out, split.recs);
      SplitCovers(mem, 0, |chunk|, split);
    }
  }

  /** The states of a run. */
  ghost function States(file: Bytes, mem: Bytes, n: nat): (sts: seq<State>)
    requires |mem| == PAGE_AND_PEEK
    ensures |sts| == n + 1 && forall i :: 0 <= i <= n ==> sts[i] == Run(file, mem, i)
  {
    seq(n + 1, i requires 0 <= i <= n => Run(file, mem, i))
  }

  /** States that follow each other, from the beginning of a file. */
  ghost predicate Chain(file: Bytes, sts: seq<State>) {
    && sts != [] && sts[0].pos == 0
    && (forall i :: 0 <= i < |sts| ==> Balanced(file, sts[i]))
    && (forall i, j :: 0 <= i && j == i + 1 && j < |sts| ==> Linked(file, sts[i], sts[j]))
  }

  lemma {:induction false} RunBalance(file: Bytes, mem: Bytes, n: nat)
    requires |mem| == PAGE_AND_PEEK
    ensures Balanced(file, Run(file, mem, n))
    decreases n
  {
    if n > 0 {
      RunBalance(file, mem, n - 1);
      TurnLinked(file, Run(file, mem, n - 1));
    }
  }

  lemma RunIsChain(file: Bytes, mem: Bytes, n: nat)
    requires |mem| == PAGE_AND_PEEK
    ensures Chain(file, States(file, mem, n))
  {
    var sts := States(file, mem, n);
    forall i | 0 <= i < |sts|
      ensures Balanced(file, sts[i])
    {
      RunBalance(file, mem, i);
    }
    forall i, j | 0 <= i && j == i + 1 && j < |sts|
      ensures Linked(file, sts[i], sts[j])
    {
      RunBalance(file, mem, i);
      TurnLinked(file, Run(file, mem, i));
      assert Run(file, mem, j) == ReadTurn(file, Run(file, mem, i));
    }
  }

  lemma {:induction false} TightEarlier(file: Bytes, sts: seq<State>, m: nat, n: nat)
    requires Chain(file, sts) && m <= n < |sts| && LiveTight(file, sts[n])
    ensures LiveTight(file, sts[m]) && sts[m].out <= sts[n].out
    decreases n - m
  {
    if m < n {
      assert Linked(file, sts[n - 1], sts[n]);
      TightEarlier(file, sts, m, n - 1);
    }
  }

  lemma {:induction false} TightPosition(file: Bytes, sts: seq<State>, n: nat)
    requires Chain(file, sts) && n < |sts| && LiveTight(file, sts[n])
    ensures sts[n].pos == Min(PAGE_SIZE * n, |file|)
    decreases n
  {
    if n > 0 {
      assert Linked(file, sts[n - 1], sts[n]);
      TightPosition(file, sts, n - 1);
    }
  }

  /** The reader finishes, having dispatched exactly `recs`. */
  ghost predicate Replays(recs: seq<Bytes>, mem: Bytes, n: nat)
    requires |mem| == PAGE_AND_PEEK
  {
    Run(Concat(recs), mem, n).status == Complete && Run(Concat(recs), mem, n).out == recs
  }

  /** Every page end inside the file falls on a record boundary. */
  ghost predicate PageAligned(recs: seq<Bytes>) {
    forall k: nat :: PAGE_SIZE * k < |Concat(recs)| ==> IsBoundary(recs, PAGE_SIZE * k)
  }

  /** The first `n` page ends, those inside the file, fall on record boundaries. */
  ghost predicate AlignedBefore(recs: seq<Bytes>, n: nat) {
    forall k: nat :: k < n && PAGE_SIZE * k < |Concat(recs)| ==> IsBoundary(recs, PAGE_SIZE * k)
  }

  lemma ReplayNeedsAlignment(recs: seq<Bytes>, mem: Bytes, n: nat)
    requires |mem| == PAGE_AND_PEEK && Replays(recs, mem, n)
    ensures PageAligned(recs)
  {
    var file := Concat(recs);
    var sts := States(file, mem, n);
    RunIsChain(file, mem, n);
    assert LiveTight(file, sts[n]);
    TightPosition(file, sts, n);
    forall k: nat | PAGE_SIZE * k < |file|
      ensures IsBoundary(recs, PAGE_SIZE * k)
    {
      TightEarlier(file, sts, k, n);
      TightPosition(file, sts, k);
      var out := sts[k].out;
      assert out == recs[..|out|];
      assert Start(recs, |out|) == PAGE_SIZE * k;
    }
  }

  /** The splitter goes through the whole records that a stretch of the page begins with. */
  lemma {:induction false} SplitThrough(done: seq<Bytes>, seg: seq<Bytes>, mem: Bytes, p: nat, q: nat, end: nat)
    requires AllFramed(seg) && |mem| == PAGE_AND_PEEK && p <= q <= end <= PAGE_SIZE && mem[p..q] == Concat(seg)
    ensures SplitAt(done, mem, p, end - p) == SplitAt(done + seg, mem, q, end - q)
    decreases |seg|
  {
    if seg == [] {
      assert done + seg == done;
    } else {
      var r, rest := seg[0], seg[1..];
      SplitOne(done, r, Concat(rest), mem, p, end);
      SplitThrough(done + [r], rest, mem, p + |r|, q, end);
      assert done + [r] + rest == done + seg;
    }
  }

  lemma SplitOne(done: seq<Bytes>, r: Bytes, rest: Bytes, mem: Bytes, p: nat, end: nat)
    requires Framed(r) && |mem| == PAGE_AND_PEEK && p + |r + rest| <= end <= PAGE_SIZE
    requires mem[p..p + |r + rest|] == r + rest
    ensures SplitAt(done, mem, p, end - p) == SplitAt(done + [r], mem, p + |r|, end - (p + |r|))
    ensures mem[p + |r|..p + |r| + |rest|] == rest
  {
    FrontOf(mem, p, r, rest);
    SplitNext(done, mem, p, end - p, |r|);
  }

  /** A stretch of the page that holds whole records splits into them. */
  lemma SplitWhole(seg: seq<Bytes>, mem: Bytes, end: nat)
    requires AllFramed(seg) && |mem| == PAGE_AND_PEEK && end <= PAGE_SIZE && mem[..end] == Concat(seg)
    ensures SplitFrom(mem, 0, end) == Done(seg, 0)
  {
    SplitBegins(mem, end);
    SplitThrough([], seg, mem, 0, end, end);
    assert [] + seg == seg;
    SplitEnds(seg, mem, end);
  }

  /** One that begins with whole records yields them first. */
  lemma SplitStarts(seg: seq<Bytes>, mem: Bytes, q: nat, end: nat)
    requires AllFramed(seg) && |mem| == PAGE_AND_PEEK && q <= end <= PAGE_SIZE && mem[..q] == Concat(seg)
    ensures seg <= SplitFrom(mem, 0, end).recs
  {
    SplitBegins(mem, end);
    SplitThrough([], seg, mem, 0, q, end);
    assert [] + seg == seg;
  }

  /** A record at `p`, and what follows it. */
  lemma FrontOf(mem: Bytes, p: nat, r: Bytes, rest: Bytes)
    requires Framed(r) && p + |r + rest| <= |mem| && mem[p..p + |r + rest|] == r + rest
    ensures U16(mem, p + 4) == |r| && mem[p..p + |r|] == r && mem[p + |r|..p + |r| + |rest|] == rest
  {
    var all := mem[p..p + |r + rest|];
    assert mem[p..p + |r|] == all[..|r|];
    assert mem[p + |r|..p + |r| + |rest|] == all[|r|..];
    assert mem[p + 4] == all[4] == r[4] && mem[p + 5] == all[5] == r[5];
  }

  ghost predicate OnTrack(recs: seq<Bytes>, st: State, j: nat) {
    && j <= |recs|
    && st.status == Running
    && st.out == recs[..j]
    && st.pos == Start(recs, j)
    && st.pos + st.fsize == |Concat(recs)|
  }

  lemma CleanTurn(file: Bytes, st: State, out: seq<Bytes>)
    requires WellFormed(file, st) && st.status == Running && st.fsize > 0 && Chunk(file, st.pos) != []
    requires var chunk := Chunk(file, st.pos); SplitFrom(chunk + st.mem[|chunk|..], 0, |chunk|) == Done(out, 0)
    ensures var st' := ReadTurn(file, st);
            && st'.status == Running && st'.out == st.out + out
            && st'.pos == st.pos + |Chunk(file, st.pos)| && st'.pos + st'.fsize == st.pos + st.fsize
  {
  }

  lemma WholeTurn(file: Bytes, st: State, seg: seq<Bytes>)
    requires WellFormed(file, st) && st.status == Running && st.fsize > 0
    requires AllFramed(seg) && Chunk(file, st.pos) == Concat(seg) != []
    ensures var st' := ReadTurn(file, st);
            && st'.status == Running && st'.out == st.out + seg
            && st'.pos == st.pos + |Concat(seg)| && st'.pos + st'.fsize == st.pos + st.fsize
  {
    var chunk := Chunk(file, st.pos);
    var mem := chunk + st.mem[|chunk|..];
    assert mem[..|chunk|] == chunk;
    SplitWhole(seg, mem, |chunk|);
    CleanTurn(file, st, seg);
  }

  lemma AlignedTurn(recs: seq<Bytes>, st: State, i: nat, j: nat)
    requires AllFramed(recs) && WellFormed(Concat(recs), st) && OnTrack(recs, st, i) && st.fsize > 0
    requires i <= j <= |recs| && Start(recs, j) == Min(st.pos + PAGE_SIZE, |Concat(recs)|)
    ensures OnTrack(recs, ReadTurn(Concat(recs), st), j)
  {
    var seg := recs[i..j];
    Segment(recs, i, j);
    assert recs[..i] + seg == recs[..j];
    WholeTurn(Concat(recs), st, seg);
  }

  lemma BoundaryAfter(recs: seq<Bytes>, at: nat) returns (j: nat)
    requires at == |Concat(recs)| || IsBoundary(recs, at)
    ensures j <= |recs| && Start(recs, j) == at
  {
    if at == |Concat(recs)| {
      StartEnds(recs);
      j := |recs|;
    } else {
      j :| 0 <= j <= |recs| && Start(recs, j) == at;
    }
  }

  /** The record boundary that the reader reaches after `n` turns, if the page ends so far allow it. */
  lemma {:induction false} AlignedRun(recs: seq<Bytes>, mem: Bytes, n: nat) returns (j: nat)
    requires AllFramed(recs) && |mem| == PAGE_AND_PEEK && AlignedBefore(recs, n + 1)
    requires n == 0 || PAGE_SIZE * (n - 1) < |Concat(recs)|
    ensures OnTrack(recs, Run(Concat(recs), mem, n), j) && Start(recs, j) == Min(PAGE_SIZE * n, |Concat(recs)|)
    decreases n
  {
    if n == 0 {
      StartEnds(recs);
      j := 0;
    } else {
      var i := AlignedRun(recs, mem, n - 1);
      j := BoundaryAfter(recs, Min(PAGE_SIZE * n, |Concat(recs)|));
      if j < i {
        StartMonotone(recs, j, i);
        assert false;
      }
      AlignedTurn(recs, Run(Concat(recs), mem, n - 1), i, j);
    }
  }

  lemma PagesFor(size: nat) returns (n: nat)
    ensures size <= PAGE_SIZE * n && (n == 0 || PAGE_SIZE * (n - 1) < size)
  {
    n := (size + PAGE_SIZE - 1) / PAGE_SIZE;
  }

  lemma EndIsLast(recs: seq<Bytes>, j: nat)
    requires AllFramed(recs) && j <= |recs| && Start(recs, j) == |Concat(recs)|
    ensures j == |recs| && recs[..j] == recs
  {
    StartEnds(recs);
    StartMonotone(recs, j, |recs|);
  }

  lemma LastTurn(recs: seq<Bytes>, st: State)
    requires WellFormed(Concat(recs), st) && st.status == Running && st.out == recs && st.fsize == 0
    ensures ReadTurn(Concat(recs), st).status == Complete && ReadTurn(Concat(recs), st).out == recs
  {
  }

  lemma AlignmentSuffices(recs: seq<Bytes>, mem: Bytes) returns (n: nat)
    requires AllFramed(recs) && |mem| == PAGE_AND_PEEK && PageAligned(recs)
    ensures Replays(recs, mem, n)
  {
    n := PagesFor(|Concat(recs)|);
    var j := AlignedRun(recs, mem, n);
    EndIsLast(recs, j);
    LastTurn(recs, Run(Concat(recs), mem, n));
    n := n + 1;
  }

  /** The reader as written replays a trace of whole records, each once and in order, if and only if
      every page end inside the file falls on a record boundary, whatever the page held before. */
  lemma ReplaysIffAligned(recs: seq<Bytes>, mem: Bytes)
    requires AllFramed(recs) && |mem| == PAGE_AND_PEEK
    ensures (exists n: nat :: Replays(recs, mem, n)) <==> PageAligned(recs)
  {
    if PageAligned(recs) {
      var n := AlignmentSuffices(recs, mem);
    }
    forall n: nat | Replays(recs, mem, n)
      ensures PageAligned(recs)
    {
      ReplayNeedsAlignment(recs, mem, n);
    }
  }

  // ----- a trace that is not aligned -----

  lemma OutGrows(file: Bytes, st: State)
    requires WellFormed(file, st)
    ensures st.out <= ReadTurn(file, st).out
  {
  }

  lemma {:induction false} RunGrows(file: Bytes, mem: Bytes, k: nat, n: nat)
    requires |mem| == PAGE_AND_PEEK && k <= n
    ensures Run(file, mem, k).out <= Run(file, mem, n).out
    decreases n - k
  {
    if k < n {
      RunGrows(file, mem, k, n - 1);
      OutGrows(file, Run(file, mem, n - 1));
    }
  }

  lemma StartTurn(file: Bytes, st: State, seg: seq<Bytes>)
    requires WellFormed(file, st) && st.status == Running && st.fsize > 0
    requires AllFramed(seg) && Concat(seg) <= Chunk(file, st.pos) != []
    ensures st.out + seg <= ReadTurn(file, st).out
  {
    var chunk := Chunk(file, st.pos);
    var mem := chunk + st.mem[|chunk|..];
    assert mem[..|Concat(seg)|] == chunk[..|Concat(seg)|];
    SplitStarts(seg, mem, |Concat(seg)|, |chunk|);
    Extends(st.out, seg, SplitFrom(mem, 0, |chunk|).recs);
  }

  lemma Extends(out: seq<Bytes>, seg: seq<Bytes>, recs: seq<Bytes>)
    requires seg <= recs
    ensures out + seg <= out + recs
  {
  }

  lemma PageStarts(recs: seq<Bytes>, i: nat, m: nat, pos: nat)
    requires i <= m <= |recs| && pos == Start(recs, i) <= |Concat(recs)| && Start(recs, m) <= pos + PAGE_SIZE
    ensures Concat(recs[i..m]) <= Chunk(Concat(recs), pos)
  {
    Segment(recs, i, m);
    var file := Concat(recs);
    assert Chunk(file, pos)[..Start(recs, m) - pos] == file[pos..Start(recs, m)];
  }

  /** Whatever lies beyond, the reader as written first dispatches, in order, every record that ends
      by a page end before which all page ends are record boundaries. */
  lemma DispatchesUpTo(recs: seq<Bytes>, mem: Bytes, k: nat, m: nat, n: nat)
    requires AllFramed(recs) && |mem| == PAGE_AND_PEEK && m <= |recs|
    requires 0 < k <= n && AlignedBefore(recs, k) && PAGE_SIZE * k < |Concat(recs)| && Start(recs, m) <= PAGE_SIZE * k
    ensures recs[..m] <= Run(Concat(recs), mem, n).out
  {
    var file := Concat(recs);
    var i := AlignedRun(recs, mem, k - 1);
    DispatchTurn(recs, Run(file, mem, k - 1), i, m);
    assert Run(file, mem, k) == ReadTurn(file, Run(file, mem, k - 1));
    RunGrows(file, mem, k, n);
  }

  lemma DispatchTurn(recs: seq<Bytes>, st: State, i: nat, m: nat)
    requires AllFramed(recs) && WellFormed(Concat(recs), st) && OnTrack(recs, st, i) && st.fsize > 0
    requires m <= |recs| && Start(recs, m) <= st.pos + PAGE_SIZE
    ensures recs[..m] <= ReadTurn(Concat(recs), st).out
  {
    if m <= i {
      OutGrows(Concat(recs), st);
      Shorter(recs, m, i, ReadTurn(Concat(recs), st).out);
    } else {
      PageStarts(recs, i, m, st.pos);
      StartsWith(Concat(recs), st, recs, i, m);
    }
  }

  lemma StartsWith(file: Bytes, st: State, recs: seq<Bytes>, i: nat, m: nat)
    requires WellFormed(file, st) && st.status == Running && st.fsize > 0 && Chunk(file, st.pos) != []
    requires AllFramed(recs) && i <= m <= |recs| && st.out == recs[..i] && Concat(recs[i..m]) <= Chunk(file, st.pos)
    ensures recs[..m] <= ReadTurn(file, st).out
  {
    StartTurn(file, st, recs[i..m]);
    assert recs[..i] + recs[i..m] == recs[..m];
  }

  lemma Shorter(recs: seq<Bytes>, m: nat, i: nat, out: seq<Bytes>)
    requires m <= i <= |recs| && recs[..i] <= out
    ensures recs[..m] <= out
  {
    assert recs[..m] <= recs[..i];
  }

  /** After a straddle whose seek succeeds the reader resumes before the first byte it has not
      replayed, by as many bytes as the straddling record has beyond the page. */
  lemma StraddleResumesEarly(file: Bytes, st: State)
    requires WellFormed(file, st) && st.status == Running && st.fsize > 0 && st.pos < |file|
    ensures var st' := ReadTurn(file, st);
            var split := SplitFrom(st'.mem, 0, |Chunk(file, st.pos)|);
            split.Done? && 0 < split.ret <= st.pos + |Chunk(file, st.pos)| ==>
              && st'.pos + st'.fsize == st.pos + st.fsize
              && Slip(st') == Slip(st) + (split.ret - (|Chunk(file, st.pos)| - |Concat(split.recs)|))
              && Slip(st') > Slip(st)
  {
    var mem := ReadTurn(file, st).mem;
    var split := SplitFrom(mem, 0, |Chunk(file, st.pos)|);
    ConcatAppend(st.out, split.recs);
    SplitCovers(mem, 0, |Chunk(file, st.pos)|, split);
  }

  /** Two records with a page end inside the second are a trace the reader never replays. */
  lemma StraddledTraceIsLost(a: Bytes, b: Bytes, mem: Bytes, n: nat)
    requires Framed(a) && Framed(b) && |a| < PAGE_SIZE < |a| + |b| && |mem| == PAGE_AND_PEEK
    ensures !Replays([a, b], mem, n)
  {
    var recs := [a, b];
    StartEnds(recs);
    StartNext(recs, 0);
    StartNext(recs, 1);
    assert !IsBoundary(recs, PAGE_SIZE * 1);
    if Replays(recs, mem, n) {
      ReplayNeedsAlignment(recs, mem, n);
      assert false;
    }
  }
}
