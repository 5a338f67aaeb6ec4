/** When the reader as written ends.  There are two ways in which it does not: the loop in `main` can
    come back to where it was, and the splitter's loop can meet a size of zero. */
module ReaderEnds {
  import opened Framing
  import opened Reader
  import opened ReaderExact

  ghost predicate Runs(file: Bytes, mem: Bytes, n: nat)
    requires |mem| == PAGE_AND_PEEK
  {
    Run(file, mem, n).status == Running
  }

  lemma {:induction false} EndedStays(file: Bytes, mem: Bytes, m: nat, n: nat)
    requires |mem| == PAGE_AND_PEEK && m <= n && !Runs(file, mem, m)
    ensures Run(file, mem, n) == Run(file, mem, m)
    decreases n - m
  {
    if m < n {
      EndedStays(file, mem, m, n - 1);
    }
  }

  lemma RunNext(file: Bytes, mem: Bytes, n: nat)
    requires |mem| == PAGE_AND_PEEK
    ensures Run(file, mem, n + 1) == ReadTurn(file, Run(file, mem, n))
  {
  }

  // ----- any loop -----

  /** `turn` applied `n` times. */
  ghost function After<S>(turn: S -> S, s: S, n: nat): S {
    if n == 0 then s else turn(After(turn, s, n - 1))
  }

  /** A turn that starts nothing that has ended, and that keeps `like` as long as the first of the two runs. */
  ghost predicate Steady<S(!new)>(turn: S -> S, live: S -> bool, like: (S, S) -> bool) {
    && (forall a {:trigger turn(a)} :: live(turn(a)) ==> live(a))
    && (forall a, b {:trigger like(turn(a), turn(b))} :: like(a, b) && live(turn(a)) ==> like(turn(a), turn(b)))
    && (forall a, b :: like(a, b) ==> live(b))
  }

  lemma {:induction false} RanBefore<S(!new)>(turn: S -> S, live: S -> bool, like: (S, S) -> bool, s: S, m: nat, n: nat)
    requires Steady(turn, live, like) && m <= n && live(After(turn, s, n))
    ensures live(After(turn, s, m))
    decreases n - m
  {
    if m < n {
      RanBefore(turn, live, like, s, m, n - 1);
    }
  }

  lemma OneTurn<S(!new)>(turn: S -> S, live: S -> bool, like: (S, S) -> bool, a: S, b: S)
    requires Steady(turn, live, like) && like(a, b) && live(turn(a))
    ensures like(turn(a), turn(b))
  {
  }

  /** What happened after turn `i`, as long as it ran, happens again after turn `j`. */
  lemma {:induction false} Again<S(!new)>(
      turn: S -> S, live: S -> bool, like: (S, S) -> bool, s: S, i: nat, j: nat, k: nat)
    requires Steady(turn, live, like) && like(After(turn, s, i), After(turn, s, j)) && live(After(turn, s, i + k))
    ensures like(After(turn, s, i + k), After(turn, s, j + k))
    decreases k
  {
    if k > 0 {
      var p, q := i + (k - 1), j + (k - 1);
      RanBefore(turn, live, like, s, p, p + 1);
      Again(turn, live, like, s, i, j, k - 1);
      OneTurn(turn, live, like, After(turn, s, p), After(turn, s, q));
    }
  }

  lemma {:induction false} RunsForEver<S(!new)>(
      turn: S -> S, live: S -> bool, like: (S, S) -> bool, s: S, i: nat, j: nat, n: nat)
    requires Steady(turn, live, like) && i < j && like(After(turn, s, i), After(turn, s, j))
    ensures live(After(turn, s, n))
    decreases n
  {
    if n <= j {
      RanBefore(turn, live, like, s, n, j);
    } else {
      RunsForEver(turn, live, like, s, i, j, n - (j - i));
      Again(turn, live, like, s, i, j, n - j);
    }
  }

  /** What a turn keeps is kept. */
  lemma {:induction false} Kept<S(!new)>(turn: S -> S, inv: S -> bool, s: S, k: nat, n: nat)
    requires inv(After(turn, s, k)) && k <= n && forall a {:trigger turn(a)} :: inv(a) ==> inv(turn(a))
    ensures inv(After(turn, s, n))
    decreases n - k
  {
    if k < n {
      Kept(turn, inv, s, k, n - 1);
    }
  }

  ghost function TurnOf(file: Bytes): State -> State {
    st => if WellFormed(file, st) then ReadTurn(file, st) else st
  }

  lemma {:induction false} RunIsAfter(file: Bytes, mem: Bytes, n: nat)
    requires |mem| == PAGE_AND_PEEK
    ensures Run(file, mem, n) == After(TurnOf(file), Begin(file, mem), n)
    decreases n
  {
    if n > 0 {
      RunIsAfter(file, mem, n - 1);
    }
  }

  // ----- a turn that stands still -----

  /** A turn that splits its page leaves the file position and `fsize` as they were if and only if the
      splitter returns as many bytes as were read. */
  lemma StandsStillIff(file: Bytes, st: State)
    requires WellFormed(file, st) && st.status == Running && st.fsize > 0 && st.pos < |file|
    ensures var st' := ReadTurn(file, st);
            var split := SplitFrom(st'.mem, 0, |Chunk(file, st.pos)|);
            split.Done? ==>
              && st'.status == Running
              && (st'.pos == st.pos && st'.fsize == st.fsize <==> split.ret == |Chunk(file, st.pos)|)
  {
  }

  /** Record `j` crosses the end of the page that starts at record `i`, with its header before it. */
  ghost predicate Crosses(recs: seq<Bytes>, i: nat, j: nat) {
    && i <= j < |recs|
    && Start(recs, j) + 6 <= Start(recs, i) + PAGE_SIZE < Start(recs, j) + |recs[j]|
  }

  lemma InPage(recs: seq<Bytes>, i: nat, j: nat, pos: nat, q: nat)
    requires AllFramed(recs) && Crosses(recs, i, j) && pos == Start(recs, i) && q == Start(recs, j) - pos
    ensures q <= PAGE_SIZE - 6 && pos + PAGE_SIZE <= |Concat(recs)|
    ensures var chunk := Chunk(Concat(recs), pos);
            |chunk| == PAGE_SIZE && chunk[..q] == Concat(recs[i..j]) && U16(chunk, q + 4) == |recs[j]|
  {
    StartMonotone(recs, i, j);
    Segment(recs, i, j);
    RecordAt(recs, j);
    PageHolds(Concat(recs), pos, q, Concat(recs[i..j]), recs[j]);
  }

  lemma RecordAt(recs: seq<Bytes>, j: nat)
    requires j < |recs|
    ensures var at := Start(recs, j);
            at + |recs[j]| <= |Concat(recs)| && Concat(recs)[at..at + |recs[j]|] == recs[j]
  {
    Segment(recs, j, j + 1);
    StartNext(recs, j);
    assert recs[j..j + 1] == [] + [recs[j]];
    ConcatOne([], recs[j]);
  }

  lemma PageHolds(file: Bytes, pos: nat, q: nat, before: Bytes, r: Bytes)
    requires Framed(r) && q + 6 <= PAGE_SIZE < q + |r| && pos + q + |r| <= |file|
    requires file[pos..pos + q] == before && file[pos + q..pos + q + |r|] == r
    ensures var chunk := Chunk(file, pos);
            |chunk| == PAGE_SIZE && chunk[..q] == before && U16(chunk, q + 4) == |r|
  {
    HeaderAt(file, pos + q, r);
    assert Chunk(file, pos)[..q] == file[pos..pos + q];
  }

  lemma HeaderAt(file: Bytes, at: nat, r: Bytes)
    requires Framed(r) && at + |r| <= |file| && file[at..at + |r|] == r
    ensures U16(file, at + 4) == |r|
  {
    assert file[at + 4] == r[4] && file[at + 5] == r[5];
  }

  /** The splitter dispatches the records before the crossing one and returns the size of that one. */
  lemma SplitStraddle(seg: seq<Bytes>, mem: Bytes, q: nat, rsize: nat)
    requires AllFramed(seg) && |mem| == PAGE_AND_PEEK && q + 6 <= PAGE_SIZE < q + rsize
    requires mem[..q] == Concat(seg) && U16(mem, q + 4) == rsize
    ensures SplitFrom(mem, 0, PAGE_SIZE) == Done(seg, rsize)
  {
    SplitBegins(mem, PAGE_SIZE);
    SplitThrough([], seg, mem, 0, q, PAGE_SIZE);
    assert [] + seg == seg;
    SplitNext(seg, mem, q, PAGE_SIZE - q, rsize);
  }

  datatype Place = Place(status: Status, pos: nat, fsize: int)

  ghost function PlaceOf(st: State): Place { Place(st.status, st.pos, st.fsize) }

  /** Running, at `pos`, with the rest of the file left to read. */
  ghost function RunningAt(file: Bytes, pos: nat): Place {
    Place(Running, pos, |file| - pos)
  }

  ghost function AtRecord(recs: seq<Bytes>, i: nat): Place
    requires i <= |recs|
  {
    RunningAt(Concat(recs), Start(recs, i))
  }

  /** The turn that meets a crossing record dispatches the records before it, and rewinds from the page
      end by the size of the crossing record. */
  lemma CrossingTurn(recs: seq<Bytes>, st: State, i: nat, j: nat)
    requires AllFramed(recs) && Crosses(recs, i, j) && WellFormed(Concat(recs), st)
    requires PlaceOf(st) == AtRecord(recs, i)
    ensures PlaceOf(ReadTurn(Concat(recs), st)) == RunningAt(Concat(recs), st.pos + PAGE_SIZE - |recs[j]|)
    ensures ReadTurn(Concat(recs), st).out == st.out + recs[i..j]
  {
    StartMonotone(recs, i, j);
    var q := Start(recs, j) - st.pos;
    InPage(recs, i, j, st.pos, q);
    var chunk := Chunk(Concat(recs), st.pos);
    var mem := chunk + st.mem[|chunk|..];
    assert mem[..q] == chunk[..q];
    SplitStraddle(recs[i..j], mem, q, |recs[j]|);
    Rewinds(Concat(recs), st, recs[i..j], |recs[j]|);
  }

  lemma Rewinds(file: Bytes, st: State, out: seq<Bytes>, ret: nat)
    requires WellFormed(file, st) && PlaceOf(st) == RunningAt(file, st.pos) && ret <= PAGE_SIZE == |Chunk(file, st.pos)|
    requires SplitFrom(Chunk(file, st.pos) + st.mem[PAGE_SIZE..], 0, PAGE_SIZE) == Done(out, ret)
    ensures PlaceOf(ReadTurn(file, st)) == RunningAt(file, st.pos + PAGE_SIZE - ret)
    ensures ReadTurn(file, st).out == st.out + out
  {
  }

  lemma ArrivesAt(recs: seq<Bytes>, mem: Bytes, k: nat, i: nat, j: nat)
    requires AllFramed(recs) && |mem| == PAGE_AND_PEEK && Crosses(recs, i, j)
    requires AlignedBefore(recs, k + 1) && Start(recs, i) == PAGE_SIZE * k
    ensures PlaceOf(Run(Concat(recs), mem, k)) == AtRecord(recs, i)
  {
    StartMonotone(recs, i, j);
    InPage(recs, i, j, Start(recs, i), Start(recs, j) - Start(recs, i));
    var b := AlignedRun(recs, mem, k);
  }

  // ----- a loop that goes on for ever -----

  /** A crossing record of the size of a page. */
  ghost predicate PageLongStraddle(recs: seq<Bytes>, i: nat, j: nat) {
    Crosses(recs, i, j) && |recs[j]| == PAGE_SIZE
  }

  /** The turn that meets it rewinds to where it began, having dispatched the records before it. */
  lemma StraddleTurn(recs: seq<Bytes>, st: State, i: nat, j: nat)
    requires AllFramed(recs) && PageLongStraddle(recs, i, j) && WellFormed(Concat(recs), st)
    requires PlaceOf(st) == AtRecord(recs, i)
    ensures PlaceOf(ReadTurn(Concat(recs), st)) == PlaceOf(st)
    ensures ReadTurn(Concat(recs), st).out == st.out + recs[i..j]
  {
    CrossingTurn(recs, st, i, j);
  }

  /** If such a record crosses the first page end that is not a record boundary, the reader never ends:
      it stays at that page and dispatches the records before the crossing one on every turn
      (`DispatchesAgain`). */
  lemma NeverEnds(recs: seq<Bytes>, mem: Bytes, k: nat, i: nat, j: nat, n: nat)
    requires AllFramed(recs) && |mem| == PAGE_AND_PEEK && PageLongStraddle(recs, i, j)
    requires AlignedBefore(recs, k + 1) && Start(recs, i) == PAGE_SIZE * k && k <= n
    ensures PlaceOf(Run(Concat(recs), mem, n)) == AtRecord(recs, i)
  {
    var file := Concat(recs);
    ArrivesAt(recs, mem, k, i, j);
    RunIsAfter(file, mem, k);
    RunIsAfter(file, mem, n);
    StaysThere(recs, i, j);
    Kept(TurnOf(file), There(recs, i), Begin(file, mem), k, n);
  }

  ghost function There(recs: seq<Bytes>, i: nat): State -> bool
    requires i <= |recs|
  {
    st => WellFormed(Concat(recs), st) && PlaceOf(st) == AtRecord(recs, i)
  }

  lemma StaysThere(recs: seq<Bytes>, i: nat, j: nat)
    requires AllFramed(recs) && PageLongStraddle(recs, i, j)
    ensures forall st {:trigger TurnOf(Concat(recs))(st)} ::
              There(recs, i)(st) ==> There(recs, i)(TurnOf(Concat(recs))(st))
  {
    forall st | There(recs, i)(st)
      ensures There(recs, i)(TurnOf(Concat(recs))(st))
    {
      StraddleTurn(recs, st, i, j);
    }
  }

  lemma DispatchesAgain(recs: seq<Bytes>, mem: Bytes, k: nat, i: nat, j: nat, n: nat)
    requires AllFramed(recs) && |mem| == PAGE_AND_PEEK && PageLongStraddle(recs, i, j)
    requires AlignedBefore(recs, k + 1) && Start(recs, i) == PAGE_SIZE * k && k <= n
    ensures Run(Concat(recs), mem, n + 1).out == Run(Concat(recs), mem, n).out + recs[i..j]
  {
    NeverEnds(recs, mem, k, i, j, n);
    StraddleNext(recs, mem, i, j, n);
  }

  lemma StraddleNext(recs: seq<Bytes>, mem: Bytes, i: nat, j: nat, n: nat)
    requires AllFramed(recs) && |mem| == PAGE_AND_PEEK && PageLongStraddle(recs, i, j)
    requires PlaceOf(Run(Concat(recs), mem, n)) == AtRecord(recs, i)
    ensures PlaceOf(Run(Concat(recs), mem, n + 1)) == AtRecord(recs, i)
    ensures Run(Concat(recs), mem, n + 1).out == Run(Concat(recs), mem, n).out + recs[i..j]
  {
    RunNext(Concat(recs), mem, n);
    StraddleTurn(recs, Run(Concat(recs), mem, n), i, j);
  }

  /** A short record and one of a page are a trace on which the reader never ends. */
  lemma ShortThenPageNeverEnds(a: Bytes, b: Bytes, mem: Bytes, n: nat)
    requires Framed(a) && Framed(b) && |a| + 6 <= PAGE_SIZE == |b| && |mem| == PAGE_AND_PEEK
    ensures Runs(Concat([a, b]), mem, n)
  {
    var recs := [a, b];
    StartEnds(recs);
    StartNext(recs, 0);
    assert IsBoundary(recs, 0);
    NeverEnds(recs, mem, 0, 0, 1, n);
  }

  // ----- a splitter that never returns -----

  /** A turn at a place where the size field reads zero never comes out of the splitter. */
  lemma ZeroSizeHangs(file: Bytes, st: State)
    requires WellFormed(file, st) && PlaceOf(st) == RunningAt(file, st.pos)
    requires st.pos + 6 <= |file| && U16(file, st.pos + 4) == 0
    ensures ReadTurn(file, st).status == Hung && ReadTurn(file, st).out == st.out
  {
    var chunk := Chunk(file, st.pos);
    var mem := chunk + st.mem[|chunk|..];
    assert mem[4] == file[st.pos + 4] && mem[5] == file[st.pos + 5];
    assert SplitFrom(mem, 0, |chunk|) == Hang([]);
    assert st.out + [] == st.out;
  }

  /** If the rewind over the record that crosses the first page end that is not a record boundary ends
      where the size field reads zero, the reader hangs on the next turn. */
  lemma RewindHangs(recs: seq<Bytes>, mem: Bytes, k: nat, i: nat, j: nat)
    requires AllFramed(recs) && |mem| == PAGE_AND_PEEK && Crosses(recs, i, j)
    requires AlignedBefore(recs, k + 1) && Start(recs, i) == PAGE_SIZE * k
    requires var at := PAGE_SIZE * (k + 1) - |recs[j]|; at + 6 <= |Concat(recs)| && U16(Concat(recs), at + 4) == 0
    ensures Run(Concat(recs), mem, k + 2).status == Hung
  {
    var file := Concat(recs);
    ArrivesAt(recs, mem, k, i, j);
    RunNext(file, mem, k);
    CrossingTurn(recs, Run(file, mem, k), i, j);
    RunNext(file, mem, k + 1);
    ZeroSizeHangs(file, Run(file, mem, k + 1));
  }

  /** Two records of which the second crosses the page end, and whose first has zeros where the rewind
      takes its size from, are a trace on which the reader hangs. */
  lemma ZerosThenCrossingHangs(a: Bytes, b: Bytes, mem: Bytes)
    requires Framed(a) && Framed(b) && |a| + 6 <= PAGE_SIZE < |a| + |b| && |mem| == PAGE_AND_PEEK
    requires var at := PAGE_SIZE - |b|; at + 6 <= |a| && a[at + 4] == 0 && a[at + 5] == 0
    ensures Run(Concat([a, b]), mem, 2).status == Hung
  {
    var recs := [a, b];
    StartEnds(recs);
    StartNext(recs, 0);
    StartNext(recs, 1);
    assert IsBoundary(recs, 0);
    FirstBytes(a, b, PAGE_SIZE - |b| + 4);
    RewindHangs(recs, mem, 0, 0, 1);
  }

  lemma FirstBytes(a: Bytes, b: Bytes, at: nat)
    requires at + 2 <= |a|
    ensures |Concat([a, b])| >= |a| && U16(Concat([a, b]), at) == U16(a, at)
  {
    assert Concat([a, b]) == a + Concat([a, b][1..]);
  }

  /** A file of zeros, of a header or more, hangs the reader on its first turn. */
  lemma ZerosHang(file: Bytes, mem: Bytes)
    requires |file| >= 6 && |mem| == PAGE_AND_PEEK && forall i :: 0 <= i < |file| ==> file[i] == 0
    ensures Run(file, mem, 1).status == Hung
  {
    RunNext(file, mem, 0);
    ZeroSizeHangs(file, Run(file, mem, 0));
  }

  // ----- a reader that ends -----

  /** On a trace all of whose page ends are record boundaries the reader ends, and stays so. */
  lemma AlignedEnds(recs: seq<Bytes>, mem: Bytes) returns (n: nat)
    requires AllFramed(recs) && |mem| == PAGE_AND_PEEK && PageAligned(recs)
    ensures forall m :: n <= m ==> Run(Concat(recs), mem, m).status == Complete && Run(Concat(recs), mem, m).out == recs
  {
    n := AlignmentSuffices(recs, mem);
    forall m | n <= m
      ensures Run(Concat(recs), mem, m).status == Complete && Run(Concat(recs), mem, m).out == recs
    {
      EndedStays(Concat(recs), mem, n, m);
    }
  }

  // ----- every file -----

  /** The reader is at the same place, with the same page, before two of its turns. */
  ghost predicate Recurs(file: Bytes, mem: Bytes, i: nat, j: nat)
    requires |mem| == PAGE_AND_PEEK
  {
    && i < j && Runs(file, mem, j)
    && Run(file, mem, i).pos == Run(file, mem, j).pos && Run(file, mem, i).mem == Run(file, mem, j).mem
  }

  /** How much more than `a` has `b`, which is otherwise where `a` is, left to read; or -1. */
  ghost function Lead(a: State, b: State): int {
    if b.pos == a.pos && b.mem == a.mem && a.status == b.status == Running then b.fsize - a.fsize else -1
  }

  // ----- this loop -----

  ghost function Going(): State -> bool { (st: State) => st.status == Running }

  ghost function Leads(): (State, State) -> bool { (a, b) => Lead(a, b) >= 0 }

  lemma TurnIsSteady(file: Bytes)
    ensures Steady(TurnOf(file), Going(), Leads())
  {
    forall a, b | Lead(a, b) >= 0 && TurnOf(file)(a).status == Running
      ensures Lead(TurnOf(file)(a), TurnOf(file)(b)) >= 0
    {
      SameTurn(file, a, b);
    }
  }

  lemma SameTurn(file: Bytes, a: State, b: State)
    requires Lead(a, b) >= 0 && TurnOf(file)(a).status == Running
    ensures Lead(TurnOf(file)(a), TurnOf(file)(b)) >= 0
  {
  }

  lemma ExcessGrows(file: Bytes, st: State)
    requires WellFormed(file, st)
    ensures Excess(file, ReadTurn(file, st)) >= Excess(file, st)
  {
  }

  lemma {:induction false} ExcessOnlyGrows(file: Bytes, mem: Bytes, i: nat, j: nat)
    requires |mem| == PAGE_AND_PEEK && i <= j
    ensures Excess(file, Run(file, mem, i)) <= Excess(file, Run(file, mem, j))
    decreases j - i
  {
    if i < j {
      ExcessOnlyGrows(file, mem, i, j - 1);
      ExcessGrows(file, Run(file, mem, j - 1));
    }
  }

  lemma RunsBefore(file: Bytes, mem: Bytes, m: nat, n: nat)
    requires |mem| == PAGE_AND_PEEK && m <= n && Runs(file, mem, n)
    ensures Runs(file, mem, m)
  {
    if !Runs(file, mem, m) {
      EndedStays(file, mem, m, n);
    }
  }

  lemma RecurrenceLeads(file: Bytes, mem: Bytes, i: nat, j: nat)
    requires |mem| == PAGE_AND_PEEK && Recurs(file, mem, i, j)
    ensures Lead(Run(file, mem, i), Run(file, mem, j)) >= 0
  {
    RunsBefore(file, mem, i, j);
    ExcessOnlyGrows(file, mem, i, j);
  }

  lemma RecurringNeverEnds(file: Bytes, mem: Bytes, i: nat, j: nat, n: nat)
    requires |mem| == PAGE_AND_PEEK && Recurs(file, mem, i, j)
    ensures Runs(file, mem, n)
  {
    RecurrenceLeads(file, mem, i, j);
    RunIsAfter(file, mem, i);
    RunIsAfter(file, mem, j);
    RunIsAfter(file, mem, n);
    TurnIsSteady(file);
    RunsForEver(TurnOf(file), Going(), Leads(), Begin(file, mem), i, j, n);
  }

  // ----- only so many places and pages -----

  lemma {:induction false} DecodeBound(bs: Bytes)
    ensures Decode(bs) < Pow256(|bs|)
    decreases |bs|
  {
    if bs != [] {
      DecodeBound(bs[1..]);
    }
  }

  lemma {:induction false} DecodeInjective(a: Bytes, b: Bytes)
    requires |a| == |b| && Decode(a) == Decode(b)
    ensures a == b
    decreases |a|
  {
    if a != [] {
      DecodeInjective(a[1..], b[1..]);
      assert a == [a[0]] + a[1..] && b == [b[0]] + b[1..];
    }
  }

  /** Place and page as one number. */
  ghost function Number(pos: nat, page: nat, pages: nat): nat {
    pos * pages + page
  }

  lemma NumberBound(pos: nat, page: nat, pages: nat, size: nat)
    requires pos <= size && page < pages
    ensures Number(pos, page, pages) < (size + 1) * pages
  {
    assert pos * pages <= size * pages;
    assert (size + 1) * pages == size * pages + pages;
  }

  lemma NumberInjective(p: nat, a: nat, q: nat, b: nat, pages: nat)
    requires a < pages && b < pages && Number(p, a, pages) == Number(q, b, pages)
    ensures p == q && a == b
  {
    if p < q {
      NumbersDiffer(p, a, q, b, pages);
    } else if q < p {
      NumbersDiffer(q, b, p, a, pages);
    }
  }

  lemma NumbersDiffer(p: nat, a: nat, q: nat, b: nat, pages: nat)
    requires a < pages && b < pages && p < q
    ensures Number(p, a, pages) < Number(q, b, pages)
  {
    assert (p + 1) * pages == p * pages + pages;
    assert (p + 1) * pages <= q * pages;
  }

  /** More numbers than there are below the bound: two are equal. */
  lemma {:induction false} TwoAreEqual(xs: seq<nat>, bound: nat) returns (i: nat, j: nat)
    requires |xs| > bound > 0 && forall k :: 0 <= k < |xs| ==> xs[k] < bound
    ensures i < j < |xs| && xs[i] == xs[j]
    decreases bound
  {
    if bound == 1 {
      i, j := 0, 1;
    } else if k :| 0 <= k < |xs| && xs[k] == bound - 1 {
      if m :| 0 <= m < |xs| && m != k && xs[m] == bound - 1 {
        i, j := if m < k then m else k, if m < k then k else m;
      } else {
        var ys := xs[..k] + xs[k + 1..];
        assert forall m :: 0 <= m < |ys| ==> ys[m] == xs[if m < k then m else m + 1];
        i, j := TwoAreEqual(ys, bound - 1);
        i, j := if i < k then i else i + 1, if j < k then j else j + 1;
      }
    } else {
      i, j := TwoAreEqual(xs, bound - 1);
    }
  }

  /** How many turns the reader can take before it is where it was. */
  ghost function TurnBound(file: Bytes, pages: nat): nat { (|file| + 1) * pages }

  ghost function NumberAt(file: Bytes, mem: Bytes, n: nat, pages: nat): nat
    requires |mem| == PAGE_AND_PEEK
  {
    Number(Run(file, mem, n).pos, Decode(Run(file, mem, n).mem), pages)
  }

  lemma NumberAtBound(file: Bytes, mem: Bytes, n: nat, pages: nat)
    requires |mem| == PAGE_AND_PEEK && pages == Pow256(|mem|)
    ensures NumberAt(file, mem, n, pages) < TurnBound(file, pages)
  {
    var st := Run(file, mem, n);
    DecodeBound(st.mem);
    NumberBound(st.pos, Decode(st.mem), pages, |file|);
  }

  lemma EqualNumbers(file: Bytes, mem: Bytes, i: nat, j: nat, pages: nat)
    requires |mem| == PAGE_AND_PEEK && pages == Pow256(|mem|)
    requires NumberAt(file, mem, i, pages) == NumberAt(file, mem, j, pages)
    ensures Run(file, mem, i).pos == Run(file, mem, j).pos && Run(file, mem, i).mem == Run(file, mem, j).mem
  {
    var a, b := Run(file, mem, i), Run(file, mem, j);
    DecodeBound(a.mem);
    DecodeBound(b.mem);
    NumberInjective(a.pos, Decode(a.mem), b.pos, Decode(b.mem), pages);
    DecodeInjective(a.mem, b.mem);
  }

  /** A reader that has not ended by the bound has been somewhere twice. */
  lemma LongRunRecurs(file: Bytes, mem: Bytes, pages: nat) returns (i: nat, j: nat)
    requires |mem| == PAGE_AND_PEEK && pages == Pow256(|mem|) && Runs(file, mem, TurnBound(file, pages))
    ensures Recurs(file, mem, i, j)
  {
    var n := TurnBound(file, pages);
    var xs := seq(n + 1, k requires 0 <= k <= n => NumberAt(file, mem, k, pages));
    forall k | 0 <= k < |xs|
      ensures xs[k] < n
    {
      NumberAtBound(file, mem, k, pages);
    }
    i, j := TwoAreEqual(xs, n);
    EqualNumbers(file, mem, i, j, pages);
    RunsBefore(file, mem, j, n);
  }

  ghost predicate Recurring(file: Bytes, mem: Bytes)
    requires |mem| == PAGE_AND_PEEK
  {
    exists i: nat, j: nat :: Recurs(file, mem, i, j)
  }

  /** The loop in `main` runs for ever if and only if the reader is twice at the same place with the
      same page, and that shows by the bound. */
  lemma LoopsIff(file: Bytes, mem: Bytes)
    requires |mem| == PAGE_AND_PEEK
    ensures Recurring(file, mem) <==> Runs(file, mem, TurnBound(file, Pow256(|mem|)))
    ensures Recurring(file, mem) <==> forall n: nat :: Runs(file, mem, n)
  {
    if Recurring(file, mem) {
      var i: nat, j: nat :| Recurs(file, mem, i, j);
      forall n: nat
        ensures Runs(file, mem, n)
      {
        RecurringNeverEnds(file, mem, i, j, n);
      }
    } else if Runs(file, mem, TurnBound(file, Pow256(|mem|))) {
      var i, j := LongRunRecurs(file, mem, Pow256(|mem|));
      assert false;
    }
  }

  /** The splitter never returns from some turn. */
  ghost predicate Hangs(file: Bytes, mem: Bytes)
    requires |mem| == PAGE_AND_PEEK
  {
    exists n: nat :: Run(file, mem, n).status == Hung
  }

  ghost predicate Returned(st: State) { st.status == Complete || st.status == Partial }

  /** `main` leaves its loop, with the file used up or with nothing left to read. */
  ghost predicate Ends(file: Bytes, mem: Bytes)
    requires |mem| == PAGE_AND_PEEK
  {
    exists n: nat :: Returned(Run(file, mem, n))
  }

  lemma OneEnd(file: Bytes, mem: Bytes, m: nat, n: nat)
    requires |mem| == PAGE_AND_PEEK && !Runs(file, mem, m) && !Runs(file, mem, n)
    ensures Run(file, mem, m) == Run(file, mem, n)
  {
    if m <= n {
      EndedStays(file, mem, m, n);
    } else {
      EndedStays(file, mem, n, m);
    }
  }

  /** Whatever becomes of the reader has become of it by the bound. */
  lemma SettledAtBound(file: Bytes, mem: Bytes, n: nat)
    requires |mem| == PAGE_AND_PEEK && !Runs(file, mem, n)
    ensures Run(file, mem, n) == Run(file, mem, TurnBound(file, Pow256(|mem|)))
  {
    LoopsIff(file, mem);
    OneEnd(file, mem, n, TurnBound(file, Pow256(|mem|)));
  }

  /** A number of turns that depends on the file's size alone decides whether the reader ends: it ends,
      loops or hangs just as it stands after that many. */
  lemma DecidedByBound(file: Bytes, mem: Bytes)
    requires |mem| == PAGE_AND_PEEK
    ensures var st := Run(file, mem, TurnBound(file, Pow256(|mem|)));
            && (Ends(file, mem) <==> Returned(st))
            && (Hangs(file, mem) <==> st.status == Hung)
            && (Recurring(file, mem) <==> st.status == Running)
  {
    LoopsIff(file, mem);
    if Ends(file, mem) {
      var n: nat :| Returned(Run(file, mem, n));
      SettledAtBound(file, mem, n);
    }
    if Hangs(file, mem) {
      var n: nat :| Run(file, mem, n).status == Hung;
      SettledAtBound(file, mem, n);
    }
  }

  /** On every file, whole records or not, and whatever the page held, the reader ends if and only if
      it is never twice at the same place with the same page and never meets a size of zero. */
  lemma EndsIff(file: Bytes, mem: Bytes)
    requires |mem| == PAGE_AND_PEEK
    ensures Ends(file, mem) <==> !Recurring(file, mem) && !Hangs(file, mem)
  {
    DecidedByBound(file, mem);
    OneOfThree(Run(file, mem, TurnBound(file, Pow256(|mem|))));
  }

  lemma OneOfThree(st: State)
    ensures Returned(st) <==> st.status != Running && st.status != Hung
  {
  }
}
