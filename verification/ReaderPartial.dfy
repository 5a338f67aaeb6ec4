/** Files that the reader as written gives up on: a seek that fails, and headers that are not all there. */
module ReaderPartial {
  import opened Framing
  import opened Reader
  import opened ReaderExact
  import opened ReaderEnds

  /** A rewind to before the file moves nothing: the turn ends behind the page it read, with more left
      to read by its own count than the file has. */
  lemma FailedSeekStays(file: Bytes, st: State)
    requires WellFormed(file, st) && st.status == Running && st.fsize > 0 && st.pos < |file|
    ensures var chunk := Chunk(file, st.pos);
            var st' := ReadTurn(file, st);
            var split := SplitFrom(st'.mem, 0, |chunk|);
            split.Done? && split.ret > st.pos + |chunk| ==>
              && st'.status == Running && st'.pos == st.pos + |chunk| && st'.out == st.out + split.recs
              && st'.fsize == st.fsize - |chunk| + split.ret
              && st'.fsize > 0
  {
  }

  /** With nothing left in the file and something left to read, the reader gives up. */
  lemma GivesUp(file: Bytes, st: State)
    requires WellFormed(file, st) && st.status == Running && st.fsize > 0 && st.pos == |file|
    ensures ReadTurn(file, st).status == Partial && ReadTurn(file, st).out == st.out
  {
    assert Chunk(file, st.pos) == [];
  }

  /** A first turn that takes in the whole file and is told to rewind by more than that ends the reading. */
  lemma FirstTurnGivesUp(file: Bytes, mem: Bytes, recs: seq<Bytes>, ret: nat, n: nat)
    requires |mem| == PAGE_AND_PEEK && 0 < |file| <= PAGE_SIZE && ret > |file| && n >= 2
    requires SplitFrom(file + mem[|file|..], 0, |file|) == Done(recs, ret)
    ensures Run(file, mem, n).status == Partial && Run(file, mem, n).out == recs
  {
    var st := Run(file, mem, 0);
    assert Chunk(file, 0) == file;
    RunNext(file, mem, 0);
    FailedSeekStays(file, st);
    assert [] + recs == recs;
    RunNext(file, mem, 1);
    GivesUp(file, Run(file, mem, 1));
    EndedStays(file, mem, 2, n);
  }

  /** A file of at most a page that ends in the beginning, a header or more, of a record that claims
      more than the whole file ends the reading partially, with the records before it dispatched. */
  lemma TruncatedTail(recs: seq<Bytes>, part: Bytes, mem: Bytes, n: nat)
    requires AllFramed(recs) && |mem| == PAGE_AND_PEEK && n >= 2
    requires 6 <= |part| && |Concat(recs) + part| <= PAGE_SIZE && ClaimedSize(part) > |Concat(recs) + part|
    ensures var st := Run(Concat(recs) + part, mem, n); st.status == Partial && st.out == recs
  {
    var file, q := Concat(recs) + part, |Concat(recs)|;
    var page := file + mem[|file|..];
    assert page[..q] == Concat(recs);
    assert page[q + 4] == part[4] && page[q + 5] == part[5];
    SplitTail(recs, page, q, |file|);
    FirstTurnGivesUp(file, mem, recs, ClaimedSize(part), n);
  }

  lemma SplitTail(recs: seq<Bytes>, page: Bytes, q: nat, end: nat)
    requires AllFramed(recs) && |page| == PAGE_AND_PEEK && q < end <= PAGE_SIZE && page[..q] == Concat(recs)
    requires U16(page, q + 4) > end - q
    ensures SplitFrom(page, 0, end) == Done(recs, U16(page, q + 4))
  {
    SplitBegins(page, end);
    SplitThrough([], recs, page, 0, q, end);
    assert [] + recs == recs;
    SplitNext(recs, page, q, end - q, U16(page, q + 4));
  }

  /** Of a file of at most four bytes the size is read from what the page held before, and that decides:
      zero hangs the reader, and more than the file makes it give up. */
  lemma ShortFileReadsStale(file: Bytes, mem: Bytes, n: nat)
    requires 0 < |file| <= 4 && |mem| == PAGE_AND_PEEK && n >= 2
    ensures U16(mem, 4) == 0 ==> Run(file, mem, n).status == Hung && Run(file, mem, n).out == []
    ensures U16(mem, 4) > |file| ==> Run(file, mem, n).status == Partial && Run(file, mem, n).out == []
  {
    var page := file + mem[|file|..];
    assert page[4] == mem[4] && page[5] == mem[5];
    assert Chunk(file, 0) == file;
    if U16(mem, 4) == 0 {
      assert SplitFrom(page, 0, |file|) == Hang([]);
      RunNext(file, mem, 0);
      EndedStays(file, mem, 1, n);
    } else if U16(mem, 4) > |file| {
      assert SplitFrom(page, 0, |file|) == Done([], U16(mem, 4));
      FirstTurnGivesUp(file, mem, [], U16(mem, 4), n);
    }
  }
}
