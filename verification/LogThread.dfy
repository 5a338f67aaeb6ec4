/** The log thread of trfs/tr_fs.c: it packs whole messages into a page and writes the page to the
    trace file when the next message does not fit. */
module LogThread {
  import opened Framing

  /** The first int of a message that stops the thread. */
  const LOG_COMPLETE := 127

  /** A message the thread can handle: it has a first int and fits an empty page. */
  ghost predicate Packable(m: Bytes) { 4 <= |m| <= PAGE_SIZE }

  ghost predicate AllPackable(msgs: seq<Bytes>) {
    forall i :: 0 <= i < |msgs| ==> Packable(msgs[i])
  }

  /** `*msg1 == TRFS_LOG_COMPLETE`. */
  predicate Stops(m: Bytes) {
    4 <= |m| && Decode(m[..4]) == LOG_COMPLETE
  }

  /** The page writes so far, the bytes in the page, and whether the thread is still in its loop. */
  datatype Log = Log(flushes: seq<Bytes>, page: Bytes, running: bool)

  function TraceFile(l: Log): Bytes { Concat(l.flushes) }

  /** The trace file after the flush at unmount. */
  function FlushedFile(l: Log): Bytes { TraceFile(l) + l.page }

  const EMPTY_LOG := Log([], [], true)

  /** One turn of the loop.  The thread frees its page on the way out without writing it. */
  function Take(l: Log, m: Bytes): Log {
    if !l.running then l
    else if Stops(m) then Log(l.flushes, [], false)
    else if |l.page| + |m| > PAGE_SIZE then Log(l.flushes + [l.page], m, true)
    else Log(l.flushes, l.page + m, true)
  }

  function TakeAll(msgs: seq<Bytes>): Log {
    if msgs == [] then EMPTY_LOG else Take(TakeAll(msgs[..|msgs| - 1]), msgs[|msgs| - 1])
  }

  /** The thread with its page, its write pointer and its file.  On the way out the page is freed and
      its pointer cleared, while its size stays as it was. */
  class Writer {
    var page: array?<byte>
    var buf: nat
    var pageSize: nat
    var file: Bytes
    var running: bool
    ghost var flushes: seq<Bytes>

    ghost predicate Valid()
      reads this, page
    {
      && (page != null <==> running)
      && (page != null ==> page.Length == PAGE_SIZE && buf == pageSize)
      && pageSize <= PAGE_SIZE
      && file == Concat(flushes)
    }

    ghost function View(): Log
      requires Valid()
      reads this, page
    {
      Log(flushes, if page == null then [] else page[..pageSize], running)
    }

    constructor ()
      ensures Valid() && fresh(page) && View() == EMPTY_LOG
    {
      page := new byte[PAGE_SIZE];
      buf, pageSize, file, running := 0, 0, [], true;
      flushes := [];
    }

    /** `trfs_file_write` of the page, the lower write taken to be complete. */
    method WritePage()
      requires Valid() && page != null
      modifies this`file, this`flushes
      ensures Valid() && flushes == old(flushes) + [page[..pageSize]]
      ensures file == old(file) + page[..pageSize]
    {
      ConcatOne(flushes, page[..pageSize]);
      file := file + page[..pageSize];
      flushes := flushes + [page[..pageSize]];
    }

    method CopyIn(m: Bytes)
      requires page != null && buf + |m| <= page.Length
      modifies page
      ensures page[..buf + |m|] == old(page[..buf]) + m
    {
      for i := 0 to |m|
        invariant forall j :: 0 <= j < buf ==> page[j] == old(page[j])
        invariant forall j :: 0 <= j < i ==> page[buf + j] == m[j]
      {
        page[buf + i] := m[i];
      }
    }

    method Consume(m: Bytes)
      requires Valid() && running && Packable(m)
      modifies this, page
      ensures Valid() && View() == Take(old(View()), m)
      ensures if Stops(m) then page == null && pageSize == old(pageSize) else page == old(page)
    {
      if Stops(m) {
        running, page := false, null;
        return;
      }
      if pageSize + |m| > PAGE_SIZE {
        WritePage();
        buf, pageSize := 0, 0;
      }
      CopyIn(m);
      buf := buf + |m|;
      pageSize := pageSize + |m|;
    }

    /** The loop over the messages it receives, until it is told to stop or waits for more. */
    method Run(msgs: seq<Bytes>)
      requires Valid() && View() == EMPTY_LOG && AllPackable(msgs)
      modifies this, page
      ensures Valid() && View() == TakeAll(msgs)
    {
      var i := 0;
      while i < |msgs| && running
        invariant 0 <= i <= |msgs| && Valid() && (running ==> page == old(page))
        invariant View() == TakeAll(msgs[..i])
      {
        Consume(msgs[i]);
        assert msgs[..i + 1][..i] == msgs[..i];
        i := i + 1;
      }
      if i < |msgs| {
        StoppedStays(msgs, i, |msgs|);
      }
      assert msgs[..|msgs|] == msgs;
    }

    /** `trfs_log_write_flush`: the page goes out once more and its size stays as it is.  After the
        thread has stopped there is no page, and `fromNull` bytes are asked for all the same. */
    method Flush() returns (fromNull: nat)
      requires Valid()
      modifies this`file, this`flushes
      ensures Valid() && file == FlushedFile(old(View()))
      ensures fromNull == if running then 0 else pageSize
    {
      if page == null {
        return pageSize;
      }
      WritePage();
      return 0;
    }
  }

  lemma {:induction false} StoppedStays(msgs: seq<Bytes>, i: nat, n: nat)
    requires i <= n <= |msgs| && !TakeAll(msgs[..i]).running
    ensures TakeAll(msgs[..n]) == TakeAll(msgs[..i])
    decreases n - i
  {
    if i < n {
      StoppedStays(msgs, i, n - 1);
      assert msgs[..n][..n - 1] == msgs[..n - 1];
    }
  }

  // ----- what is in the file -----

  ghost predicate NoneStops(msgs: seq<Bytes>) {
    forall i :: 0 <= i < |msgs| ==> !Stops(msgs[i])
  }

  /** The writes are whole messages, in order, up to message `k`; the page holds the rest. */
  ghost predicate Packed(msgs: seq<Bytes>, k: nat) {
    var l := TakeAll(msgs);
    && k <= |msgs|
    && TraceFile(l) == Concat(msgs[..k])
    && |l.page| <= PAGE_SIZE
    && (l.running <==> NoneStops(msgs))
    && (l.running ==> l.page == Concat(msgs[k..]))
    && NoneStops(msgs[..k])
    && (!l.running ==> k < |msgs| && l.page == [])
  }

  /** At every turn the file is a concatenation of whole messages, and until a message stops the
      thread the file and the page together are all of them. */
  lemma {:induction false} PackingInvariant(msgs: seq<Bytes>) returns (k: nat)
    requires AllPackable(msgs)
    ensures Packed(msgs, k)
    decreases |msgs|
  {
    if msgs == [] {
      k := 0;
    } else {
      var n := |msgs| - 1;
      k := PackingInvariant(msgs[..n]);
      k := PackStep(msgs[..n], msgs[n], k);
      assert msgs[..n] + [msgs[n]] == msgs;
    }
  }

  lemma PackStep(init: seq<Bytes>, m: Bytes, k: nat) returns (k': nat)
    requires Packed(init, k) && Packable(m)
    ensures Packed(init + [m], k')
  {
    var l := TakeAll(init);
    assert (init + [m])[..|init|] == init;
    assert (init + [m])[..k] == init[..k];
    NoneStopsLast(init, m);
    k' := k;
    if l.running && !Stops(m) {
      if |l.page| + |m| > PAGE_SIZE {
        FlushPacks(init, m, k, l);
        k' := |init|;
      } else {
        AppendPacks(init, m, k, l);
      }
    }
  }

  lemma NoneStopsLast(init: seq<Bytes>, m: Bytes)
    ensures NoneStops(init + [m]) <==> NoneStops(init) && !Stops(m)
  {
    assert (init + [m])[|init|] == m;
    assert forall i :: 0 <= i < |init| ==> (init + [m])[i] == init[i];
  }

  lemma FlushPacks(init: seq<Bytes>, m: Bytes, k: nat, l: Log)
    requires k <= |init| && TraceFile(l) == Concat(init[..k]) && l.page == Concat(init[k..])
    ensures Concat(l.flushes + [l.page]) == Concat((init + [m])[..|init|]) && m == Concat((init + [m])[|init|..])
  {
    ConcatOne(l.flushes, l.page);
    assert init == init[..k] + init[k..];
    ConcatAppend(init[..k], init[k..]);
    assert (init + [m])[..|init|] == init;
    assert (init + [m])[|init|..] == [] + [m];
    ConcatOne([], m);
  }

  lemma AppendPacks(init: seq<Bytes>, m: Bytes, k: nat, l: Log)
    requires k <= |init| && l.page == Concat(init[k..])
    ensures l.page + m == Concat((init + [m])[k..]) && (init + [m])[..k] == init[..k]
  {
    assert (init + [m])[k..] == init[k..] + [m];
    ConcatOne(init[k..], m);
  }

  lemma {:induction false} LengthGrows(msgs: seq<Bytes>, k: nat)
    requires AllPackable(msgs) && k < |msgs|
    ensures |Concat(msgs[..k])| < |Concat(msgs)|
  {
    assert msgs == msgs[..k] + msgs[k..];
    ConcatAppend(msgs[..k], msgs[k..]);
    assert Concat(msgs[k..]) == msgs[k] + Concat(msgs[k..][1..]);
  }

  /** The trace file holds every message after the flush if and only if no message the thread
      received begins with 127, the id of an ordinary record as well as the end marker. */
  lemma WholeTraceIff(msgs: seq<Bytes>)
    requires AllPackable(msgs)
    ensures FlushedFile(TakeAll(msgs)) == Concat(msgs) <==> NoneStops(msgs)
  {
    var k := PackingInvariant(msgs);
    if NoneStops(msgs) {
      assert msgs == msgs[..k] + msgs[k..];
      ConcatAppend(msgs[..k], msgs[k..]);
    } else {
      LengthGrows(msgs, k);
    }
  }

  lemma PageNotEmpty(msgs: seq<Bytes>)
    requires AllPackable(msgs) && msgs != [] && TakeAll(msgs).running
    ensures TakeAll(msgs).page != []
  {
    assert Packable(msgs[|msgs| - 1]);
  }

  /** Where a thread that took `msgs`, none of which stops it, has come to: the file holds the messages
      before `k`, and the page the rest, which is something if there is any message at all. */
  lemma LastPage(msgs: seq<Bytes>) returns (k: nat)
    requires AllPackable(msgs) && NoneStops(msgs)
    ensures TakeAll(msgs).running && k <= |msgs| && (msgs != [] ==> k < |msgs|)
    ensures TraceFile(TakeAll(msgs)) == Concat(msgs[..k]) && TakeAll(msgs).page == Concat(msgs[k..])
    ensures |Concat(msgs[k..])| <= PAGE_SIZE && (msgs != [] ==> Concat(msgs[k..]) != [])
  {
    k := PackingInvariant(msgs);
    if msgs != [] {
      PageNotEmpty(msgs);
    }
  }

  /** A message that begins with 127 costs the last page, and no more: the file is left with the writes
      made so far, what was in the page is in neither, and nothing that comes later is written. */
  lemma StopLosesLastPage(msgs: seq<Bytes>, n: nat) returns (k: nat)
    requires AllPackable(msgs) && n < |msgs| && NoneStops(msgs[..n]) && Stops(msgs[n])
    ensures k <= n && (n > 0 ==> k < n)
    ensures TraceFile(TakeAll(msgs)) == FlushedFile(TakeAll(msgs)) == Concat(msgs[..k])
    ensures |Concat(msgs[k..n])| <= PAGE_SIZE && (n > 0 ==> Concat(msgs[k..n]) != [])
  {
    k := LastPage(msgs[..n]);
    assert msgs[..n][..k] == msgs[..k] && msgs[..n][k..] == msgs[k..n];
    StopEndsLog(msgs, n);
    assert TraceFile(TakeAll(msgs)) + [] == TraceFile(TakeAll(msgs));
  }

  lemma StopEndsLog(msgs: seq<Bytes>, n: nat)
    requires n < |msgs| && TakeAll(msgs[..n]).running && Stops(msgs[n])
    ensures TakeAll(msgs) == Log(TakeAll(msgs[..n]).flushes, [], false)
  {
    assert msgs[..n + 1][..n] == msgs[..n];
    StoppedStays(msgs, n + 1, |msgs|);
    assert msgs[..|msgs|] == msgs;
  }

  // ----- how often it writes -----

  ghost predicate FullWrites(flushes: seq<Bytes>) {
    && (forall i :: 0 <= i < |flushes| ==> 0 < |flushes[i]| <= PAGE_SIZE)
    && (forall i, j :: 0 <= i && j == i + 1 && j < |flushes| ==> |flushes[i]| + |flushes[j]| > PAGE_SIZE)
  }

  /** The loop never writes an empty page, and two writes in a row carry more than a page. */
  lemma {:induction false} WritesAreFull(msgs: seq<Bytes>)
    requires AllPackable(msgs)
    ensures var l := TakeAll(msgs);
            && FullWrites(l.flushes)
            && |l.page| <= PAGE_SIZE
            && (l.running && l.flushes != [] ==> |l.flushes[|l.flushes| - 1]| + |l.page| > PAGE_SIZE)
    decreases |msgs|
  {
    if msgs != [] {
      WritesAreFull(msgs[..|msgs| - 1]);
    }
  }

  lemma {:induction false} PairsCarry(flushes: seq<Bytes>)
    requires FullWrites(flushes) && |flushes| >= 2
    ensures PAGE_SIZE * (|flushes| / 2) < |Concat(flushes)|
    decreases |flushes|
  {
    var n := |flushes|;
    assert flushes == flushes[..n - 2] + [flushes[n - 2]] + [flushes[n - 1]];
    ConcatOne(flushes[..n - 2], flushes[n - 2]);
    ConcatOne(flushes[..n - 2] + [flushes[n - 2]], flushes[n - 1]);
    if n >= 4 {
      PairsCarry(flushes[..n - 2]);
    }
  }

  /** `n` writes, two or more, carry more than `n / 2` pages. */
  lemma FlushBound(msgs: seq<Bytes>)
    requires AllPackable(msgs)
    ensures var l := TakeAll(msgs); |l.flushes| >= 2 ==> PAGE_SIZE * (|l.flushes| / 2) < |TraceFile(l)|
  {
    WritesAreFull(msgs);
    if |TakeAll(msgs).flushes| >= 2 {
      PairsCarry(TakeAll(msgs).flushes);
    }
  }
}
