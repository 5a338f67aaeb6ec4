/** The trace reader of Userland/treplay.c, as written: a page-sized read loop around a splitter that
    reports a straddling record by the record's whole size, not by what is left of the page. */
module Reader {
  import opened Framing

  /** The page, and the heap bytes after it that a header read can reach: the header of a record is
      read before anything checks that six bytes are left. */
  const PAGE_AND_PEEK := PAGE_SIZE + 6

  /** What the splitter makes of a page: the records it dispatched and its return value.
      On a record of size zero its loop changes nothing and never ends. */
  datatype Split = Done(recs: seq<Bytes>, ret: nat) | Hang(recs: seq<Bytes>)

  function Prepend(recs: seq<Bytes>, s: Split): Split {
    s.(recs := recs + s.recs)
  }

  /** The splitter with `len` bytes left from `p` on. */
  function SplitFrom(mem: Bytes, p: nat, len: nat): Split
    requires |mem| == PAGE_AND_PEEK && p + len <= PAGE_SIZE
    decreases len
  {
    if len == 0 then Done([], 0)
    else
      var rsize := U16(mem, p + 4);
      if rsize > len then Done([], rsize)
      else if rsize == 0 then Hang([])
      else Prepend([mem[p..p + rsize]], SplitFrom(mem, p + rsize, len - rsize))
  }

  /** The records dispatched are no more than the page; they cover it when nothing straddles, and the
      size returned for a straddling record exceeds the bytes left. */
  ghost predicate Covers(len: nat, s: Split) {
    var n := |Concat(s.recs)|;
    && n <= len
    && (s.Done? && s.ret == 0 ==> n == len)
    && (s.Done? && s.ret > 0 ==> len - n < s.ret)
  }

  lemma {:induction false} SplitCovers(mem: Bytes, p: nat, len: nat, s: Split)
    requires |mem| == PAGE_AND_PEEK && p + len <= PAGE_SIZE && s == SplitFrom(mem, p, len)
    ensures Covers(len, s)
    decreases len
  {
    if len == 0 || U16(mem, p + 4) == 0 || U16(mem, p + 4) > len {
      assert Concat(s.recs) == [];
    } else {
      var rsize := U16(mem, p + 4);
      var rest := SplitFrom(mem, p + rsize, len - rsize);
      SplitCovers(mem, p + rsize, len - rsize, rest);
      CoversMore(len, mem[p..p + rsize], rest, s);
    }
  }

  lemma CoversMore(len: nat, r: Bytes, rest: Split, s: Split)
    requires |r| <= len && Covers(len - |r|, rest) && s == Prepend([r], rest)
    ensures Covers(len, s)
  {
    assert ([r] + rest.recs)[1..] == rest.recs;
  }

  /** The records dispatched before `p`, and what the splitter makes of the rest. */
  ghost function SplitAt(recs: seq<Bytes>, mem: Bytes, p: nat, len: nat): Split
    requires |mem| == PAGE_AND_PEEK && p + len <= PAGE_SIZE
  {
    Prepend(recs, SplitFrom(mem, p, len))
  }

  method SplitPage(page: array<byte>, bytes: nat) returns (recs: seq<Bytes>, ret: nat, hung: bool)
    requires page.Length == PAGE_AND_PEEK && bytes <= PAGE_SIZE
    ensures SplitFrom(page[..], 0, bytes) == if hung then Hang(recs) else Done(recs, ret)
  {
    recs, ret, hung := [], 0, false;
    var buf: nat, len: nat := 0, bytes;
    ghost var mem := page[..];
    ghost var all := SplitAt([], mem, 0, bytes);
    SplitBegins(mem, bytes);
    while len > 0
      invariant buf + len == bytes
      invariant SplitAt(recs, mem, buf, len) == all
    {
      var rsize: nat := page[buf + 4] as int + 256 * page[buf + 5] as int;
      SplitNext(recs, mem, buf, len, rsize);
      if rsize > len {
        ret := rsize;
        return;
      }
      if rsize == 0 {
        hung := true;
        return;
      }
      var rec := page[buf..buf + rsize];
      assert rec == mem[buf..buf + rsize];
      recs := recs + [rec];
      len := len - rsize;
      buf := buf + rsize;
    }
    SplitEnds(recs, mem, buf);
  }

  lemma SplitBegins(mem: Bytes, len: nat)
    requires |mem| == PAGE_AND_PEEK && len <= PAGE_SIZE
    ensures SplitAt([], mem, 0, len) == SplitFrom(mem, 0, len)
  {
    var s := SplitFrom(mem, 0, len);
    assert [] + s.recs == s.recs;
  }

  lemma SplitEnds(recs: seq<Bytes>, mem: Bytes, p: nat)
    requires |mem| == PAGE_AND_PEEK && p <= PAGE_SIZE
    ensures SplitAt(recs, mem, p, 0) == Done(recs, 0)
  {
    assert recs + [] == recs;
  }

  /** One turn of the splitter's loop. */
  lemma SplitNext(recs: seq<Bytes>, mem: Bytes, p: nat, len: nat, rsize: nat)
    requires |mem| == PAGE_AND_PEEK && p + len <= PAGE_SIZE && len > 0 && rsize == U16(mem, p + 4)
    ensures SplitAt(recs, mem, p, len) ==
            if rsize > len then Done(recs, rsize)
            else if rsize == 0 then Hang(recs)
            else SplitAt(recs + [mem[p..p + rsize]], mem, p + rsize, len - rsize)
  {
    if rsize > len || rsize == 0 {
      assert recs + [] == recs;
    } else {
      PrependTwice(recs, mem[p..p + rsize], SplitFrom(mem, p + rsize, len - rsize));
    }
  }

  lemma PrependTwice(recs: seq<Bytes>, rec: Bytes, s: Split)
    ensures Prepend(recs + [rec], s) == Prepend(recs, Prepend([rec], s))
  {
    assert recs + ([rec] + s.recs) == (recs + [rec]) + s.recs;
  }

  datatype Status = Running | Complete | Partial | Hung

  datatype State = State(mem: Bytes, pos: nat, fsize: int, out: seq<Bytes>, status: Status)

  ghost predicate WellFormed(file: Bytes, st: State) {
    |st.mem| == PAGE_AND_PEEK && st.pos <= |file|
  }

  function Min(a: nat, b: nat): nat { if a < b then a else b }

  function Chunk(file: Bytes, pos: nat): (c: Bytes)
    requires pos <= |file|
    ensures |c| == Min(PAGE_SIZE, |file| - pos)
  {
    file[pos..pos + Min(PAGE_SIZE, |file| - pos)]
  }

  /** The file offset after `lseek(fd, -back, SEEK_CUR)`: a seek to before the file fails and moves nothing. */
  function Seek(pos: nat, back: nat): nat {
    if back <= pos then pos - back else pos
  }

  /** One turn of the loop in `main`; the last turn finds `fsize` used up or nothing to read. */
  function ReadTurn(file: Bytes, st: State): (st': State)
    requires WellFormed(file, st)
    ensures WellFormed(file, st')
  {
    if st.status != Running then st
    else if st.fsize <= 0 then st.(status := Complete)
    else
      var chunk := Chunk(file, st.pos);
      if chunk == [] then st.(status := Partial)
      else
        var mem := chunk + st.mem[|chunk|..];
        match SplitFrom(mem, 0, |chunk|)
        case Hang(recs) => st.(mem := mem, out := st.out + recs, status := Hung)
        case Done(recs, ret) =>
          State(mem, Seek(st.pos + |chunk|, ret), st.fsize - |chunk| + ret, st.out + recs, Running)
  }

  function Begin(file: Bytes, mem: Bytes): State {
    State(mem, 0, |file|, [], Running)
  }

  /** The reader after `n` turns; `mem` is what the page held when it was allocated. */
  function Run(file: Bytes, mem: Bytes, n: nat): (st: State)
    requires |mem| == PAGE_AND_PEEK
    ensures WellFormed(file, st)
  {
    if n == 0 then Begin(file, mem) else ReadTurn(file, Run(file, mem, n - 1))
  }

  /** `read(fd, page, PAGE_SIZE)`: what lies beyond the bytes read stays. */
  method FillPage(page: array<byte>, chunk: Bytes)
    requires |chunk| <= page.Length
    modifies page
    ensures page[..] == chunk + old(page[..])[|chunk|..]
  {
    for i := 0 to |chunk|
      invariant forall j :: 0 <= j < i ==> page[j] == chunk[j]
      invariant forall j :: i <= j < page.Length ==> page[j] == old(page[j])
    {
      page[i] := chunk[i];
    }
  }

  method Turn(file: Bytes, page: array<byte>, st: State) returns (st': State)
    requires WellFormed(file, st) && st.mem == page[..]
    modifies page
    ensures st' == ReadTurn(file, st) && st'.mem == page[..]
  {
    if st.status != Running {
      return st;
    }
    if st.fsize <= 0 {
      return st.(status := Complete);
    }
    var chunk := Chunk(file, st.pos);
    if chunk == [] {
      return st.(status := Partial);
    }
    FillPage(page, chunk);
    var recs, ret, hung := SplitPage(page, |chunk|);
    if hung {
      return st.(mem := page[..], out := st.out + recs, status := Hung);
    }
    st' := State(page[..], Seek(st.pos + |chunk|, ret), st.fsize - |chunk| + ret, st.out + recs, Running);
  }

  /** `main`'s loop, stopped after at most `limit` turns. */
  method ReadTraceFile(file: Bytes, page: array<byte>, limit: nat) returns (st: State)
    requires page.Length == PAGE_AND_PEEK
    modifies page
    ensures st == Run(file, old(page[..]), limit)
  {
    st := Begin(file, page[..]);
    ghost var mem := page[..];
    for n := 0 to limit
      invariant st == Run(file, mem, n)
      invariant page[..] == st.mem
    {
      st := Turn(file, page, st);
    }
  }
}
