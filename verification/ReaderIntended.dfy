/** The reader as its comments describe it: a straddling record, or a tail too short to hold a
    record's size, is reported by the bytes left of the page, and the file is rewound over those. */
module ReaderIntended {
  import opened Framing
  import opened Reader

  /** The whole records at the front of a page. */
  function WholeRecords(buf: Bytes): (recs: seq<Bytes>)
    ensures |Concat(recs)| <= |buf|
    ensures recs != [] ==> Concat(recs) != []
    decreases |buf|
  {
    if |buf| < 6 || ClaimedSize(buf) > |buf| || ClaimedSize(buf) == 0 then []
    else
      var rest := WholeRecords(buf[ClaimedSize(buf)..]);
      assert ([buf[..ClaimedSize(buf)]] + rest)[1..] == rest;
      [buf[..ClaimedSize(buf)]] + rest
  }

  /** The records read page by page from `pos` on; a page that yields no whole record ends the reading. */
  function ReadFrom(file: Bytes, pos: nat): seq<Bytes>
    requires pos <= |file|
    decreases |file| - pos
  {
    var recs := WholeRecords(Chunk(file, pos));
    if recs == [] then [] else recs + ReadFrom(file, pos + |Concat(recs)|)
  }

  function ReadAll(file: Bytes): seq<Bytes> {
    ReadFrom(file, 0)
  }

  /** The records split off the page before `buf`, and the whole records after it. */
  ghost function SplitAt(page: Bytes, recs: seq<Bytes>, buf: nat): seq<Bytes>
    requires buf <= |page|
  {
    recs + WholeRecords(page[buf..])
  }

  method SplitPage(page: Bytes) returns (recs: seq<Bytes>, left: nat)
    ensures recs == WholeRecords(page)
    ensures left == |page| - |Concat(recs)|
    ensures recs != [] ==> left < |page|
  {
    recs, left := [], |page|;
    var buf: nat := 0;
    ghost var all := SplitAt(page, [], 0);
    while left >= 6
      invariant buf + left == |page| && |Concat(recs)| == buf && (recs != [] ==> buf > 0)
      invariant SplitAt(page, recs, buf) == all
    {
      var rsize := U16(page, buf + 4);
      SplitNext(page, recs, buf, rsize);
      if rsize > left || rsize == 0 {
        SplitBegins(page);
        return;
      }
      recs := recs + [page[buf..buf + rsize]];
      left := left - rsize;
      buf := buf + rsize;
    }
    SplitEnds(page, recs, buf);
    SplitBegins(page);
  }

  lemma SplitBegins(page: Bytes)
    ensures SplitAt(page, [], 0) == WholeRecords(page)
  {
    assert page[0..] == page;
    assert [] + WholeRecords(page) == WholeRecords(page);
  }

  lemma SplitEnds(page: Bytes, recs: seq<Bytes>, buf: nat)
    requires buf <= |page| < buf + 6
    ensures SplitAt(page, recs, buf) == recs
  {
    assert recs + [] == recs;
  }

  /** One turn of the splitter's loop. */
  lemma SplitNext(page: Bytes, recs: seq<Bytes>, buf: nat, rsize: nat)
    requires buf + 6 <= |page| && rsize == U16(page, buf + 4)
    ensures if rsize > |page| - buf || rsize == 0 then SplitAt(page, recs, buf) == recs
            else var recs' := recs + [page[buf..buf + rsize]];
              && SplitAt(page, recs', buf + rsize) == SplitAt(page, recs, buf)
              && |Concat(recs')| == |Concat(recs)| + rsize
  {
    var tail := page[buf..];
    assert ClaimedSize(tail) == rsize;
    if rsize == 0 || rsize > |tail| {
      assert recs + [] == recs;
    } else {
      var rec, rest := page[buf..buf + rsize], WholeRecords(page[buf + rsize..]);
      assert tail[..rsize] == rec && tail[rsize..] == page[buf + rsize..];
      assert recs + ([rec] + rest) == (recs + [rec]) + rest;
      ConcatOne(recs, rec);
    }
  }

  /** The records read before `pos`, and what reading on gives. */
  ghost function ReadAt(file: Bytes, out: seq<Bytes>, pos: nat): seq<Bytes>
    requires pos <= |file|
  {
    out + ReadFrom(file, pos)
  }

  /** The chunk loop with the rewind by what is left.  Each read but a last fruitless one dispatches. */
  method ReadTraceFile(file: Bytes) returns (out: seq<Bytes>, pulls: nat)
    ensures out == ReadAll(file)
    ensures |Concat(out)| == |file| ==> pulls <= |out|
  {
    out, pulls := [], 0;
    var pos: nat, fsize: nat := 0, |file|;
    ghost var all := ReadAt(file, [], 0);
    while fsize > 0
      invariant pos + fsize == |file| && |Concat(out)| == pos
      invariant ReadAt(file, out, pos) == all
      invariant pulls <= |out|
    {
      var page := Chunk(file, pos);
      fsize := fsize - |page|;
      var recs, left := SplitPage(page);
      pulls := pulls + 1;
      ReadNext(file, out, pos, recs);
      if recs == [] {
        ReadBegins(file);
        return;
      }
      ConcatAppend(out, recs);
      out := out + recs;
      pos := pos + |page| - left;
      fsize := fsize + left;
    }
    ReadNext(file, out, pos, []);
    ReadBegins(file);
  }

  lemma ReadBegins(file: Bytes)
    ensures ReadAt(file, [], 0) == ReadAll(file)
  {
    assert [] + ReadAll(file) == ReadAll(file);
  }

  /** One turn of the chunk loop. */
  lemma ReadNext(file: Bytes, out: seq<Bytes>, pos: nat, recs: seq<Bytes>)
    requires pos <= |file| && recs == WholeRecords(Chunk(file, pos))
    ensures ReadAt(file, out, pos) == if recs == [] then out else ReadAt(file, out + recs, pos + |Concat(recs)|)
  {
    if recs == [] {
      assert out + [] == out;
    } else {
      Regroup(out, recs, ReadFrom(file, pos + |Concat(recs)|));
    }
  }

  lemma Regroup(a: seq<Bytes>, b: seq<Bytes>, c: seq<Bytes>)
    ensures a + (b + c) == (a + b) + c
  {
  }

  /** How many of the records fit whole into `n` bytes. */
  function Fit(recs: seq<Bytes>, n: nat): (k: nat)
    ensures k <= |recs|
  {
    if recs == [] || |recs[0]| > n then 0 else 1 + Fit(recs[1..], n - |recs[0]|)
  }

  lemma {:induction false} PageOfRecords(recs: seq<Bytes>, n: nat)
    requires AllFramed(recs) && n <= |Concat(recs)|
    ensures WholeRecords(Concat(recs)[..n]) == recs[..Fit(recs, n)]
    decreases |recs|
  {
    if recs != [] && n >= 6 {
      var r, rest := recs[0], recs[1..];
      var page := Concat(recs)[..n];
      assert page[4] == r[4] && page[5] == r[5];
      assert ClaimedSize(page) == |r|;
      if |r| <= n {
        assert page[..|r|] == r;
        assert page[|r|..] == Concat(rest)[..n - |r|];
        PageOfRecords(rest, n - |r|);
        assert [r] + rest[..Fit(rest, n - |r|)] == recs[..Fit(recs, n)];
      }
    }
  }

  lemma RestOfFile(recs: seq<Bytes>, i: nat)
    requires i <= |recs|
    ensures Start(recs, i) <= |Concat(recs)| && Concat(recs)[Start(recs, i)..] == Concat(recs[i..])
  {
    assert recs == recs[..i] + recs[i..];
    ConcatAppend(recs[..i], recs[i..]);
  }

  lemma ChunkOfRest(file: Bytes, pos: nat, rest: Bytes)
    requires pos <= |file| && file[pos..] == rest
    ensures Chunk(file, pos) == rest[..Min(PAGE_SIZE, |rest|)]
  {
  }

  /** The page that starts at record `i` yields the records from `i` on that fit it whole, at least one. */
  lemma PageAt(recs: seq<Bytes>, i: nat) returns (k: nat)
    requires AllFramed(recs) && i < |recs|
    ensures i < k <= |recs| && Start(recs, k) <= |Concat(recs)|
    ensures Start(recs, i) <= |Concat(recs)| && WholeRecords(Chunk(Concat(recs), Start(recs, i))) == recs[i..k]
    ensures Start(recs, k) == Start(recs, i) + |Concat(recs[i..k])|
  {
    var rest := recs[i..];
    var n := Min(PAGE_SIZE, |Concat(rest)|);
    RestOfFile(recs, i);
    ChunkOfRest(Concat(recs), Start(recs, i), Concat(rest));
    PageOfRecords(rest, n);
    k := i + Fit(rest, n);
    assert rest[..Fit(rest, n)] == recs[i..k];
    Segment(recs, i, k);
  }

  /** Wherever the reader has come to a record boundary, reading on completes the records. */
  lemma {:induction false} ReadsOn(recs: seq<Bytes>, i: nat)
    requires AllFramed(recs) && i <= |recs| && Start(recs, i) <= |Concat(recs)|
    ensures ReadAt(Concat(recs), recs[..i], Start(recs, i)) == recs
    decreases |recs| - i
  {
    if i == |recs| {
      ReadsNoMore(recs);
    } else {
      var k := PageAt(recs, i);
      ReadsOn(recs, k);
      var done, page := recs[..i], recs[i..k];
      assert done + page == recs[..k];
      ReadNext(Concat(recs), done, Start(recs, i), page);
    }
  }

  lemma ReadsNoMore(recs: seq<Bytes>)
    ensures Start(recs, |recs|) == |Concat(recs)| && ReadAt(Concat(recs), recs[..|recs|], Start(recs, |recs|)) == recs
  {
    StartEnds(recs);
    assert recs[..|recs|] == recs;
    ReadNext(Concat(recs), recs, |Concat(recs)|, []);
  }

  /** Reading back any concatenation of records of at most a page gives the records. */
  lemma ReadsBack(recs: seq<Bytes>)
    requires AllFramed(recs)
    ensures ReadAll(Concat(recs)) == recs
  {
    StartEnds(recs);
    ReadsOn(recs, 0);
    ReadBegins(Concat(recs));
  }
}
