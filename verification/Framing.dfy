/** Bytes, little-endian integers, and the record framing shared by the log thread and the reader. */
module Framing {

  type byte = x: int | 0 <= x < 256

  type Bytes = seq<byte>

  const PAGE_SIZE := 4096

  function Pow256(n: nat): (p: nat)
    ensures p >= 1
  {
    if n == 0 then 1 else 256 * Pow256(n - 1)
  }

  /** `n` in `width` bytes, least significant first; higher bits are dropped, as a C store does. */
  function Encode(n: nat, width: nat): (bs: Bytes)
    ensures |bs| == width
  {
    if width == 0 then [] else [n % 256] + Encode(n / 256, width - 1)
  }

  function Decode(bs: Bytes): nat {
    if bs == [] then 0 else bs[0] + 256 * Decode(bs[1..])
  }

  lemma {:induction false} DecodeEncode(n: nat, width: nat)
    requires n < Pow256(width)
    ensures Decode(Encode(n, width)) == n
    decreases width
  {
    if width > 0 {
      var bs := Encode(n, width);
      assert bs[1..] == Encode(n / 256, width - 1);
      DecodeEncode(n / 256, width - 1);
    }
  }

  /** `*(unsigned short *)(mem + at)`. */
  function U16(mem: Bytes, at: nat): (n: nat)
    requires at + 2 <= |mem|
    ensures n < 65536
  {
    var lo: int, hi: int := mem[at], mem[at + 1];
    lo + 256 * hi
  }

  /** The size a record claims: the two bytes after its id. */
  function ClaimedSize(rec: Bytes): nat
    requires 6 <= |rec|
  {
    U16(rec, 4)
  }

  /** A record that fits a page, holds at least the id, the size and the type, and claims its own length. */
  predicate Framed(rec: Bytes) {
    7 <= |rec| <= PAGE_SIZE && ClaimedSize(rec) == |rec|
  }

  ghost predicate AllFramed(recs: seq<Bytes>) {
    forall i :: 0 <= i < |recs| ==> Framed(recs[i])
  }

  function Concat(recs: seq<Bytes>): Bytes {
    if recs == [] then [] else recs[0] + Concat(recs[1..])
  }

  lemma {:induction false} ConcatAppend(a: seq<Bytes>, b: seq<Bytes>)
    ensures Concat(a + b) == Concat(a) + Concat(b)
    decreases |a|
  {
    if a == [] {
      assert a + b == b;
    } else {
      assert (a + b)[1..] == a[1..] + b;
      ConcatAppend(a[1..], b);
    }
  }

  lemma ConcatOne(a: seq<Bytes>, r: Bytes)
    ensures Concat(a + [r]) == Concat(a) + r
  {
    ConcatAppend(a, [r]);
    assert [r][1..] == [];
    assert Concat([r]) == r + Concat([r][1..]);
  }

  /** Where record `j` starts in the concatenation. */
  function Start(recs: seq<Bytes>, j: nat): nat
    requires j <= |recs|
  {
    |Concat(recs[..j])|
  }

  ghost predicate IsBoundary(recs: seq<Bytes>, at: nat) {
    exists j :: 0 <= j <= |recs| && Start(recs, j) == at
  }

  lemma StartNext(recs: seq<Bytes>, j: nat)
    requires j < |recs|
    ensures Start(recs, j + 1) == Start(recs, j) + |recs[j]|
  {
    assert recs[..j + 1] == recs[..j] + [recs[j]];
    ConcatOne(recs[..j], recs[j]);
  }

  lemma {:induction false} StartMonotone(recs: seq<Bytes>, i: nat, j: nat)
    requires AllFramed(recs) && i <= j <= |recs|
    ensures Start(recs, i) + 7 * (j - i) <= Start(recs, j)
    decreases j - i
  {
    if i < j {
      StartMonotone(recs, i, j - 1);
      StartNext(recs, j - 1);
    }
  }

  lemma StartEnds(recs: seq<Bytes>)
    ensures Start(recs, 0) == 0 && Start(recs, |recs|) == |Concat(recs)|
  {
    assert recs[..|recs|] == recs;
  }

  lemma Segment(recs: seq<Bytes>, i: nat, j: nat)
    requires i <= j <= |recs|
    ensures Start(recs, j) == Start(recs, i) + |Concat(recs[i..j])| <= |Concat(recs)|
    ensures Concat(recs)[Start(recs, i)..Start(recs, j)] == Concat(recs[i..j])
  {
    assert recs[..j] == recs[..i] + recs[i..j];
    ConcatAppend(recs[..i], recs[i..j]);
    assert recs == recs[..j] + recs[j..];
    ConcatAppend(recs[..j], recs[j..]);
  }
}
