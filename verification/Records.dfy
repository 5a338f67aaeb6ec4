/** The kernel's record assemblers (trfs/trfs_ops.c). */
module Records {
  import opened Framing
  import opened Layout

  datatype Option<T> = None | Some(value: T)

  /** A traced operation, with what its assembler is given. */
  datatype Event =
    | OpenEv(flags: int, mode: nat, pid: nat, addr: nat, ret: int, name: Bytes)
    | ReadEv(pid: nat, addr: nat, count: nat, ppos: nat, ret: int, name: Bytes)
    | WriteEv(pid: nat, addr: nat, ppos: nat, ret: int, name: Bytes, payload: Bytes)
    | CloseEv(pid: nat, addr: nat, ret: int, name: Bytes)
    | MkdirEv(dmode: int, ret: int, name: Bytes)
    | RmdirEv(ret: int, name: Bytes)
    | UnlinkEv(ret: int, name: Bytes)
    | LinkEv(ret: int, name: Bytes, newName: Bytes)
    | SymlinkEv(ret: int, name: Bytes, target: Bytes)
    | RenameEv(ret: int, name: Bytes, newName: Bytes)

  function KindOf(e: Event): Kind {
    match e
    case OpenEv(_, _, _, _, _, _) => Open
    case ReadEv(_, _, _, _, _, _) => Read
    case WriteEv(_, _, _, _, _, _) => Write
    case CloseEv(_, _, _, _) => Close
    case MkdirEv(_, _, _) => Mkdir
    case RmdirEv(_, _) => Rmdir
    case UnlinkEv(_, _) => Unlink
    case LinkEv(_, _, _) => Link
    case SymlinkEv(_, _, _) => Symlink
    case RenameEv(_, _, _) => Rename
  }

  /** The TRFS_OP code stored in `r_type`. */
  function Code(k: Kind): byte {
    match k
    case Link => 3 case Unlink => 4 case Symlink => 5 case Mkdir => 6 case Rmdir => 7
    case Rename => 10 case Read => 20 case Write => 21 case Open => 23 case Close => 24
  }

  const TWO31 := 0x8000_0000
  const TWO32 := 0x1_0000_0000
  const TWO64 := 0x1_0000_0000_0000_0000

  /** An int as the unsigned number with the same bits, and back. */
  function Unsigned(n: int): nat { n % TWO32 }
  function Signed(u: nat): int { if u >= TWO31 then u - TWO32 else u }

  lemma SignedUnsigned(n: int)
    requires -TWO31 <= n < TWO31
    ensures Unsigned(n) < TWO32 && Signed(Unsigned(n)) == n
  {
  }

  /** The text copied to `pathname`, and the text copied right after the name's bytes, if any.
      strcpy copies the terminating NUL, memcpy does not. */
  function FirstText(e: Event): Bytes {
    if e.WriteEv? || e.CloseEv? then e.name else e.name + [0]
  }

  function SecondText(e: Event): Option<Bytes> {
    match e
    case WriteEv(_, _, _, _, _, payload) => Some(payload)
    case LinkEv(_, _, newName) => Some(newName + [0])
    case SymlinkEv(_, _, target) => Some(target + [0])
    case RenameEv(_, _, newName) => Some(newName + [0])
    case _ => None
  }

  /** The length the assembler takes for the second text: link takes the old name's. */
  function SecondLen(e: Event): nat {
    match e
    case WriteEv(_, _, _, _, _, payload) => |payload|
    case LinkEv(_, name, _) => |name|
    case SymlinkEv(_, _, target) => |target|
    case RenameEv(_, _, newName) => |newName|
    case _ => 0
  }

  /** The size of the allocation, which goes into `r_size` as an unsigned short. */
  function RecordSize(e: Event): nat {
    SizeOf(KernelStruct(KindOf(e))) + |e.name| + SecondLen(e)
  }

  /** What the assembler stores in each field; fields it does not set keep what kmalloc left. */
  function FieldValue(e: Event, rid: nat, f: Field): Option<nat> {
    match f
    case RId => Some(rid)
    case RSize => Some(RecordSize(e))
    case RType => Some(Code(KindOf(e)))
    case Flags => if e.OpenEv? then Some(Unsigned(e.flags)) else None
    case Mode => if e.OpenEv? then Some(e.mode) else if e.MkdirEv? then Some(Unsigned(e.dmode)) else None
    case Pid => if e.OpenEv? || e.ReadEv? || e.WriteEv? || e.CloseEv? then Some(e.pid) else None
    case Addr => if e.OpenEv? || e.ReadEv? || e.WriteEv? || e.CloseEv? then Some(e.addr) else None
    case Count => if e.ReadEv? then Some(e.count) else if e.WriteEv? then Some(|e.payload|) else None
    case Ppos => if e.ReadEv? || e.WriteEv? then Some(e.ppos) else None
    case Ret => Some(Unsigned(e.ret))
    case Len1 => Some(|e.name|)
    case Len2 => if e.LinkEv? || e.SymlinkEv? || e.RenameEv? then Some(SecondLen(e)) else None
    case Path1 => None
    case Path2 => None
  }

  function Store(mem: Bytes, at: nat, bs: Bytes): (mem': Bytes)
    requires at + |bs| <= |mem|
    ensures |mem'| == |mem|
    ensures mem'[at..at + |bs|] == bs
    ensures forall i :: 0 <= i < |mem| && !(at <= i < at + |bs|) ==> mem'[i] == mem[i]
  {
    mem[..at] + bs + mem[at + |bs|..]
  }

  predicate Fits(s: Struct, n: nat) {
    s.At? ==> s.offset + s.width <= n && Fits(s.rest, n)
  }

  /** The fields lie one after the other from `from` on. */
  predicate Ascending(s: Struct, from: nat) {
    s.At? ==> from <= s.offset && Ascending(s.rest, s.offset + s.width)
  }

  lemma {:induction false} LaidOutAscends(s: Struct, from: nat, widest: nat)
    requires LaidOut(s, from, widest)
    ensures Ascending(s, from) && from <= SizeOf(s) && Fits(s, SizeOf(s))
  {
    if s.At? {
      LaidOutAscends(s.rest, s.offset + s.width, if s.width > widest then s.width else widest);
    }
  }

  lemma {:induction false} FitsMore(s: Struct, n: nat, m: nat)
    requires Fits(s, n) && n <= m
    ensures Fits(s, m)
  {
    if s.At? {
      FitsMore(s.rest, n, m);
    }
  }

  type Values = Field -> Option<nat>

  /** The stores to the fields of `s`.  The fields do not overlap, so their order is immaterial. */
  function Fill(s: Struct, vals: Values, mem: Bytes): (mem': Bytes)
    requires Fits(s, |mem|)
    ensures |mem'| == |mem|
  {
    if s.End? then mem else Fill(s.rest, vals, FillOne(s, vals, mem))
  }

  function FillOne(s: Struct, vals: Values, mem: Bytes): (mem': Bytes)
    requires s.At? && s.offset + s.width <= |mem|
    ensures |mem'| == |mem|
    ensures vals(s.field).Some? ==> mem'[s.offset..s.offset + s.width] == Encode(vals(s.field).value, s.width)
    ensures forall i :: 0 <= i < |mem| && !(s.offset <= i < s.offset + s.width) ==> mem'[i] == mem[i]
  {
    match vals(s.field)
    case None => mem
    case Some(v) => Store(mem, s.offset, Encode(v, s.width))
  }

  lemma {:induction false} FillKeepsBelow(s: Struct, from: nat, vals: Values, mem: Bytes)
    requires Ascending(s, from) && Fits(s, |mem|)
    ensures forall i :: 0 <= i < from && i < |mem| ==> Fill(s, vals, mem)[i] == mem[i]
  {
    if s.At? {
      FillKeepsBelow(s.rest, s.offset + s.width, vals, FillOne(s, vals, mem));
    }
  }

  lemma SameSlice(a: Bytes, b: Bytes, lo: nat, hi: nat)
    requires lo <= hi <= |a| == |b| && forall i :: lo <= i < hi ==> a[i] == b[i]
    ensures a[lo..hi] == b[lo..hi]
  {
  }

  /** Every field that is set holds its value once all are filled. */
  lemma {:induction false} FillSets(s: Struct, from: nat, vals: Values, mem: Bytes, f: Field)
    requires Ascending(s, from) && Fits(s, |mem|) && Has(s, f) && vals(f).Some?
    ensures Offset(s, f) + Width(s, f) <= |mem|
    ensures Fill(s, vals, mem)[Offset(s, f)..Offset(s, f) + Width(s, f)] == Encode(vals(f).value, Width(s, f))
  {
    var mem1 := FillOne(s, vals, mem);
    var done := Fill(s.rest, vals, mem1);
    assert Fill(s, vals, mem) == done;
    if s.field == f {
      FillKeepsBelow(s.rest, s.offset + s.width, vals, mem1);
      SameSlice(done, mem1, s.offset, s.offset + s.width);
    } else {
      FillSets(s.rest, s.offset + s.width, vals, mem1, f);
    }
  }

  /** No field that holds a number lies at or after the path. */
  predicate PathLast(s: Struct) {
    && s.At? && s.width > 0
    && if s.field == Path1 then s.rest.End? || (s.rest.field == Path2 && s.rest.rest.End?) else PathLast(s.rest)
  }

  lemma {:induction false} PathAfter(s: Struct, from: nat)
    requires Ascending(s, from) && PathLast(s)
    ensures Has(s, Path1) && from <= Offset(s, Path1) && Width(s, Path1) > 0
  {
    if s.field != Path1 {
      PathAfter(s.rest, s.offset + s.width);
    }
  }

  lemma {:induction false} BeforePath(s: Struct, from: nat, f: Field)
    requires Ascending(s, from) && PathLast(s) && Has(s, f) && f != Path1 && f != Path2
    ensures Has(s, Path1) && Offset(s, f) + Width(s, f) <= Offset(s, Path1)
  {
    if s.field == Path1 {
      assert s.rest.At? ==> !Has(s.rest.rest, f);
      assert false;
    }
    if s.field == f {
      PathAfter(s.rest, s.offset + s.width);
    } else {
      BeforePath(s.rest, s.offset + s.width, f);
    }
  }

  // ----- where the texts go -----

  lemma KernelFacts(k: Kind)
    ensures var s := KernelStruct(k); PathLast(s) && Has(s, Path1) && Ascending(s, 0) && Fits(s, SizeOf(s))
  {
    StructsLaidOut(k);
    LaidOutAscends(KernelStruct(k), 0, 1);
    PathIsLast(k);
    PathAfter(KernelStruct(k), 0);
  }

  lemma PathIsLast(k: Kind)
    ensures PathLast(KernelStruct(k))
  {
  }

  lemma {:induction false} WithinFits(s: Struct, n: nat, f: Field)
    requires Fits(s, n) && Has(s, f)
    ensures Offset(s, f) + Width(s, f) <= n
  {
    if s.field != f {
      WithinFits(s.rest, n, f);
    }
  }

  function PathAt(k: Kind): (p: nat)
    ensures p < SizeOf(KernelStruct(k))
  {
    KernelFacts(k);
    WithinFits(KernelStruct(k), SizeOf(KernelStruct(k)), Path1);
    PathAfter(KernelStruct(k), 0);
    Offset(KernelStruct(k), Path1)
  }

  // ----- filling a record -----

  /** The texts of a record: the first, whose name part has `n` bytes, and one copied right after those. */
  datatype Texts = Texts(first: Bytes, n: nat, second: Option<Bytes>)

  /** A structure with room for its fields and its texts in `size` bytes. */
  ghost predicate Roomy(s: Struct, t: Texts, size: nat) {
    && PathLast(s) && Ascending(s, 0) && Fits(s, size) && Has(s, Path1)
    && t.n <= |t.first|
    && Offset(s, Path1) + |t.first| <= size
    && (t.second.Some? ==> Offset(s, Path1) + t.n + |t.second.value| <= size)
  }

  /** What filling the fields and copying the texts makes of `junk`. */
  function Build(s: Struct, vals: Values, t: Texts, junk: Bytes): (rec: Bytes)
    requires Roomy(s, t, |junk|)
    ensures |rec| == |junk|
  {
    var mem := Store(Fill(s, vals, junk), Offset(s, Path1), t.first);
    match t.second
    case None => mem
    case Some(text) => Store(mem, Offset(s, Path1) + t.n, text)
  }

  /** The same in place, in a new allocation that held `junk`. */
  method BuildInPlace(s0: Struct, vals: Values, t: Texts, junk: Bytes) returns (rec: array<byte>)
    requires Roomy(s0, t, |junk|)
    ensures rec[..] == Build(s0, vals, t, junk)
  {
    rec := new byte[|junk|](i requires 0 <= i < |junk| => junk[i]);
    assert rec[..] == junk;
    ghost var target := Fill(s0, vals, rec[..]);
    var s := s0;
    while s.At?
      invariant rec.Length == |junk| && Fits(s, |junk|)
      invariant Fill(s, vals, rec[..]) == target
      decreases s
    {
      var v := vals(s.field);
      if v.Some? {
        StoreAt(rec, s.offset, Encode(v.value, s.width));
      }
      s := s.rest;
    }
    StoreAt(rec, Offset(s0, Path1), t.first);
    if t.second.Some? {
      StoreAt(rec, Offset(s0, Path1) + t.n, t.second.value);
    }
  }

  method StoreAt(rec: array<byte>, at: nat, bs: Bytes)
    requires at + |bs| <= rec.Length
    modifies rec
    ensures rec[..] == Store(old(rec[..]), at, bs)
  {
    for i := 0 to |bs|
      invariant forall j :: 0 <= j < rec.Length && !(at <= j < at + i) ==> rec[j] == old(rec[j])
      invariant forall j :: 0 <= j < i ==> rec[at + j] == bs[j]
    {
      rec[at + i] := bs[i];
    }
    ghost var want := Store(old(rec[..]), at, bs);
    forall j | 0 <= j < rec.Length
      ensures rec[j] == want[j]
    {
      if at <= j < at + |bs| {
        assert want[j] == want[at..at + |bs|][j - at];
      }
    }
  }

  lemma BuiltField(s: Struct, vals: Values, t: Texts, junk: Bytes, f: Field)
    requires Roomy(s, t, |junk|) && Has(s, f) && vals(f).Some? && f != Path1 && f != Path2
    ensures Offset(s, f) + Width(s, f) <= |junk|
    ensures Build(s, vals, t, junk)[Offset(s, f)..Offset(s, f) + Width(s, f)] == Encode(vals(f).value, Width(s, f))
  {
    FillSets(s, 0, vals, junk, f);
    BeforePath(s, 0, f);
    BuildKeepsBelow(s, vals, t, junk);
    SameSlice(Build(s, vals, t, junk), Fill(s, vals, junk), Offset(s, f), Offset(s, f) + Width(s, f));
  }

  lemma BuildKeepsBelow(s: Struct, vals: Values, t: Texts, junk: Bytes)
    requires Roomy(s, t, |junk|)
    ensures forall i :: 0 <= i < Offset(s, Path1) ==> Build(s, vals, t, junk)[i] == Fill(s, vals, junk)[i]
  {
  }

  /** `text` lies at `q`, as far as the record goes. */
  ghost predicate LiesAt(rec: Bytes, q: nat, text: Bytes) {
    q <= |rec| && var k := if |text| <= |rec| - q then |text| else |rec| - q; rec[q..q + k] == text[..k]
  }

  /** The texts lie in the record from `p` on, the second as far as the record goes. */
  ghost predicate HoldsTexts(rec: Bytes, p: nat, t: Texts) {
    && t.n <= |t.first| && p + t.n <= |rec|
    && rec[p..p + t.n] == t.first[..t.n]
    && (t.second.None? ==> p + |t.first| <= |rec| && rec[p..p + |t.first|] == t.first)
    && (t.second.Some? ==> LiesAt(rec, p + t.n, t.second.value))
  }

  lemma CutTexts(mem: Bytes, size: nat, p: nat, t: Texts)
    requires HoldsTexts(mem, p, t) && p + t.n <= size <= |mem| && (t.second.None? ==> p + |t.first| <= size)
    ensures HoldsTexts(mem[..size], p, t)
  {
    assert mem[..size][p..p + t.n] == mem[p..p + t.n];
    if t.second.Some? {
      CutLies(mem, size, p + t.n, t.second.value);
    } else {
      assert mem[..size][p..p + |t.first|] == mem[p..p + |t.first|];
    }
  }

  lemma FirstOf(mem: Bytes, q: nat, n: nat, k: nat, m: nat)
    requires m <= n && m <= k && q + n <= |mem| && q + k <= |mem|
    ensures mem[q..q + n][..m] == mem[q..q + m]
    ensures mem[q..q + k][..m] == mem[q..q + m]
  {
    SlicePrefix(mem, q, n, m);
    SlicePrefix(mem, q, k, m);
  }

  lemma SlicePrefix(mem: Bytes, q: nat, n: nat, m: nat)
    requires m <= n && q + n <= |mem|
    ensures mem[q..q + n][..m] == mem[q..q + m]
  {
    var a, b := mem[q..q + n][..m], mem[q..q + m];
    forall i | 0 <= i < m
      ensures a[i] == b[i]
    {
      assert a[i] == mem[q + i];
    }
  }

  lemma CutLies(mem: Bytes, size: nat, q: nat, text: Bytes)
    requires LiesAt(mem, q, text) && q <= size <= |mem|
    ensures LiesAt(mem[..size], q, text)
  {
    var k := if |text| <= |mem| - q then |text| else |mem| - q;
    var j := if |text| <= size - q then |text| else size - q;
    var part := mem[q..q + k];
    FirstOf(mem, q, j, k, j);
    assert mem[..size][q..q + j] == mem[q..q + j];
    assert part == text[..k];
    assert part[..j] == text[..j];
  }

  lemma BuiltTexts(s: Struct, vals: Values, t: Texts, junk: Bytes)
    requires Roomy(s, t, |junk|)
    ensures HoldsTexts(Build(s, vals, t, junk), Offset(s, Path1), t)
  {
    var rec, p := Build(s, vals, t, junk), Offset(s, Path1);
    var mem := Store(Fill(s, vals, junk), p, t.first);
    assert mem[p..p + t.n] == mem[p..p + |t.first|][..t.n];
    SameSlice(rec, mem, p, p + t.n);
    if t.second.Some? {
      assert t.second.value[..|t.second.value|] == t.second.value;
    }
  }

  // ----- the assemblers -----

  function TextsOf(e: Event): Texts { Texts(FirstText(e), |e.name|, SecondText(e)) }

  function ValuesOf(e: Event, rid: nat): Values { f => FieldValue(e, rid, f) }

  /** Where the texts end, counted from the start of the record. */
  function TextsEnd(e: Event): nat {
    var p, t := PathAt(KindOf(e)), TextsOf(e);
    if t.second.Some? && t.n + |t.second.value| > |t.first| then p + t.n + |t.second.value| else p + |t.first|
  }

  /** Memory from the start of the allocation on, which goes on after the allocation. */
  ghost predicate Reaches(e: Event, mem: Bytes) {
    RecordSize(e) <= |mem| && TextsEnd(e) <= |mem|
  }

  lemma HasRoom(e: Event, n: nat)
    requires RecordSize(e) <= n
    ensures Roomy(KernelStruct(KindOf(e)), TextsOf(e), n) <==> TextsEnd(e) <= n
  {
    var k := KindOf(e);
    KernelFacts(k);
    FitsMore(KernelStruct(k), SizeOf(KernelStruct(k)), n);
  }

  /** Memory as the assembler leaves it. */
  function AssembleIn(e: Event, rid: nat, mem: Bytes): (mem': Bytes)
    requires Reaches(e, mem)
    ensures |mem'| == |mem|
  {
    HasRoom(e, |mem|);
    Build(KernelStruct(KindOf(e)), ValuesOf(e, rid), TextsOf(e), mem)
  }

  /** The record: as many bytes of it as were allocated and are sent. */
  function Assemble(e: Event, rid: nat, mem: Bytes): (rec: Bytes)
    requires Reaches(e, mem)
    ensures |rec| == RecordSize(e)
  {
    AssembleIn(e, rid, mem)[..RecordSize(e)]
  }

  method AssembleRecord(e: Event, rid: nat, mem: Bytes) returns (heap: array<byte>)
    requires Reaches(e, mem)
    ensures heap[..] == AssembleIn(e, rid, mem)
  {
    HasRoom(e, |mem|);
    heap := BuildInPlace(KernelStruct(KindOf(e)), ValuesOf(e, rid), TextsOf(e), mem);
  }

  // ----- the end of the allocation -----

  /** The fields and the texts stay inside the allocation. */
  ghost predicate TextsFit(e: Event) {
    Roomy(KernelStruct(KindOf(e)), TextsOf(e), RecordSize(e))
  }

  /** Only a link record can leave its allocation, and does if and only if the new name is more than
      three bytes longer than the old one. */
  lemma TextsFitIff(e: Event)
    ensures TextsFit(e) <==> (e.LinkEv? ==> |e.newName| <= |e.name| + 3)
  {
    HasRoom(e, RecordSize(e));
    assert PathAt(KindOf(e)) < SizeOf(KernelStruct(KindOf(e)));
  }

  /** A link from "a" to "bbbbb". */
  lemma LinkLeavesAllocation()
    ensures !TextsFit(LinkEv(0, [97], [98, 98, 98, 98, 98]))
  {
    TextsFitIff(LinkEv(0, [97], [98, 98, 98, 98, 98]));
  }

  /** What becomes of the memory after the allocation: nothing if the texts fit; otherwise the end of
      the new name and its NUL are written over it, and what lies after those stays. */
  lemma PastTheEnd(e: Event, rid: nat, mem: Bytes)
    requires Reaches(e, mem)
    ensures TextsFit(e) ==> AssembleIn(e, rid, mem)[RecordSize(e)..] == mem[RecordSize(e)..]
    ensures !TextsFit(e) ==>
              && e.LinkEv? && |e.name| + 4 <= |e.newName|
              && AssembleIn(e, rid, mem)[RecordSize(e)..] == (e.newName + [0])[|e.name| + 4..] + mem[TextsEnd(e)..]
  {
    KeepsAfterTexts(e, rid, mem);
    TextsFitIff(e);
    HasRoom(e, RecordSize(e));
    if TextsFit(e) {
      SameSlice(AssembleIn(e, rid, mem), mem, RecordSize(e), |mem|);
    } else {
      HoldsItsTexts(e, rid, mem);
      LinkTail(e, AssembleIn(e, rid, mem), mem);
    }
  }

  lemma HoldsItsTexts(e: Event, rid: nat, mem: Bytes)
    requires Reaches(e, mem)
    ensures HoldsTexts(AssembleIn(e, rid, mem), PathAt(KindOf(e)), TextsOf(e))
  {
    HasRoom(e, |mem|);
    BuiltTexts(KernelStruct(KindOf(e)), ValuesOf(e, rid), TextsOf(e), mem);
  }

  lemma KeepsAfterTexts(e: Event, rid: nat, mem: Bytes)
    requires Reaches(e, mem)
    ensures forall i :: RecordSize(e) <= i < |mem| && TextsEnd(e) <= i ==> AssembleIn(e, rid, mem)[i] == mem[i]
  {
    var s := KernelStruct(KindOf(e));
    HasRoom(e, |mem|);
    KernelFacts(KindOf(e));
    FillKeepsAbove(s, SizeOf(s), ValuesOf(e, rid), mem);
    BuildKeepsAbove(s, ValuesOf(e, rid), TextsOf(e), mem, SizeOf(s));
  }

  lemma {:induction false} FillKeepsAbove(s: Struct, n: nat, vals: Values, mem: Bytes)
    requires Fits(s, n) && n <= |mem| && Fits(s, |mem|)
    ensures forall i :: n <= i < |mem| ==> Fill(s, vals, mem)[i] == mem[i]
  {
    if s.At? {
      FillKeepsAbove(s.rest, n, vals, FillOne(s, vals, mem));
    }
  }

  lemma BuildKeepsAbove(s: Struct, vals: Values, t: Texts, mem: Bytes, n: nat)
    requires Roomy(s, t, |mem|) && n <= |mem| && forall i :: n <= i < |mem| ==> Fill(s, vals, mem)[i] == mem[i]
    ensures forall i :: n <= i < |mem| && Offset(s, Path1) + |t.first| <= i
                        && (t.second.Some? ==> Offset(s, Path1) + t.n + |t.second.value| <= i) ==>
              Build(s, vals, t, mem)[i] == mem[i]
  {
  }

  lemma LinkTail(e: Event, done: Bytes, mem: Bytes)
    requires e.LinkEv? && |e.name| + 4 <= |e.newName| && TextsEnd(e) <= |done| == |mem|
    requires HoldsTexts(done, PathAt(Link), TextsOf(e)) && forall i :: TextsEnd(e) <= i < |mem| ==> done[i] == mem[i]
    ensures RecordSize(e) <= |done|
    ensures done[RecordSize(e)..] == (e.newName + [0])[|e.name| + 4..] + mem[TextsEnd(e)..]
  {
    LinkNumbers(e);
    Tail(done, mem, e.newName + [0], PathAt(Link) + |e.name|, |e.name| + 4);
  }

  lemma Tail(done: Bytes, mem: Bytes, text: Bytes, q: nat, n: nat)
    requires n <= |text| && q + |text| <= |done| == |mem| && LiesAt(done, q, text)
    requires forall i :: q + |text| <= i < |mem| ==> done[i] == mem[i]
    ensures done[q + n..] == text[n..] + mem[q + |text|..]
  {
    assert done[q..q + |text|] == text;
    assert done[q + n..q + |text|] == done[q..q + |text|][n..];
    SameSlice(done, mem, q + |text|, |mem|);
  }

  lemma LinkNumbers(e: Event)
    requires e.LinkEv? && |e.name| + 4 <= |e.newName|
    ensures PathAt(Link) == 20 && RecordSize(e) == 24 + 2 * |e.name| && TextsEnd(e) == 21 + |e.name| + |e.newName|
  {
  }

  // ----- the fields -----

  lemma FileFieldsExist(e: Event, rid: nat, f: Field)
    requires FieldValue(e, rid, f).Some? && (e.OpenEv? || e.ReadEv? || e.WriteEv? || e.CloseEv?)
    ensures Has(KernelStruct(KindOf(e)), f)
  {
  }

  lemma NameFieldsExist(e: Event, rid: nat, f: Field)
    requires FieldValue(e, rid, f).Some? && !(e.OpenEv? || e.ReadEv? || e.WriteEv? || e.CloseEv?)
    ensures Has(KernelStruct(KindOf(e)), f)
  {
  }

  /** The assembler sets fields its structure has. */
  lemma SetFieldsExist(e: Event, rid: nat, f: Field)
    requires FieldValue(e, rid, f).Some?
    ensures Has(KernelStruct(KindOf(e)), f)
  {
    if e.OpenEv? || e.ReadEv? || e.WriteEv? || e.CloseEv? {
      FileFieldsExist(e, rid, f);
    } else {
      NameFieldsExist(e, rid, f);
    }
  }
}
