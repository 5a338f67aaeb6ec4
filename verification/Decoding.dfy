/** What the replay functions of Userland/trfs_ops.c read out of a record, at the offsets of
    Userland/structs.h. */
module Decoding {
  import opened Framing
  import opened Layout
  import opened Records
  import opened Omap

  /** The system call a record asks for, with what its result is compared to.  The truncate function
      does nothing; `Skipped` is a record that is not dispatched, `Overrun` one that would take the
      replay function past its record or its 256-byte path buffers. */
  datatype Op =
    | MkdirOp(path: Bytes, dmode: int, ret: int)
    | RmdirOp(path: Bytes, ret: int)
    | UnlinkOp(path: Bytes, ret: int)
    | LinkOp(from: Bytes, to: Bytes, ret: int)
    | SymlinkOp(target: Bytes, path: Bytes, ret: int)
    | RenameOp(from: Bytes, to: Bytes, ret: int)
    | OpenOp(path: Bytes, flags: int, mode: nat, key: Key)
    | ReadOp(key: Key, count: nat, ret: int)
    | WriteOp(key: Key, data: Bytes)
    | CloseOp(key: Key)
    | TruncateOp
    | Skipped
    | Overrun

  /** The bytes up to the first NUL. */
  function CStr(bs: Bytes): Bytes {
    if bs == [] || bs[0] == 0 then [] else [bs[0]] + CStr(bs[1..])
  }

  predicate NulFree(bs: Bytes) { forall i :: 0 <= i < |bs| ==> bs[i] != 0 }

  lemma {:induction false} CStrStops(bs: Bytes, n: nat)
    requires n <= |bs| && NulFree(bs[..n]) && (n < |bs| ==> bs[n] == 0)
    ensures CStr(bs) == bs[..n]
    decreases n
  {
    if n > 0 {
      assert bs[..n][0] == bs[0];
      assert bs[..n][1..] == bs[1..][..n - 1];
      CStrStops(bs[1..], n - 1);
    }
  }

  const TRUNCATE: byte := 9

  function KindOfCode(c: byte): Option<Kind> {
    match c
    case 3 => Some(Link) case 4 => Some(Unlink) case 5 => Some(Symlink) case 6 => Some(Mkdir) case 7 => Some(Rmdir)
    case 10 => Some(Rename) case 20 => Some(Read) case 21 => Some(Write) case 23 => Some(Open) case 24 => Some(Close)
    case _ => None
  }

  /** The bytes of a field, as an unsigned number. */
  function FieldIn(rec: Bytes, s: Struct, f: Field): nat {
    if Offset(s, f) + Width(s, f) <= |rec| then Decode(rec[Offset(s, f)..Offset(s, f) + Width(s, f)]) else 0
  }

  // ----- every field comes back -----

  function StdWidth(f: Field): nat {
    match f
    case RId => 4 case RSize => 2 case RType => 1 case Flags => 4 case Mode => 4 case Pid => 4 case Addr => 8
    case Count => 8 case Ppos => 2 case Ret => 4 case Len1 => 2 case Len2 => 2 case Path1 => 1 case Path2 => 1
  }

  predicate StdWidths(s: Struct) {
    s.At? ==> s.width == StdWidth(s.field) && StdWidths(s.rest)
  }

  lemma {:induction false} WidthIsStd(s: Struct, f: Field)
    requires StdWidths(s) && Has(s, f)
    ensures Width(s, f) == StdWidth(f)
  {
    if s.field != f {
      WidthIsStd(s.rest, f);
    }
  }

  lemma KernelWidths(k: Kind)
    ensures StdWidths(KernelStruct(k))
  {
    match k
    case Open =>
    case Read =>
    case Write =>
    case Close =>
    case Mkdir =>
    case Rmdir =>
    case Unlink =>
    case Link =>
    case Symlink =>
    case Rename =>
  }

  lemma Powers()
    ensures Pow256(1) == 256 && Pow256(2) == 65536 && Pow256(4) == TWO32 && Pow256(8) == TWO64
  {
    assert Pow256(3) == 256 * Pow256(2) && Pow256(5) == 256 * Pow256(4);
    assert Pow256(6) == 256 * Pow256(5) && Pow256(7) == 256 * Pow256(6);
  }

  /** Arguments within their C types, and a record whose size its own size field can hold. */
  ghost predicate InRange(e: Event, rid: nat) {
    && rid < TWO32 && RecordSize(e) < 65536
    && -TWO31 <= e.ret < TWO31
    && (e.OpenEv? ==> -TWO31 <= e.flags < TWO31 && e.mode < TWO32)
    && (e.MkdirEv? ==> -TWO31 <= e.dmode < TWO31)
    && (e.OpenEv? || e.ReadEv? || e.WriteEv? || e.CloseEv? ==> e.pid < TWO32 && e.addr < TWO64)
    && (e.ReadEv? ==> e.count < TWO64)
  }

  lemma ValuesInRange(e: Event, rid: nat, f: Field)
    requires InRange(e, rid) && f != Ppos && FieldValue(e, rid, f).Some?
    ensures FieldValue(e, rid, f).value < Pow256(StdWidth(f))
  {
    Powers();
  }

  /** Every field the assembler sets, `ppos` apart, reads back at the userland offset as what was set. */
  lemma FieldComesBack(e: Event, rid: nat, mem: Bytes, f: Field)
    requires Reaches(e, mem) && InRange(e, rid)
    requires f != Ppos && FieldValue(e, rid, f).Some?
    ensures FieldIn(Assemble(e, rid, mem), UserStruct(KindOf(e)), f) == FieldValue(e, rid, f).value
  {
    FieldsHaveRoom(e, mem);
    ValuesInRange(e, rid, f);
    SetFieldsExist(e, rid, f);
    SamePlace(KindOf(e), f);
    BuiltReads(KernelStruct(KindOf(e)), UserStruct(KindOf(e)), ValuesOf(e, rid), TextsOf(e), mem, RecordSize(e), f);
  }

  lemma FieldsHaveRoom(e: Event, mem: Bytes)
    requires Reaches(e, mem)
    ensures var s := KernelStruct(KindOf(e)); Roomy(s, TextsOf(e), |mem|) && Fits(s, RecordSize(e))
  {
    HasRoom(e, |mem|);
    KernelFacts(KindOf(e));
    FitsMore(KernelStruct(KindOf(e)), SizeOf(KernelStruct(KindOf(e))), RecordSize(e));
  }

  lemma BuiltReads(s: Struct, u: Struct, vals: Values, t: Texts, mem: Bytes, size: nat, f: Field)
    requires Roomy(s, t, |mem|) && size <= |mem| && Fits(s, size) && Has(s, f) && f != Path1 && f != Path2
    requires Offset(u, f) == Offset(s, f) && Width(u, f) == Width(s, f)
    requires vals(f).Some? && vals(f).value < Pow256(Width(s, f))
    ensures FieldIn(Build(s, vals, t, mem)[..size], u, f) == vals(f).value
  {
    BuiltField(s, vals, t, mem, f);
    WithinFits(s, size, f);
    CutField(Build(s, vals, t, mem), size, u, f, vals(f).value);
  }

  lemma CutField(mem: Bytes, size: nat, u: Struct, f: Field, v: nat)
    requires var lo, hi := Offset(u, f), Offset(u, f) + Width(u, f);
             hi <= size <= |mem| && mem[lo..hi] == Encode(v, Width(u, f)) && v < Pow256(Width(u, f))
    ensures FieldIn(mem[..size], u, f) == v
  {
    var lo, hi := Offset(u, f), Offset(u, f) + Width(u, f);
    assert mem[..size][lo..hi] == mem[lo..hi];
    DecodeEncode(v, Width(u, f));
  }

  lemma SamePlace(k: Kind, f: Field)
    requires Has(KernelStruct(k), f) && f != Ppos
    ensures var s, u := KernelStruct(k), UserStruct(k);
            Offset(u, f) == Offset(s, f) && Width(u, f) == Width(s, f) == StdWidth(f)
  {
    LayoutsAgree(k, f);
    KernelWidths(k);
    WidthIsStd(KernelStruct(k), f);
  }

  lemma SameSizes(k: Kind)
    ensures SizeOf(KernelStruct(k)) == SizeOf(UserStruct(k))
  {
    if k != Read && k != Write {
      assert KernelStruct(k) == UserStruct(k);
    }
  }

  // ----- decoding -----

  lemma HasPath(k: Kind)
    ensures Offset(UserStruct(k), Path1) == PathAt(k)
  {
    KernelFacts(k);
    LayoutsAgree(k, Path1);
  }

  /** The path at the end of the record, as a C string. */
  function PathIn(rec: Bytes, u: Struct): Bytes {
    if Offset(u, Path1) <= |rec| then CStr(rec[Offset(u, Path1)..]) else []
  }

  /** `n` bytes of the record from `p` on. */
  function BytesAt(rec: Bytes, p: nat, n: nat): Option<Bytes> {
    if p + n <= |rec| then Some(rec[p..p + n]) else None
  }

  /** The key that open, read, write and close look up. */
  function KeyIn(rec: Bytes, u: Struct): Key {
    Key(FieldIn(rec, u, Addr), Signed(FieldIn(rec, u, Pid)))
  }

  function RetIn(rec: Bytes, u: Struct): int {
    Signed(FieldIn(rec, u, Ret))
  }

  const PATH_MAX := 256

  /** Two paths of `n1` and `n2` bytes from `p` on, if they lie in the record and fit the buffers. */
  function TwoPathsAt(rec: Bytes, p: nat, n1: nat, n2: nat): Option<(Bytes, Bytes)> {
    var b1, b2 := BytesAt(rec, p, n1), BytesAt(rec, p + n1, n2);
    if n1 < PATH_MAX && n2 < PATH_MAX && b1.Some? && b2.Some? then Some((b1.value, b2.value)) else None
  }

  /** The two paths of a link, symlink or rename record: the bytes copied out by the two lengths. */
  function TwoPathsIn(rec: Bytes, u: Struct): Option<(Bytes, Bytes)> {
    TwoPathsAt(rec, Offset(u, Path1), FieldIn(rec, u, Len1), FieldIn(rec, u, Len2))
  }

  function LinkWith(paths: Option<(Bytes, Bytes)>, ret: int): Op {
    match paths
    case None => Overrun
    case Some((p1, p2)) => LinkOp(CStr(p1), CStr(p2), ret)
  }

  function SymlinkWith(paths: Option<(Bytes, Bytes)>, ret: int): Op {
    match paths
    case None => Overrun
    case Some((p1, p2)) => SymlinkOp(CStr(p2), CStr(p1), ret)
  }

  /** What follows the first path in rename's buffer, which it does not terminate. */
  function Leftover(path: Bytes, stack: Bytes): Bytes {
    if |path| <= |stack| then stack[|path|..] else []
  }

  function RenameWith(paths: Option<(Bytes, Bytes)>, ret: int, stack: Bytes): Op {
    match paths
    case None => Overrun
    case Some((p1, p2)) => RenameOp(CStr(p1 + Leftover(p1, stack)), CStr(p2), ret)
  }

  function WriteWith(key: Key, data: Option<Bytes>): Op {
    match data
    case None => Overrun
    case Some(bytes) => WriteOp(key, bytes)
  }

  /** A record of kind `k` read with the offsets of `u`.  `stack` is what rename's first path
      buffer, which it does not terminate, and the memory after it held before. */
  function DecodeAs(rec: Bytes, k: Kind, u: Struct, stack: Bytes): Op {
    match k
    case Mkdir => MkdirOp(PathIn(rec, u), Signed(FieldIn(rec, u, Mode)), RetIn(rec, u))
    case Rmdir => RmdirOp(PathIn(rec, u), RetIn(rec, u))
    case Unlink => UnlinkOp(PathIn(rec, u), RetIn(rec, u))
    case Link => LinkWith(TwoPathsIn(rec, u), RetIn(rec, u))
    case Symlink => SymlinkWith(TwoPathsIn(rec, u), RetIn(rec, u))
    case Rename => RenameWith(TwoPathsIn(rec, u), RetIn(rec, u), stack)
    case Open => OpenOp(PathIn(rec, u), Signed(FieldIn(rec, u, Flags)), FieldIn(rec, u, Mode), KeyIn(rec, u))
    case Read => ReadOp(KeyIn(rec, u), FieldIn(rec, u, Count), RetIn(rec, u))
    case Write =>
      WriteWith(KeyIn(rec, u), BytesAt(rec, Offset(u, Path1) + FieldIn(rec, u, Len1), FieldIn(rec, u, Count)))
    case Close => CloseOp(KeyIn(rec, u))
  }

  function DecodeWhole(rec: Bytes, k: Kind, u: Struct, stack: Bytes): Op {
    if |rec| < SizeOf(u) then Overrun else DecodeAs(rec, k, u, stack)
  }

  function DecodeKind(rec: Bytes, kind: Option<Kind>, stack: Bytes): Op {
    match kind
    case None => Skipped
    case Some(k) => DecodeWhole(rec, k, UserStruct(k), stack)
  }

  /** What replaying the record asks of the operating system. */
  function DecodeOp(rec: Bytes, stack: Bytes): Op {
    if |rec| < 7 then Skipped
    else if rec[6] == TRUNCATE then TruncateOp
    else DecodeKind(rec, KindOfCode(rec[6]), stack)
  }
}
