/** C structure layout on LP64, and the record structures of the two structs.h files. */
module Layout {
  datatype Field = RId | RSize | RType | Flags | Mode | Pid | Addr | Count | Ppos | Ret | Len1 | Len2 | Path1 | Path2

  /** A structure: its fields in order, each with its size, which is also its alignment, and the
      offset where it lies. */
  datatype Struct = End(size: nat) | At(field: Field, width: nat, offset: nat, rest: Struct)

  datatype Kind = Open | Read | Write | Close | Mkdir | Rmdir | Unlink | Link | Symlink | Rename

  predicate Aligned(at: nat, width: nat) {
    match width
    case 1 => true
    case 2 => at % 2 == 0
    case 4 => at % 4 == 0
    case 8 => at % 8 == 0
    case _ => false
  }

  /** The offsets are the ones the ABI gives: each field lies at the first aligned place from `from`
      on, and the structure's size is the first multiple of its widest field after them. */
  predicate LaidOut(s: Struct, from: nat, widest: nat) {
    match s
    case End(size) => from <= size < from + widest && Aligned(size, widest)
    case At(_, width, offset, rest) =>
      && from <= offset < from + width
      && Aligned(offset, width)
      && LaidOut(rest, offset + width, if width > widest then width else widest)
  }

  predicate Has(s: Struct, f: Field) {
    s.At? && (s.field == f || Has(s.rest, f))
  }

  function Offset(s: Struct, f: Field): nat {
    if s.End? then 0 else if s.field == f then s.offset else Offset(s.rest, f)
  }

  function Width(s: Struct, f: Field): nat {
    if s.End? then 0 else if s.field == f then s.width else Width(s.rest, f)
  }

  function SizeOf(s: Struct): nat {
    match s case End(size) => size case At(_, _, _, rest) => SizeOf(rest)
  }

  function Header(rest: Struct): Struct {
    At(RId, 4, 0, At(RSize, 2, 4, At(RType, 1, 6, rest)))
  }

  function OnePath(at: nat, size: nat): Struct {
    At(Len1, 2, at, At(Path1, 1, at + 2, End(size)))
  }

  function TwoPaths(at: nat, size: nat): Struct {
    At(Len1, 2, at, At(Len2, 2, at + 2, At(Path1, 1, at + 4, End(size))))
  }

  // ----- trfs/structs.h -----

  function KernelStruct(k: Kind): Struct {
    match k
    case Open =>
      Header(At(Flags, 4, 8, At(Mode, 4, 12, At(Pid, 4, 16, At(Addr, 8, 24, At(Ret, 4, 32, OnePath(36, 40)))))))
    case Read =>
      Header(At(Pid, 4, 8, At(Addr, 8, 16, At(Count, 8, 24, At(Ppos, 2, 32, At(Ret, 4, 36, OnePath(40, 48)))))))
    case Write =>
      Header(At(Pid, 4, 8, At(Addr, 8, 16, At(Count, 8, 24, At(Ppos, 2, 32, At(Ret, 4, 36, OnePath(40, 48)))))))
    case Close => Header(At(Pid, 4, 8, At(Addr, 8, 16, At(Ret, 4, 24, OnePath(28, 32)))))
    case Mkdir => Header(At(Pid, 4, 8, At(Mode, 4, 12, At(Ret, 4, 16, OnePath(20, 24)))))
    case Rmdir => Header(At(Pid, 4, 8, At(Ret, 4, 12, OnePath(16, 20))))
    case Unlink => Header(At(Pid, 4, 8, At(Ret, 4, 12, OnePath(16, 20))))
    case Link => Header(At(Pid, 4, 8, At(Ret, 4, 12, TwoPaths(16, 24))))
    case Symlink => Header(At(Pid, 4, 8, At(Ret, 4, 12, TwoPaths(16, 24))))
    case Rename =>
      Header(At(Pid, 4, 8, At(Ret, 4, 12,
        At(Len1, 2, 16, At(Len2, 2, 18, At(Path1, 1, 20, At(Path2, 1, 21, End(24))))))))
  }

  // ----- Userland/structs.h -----

  function UserStruct(k: Kind): Struct {
    match k
    case Open =>
      Header(At(Flags, 4, 8, At(Mode, 4, 12, At(Pid, 4, 16, At(Addr, 8, 24, At(Ret, 4, 32, OnePath(36, 40)))))))
    case Read =>
      Header(At(Pid, 4, 8, At(Addr, 8, 16, At(Count, 8, 24, At(Ppos, 4, 32, At(Ret, 4, 36, OnePath(40, 48)))))))
    case Write =>
      Header(At(Pid, 4, 8, At(Addr, 8, 16, At(Count, 8, 24, At(Ppos, 4, 32, At(Ret, 4, 36, OnePath(40, 48)))))))
    case Close => Header(At(Pid, 4, 8, At(Addr, 8, 16, At(Ret, 4, 24, OnePath(28, 32)))))
    case Mkdir => Header(At(Pid, 4, 8, At(Mode, 4, 12, At(Ret, 4, 16, OnePath(20, 24)))))
    case Rmdir => Header(At(Pid, 4, 8, At(Ret, 4, 12, OnePath(16, 20))))
    case Unlink => Header(At(Pid, 4, 8, At(Ret, 4, 12, OnePath(16, 20))))
    case Link => Header(At(Pid, 4, 8, At(Ret, 4, 12, TwoPaths(16, 24))))
    case Symlink => Header(At(Pid, 4, 8, At(Ret, 4, 12, TwoPaths(16, 24))))
    case Rename =>
      Header(At(Pid, 4, 8, At(Ret, 4, 12,
        At(Len1, 2, 16, At(Len2, 2, 18, At(Path1, 1, 20, At(Path2, 1, 21, End(24))))))))
  }

  lemma HeaderLaid(rest: Struct)
    requires LaidOut(rest, 7, 4)
    ensures LaidOut(Header(rest), 0, 1)
  {
    var a := At(RType, 1, 6, rest);
    assert LaidOut(a, 6, 4);
    assert LaidOut(At(RSize, 2, 4, a), 4, 4);
  }

  lemma OnePathLaid(at: nat, size: nat, widest: nat)
    requires (widest == 4 || widest == 8) && at % 2 == 0 && at + 3 <= size < at + 3 + widest && Aligned(size, widest)
    ensures LaidOut(OnePath(at, size), at, widest)
  {
    assert LaidOut(At(Path1, 1, at + 2, End(size)), at + 2, widest);
  }

  lemma OpenLaid()
    ensures LaidOut(KernelStruct(Open), 0, 1)
  {
    OnePathLaid(36, 40, 8);
    var ret := At(Ret, 4, 32, OnePath(36, 40));
    assert LaidOut(ret, 32, 8);
    var addr := At(Addr, 8, 24, ret);
    assert LaidOut(addr, 20, 4);
    var mode := At(Mode, 4, 12, At(Pid, 4, 16, addr));
    assert LaidOut(mode, 12, 4);
    HeaderLaid(At(Flags, 4, 8, mode));
  }

  /** read and write; `ppos` has two bytes in one file and four in the other. */
  lemma TransferLaid(s: Struct, w: nat)
    requires w == 2 || w == 4
    requires s == Header(At(Pid, 4, 8, At(Addr, 8, 16,
                    At(Count, 8, 24, At(Ppos, w, 32, At(Ret, 4, 36, OnePath(40, 48)))))))
    ensures LaidOut(s, 0, 1)
  {
    OnePathLaid(40, 48, 8);
    var ret := At(Ret, 4, 36, OnePath(40, 48));
    assert LaidOut(ret, 32 + w, 8);
    var ppos := At(Ppos, w, 32, ret);
    assert LaidOut(ppos, 32, 8);
    var addr := At(Addr, 8, 16, At(Count, 8, 24, ppos));
    assert LaidOut(addr, 12, 4);
    HeaderLaid(At(Pid, 4, 8, addr));
  }

  lemma CloseLaid()
    ensures LaidOut(KernelStruct(Close), 0, 1)
  {
    OnePathLaid(28, 32, 8);
    var ret := At(Ret, 4, 24, OnePath(28, 32));
    assert LaidOut(ret, 24, 8);
    var addr := At(Addr, 8, 16, ret);
    assert LaidOut(addr, 12, 4);
    HeaderLaid(At(Pid, 4, 8, addr));
  }

  lemma MkdirLaid()
    ensures LaidOut(KernelStruct(Mkdir), 0, 1)
  {
    OnePathLaid(20, 24, 4);
    var mode := At(Mode, 4, 12, At(Ret, 4, 16, OnePath(20, 24)));
    assert LaidOut(mode, 12, 4);
    HeaderLaid(At(Pid, 4, 8, mode));
  }

  lemma RmdirLaid()
    ensures LaidOut(KernelStruct(Rmdir), 0, 1)
  {
    OnePathLaid(16, 20, 4);
    var ret := At(Ret, 4, 12, OnePath(16, 20));
    assert LaidOut(ret, 12, 4);
    HeaderLaid(At(Pid, 4, 8, ret));
  }

  lemma LinkLaid()
    ensures LaidOut(KernelStruct(Link), 0, 1)
  {
    var len2 := At(Len2, 2, 18, At(Path1, 1, 20, End(24)));
    assert LaidOut(len2, 18, 4);
    assert LaidOut(TwoPaths(16, 24), 16, 4);
    var ret := At(Ret, 4, 12, TwoPaths(16, 24));
    assert LaidOut(ret, 12, 4);
    HeaderLaid(At(Pid, 4, 8, ret));
  }

  lemma RenameLaid()
    ensures LaidOut(KernelStruct(Rename), 0, 1)
  {
    var paths := At(Path1, 1, 20, At(Path2, 1, 21, End(24)));
    assert LaidOut(paths, 20, 4);
    var lens := At(Len1, 2, 16, At(Len2, 2, 18, paths));
    assert LaidOut(lens, 16, 4);
    var ret := At(Ret, 4, 12, lens);
    assert LaidOut(ret, 12, 4);
    HeaderLaid(At(Pid, 4, 8, ret));
  }

  /** Both files' structures are laid out by the ABI's rule. */
  lemma StructsLaidOut(k: Kind)
    ensures LaidOut(KernelStruct(k), 0, 1) && LaidOut(UserStruct(k), 0, 1)
  {
    match k
    case Open => OpenLaid();
    case Read => TransferLaid(KernelStruct(k), 2); TransferLaid(UserStruct(k), 4);
    case Write => TransferLaid(KernelStruct(k), 2); TransferLaid(UserStruct(k), 4);
    case Close => CloseLaid();
    case Mkdir => MkdirLaid();
    case Rmdir => RmdirLaid();
    case Unlink => RmdirLaid();
    case Link => LinkLaid();
    case Symlink => LinkLaid();
    case Rename => RenameLaid();
  }

  /** The two declarations place every field alike; only `ppos` has another width. */
  lemma LayoutsAgree(k: Kind, f: Field)
    requires Has(KernelStruct(k), f)
    ensures Has(UserStruct(k), f) && Offset(KernelStruct(k), f) == Offset(UserStruct(k), f)
    ensures f != Ppos ==> Width(KernelStruct(k), f) == Width(UserStruct(k), f)
  {
    if k == Read {
      ReadLayouts(f);
    } else if k == Write {
      assert KernelStruct(k) == KernelStruct(Read) && UserStruct(k) == UserStruct(Read);
      ReadLayouts(f);
    } else {
      assert KernelStruct(k) == UserStruct(k);
    }
  }

  lemma ReadLayouts(f: Field)
    requires Has(KernelStruct(Read), f)
    ensures Has(UserStruct(Read), f) && Offset(KernelStruct(Read), f) == Offset(UserStruct(Read), f)
    ensures f != Ppos ==> Width(KernelStruct(Read), f) == Width(UserStruct(Read), f)
  {
  }

  /** `ppos` is an unsigned short in the kernel and an int in userland: the same place, four bytes read
      where two are written. */
  lemma PposDiffers(k: Kind)
    requires k == Read || k == Write
    ensures Width(KernelStruct(k), Ppos) == 2 && Width(UserStruct(k), Ppos) == 4
    ensures Offset(KernelStruct(k), Ppos) == Offset(UserStruct(k), Ppos) == 32
  {
  }
}
