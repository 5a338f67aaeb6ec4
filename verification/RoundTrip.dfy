/** A record decoded on replay is the operation that was traced. */
module RoundTrip {
  import opened Framing
  import opened Layout
  import opened Records
  import opened Decoding
  import opened Omap

  /** Names as dentries and link targets have them: no NUL inside; a dentry name has at most 255 bytes. */
  ghost predicate WellNamed(e: Event) {
    && NulFree(e.name) && |e.name| < PATH_MAX
    && (e.LinkEv? || e.RenameEv? ==> NulFree(e.newName) && |e.newName| < PATH_MAX)
    && (e.SymlinkEv? ==> NulFree(e.target))
  }

  ghost predicate Traced(e: Event, rid: nat, mem: Bytes) {
    Reaches(e, mem) && InRange(e, rid) && WellNamed(e)
  }

  /** The operation on replay that repeats a traced one. */
  function OpOf(e: Event): Op {
    match e
    case OpenEv(flags, mode, pid, addr, _, name) => OpenOp(name, flags, mode, Key(addr, Signed(pid)))
    case ReadEv(pid, addr, count, _, ret, _) => ReadOp(Key(addr, Signed(pid)), count, ret)
    case WriteEv(pid, addr, _, _, _, payload) => WriteOp(Key(addr, Signed(pid)), payload)
    case CloseEv(pid, addr, _, _) => CloseOp(Key(addr, Signed(pid)))
    case MkdirEv(mode, ret, name) => MkdirOp(name, mode, ret)
    case RmdirEv(ret, name) => RmdirOp(name, ret)
    case UnlinkEv(ret, name) => UnlinkOp(name, ret)
    case LinkEv(ret, name, newName) => LinkOp(name, newName, ret)
    case SymlinkEv(ret, name, target) => SymlinkOp(target, name, ret)
    case RenameEv(ret, name, newName) => RenameOp(name, newName, ret)
  }

  /** The id, the size and the type are the first seven bytes. */
  ghost predicate StdHeader(s: Struct) {
    && Has(s, RId) && Offset(s, RId) == 0 && Width(s, RId) == 4
    && Has(s, RSize) && Offset(s, RSize) == 4 && Width(s, RSize) == 2
    && Has(s, RType) && Offset(s, RType) == 6 && Width(s, RType) == 1
  }

  lemma HeaderFirst(k: Kind)
    ensures StdHeader(KernelStruct(k))
  {
  }

  lemma BuiltHeader(s: Struct, vals: Values, t: Texts, mem: Bytes, size: nat)
    requires Roomy(s, t, |mem|) && 7 <= size <= |mem| && StdHeader(s)
    requires vals(RId).Some? && vals(RSize).Some? && vals(RType).Some?
    ensures var rec := Build(s, vals, t, mem)[..size];
            && rec[0..4] == Encode(vals(RId).value, 4)
            && rec[4..6] == Encode(vals(RSize).value, 2)
            && rec[6..7] == Encode(vals(RType).value, 1)
  {
    var done := Build(s, vals, t, mem);
    BuiltField(s, vals, t, mem, RId);
    BuiltField(s, vals, t, mem, RSize);
    BuiltField(s, vals, t, mem, RType);
    assert done[..size][0..4] == done[0..4] && done[..size][4..6] == done[4..6] && done[..size][6..7] == done[6..7];
  }

  lemma LongEnough(e: Event)
    ensures RecordSize(e) >= 20
  {
  }

  lemma HeaderOf(e: Event, rid: nat, mem: Bytes)
    requires Reaches(e, mem)
    ensures RecordSize(e) >= 7
    ensures var rec := Assemble(e, rid, mem);
            && rec[0..4] == Encode(rid, 4)
            && rec[4..6] == Encode(RecordSize(e), 2)
            && rec[6..7] == Encode(Code(KindOf(e)), 1)
  {
    HeaderFirst(KindOf(e));
    HasRoom(e, |mem|);
    LongEnough(e);
    BuiltHeader(KernelStruct(KindOf(e)), ValuesOf(e, rid), TextsOf(e), mem, RecordSize(e));
  }

  lemma EncodeOne(n: nat)
    requires n < 256
    ensures Encode(n, 1) == [n]
  {
    assert Encode(n / 256, 0) == [];
  }

  lemma DecodeTwo(bs: Bytes)
    requires |bs| == 2
    ensures Decode(bs) == U16(bs, 0)
  {
    assert bs[1..][1..] == [];
    assert Decode(bs[1..]) == bs[1];
  }

  /** The record's type byte names its kind. */
  lemma TypeByte(e: Event, rid: nat, mem: Bytes)
    requires Reaches(e, mem)
    ensures RecordSize(e) >= 7 && Assemble(e, rid, mem)[6] != TRUNCATE
    ensures KindOfCode(Assemble(e, rid, mem)[6]) == Some(KindOf(e))
  {
    HeaderOf(e, rid, mem);
    EncodeOne(Code(KindOf(e)));
    OneByte(Assemble(e, rid, mem), 6, Code(KindOf(e)));
    CodesDiffer(KindOf(e));
  }

  lemma OneByte(rec: Bytes, at: nat, b: byte)
    requires at < |rec| && rec[at..at + 1] == [b]
    ensures rec[at] == b
  {
    assert rec[at..at + 1][0] == rec[at];
  }

  lemma CodesDiffer(k: Kind)
    ensures Code(k) != TRUNCATE && KindOfCode(Code(k)) == Some(k)
  {
  }

  /** An assembled record of at most a page is framed and begins with its id. */
  lemma AssembledIsFramed(e: Event, rid: nat, mem: Bytes)
    requires Reaches(e, mem) && RecordSize(e) <= PAGE_SIZE && rid < TWO32
    ensures Framed(Assemble(e, rid, mem)) && Decode(Assemble(e, rid, mem)[..4]) == rid
  {
    HeaderOf(e, rid, mem);
    Powers();
    DecodeEncode(rid, 4);
    DecodeEncode(RecordSize(e), 2);
    var rec := Assemble(e, rid, mem);
    DecodeTwo(rec[4..6]);
    assert rec[..4] == rec[0..4];
  }

  // ----- names -----

  lemma TextsComeBack(e: Event, rid: nat, mem: Bytes)
    requires Reaches(e, mem)
    ensures HoldsTexts(Assemble(e, rid, mem), Offset(UserStruct(KindOf(e)), Path1), TextsOf(e))
  {
    var p := PathAt(KindOf(e));
    HasPath(KindOf(e));
    HasRoom(e, |mem|);
    BuiltTexts(KernelStruct(KindOf(e)), ValuesOf(e, rid), TextsOf(e), mem);
    CutTexts(AssembleIn(e, rid, mem), RecordSize(e), p, TextsOf(e));
  }

  /** A name and its terminator at `p` read as the name. */
  lemma NameAt(rec: Bytes, p: nat, name: Bytes)
    requires NulFree(name) && p + |name| + 1 <= |rec| && rec[p..p + |name| + 1] == name + [0]
    ensures CStr(rec[p..]) == name
  {
    var tail := rec[p..];
    assert tail[..|name|] == (name + [0])[..|name|] == name;
    assert tail[|name|] == rec[p..p + |name| + 1][|name|];
    CStrStops(tail, |name|);
  }

  lemma WholeIsCStr(bs: Bytes)
    requires NulFree(bs)
    ensures CStr(bs) == bs
  {
    assert bs[..|bs|] == bs;
    CStrStops(bs, |bs|);
  }

  /** `n` bytes of a record, from where a text and its terminator lie as far as the record goes, read
      as the text, or as its first `n` bytes. */
  lemma CutText(rec: Bytes, p: nat, text: Bytes, n: nat)
    requires NulFree(text) && p + n <= |rec| && LiesAt(rec, p, text + [0])
    ensures CStr(rec[p..p + n]) == Cut(text, n)
  {
    var all := text + [0];
    var k := if |all| <= |rec| - p then |all| else |rec| - p;
    var m := |Cut(text, n)|;
    var cut := rec[p..p + n];
    var part := rec[p..p + k];
    assert part == all[..k];
    FirstOf(rec, p, n, k, m);
    assert part[..m] == text[..m];
    if m < n {
      assert cut[m] == part[m] == all[m];
    }
    CStrStops(cut, m);
  }

  function Cut(text: Bytes, n: nat): Bytes {
    text[..if |text| <= n then |text| else n]
  }

  /** Two paths whose second text is `second` and its terminator, the second cut to `n2` bytes. */
  lemma PathsComeBack(rec: Bytes, p: nat, name: Bytes, second: Bytes, n2: nat)
    requires HoldsTexts(rec, p, Texts(name + [0], |name|, Some(second + [0])))
    requires |name| < PATH_MAX && n2 < PATH_MAX && p + |name| + n2 <= |rec| && NulFree(second)
    ensures var o := TwoPathsAt(rec, p, |name|, n2); o.Some? && o.value.0 == name && CStr(o.value.1) == Cut(second, n2)
  {
    assert (name + [0])[..|name|] == name;
    CutText(rec, p + |name|, second, n2);
  }

  // ----- whole records -----

  /** The record of `e`, read with the offsets of `u`, gives every field and text back. */
  ghost predicate Gives(rec: Bytes, u: Struct, e: Event, rid: nat) {
    && (forall f :: f != Ppos && FieldValue(e, rid, f).Some? ==> FieldIn(rec, u, f) == FieldValue(e, rid, f).value)
    && HoldsTexts(rec, Offset(u, Path1), TextsOf(e))
    && Offset(u, Path1) + |e.name| + SecondLen(e) <= |rec|
  }

  lemma AssembledGives(e: Event, rid: nat, mem: Bytes)
    requires Reaches(e, mem) && InRange(e, rid)
    ensures Gives(Assemble(e, rid, mem), UserStruct(KindOf(e)), e, rid)
  {
    HasPath(KindOf(e));
    TextsComeBack(e, rid, mem);
    forall f | f != Ppos && FieldValue(e, rid, f).Some?
      ensures FieldIn(Assemble(e, rid, mem), UserStruct(KindOf(e)), f) == FieldValue(e, rid, f).value
    {
      FieldComesBack(e, rid, mem, f);
    }
  }

  lemma Value(rec: Bytes, u: Struct, e: Event, rid: nat, f: Field)
    requires Gives(rec, u, e, rid) && f != Ppos && FieldValue(e, rid, f).Some?
    ensures FieldIn(rec, u, f) == FieldValue(e, rid, f).value
  {
  }

  lemma RetComesBack(rec: Bytes, u: Struct, e: Event, rid: nat)
    requires Gives(rec, u, e, rid) && InRange(e, rid)
    ensures RetIn(rec, u) == e.ret
  {
    Value(rec, u, e, rid, Ret);
    SignedUnsigned(e.ret);
  }

  lemma KeyComesBack(rec: Bytes, u: Struct, e: Event, rid: nat)
    requires Gives(rec, u, e, rid) && (e.OpenEv? || e.ReadEv? || e.WriteEv? || e.CloseEv?)
    ensures KeyIn(rec, u) == Key(e.addr, Signed(e.pid))
  {
    Value(rec, u, e, rid, Addr);
    Value(rec, u, e, rid, Pid);
  }

  lemma NameComesBack(rec: Bytes, u: Struct, e: Event, rid: nat)
    requires Gives(rec, u, e, rid) && WellNamed(e) && (e.OpenEv? || e.MkdirEv? || e.RmdirEv? || e.UnlinkEv?)
    ensures PathIn(rec, u) == e.name
  {
    NameAt(rec, Offset(u, Path1), e.name);
  }

  lemma OpenDecodes(rec: Bytes, u: Struct, e: Event, rid: nat, stack: Bytes)
    requires e.OpenEv? && Gives(rec, u, e, rid) && InRange(e, rid) && WellNamed(e)
    ensures DecodeAs(rec, Kind.Open, u, stack) == OpOf(e)
  {
    NameComesBack(rec, u, e, rid);
    Value(rec, u, e, rid, Flags);
    SignedUnsigned(e.flags);
    Value(rec, u, e, rid, Mode);
    KeyComesBack(rec, u, e, rid);
  }

  lemma ReadDecodes(rec: Bytes, u: Struct, e: Event, rid: nat, stack: Bytes)
    requires e.ReadEv? && Gives(rec, u, e, rid) && InRange(e, rid)
    ensures DecodeAs(rec, Kind.Read, u, stack) == OpOf(e)
  {
    Value(rec, u, e, rid, Count);
    RetComesBack(rec, u, e, rid);
    KeyComesBack(rec, u, e, rid);
  }

  lemma WriteDecodes(rec: Bytes, u: Struct, e: Event, rid: nat, stack: Bytes)
    requires e.WriteEv? && Gives(rec, u, e, rid)
    ensures DecodeAs(rec, Kind.Write, u, stack) == OpOf(e)
  {
    Value(rec, u, e, rid, Len1);
    Value(rec, u, e, rid, Count);
    KeyComesBack(rec, u, e, rid);
  }

  lemma OnePathDecodes(rec: Bytes, u: Struct, e: Event, rid: nat, stack: Bytes)
    requires (e.RmdirEv? || e.UnlinkEv?) && Gives(rec, u, e, rid) && InRange(e, rid) && WellNamed(e)
    ensures DecodeAs(rec, KindOf(e), u, stack) == OpOf(e)
  {
    NameComesBack(rec, u, e, rid);
    RetComesBack(rec, u, e, rid);
  }

  lemma MkdirDecodes(rec: Bytes, u: Struct, e: Event, rid: nat, stack: Bytes)
    requires e.MkdirEv? && Gives(rec, u, e, rid) && InRange(e, rid) && WellNamed(e)
    ensures DecodeAs(rec, Kind.Mkdir, u, stack) == OpOf(e)
  {
    NameComesBack(rec, u, e, rid);
    RetComesBack(rec, u, e, rid);
    Value(rec, u, e, rid, Mode);
    SignedUnsigned(e.dmode);
  }

  /** The second name of a two-name event. */
  function SecondName(e: Event): Bytes
    requires e.LinkEv? || e.SymlinkEv? || e.RenameEv?
  {
    if e.SymlinkEv? then e.target else e.newName
  }

  lemma TwoNamesComeBack(rec: Bytes, u: Struct, e: Event, rid: nat)
    requires (e.LinkEv? || e.SymlinkEv? || e.RenameEv?) && Gives(rec, u, e, rid) && WellNamed(e)
    ensures var o := TwoPathsIn(rec, u);
            && (o.Some? <==> SecondLen(e) < PATH_MAX)
            && (o.Some? ==> o.value.0 == e.name && CStr(o.value.1) == Cut(SecondName(e), SecondLen(e)))
  {
    Value(rec, u, e, rid, Len1);
    Value(rec, u, e, rid, Len2);
    if SecondLen(e) < PATH_MAX {
      PathsComeBack(rec, Offset(u, Path1), e.name, SecondName(e), SecondLen(e));
    }
  }

  lemma {:induction false} CStrRunsOn(name: Bytes, more: Bytes)
    requires NulFree(name)
    ensures CStr(name + more) == name + CStr(more)
    decreases |name|
  {
    if name == [] {
      assert name + more == more;
    } else {
      assert (name + more)[1..] == name[1..] + more;
      CStrRunsOn(name[1..], more);
    }
  }

  /** The operation the record of a traced event decodes to. */
  function ReplayedAs(e: Event, stack: Bytes): Op {
    match e
    case LinkEv(ret, name, newName) => LinkOp(name, Cut(newName, |name|), ret)
    case SymlinkEv(ret, name, target) => if |target| < PATH_MAX then SymlinkOp(target, name, ret) else Overrun
    case RenameEv(ret, name, newName) => RenameOp(name + CStr(Leftover(name, stack)), newName, ret)
    case _ => OpOf(e)
  }

  lemma LinkDecodes(rec: Bytes, u: Struct, e: Event, rid: nat, stack: Bytes)
    requires e.LinkEv? && Gives(rec, u, e, rid) && InRange(e, rid) && WellNamed(e)
    ensures DecodeAs(rec, Kind.Link, u, stack) == ReplayedAs(e, stack)
  {
    RetComesBack(rec, u, e, rid);
    TwoNamesComeBack(rec, u, e, rid);
    LinkOfNames(TwoPathsIn(rec, u), e.name, Cut(e.newName, |e.name|), e.ret);
  }

  lemma LinkOfNames(o: Option<(Bytes, Bytes)>, name: Bytes, second: Bytes, ret: int)
    requires o.Some? && o.value.0 == name && CStr(o.value.1) == second && NulFree(name)
    ensures LinkWith(o, ret) == LinkOp(name, second, ret)
  {
    WholeIsCStr(name);
  }

  lemma SymlinkDecodes(rec: Bytes, u: Struct, e: Event, rid: nat, stack: Bytes)
    requires e.SymlinkEv? && Gives(rec, u, e, rid) && InRange(e, rid) && WellNamed(e)
    ensures DecodeAs(rec, Kind.Symlink, u, stack) == ReplayedAs(e, stack)
  {
    RetComesBack(rec, u, e, rid);
    TwoNamesComeBack(rec, u, e, rid);
    WholeCut(e.target);
    if |e.target| < PATH_MAX {
      SymlinkOfNames(TwoPathsIn(rec, u), e.name, e.target, e.ret);
    }
  }

  lemma SymlinkOfNames(o: Option<(Bytes, Bytes)>, name: Bytes, second: Bytes, ret: int)
    requires o.Some? && o.value.0 == name && CStr(o.value.1) == second && NulFree(name)
    ensures SymlinkWith(o, ret) == SymlinkOp(second, name, ret)
  {
    WholeIsCStr(name);
  }

  lemma RenameDecodes(rec: Bytes, u: Struct, e: Event, rid: nat, stack: Bytes)
    requires e.RenameEv? && Gives(rec, u, e, rid) && InRange(e, rid) && WellNamed(e)
    ensures DecodeAs(rec, Kind.Rename, u, stack) == ReplayedAs(e, stack)
  {
    RetComesBack(rec, u, e, rid);
    TwoNamesComeBack(rec, u, e, rid);
    WholeCut(e.newName);
    RenameOfNames(TwoPathsIn(rec, u), e.name, e.newName, e.ret, stack);
  }

  lemma RenameOfNames(o: Option<(Bytes, Bytes)>, name: Bytes, second: Bytes, ret: int, stack: Bytes)
    requires o.Some? && o.value.0 == name && CStr(o.value.1) == second && NulFree(name)
    ensures RenameWith(o, ret, stack) == RenameOp(name + CStr(Leftover(name, stack)), second, ret)
  {
    CStrRunsOn(name, Leftover(name, stack));
  }

  lemma WholeCut(text: Bytes)
    ensures Cut(text, |text|) == text
  {
  }

  lemma AllDecode(rec: Bytes, u: Struct, e: Event, rid: nat, stack: Bytes)
    requires Gives(rec, u, e, rid) && InRange(e, rid) && WellNamed(e)
    ensures DecodeAs(rec, KindOf(e), u, stack) == ReplayedAs(e, stack)
  {
    match e
    case OpenEv(_, _, _, _, _, _) => OpenDecodes(rec, u, e, rid, stack);
    case ReadEv(_, _, _, _, _, _) => ReadDecodes(rec, u, e, rid, stack);
    case WriteEv(_, _, _, _, _, _) => WriteDecodes(rec, u, e, rid, stack);
    case CloseEv(_, _, _, _) => KeyComesBack(rec, u, e, rid);
    case MkdirEv(_, _, _) => MkdirDecodes(rec, u, e, rid, stack);
    case RmdirEv(_, _) => OnePathDecodes(rec, u, e, rid, stack);
    case UnlinkEv(_, _) => OnePathDecodes(rec, u, e, rid, stack);
    case LinkEv(_, _, _) => LinkDecodes(rec, u, e, rid, stack);
    case SymlinkEv(_, _, _) => SymlinkDecodes(rec, u, e, rid, stack);
    case RenameEv(_, _, _) => RenameDecodes(rec, u, e, rid, stack);
  }

  /** Every traced event's record, whatever the allocation held before, decodes to the event's operation,
      with the exceptions that `ReplayedAs` spells out. */
  lemma RecordDecodes(e: Event, rid: nat, mem: Bytes, stack: Bytes)
    requires Traced(e, rid, mem)
    ensures DecodeOp(Assemble(e, rid, mem), stack) == ReplayedAs(e, stack)
  {
    TypeByte(e, rid, mem);
    SameSizes(KindOf(e));
    AssembledGives(e, rid, mem);
    DecodesAsKind(Assemble(e, rid, mem), Some(KindOf(e)), stack);
    AllDecode(Assemble(e, rid, mem), UserStruct(KindOf(e)), e, rid, stack);
  }

  lemma DecodesAsKind(rec: Bytes, kind: Option<Kind>, stack: Bytes)
    requires 7 <= |rec| && rec[6] != TRUNCATE && kind == KindOfCode(rec[6])
    ensures DecodeOp(rec, stack) == DecodeKind(rec, kind, stack)
  {
  }

  /** When replay repeats the event: a link whose new name is no longer than the old one, a symlink
      whose target fits the replay function's buffer, a rename whose buffer happens to hold a NUL
      after the first path; any other event. */
  predicate Faithful(e: Event, stack: Bytes) {
    match e
    case LinkEv(_, name, newName) => |newName| <= |name|
    case SymlinkEv(_, _, target) => |target| < PATH_MAX
    case RenameEv(_, name, _) => |stack| <= |name| || stack[|name|] == 0
    case _ => true
  }

  /** A record decodes to the traced operation if and only if the event is faithful. */
  lemma DecodesFaithfullyIff(e: Event, rid: nat, mem: Bytes, stack: Bytes)
    requires Traced(e, rid, mem)
    ensures DecodeOp(Assemble(e, rid, mem), stack) == OpOf(e) <==> Faithful(e, stack)
  {
    RecordDecodes(e, rid, mem, stack);
    if e.RenameEv? {
      var more := CStr(Leftover(e.name, stack));
      assert e.name + more == e.name <==> more == [] by {
        assert |e.name + more| == |e.name| + |more|;
      }
    } else if e.LinkEv? {
      assert |Cut(e.newName, |e.name|)| <= |e.name|;
    }
  }

  /** A link from "a" to "bc" is replayed as one to "b". */
  lemma LinkIsCut(rid: nat, mem: Bytes, stack: Bytes)
    requires Traced(LinkEv(0, [97], [98, 99]), rid, mem)
    ensures DecodeOp(Assemble(LinkEv(0, [97], [98, 99]), rid, mem), stack) == LinkOp([97], [98], 0)
  {
    RecordDecodes(LinkEv(0, [97], [98, 99]), rid, mem, stack);
  }

  /** A rename of "a" to "b", in a buffer that held "xy", is replayed as one of "ay". */
  lemma RenameRunsOn(rid: nat, mem: Bytes)
    requires Traced(RenameEv(0, [97], [98]), rid, mem)
    ensures DecodeOp(Assemble(RenameEv(0, [97], [98]), rid, mem), [120, 121, 0]) == RenameOp([97, 121], [98], 0)
  {
    RecordDecodes(RenameEv(0, [97], [98]), rid, mem, [120, 121, 0]);
    CStrStops([121, 0], 1);
    assert Leftover([97], [120, 121, 0]) == [121, 0];
  }
}
