/** What the assemblers make, spelled out byte by byte, without the structures. */
module RecordBytes {
  import opened Framing
  import opened Layout
  import opened Records

  /** What kmalloc left from `from` to `to`. */
  function Left(mem: Bytes, from: nat, to: nat): Bytes {
    if from <= to <= |mem| then mem[from..to] else []
  }

  /** The first `n` bytes. */
  function Front(bs: Bytes, n: nat): Bytes {
    if n <= |bs| then bs[..n] else bs
  }

  function Three(a: Bytes, b: Bytes, c: Bytes): Bytes { a + (b + c) }

  function SpelledSize(e: Event): nat {
    var n := |e.name|;
    match e
    case OpenEv(_, _, _, _, _, _) => 40 + n
    case ReadEv(_, _, _, _, _, _) => 48 + n
    case WriteEv(_, _, _, _, _, payload) => 48 + n + |payload|
    case CloseEv(_, _, _, _) => 32 + n
    case MkdirEv(_, _, _) => 24 + n
    case RmdirEv(_, _) => 20 + n
    case UnlinkEv(_, _) => 20 + n
    case LinkEv(_, _, _) => 24 + 2 * n
    case SymlinkEv(_, _, target) => 24 + n + |target|
    case RenameEv(_, _, newName) => 24 + n + |newName|
  }

  function SpelledCode(e: Event): byte {
    match e
    case OpenEv(_, _, _, _, _, _) => 23
    case ReadEv(_, _, _, _, _, _) => 20
    case WriteEv(_, _, _, _, _, _) => 21
    case CloseEv(_, _, _, _) => 24
    case MkdirEv(_, _, _) => 6
    case RmdirEv(_, _) => 7
    case UnlinkEv(_, _) => 4
    case LinkEv(_, _, _) => 3
    case SymlinkEv(_, _, _) => 5
    case RenameEv(_, _, _) => 10
  }

  /** The texts, and what is left behind them. */
  function SpelledTexts(e: Event, mem: Bytes): Bytes {
    var n := |e.name|;
    match e
    case OpenEv(_, _, _, _, _, name) => (name + [0]) + Left(mem, 39 + n, 40 + n)
    case ReadEv(_, _, _, _, _, name) => (name + [0]) + Left(mem, 43 + n, 48 + n)
    case WriteEv(_, _, _, _, name, payload) =>
      Three(name, payload, Left(mem, 42 + n + |payload|, 48 + n + |payload|))
    case CloseEv(_, _, _, name) => name + Left(mem, 30 + n, 32 + n)
    case MkdirEv(_, _, name) => (name + [0]) + Left(mem, 23 + n, 24 + n)
    case RmdirEv(_, name) => (name + [0]) + Left(mem, 19 + n, 20 + n)
    case UnlinkEv(_, name) => (name + [0]) + Left(mem, 19 + n, 20 + n)
    case LinkEv(_, name, newName) =>
      Three(name, Front(newName + [0], n + 4), Left(mem, 21 + n + |newName|, 24 + 2 * n))
    case SymlinkEv(_, name, target) =>
      Three(name, target + [0], Left(mem, 21 + n + |target|, 24 + n + |target|))
    case RenameEv(_, name, newName) =>
      Three(name, newName + [0], Left(mem, 21 + n + |newName|, 24 + n + |newName|))
  }

  /** The bytes from 7 on: the fields, the bytes that no store touches, and the texts. */
  function SpelledFields(e: Event, mem: Bytes, tail: Bytes): Bytes {
    var n, ret := |e.name|, Unsigned(e.ret);
    match e
    case OpenEv(flags, mode, pid, addr, _, _) =>
      Left(mem, 7, 8) + (Encode(Unsigned(flags), 4) + (Encode(mode, 4) + (Encode(pid, 4) +
      (Left(mem, 20, 24) + (Encode(addr, 8) + (Encode(ret, 4) + (Encode(n, 2) + tail)))))))
    case ReadEv(pid, addr, count, ppos, _, _) =>
      Left(mem, 7, 8) + (Encode(pid, 4) + (Left(mem, 12, 16) + (Encode(addr, 8) + (Encode(count, 8) +
      (Encode(ppos, 2) + (Left(mem, 34, 36) + (Encode(ret, 4) + (Encode(n, 2) + tail))))))))
    case WriteEv(pid, addr, ppos, _, _, payload) =>
      Left(mem, 7, 8) + (Encode(pid, 4) + (Left(mem, 12, 16) + (Encode(addr, 8) + (Encode(|payload|, 8) +
      (Encode(ppos, 2) + (Left(mem, 34, 36) + (Encode(ret, 4) + (Encode(n, 2) + tail))))))))
    case CloseEv(pid, addr, _, _) =>
      Left(mem, 7, 8) + (Encode(pid, 4) + (Left(mem, 12, 16) + (Encode(addr, 8) + (Encode(ret, 4) +
      (Encode(n, 2) + tail)))))
    case MkdirEv(mode, _, _) =>
      Left(mem, 7, 8) + (Left(mem, 8, 12) + (Encode(Unsigned(mode), 4) + (Encode(ret, 4) + (Encode(n, 2) + tail))))
    case RmdirEv(_, _) => Left(mem, 7, 8) + (Left(mem, 8, 12) + (Encode(ret, 4) + (Encode(n, 2) + tail)))
    case UnlinkEv(_, _) => Left(mem, 7, 8) + (Left(mem, 8, 12) + (Encode(ret, 4) + (Encode(n, 2) + tail)))
    case LinkEv(_, _, _) =>
      Left(mem, 7, 8) + (Left(mem, 8, 12) + (Encode(ret, 4) + (Encode(n, 2) + (Encode(n, 2) + tail))))
    case SymlinkEv(_, _, target) =>
      Left(mem, 7, 8) + (Left(mem, 8, 12) + (Encode(ret, 4) + (Encode(n, 2) + (Encode(|target|, 2) + tail))))
    case RenameEv(_, _, newName) =>
      Left(mem, 7, 8) + (Left(mem, 8, 12) + (Encode(ret, 4) + (Encode(n, 2) + (Encode(|newName|, 2) + tail))))
  }

  /** The id, the size and the type, and then the rest. */
  function Head(rid: nat, size: nat, code: byte, rest: Bytes): Bytes {
    Encode(rid, 4) + (Encode(size, 2) + ([code] + rest))
  }

  /** The record of each event, on LP64. */
  function Spelled(e: Event, rid: nat, mem: Bytes): Bytes {
    Head(rid, SpelledSize(e), SpelledCode(e), SpelledFields(e, mem, SpelledTexts(e, mem)))
  }

  // ----- a structure spelled out -----

  /** The bytes of one field. */
  function FieldBytes(s: Struct, vals: Values, mem: Bytes): Bytes
    requires s.At?
  {
    match vals(s.field)
    case None => Left(mem, s.offset, s.offset + s.width)
    case Some(v) => Encode(v, s.width)
  }

  /** The fields of `s` before the path, with the gaps between them, and then `tail`. */
  function Render(s: Struct, from: nat, vals: Values, mem: Bytes, tail: Bytes): Bytes
    decreases s, 1
  {
    if s.End? then []
    else if s.offset != from then Left(mem, from, s.offset) + RenderField(s, vals, mem, tail)
    else RenderField(s, vals, mem, tail)
  }

  function RenderField(s: Struct, vals: Values, mem: Bytes, tail: Bytes): Bytes
    requires s.At?
    decreases s, 0
  {
    if s.field == Path1 then tail
    else FieldBytes(s, vals, mem) + Render(s.rest, s.offset + s.width, vals, mem, tail)
  }

  ghost predicate SameFrom(a: Bytes, b: Bytes, from: nat) {
    |a| == |b| && forall i :: from <= i < |a| ==> a[i] == b[i]
  }

  lemma Join(rec: Bytes, a: nat, b: nat, x: Bytes, y: Bytes)
    requires a <= b <= |rec| && rec[a..b] == x && rec[b..] == y
    ensures rec[a..] == x + y
  {
  }

  lemma SliceIs(rec: Bytes, mem: Bytes, a: nat, b: nat)
    requires a <= b <= |rec| && b <= |mem| && forall i :: a <= i < b ==> rec[i] == mem[i]
    ensures rec[a..b] == mem[a..b]
  {
  }

  /** The memory before the fields of `s`, and the first field, once they are filled. */
  lemma OneRenders(s: Struct, from: nat, vals: Values, mem0: Bytes, mem: Bytes)
    requires s.At? && Ascending(s, from) && Fits(s, |mem|) && SameFrom(mem0, mem, from)
    ensures var done := Fill(s, vals, mem);
            && done[from..s.offset] == Left(mem0, from, s.offset)
            && done[s.offset..s.offset + s.width] == FieldBytes(s, vals, mem0)
  {
    var done, mem1, next := Fill(s, vals, mem), FillOne(s, vals, mem), s.offset + s.width;
    FillKeepsBelow(s.rest, next, vals, mem1);
    SliceIs(done, mem1, from, s.offset);
    SliceIs(mem1, mem0, from, s.offset);
    SliceIs(done, mem1, s.offset, next);
    if vals(s.field).None? {
      SliceIs(mem1, mem0, s.offset, next);
    }
  }

  /** A record whose front is what filling `s` makes of memory reads, from `from` on, as `s` spelled out.
      `mem0` is what the memory held at first, `mem` what it holds once the fields before `s` are filled. */
  lemma {:induction false} FillRenders(s: Struct, from: nat, vals: Values, mem0: Bytes, mem: Bytes, rec: Bytes)
    requires Ascending(s, from) && PathLast(s) && Fits(s, |mem|) && SameFrom(mem0, mem, from)
    requires Offset(s, Path1) <= |rec| <= |mem|
    requires forall i :: from <= i < Offset(s, Path1) ==> rec[i] == Fill(s, vals, mem)[i]
    ensures from <= |rec| && rec[from..] == Render(s, from, vals, mem0, rec[Offset(s, Path1)..])
    decreases s
  {
    PathAfter(s, from);
    OneRenders(s, from, vals, mem0, mem);
    if s.field != Path1 {
      var next := s.offset + s.width;
      PathAfter(s.rest, next);
      FillRenders(s.rest, next, vals, mem0, FillOne(s, vals, mem), rec);
      FieldJoins(s, vals, mem0, Fill(s, vals, mem), rec);
    }
    GapJoins(s, from, vals, mem0, Fill(s, vals, mem), rec);
  }

  lemma FieldJoins(s: Struct, vals: Values, mem: Bytes, done: Bytes, rec: Bytes)
    requires s.At? && s.field != Path1
    requires var next, p := s.offset + s.width, Offset(s, Path1);
             && next <= p <= |rec| <= |done|
             && (forall i :: s.offset <= i < next ==> rec[i] == done[i])
             && done[s.offset..next] == FieldBytes(s, vals, mem)
             && rec[next..] == Render(s.rest, next, vals, mem, rec[p..])
    ensures rec[s.offset..] == RenderField(s, vals, mem, rec[Offset(s, Path1)..])
  {
    var next := s.offset + s.width;
    SliceIs(rec, done, s.offset, next);
    Join(rec, s.offset, next, FieldBytes(s, vals, mem), rec[next..]);
  }

  lemma GapJoins(s: Struct, from: nat, vals: Values, mem: Bytes, done: Bytes, rec: Bytes)
    requires s.At? && from <= s.offset <= Offset(s, Path1) <= |rec| <= |done|
    requires forall i :: from <= i < s.offset ==> rec[i] == done[i]
    requires done[from..s.offset] == Left(mem, from, s.offset)
    requires rec[s.offset..] == RenderField(s, vals, mem, rec[Offset(s, Path1)..])
    ensures rec[from..] == Render(s, from, vals, mem, rec[Offset(s, Path1)..])
  {
    SliceIs(rec, done, from, s.offset);
    if s.offset != from {
      Join(rec, from, s.offset, Left(mem, from, s.offset), rec[s.offset..]);
    }
  }

  /** The texts, as far as the record of `size` bytes goes, and what is left behind them. */
  function RenderTexts(t: Texts, p: nat, mem: Bytes, size: nat): Bytes {
    match t.second
    case None => t.first + Left(mem, p + |t.first|, size)
    case Some(text) =>
      var room := if p + t.n <= size then size - p - t.n else 0;
      Three(Front(t.first, t.n), Front(text, room), Left(mem, p + t.n + |text|, size))
  }

  /** Behind the path there are no fields that are set. */
  lemma {:induction false} FillKeepsBehind(s: Struct, from: nat, vals: Values, mem: Bytes)
    requires Ascending(s, from) && PathLast(s) && Fits(s, |mem|) && vals(Path1).None? && vals(Path2).None?
    ensures forall i :: Offset(s, Path1) <= i < |mem| ==> Fill(s, vals, mem)[i] == mem[i]
  {
    PathAfter(s, from);
    if s.field == Path1 {
      assert Fill(s, vals, mem) == Fill(s.rest, vals, mem);
      assert Fill(s.rest, vals, mem) == mem;
    } else {
      PathAfter(s.rest, s.offset + s.width);
      FillKeepsBehind(s.rest, s.offset + s.width, vals, FillOne(s, vals, mem));
    }
  }

  /** The texts begin inside the record, and the second covers what follows the name in the first. */
  ghost predicate TextsInside(t: Texts, p: nat, size: nat) {
    && p + t.n <= size
    && (t.second.None? ==> p + |t.first| <= size)
    && (t.second.Some? ==> |t.first| <= t.n + |t.second.value|)
  }

  /** The front of a record that ends in texts. */
  ghost predicate Built(s: Struct, vals: Values, t: Texts, mem: Bytes, rec: Bytes) {
    && Roomy(s, t, |mem|) && |rec| <= |mem| && TextsInside(t, Offset(s, Path1), |rec|)
    && vals(Path1).None? && vals(Path2).None?
    && rec == Build(s, vals, t, mem)[..|rec|]
  }

  lemma TailKept(s: Struct, vals: Values, t: Texts, mem: Bytes, rec: Bytes, end: nat)
    requires Built(s, vals, t, mem, rec)
    requires end == Offset(s, Path1) + if t.second.Some? then t.n + |t.second.value| else |t.first|
    ensures end <= |rec| ==> rec[end..] == Left(mem, end, |rec|)
  {
    FillKeepsBehind(s, 0, vals, mem);
    BuildKeepsAbove(s, vals, t, mem, Offset(s, Path1));
    if end <= |rec| {
      SliceIs(rec, mem, end, |rec|);
    }
  }

  lemma TailRenders(s: Struct, vals: Values, t: Texts, mem: Bytes, rec: Bytes)
    requires Built(s, vals, t, mem, rec)
    ensures rec[Offset(s, Path1)..] == RenderTexts(t, Offset(s, Path1), mem, |rec|)
  {
    var p := Offset(s, Path1);
    BuiltTexts(s, vals, t, mem);
    CutTexts(Build(s, vals, t, mem), |rec|, p, t);
    if t.second.None? {
      TailKept(s, vals, t, mem, rec, p + |t.first|);
      OneTextRendersTail(rec, p, t, mem);
    } else {
      TailKept(s, vals, t, mem, rec, p + t.n + |t.second.value|);
      TwoTextsRender(rec, p, t, mem);
    }
  }

  lemma OneTextRendersTail(rec: Bytes, p: nat, t: Texts, mem: Bytes)
    requires HoldsTexts(rec, p, t) && t.second.None?
    requires rec[p + |t.first|..] == Left(mem, p + |t.first|, |rec|)
    ensures rec[p..] == RenderTexts(t, p, mem, |rec|)
  {
    Join(rec, p, p + |t.first|, t.first, Left(mem, p + |t.first|, |rec|));
  }

  lemma TwoTextsRender(rec: Bytes, p: nat, t: Texts, mem: Bytes)
    requires HoldsTexts(rec, p, t) && t.second.Some?
    requires var end := p + t.n + |t.second.value|; end <= |rec| ==> rec[end..] == Left(mem, end, |rec|)
    ensures rec[p..] == RenderTexts(t, p, mem, |rec|)
  {
    var text := t.second.value;
    SecondRenders(rec, p + t.n, text, Left(mem, p + t.n + |text|, |rec|));
    Join(rec, p, p + t.n, t.first[..t.n], rec[p + t.n..]);
  }

  lemma SecondRenders(rec: Bytes, q: nat, text: Bytes, left: Bytes)
    requires LiesAt(rec, q, text) && (q + |text| <= |rec| ==> rec[q + |text|..] == left)
    requires q + |text| > |rec| ==> left == []
    ensures rec[q..] == Front(text, |rec| - q) + left
  {
    if q + |text| <= |rec| {
      Join(rec, q, q + |text|, text, left);
    } else {
      assert rec[q..] + [] == rec[q..];
    }
  }

  lemma BuiltRenders(s: Struct, vals: Values, t: Texts, mem: Bytes, rec: Bytes)
    requires Built(s, vals, t, mem, rec)
    ensures rec == Render(s, 0, vals, mem, RenderTexts(t, Offset(s, Path1), mem, |rec|))
  {
    BuildKeepsBelow(s, vals, t, mem);
    FillRenders(s, 0, vals, mem, mem, rec);
    TailRenders(s, vals, t, mem, rec);
    assert rec[0..] == rec;
  }

  // ----- each kind of record spelled out -----

  lemma AssembledRenders(e: Event, rid: nat, mem: Bytes)
    requires Reaches(e, mem)
    ensures Assemble(e, rid, mem) ==
            Render(KernelStruct(KindOf(e)), 0, ValuesOf(e, rid), mem,
                   RenderTexts(TextsOf(e), PathAt(KindOf(e)), mem, RecordSize(e)))
  {
    AssembledIsBuilt(e, rid, mem);
    BuiltRenders(KernelStruct(KindOf(e)), ValuesOf(e, rid), TextsOf(e), mem, Assemble(e, rid, mem));
  }

  lemma AssembledIsBuilt(e: Event, rid: nat, mem: Bytes)
    requires Reaches(e, mem)
    ensures Built(KernelStruct(KindOf(e)), ValuesOf(e, rid), TextsOf(e), mem, Assemble(e, rid, mem))
  {
    HasRoom(e, |mem|);
    TextsStart(e);
    PathsUnset(e, rid);
    IsBuilt(KernelStruct(KindOf(e)), ValuesOf(e, rid), TextsOf(e), mem, RecordSize(e));
  }

  lemma PathsUnset(e: Event, rid: nat)
    ensures ValuesOf(e, rid)(Path1).None? && ValuesOf(e, rid)(Path2).None?
  {
  }

  lemma IsBuilt(s: Struct, vals: Values, t: Texts, mem: Bytes, size: nat)
    requires Roomy(s, t, |mem|) && size <= |mem| && TextsInside(t, Offset(s, Path1), size)
    requires vals(Path1).None? && vals(Path2).None?
    ensures Built(s, vals, t, mem, Build(s, vals, t, mem)[..size])
  {
  }

  lemma TextsStart(e: Event)
    ensures TextsInside(TextsOf(e), Offset(KernelStruct(KindOf(e)), Path1), RecordSize(e))
  {
    assert PathAt(KindOf(e)) < SizeOf(KernelStruct(KindOf(e)));
  }

  lemma SetField(f: Field, w: nat, o: nat, rest: Struct, from: nat, vals: Values, mem: Bytes, tail: Bytes, v: nat)
    requires f != Path1 && vals(f) == Some(v)
    ensures var r := Encode(v, w) + Render(rest, o + w, vals, mem, tail);
            Render(At(f, w, o, rest), from, vals, mem, tail) == if from == o then r else Left(mem, from, o) + r
  {
  }

  lemma UnsetField(f: Field, w: nat, o: nat, rest: Struct, from: nat, vals: Values, mem: Bytes, tail: Bytes)
    requires f != Path1 && vals(f).None?
    ensures var r := Left(mem, o, o + w) + Render(rest, o + w, vals, mem, tail);
            Render(At(f, w, o, rest), from, vals, mem, tail) == if from == o then r else Left(mem, from, o) + r
  {
  }

  lemma HeadRenders(rest: Struct, vals: Values, mem: Bytes, tail: Bytes, rid: nat, size: nat, code: byte)
    requires vals(RId) == Some(rid) && vals(RSize) == Some(size) && vals(RType) == Some(code as nat)
    ensures Render(Header(rest), 0, vals, mem, tail) == Head(rid, size, code, Render(rest, 7, vals, mem, tail))
  {
    var t := At(RType, 1, 6, rest);
    assert Encode(code as nat, 1) == [code] by {
      assert Encode(code as nat / 256, 0) == [];
    }
    SetField(RType, 1, 6, rest, 6, vals, mem, tail, code);
    SetField(RSize, 2, 4, t, 4, vals, mem, tail, size);
    SetField(RId, 4, 0, At(RSize, 2, 4, t), 0, vals, mem, tail, rid);
  }

  lemma OnePathRenders(at: nat, size: nat, vals: Values, mem: Bytes, tail: Bytes, n: nat)
    requires vals(Len1) == Some(n)
    ensures Render(OnePath(at, size), at, vals, mem, tail) == Encode(n, 2) + tail
  {
    var path := At(Path1, 1, at + 2, End(size));
    SetField(Len1, 2, at, path, at, vals, mem, tail, n);
    assert Render(path, at + 2, vals, mem, tail) == tail;
  }

  lemma TwoLengthsRender(at: nat, path: Struct, vals: Values, mem: Bytes, tail: Bytes, n: nat, m: nat)
    requires vals(Len1) == Some(n) && vals(Len2) == Some(m) && path.At? && path.field == Path1 && path.offset == at + 4
    ensures Render(At(Len1, 2, at, At(Len2, 2, at + 2, path)), at, vals, mem, tail) ==
            Encode(n, 2) + (Encode(m, 2) + tail)
  {
    SetField(Len2, 2, at + 2, path, at + 2, vals, mem, tail, m);
    SetField(Len1, 2, at, At(Len2, 2, at + 2, path), at, vals, mem, tail, n);
  }

  lemma OpenRenders(rest: Struct, vals: Values, mem: Bytes, tail: Bytes,
                    flags: nat, mode: nat, pid: nat, addr: nat, ret: nat, n: nat)
    requires rest == At(Flags, 4, 8, At(Mode, 4, 12, At(Pid, 4, 16, At(Addr, 8, 24, At(Ret, 4, 32,
                       OnePath(36, 40))))))
    requires vals(Flags) == Some(flags) && vals(Mode) == Some(mode) && vals(Pid) == Some(pid)
    requires vals(Addr) == Some(addr) && vals(Ret) == Some(ret) && vals(Len1) == Some(n)
    ensures Render(rest, 7, vals, mem, tail) ==
            Left(mem, 7, 8) + (Encode(flags, 4) + (Encode(mode, 4) + (Encode(pid, 4) +
            (Left(mem, 20, 24) + (Encode(addr, 8) + (Encode(ret, 4) + (Encode(n, 2) + tail)))))))
  {
    var paths := OnePath(36, 40);
    OnePathRenders(36, 40, vals, mem, tail, n);
    SetField(Ret, 4, 32, paths, 32, vals, mem, tail, ret);
    var fromRet := At(Ret, 4, 32, paths);
    SetField(Addr, 8, 24, fromRet, 20, vals, mem, tail, addr);
    var fromAddr := At(Addr, 8, 24, fromRet);
    SetField(Pid, 4, 16, fromAddr, 16, vals, mem, tail, pid);
    var fromPid := At(Pid, 4, 16, fromAddr);
    SetField(Mode, 4, 12, fromPid, 12, vals, mem, tail, mode);
    var fromMode := At(Mode, 4, 12, fromPid);
    SetField(Flags, 4, 8, fromMode, 7, vals, mem, tail, flags);
  }

  /** read and write. */
  lemma TransferRenders(rest: Struct, vals: Values, mem: Bytes, tail: Bytes,
                        pid: nat, addr: nat, count: nat, ppos: nat, ret: nat, n: nat)
    requires rest == At(Pid, 4, 8, At(Addr, 8, 16, At(Count, 8, 24, At(Ppos, 2, 32, At(Ret, 4, 36,
                       OnePath(40, 48))))))
    requires vals(Pid) == Some(pid) && vals(Addr) == Some(addr) && vals(Count) == Some(count)
    requires vals(Ppos) == Some(ppos) && vals(Ret) == Some(ret) && vals(Len1) == Some(n)
    ensures Render(rest, 7, vals, mem, tail) ==
            Left(mem, 7, 8) + (Encode(pid, 4) + (Left(mem, 12, 16) + (Encode(addr, 8) +
            (Encode(count, 8) + (Encode(ppos, 2) + (Left(mem, 34, 36) + (Encode(ret, 4) +
            (Encode(n, 2) + tail))))))))
  {
    var paths := OnePath(40, 48);
    OnePathRenders(40, 48, vals, mem, tail, n);
    SetField(Ret, 4, 36, paths, 34, vals, mem, tail, ret);
    var fromRet := At(Ret, 4, 36, paths);
    SetField(Ppos, 2, 32, fromRet, 32, vals, mem, tail, ppos);
    var fromPpos := At(Ppos, 2, 32, fromRet);
    SetField(Count, 8, 24, fromPpos, 24, vals, mem, tail, count);
    var fromCount := At(Count, 8, 24, fromPpos);
    SetField(Addr, 8, 16, fromCount, 12, vals, mem, tail, addr);
    var fromAddr := At(Addr, 8, 16, fromCount);
    SetField(Pid, 4, 8, fromAddr, 7, vals, mem, tail, pid);
  }

  lemma CloseRenders(rest: Struct, vals: Values, mem: Bytes, tail: Bytes, pid: nat, addr: nat, ret: nat, n: nat)
    requires rest == At(Pid, 4, 8, At(Addr, 8, 16, At(Ret, 4, 24, OnePath(28, 32))))
    requires vals(Pid) == Some(pid) && vals(Addr) == Some(addr) && vals(Ret) == Some(ret)
    requires vals(Len1) == Some(n)
    ensures Render(rest, 7, vals, mem, tail) ==
            Left(mem, 7, 8) + (Encode(pid, 4) + (Left(mem, 12, 16) + (Encode(addr, 8) +
            (Encode(ret, 4) + (Encode(n, 2) + tail)))))
  {
    var paths := OnePath(28, 32);
    OnePathRenders(28, 32, vals, mem, tail, n);
    SetField(Ret, 4, 24, paths, 24, vals, mem, tail, ret);
    var fromRet := At(Ret, 4, 24, paths);
    SetField(Addr, 8, 16, fromRet, 12, vals, mem, tail, addr);
    var fromAddr := At(Addr, 8, 16, fromRet);
    SetField(Pid, 4, 8, fromAddr, 7, vals, mem, tail, pid);
  }

  lemma MkdirRenders(rest: Struct, vals: Values, mem: Bytes, tail: Bytes, mode: nat, ret: nat, n: nat)
    requires rest == At(Pid, 4, 8, At(Mode, 4, 12, At(Ret, 4, 16, OnePath(20, 24))))
    requires vals(Pid).None? && vals(Mode) == Some(mode) && vals(Ret) == Some(ret) && vals(Len1) == Some(n)
    ensures Render(rest, 7, vals, mem, tail) ==
            Left(mem, 7, 8) + (Left(mem, 8, 12) + (Encode(mode, 4) + (Encode(ret, 4) +
            (Encode(n, 2) + tail))))
  {
    var paths := OnePath(20, 24);
    OnePathRenders(20, 24, vals, mem, tail, n);
    SetField(Ret, 4, 16, paths, 16, vals, mem, tail, ret);
    var fromRet := At(Ret, 4, 16, paths);
    SetField(Mode, 4, 12, fromRet, 12, vals, mem, tail, mode);
    var fromMode := At(Mode, 4, 12, fromRet);
    UnsetField(Pid, 4, 8, fromMode, 7, vals, mem, tail);
  }

  /** rmdir and unlink. */
  lemma RemoveRenders(rest: Struct, vals: Values, mem: Bytes, tail: Bytes, ret: nat, n: nat)
    requires rest == At(Pid, 4, 8, At(Ret, 4, 12, OnePath(16, 20)))
    requires vals(Pid).None? && vals(Ret) == Some(ret) && vals(Len1) == Some(n)
    ensures Render(rest, 7, vals, mem, tail) ==
            Left(mem, 7, 8) + (Left(mem, 8, 12) + (Encode(ret, 4) + (Encode(n, 2) + tail)))
  {
    var paths := OnePath(16, 20);
    OnePathRenders(16, 20, vals, mem, tail, n);
    SetField(Ret, 4, 12, paths, 12, vals, mem, tail, ret);
    var fromRet := At(Ret, 4, 12, paths);
    UnsetField(Pid, 4, 8, fromRet, 7, vals, mem, tail);
  }

  /** link and symlink. */
  lemma LinkRenders(rest: Struct, vals: Values, mem: Bytes, tail: Bytes, ret: nat, n: nat, m: nat)
    requires rest == At(Pid, 4, 8, At(Ret, 4, 12, TwoPaths(16, 24)))
    requires vals(Pid).None? && vals(Ret) == Some(ret) && vals(Len1) == Some(n) && vals(Len2) == Some(m)
    ensures Render(rest, 7, vals, mem, tail) ==
            Left(mem, 7, 8) + (Left(mem, 8, 12) + (Encode(ret, 4) + (Encode(n, 2) +
            (Encode(m, 2) + tail))))
  {
    var paths := TwoPaths(16, 24);
    TwoLengthsRender(16, At(Path1, 1, 20, End(24)), vals, mem, tail, n, m);
    SetField(Ret, 4, 12, paths, 12, vals, mem, tail, ret);
    var fromRet := At(Ret, 4, 12, paths);
    UnsetField(Pid, 4, 8, fromRet, 7, vals, mem, tail);
  }

  lemma RenameRenders(rest: Struct, vals: Values, mem: Bytes, tail: Bytes, ret: nat, n: nat, m: nat)
    requires rest == At(Pid, 4, 8, At(Ret, 4, 12,
                       At(Len1, 2, 16, At(Len2, 2, 18, At(Path1, 1, 20, At(Path2, 1, 21, End(24)))))))
    requires vals(Pid).None? && vals(Ret) == Some(ret) && vals(Len1) == Some(n) && vals(Len2) == Some(m)
    ensures Render(rest, 7, vals, mem, tail) ==
            Left(mem, 7, 8) + (Left(mem, 8, 12) + (Encode(ret, 4) + (Encode(n, 2) +
            (Encode(m, 2) + tail))))
  {
    var path := At(Path1, 1, 20, At(Path2, 1, 21, End(24)));
    var paths := At(Len1, 2, 16, At(Len2, 2, 18, path));
    TwoLengthsRender(16, path, vals, mem, tail, n, m);
    SetField(Ret, 4, 12, paths, 12, vals, mem, tail, ret);
    var fromRet := At(Ret, 4, 12, paths);
    UnsetField(Pid, 4, 8, fromRet, 7, vals, mem, tail);
  }

  lemma Fronts(name: Bytes)
    ensures Front(name, |name|) == name && Front(name + [0], |name|) == name
  {
  }

  lemma OneTextRenders(name: Bytes, p: nat, mem: Bytes, size: nat)
    ensures RenderTexts(Texts(name + [0], |name|, None), p, mem, size) == (name + [0]) + Left(mem, p + |name| + 1, size)
  {
  }

  lemma TwoTextsSpelled(first: Bytes, name: Bytes, text: Bytes, p: nat, mem: Bytes, size: nat)
    requires Front(first, |name|) == name && p + |name| <= size
    ensures RenderTexts(Texts(first, |name|, Some(text)), p, mem, size) ==
            Three(name, Front(text, size - p - |name|), Left(mem, p + |name| + |text|, size))
  {
  }

  lemma WriteTexts(name: Bytes, payload: Bytes, mem: Bytes)
    ensures RenderTexts(Texts(name, |name|, Some(payload)), 42, mem, 48 + |name| + |payload|) ==
            Three(name, payload, Left(mem, 42 + |name| + |payload|, 48 + |name| + |payload|))
  {
    Fronts(name);
    TwoTextsSpelled(name, name, payload, 42, mem, 48 + |name| + |payload|);
  }

  lemma LinkTexts(name: Bytes, newName: Bytes, mem: Bytes)
    ensures RenderTexts(Texts(name + [0], |name|, Some(newName + [0])), 20, mem, 24 + 2 * |name|) ==
            Three(name, Front(newName + [0], |name| + 4), Left(mem, 21 + |name| + |newName|, 24 + 2 * |name|))
  {
    Fronts(name);
    TwoTextsSpelled(name + [0], name, newName + [0], 20, mem, 24 + 2 * |name|);
  }

  /** symlink and rename. */
  lemma PairSpelled(name: Bytes, text: Bytes, mem: Bytes)
    ensures RenderTexts(Texts(name + [0], |name|, Some(text + [0])), 20, mem, 24 + |name| + |text|) ==
            Three(name, text + [0], Left(mem, 21 + |name| + |text|, 24 + |name| + |text|))
  {
    Fronts(name);
    TwoTextsSpelled(name + [0], name, text + [0], 20, mem, 24 + |name| + |text|);
  }

  lemma SizeIsSpelled(e: Event)
    ensures RecordSize(e) == SpelledSize(e) && Code(KindOf(e)) == SpelledCode(e)
  {
  }

  lemma FilePaths(k: Kind)
    requires k == Open || k == Read || k == Write || k == Close
    ensures PathAt(k) == if k == Open then 38 else if k == Close then 30 else 42
  {
  }

  lemma NamePaths(k: Kind)
    requires !(k == Open || k == Read || k == Write || k == Close)
    ensures PathAt(k) == if k == Mkdir then 22 else if k == Rmdir || k == Unlink then 18 else 20
  {
  }

  lemma FileTexts(e: Event, mem: Bytes, p: nat)
    requires e.OpenEv? || e.ReadEv? || e.WriteEv? || e.CloseEv?
    requires p == if e.OpenEv? then 38 else if e.CloseEv? then 30 else 42
    ensures RenderTexts(TextsOf(e), p, mem, SpelledSize(e)) == SpelledTexts(e, mem)
  {
    if e.WriteEv? {
      WriteTexts(e.name, e.payload, mem);
    } else if !e.CloseEv? {
      OneTextRenders(e.name, p, mem, SpelledSize(e));
    }
  }

  lemma NameTexts(e: Event, mem: Bytes, p: nat)
    requires e.MkdirEv? || e.RmdirEv? || e.UnlinkEv?
    requires p == if e.MkdirEv? then 22 else 18
    ensures RenderTexts(TextsOf(e), p, mem, SpelledSize(e)) == SpelledTexts(e, mem)
  {
    OneTextRenders(e.name, p, mem, SpelledSize(e));
  }

  lemma LinkTextsOf(e: Event, mem: Bytes)
    requires e.LinkEv?
    ensures RenderTexts(TextsOf(e), 20, mem, SpelledSize(e)) == SpelledTexts(e, mem)
  {
    LinkTexts(e.name, e.newName, mem);
  }

  lemma SymlinkTextsOf(e: Event, mem: Bytes)
    requires e.SymlinkEv?
    ensures RenderTexts(TextsOf(e), 20, mem, SpelledSize(e)) == SpelledTexts(e, mem)
  {
    PairSpelled(e.name, e.target, mem);
  }

  lemma RenameTextsOf(e: Event, mem: Bytes)
    requires e.RenameEv?
    ensures RenderTexts(TextsOf(e), 20, mem, SpelledSize(e)) == SpelledTexts(e, mem)
  {
    PairSpelled(e.name, e.newName, mem);
  }

  lemma TextsAreSpelled(e: Event, mem: Bytes)
    ensures RenderTexts(TextsOf(e), PathAt(KindOf(e)), mem, RecordSize(e)) == SpelledTexts(e, mem)
  {
    SizeIsSpelled(e);
    if e.OpenEv? || e.ReadEv? || e.WriteEv? || e.CloseEv? {
      FilePaths(KindOf(e));
      FileTexts(e, mem, PathAt(KindOf(e)));
    } else {
      NamePaths(KindOf(e));
      match e
      case LinkEv(_, _, _) => LinkTextsOf(e, mem);
      case SymlinkEv(_, _, _) => SymlinkTextsOf(e, mem);
      case RenameEv(_, _, _) => RenameTextsOf(e, mem);
      case _ => NameTexts(e, mem, PathAt(KindOf(e)));
    }
  }

  /** What follows the header in each structure. */
  function Fields(k: Kind): Struct {
    match k
    case Open => At(Flags, 4, 8, At(Mode, 4, 12, At(Pid, 4, 16, At(Addr, 8, 24, At(Ret, 4, 32, OnePath(36, 40))))))
    case Read => At(Pid, 4, 8, At(Addr, 8, 16, At(Count, 8, 24, At(Ppos, 2, 32, At(Ret, 4, 36, OnePath(40, 48))))))
    case Write => At(Pid, 4, 8, At(Addr, 8, 16, At(Count, 8, 24, At(Ppos, 2, 32, At(Ret, 4, 36, OnePath(40, 48))))))
    case Close => At(Pid, 4, 8, At(Addr, 8, 16, At(Ret, 4, 24, OnePath(28, 32))))
    case Mkdir => At(Pid, 4, 8, At(Mode, 4, 12, At(Ret, 4, 16, OnePath(20, 24))))
    case Rmdir => At(Pid, 4, 8, At(Ret, 4, 12, OnePath(16, 20)))
    case Unlink => At(Pid, 4, 8, At(Ret, 4, 12, OnePath(16, 20)))
    case Link => At(Pid, 4, 8, At(Ret, 4, 12, TwoPaths(16, 24)))
    case Symlink => At(Pid, 4, 8, At(Ret, 4, 12, TwoPaths(16, 24)))
    case Rename =>
      At(Pid, 4, 8, At(Ret, 4, 12, At(Len1, 2, 16, At(Len2, 2, 18, At(Path1, 1, 20, At(Path2, 1, 21, End(24)))))))
  }

  lemma HeaderThenFields(k: Kind)
    ensures KernelStruct(k) == Header(Fields(k))
  {
  }

  lemma FileFields(e: Event, rid: nat, mem: Bytes, tail: Bytes)
    requires e.OpenEv? || e.ReadEv? || e.WriteEv? || e.CloseEv?
    ensures Render(Fields(KindOf(e)), 7, ValuesOf(e, rid), mem, tail) == SpelledFields(e, mem, tail)
  {
    var rest, vals, n, ret := Fields(KindOf(e)), ValuesOf(e, rid), |e.name|, Unsigned(e.ret);
    match e
    case OpenEv(flags, mode, pid, addr, _, _) =>
      OpenRenders(rest, vals, mem, tail, Unsigned(flags), mode, pid, addr, ret, n);
    case ReadEv(pid, addr, count, ppos, _, _) => TransferRenders(rest, vals, mem, tail, pid, addr, count, ppos, ret, n);
    case WriteEv(pid, addr, ppos, _, _, payload) =>
      TransferRenders(rest, vals, mem, tail, pid, addr, |payload|, ppos, ret, n);
    case CloseEv(pid, addr, _, _) => CloseRenders(rest, vals, mem, tail, pid, addr, ret, n);
  }

  lemma NameFields(e: Event, rid: nat, mem: Bytes, tail: Bytes)
    requires !(e.OpenEv? || e.ReadEv? || e.WriteEv? || e.CloseEv?)
    ensures Render(Fields(KindOf(e)), 7, ValuesOf(e, rid), mem, tail) == SpelledFields(e, mem, tail)
  {
    var rest, vals, n, ret := Fields(KindOf(e)), ValuesOf(e, rid), |e.name|, Unsigned(e.ret);
    match e
    case MkdirEv(mode, _, _) => MkdirRenders(rest, vals, mem, tail, Unsigned(mode), ret, n);
    case RmdirEv(_, _) => RemoveRenders(rest, vals, mem, tail, ret, n);
    case UnlinkEv(_, _) => RemoveRenders(rest, vals, mem, tail, ret, n);
    case LinkEv(_, _, _) => LinkRenders(rest, vals, mem, tail, ret, n, n);
    case SymlinkEv(_, _, target) => LinkRenders(rest, vals, mem, tail, ret, n, |target|);
    case RenameEv(_, _, newName) => RenameRenders(rest, vals, mem, tail, ret, n, |newName|);
  }

  lemma FieldsAreSpelled(e: Event, rid: nat, mem: Bytes, tail: Bytes)
    ensures Render(KernelStruct(KindOf(e)), 0, ValuesOf(e, rid), mem, tail) ==
            Head(rid, SpelledSize(e), SpelledCode(e), SpelledFields(e, mem, tail))
  {
    SizeIsSpelled(e);
    HeaderThenFields(KindOf(e));
    HeadRenders(Fields(KindOf(e)), ValuesOf(e, rid), mem, tail, rid, SpelledSize(e), SpelledCode(e));
    if e.OpenEv? || e.ReadEv? || e.WriteEv? || e.CloseEv? {
      FileFields(e, rid, mem, tail);
    } else {
      NameFields(e, rid, mem, tail);
    }
  }

  /** A record is as many bytes, and these, as spelled out, whatever the memory held before and whether
      or not the texts fit the allocation. */
  lemma AssembledIsSpelled(e: Event, rid: nat, mem: Bytes)
    requires Reaches(e, mem)
    ensures Assemble(e, rid, mem) == Spelled(e, rid, mem) && |Assemble(e, rid, mem)| == SpelledSize(e)
  {
    AssembledRenders(e, rid, mem);
    TextsAreSpelled(e, mem);
    FieldsAreSpelled(e, rid, mem, SpelledTexts(e, mem));
    SizeIsSpelled(e);
  }
}
