/** What replay makes of any record, whoever wrote it, spelled out byte by byte, without the structures. */
module DecodeBytes {
  import opened Framing
  import opened Layout
  import opened Records
  import opened Omap
  import opened Decoding
  import R = Replay

  /** `w` bytes from `at` on, as a number. */
  function Number(rec: Bytes, at: nat, w: nat): nat {
    if at + w <= |rec| then Decode(rec[at..at + w]) else 0
  }

  function Int(rec: Bytes, at: nat): int { Signed(Number(rec, at, 4)) }

  function PathFrom(rec: Bytes, at: nat): Bytes {
    if at <= |rec| then CStr(rec[at..]) else []
  }

  /** The two paths from 20 on, whose lengths are at 16 and 18, if they fit 256-byte buffers and lie in
      the record. */
  function TwoPathsFrom(rec: Bytes): Option<(Bytes, Bytes)> {
    var n, m := Number(rec, 16, 2), Number(rec, 18, 2);
    if n < 256 && m < 256 && 20 + n + m <= |rec| then Some((rec[20..20 + n], rec[20 + n..20 + n + m])) else None
  }

  function SpelledWrite(rec: Bytes): Op {
    var n, count := Number(rec, 40, 2), Number(rec, 24, 8);
    if 42 + n + count <= |rec| then WriteOp(Key(Number(rec, 16, 8), Int(rec, 8)), rec[42 + n..42 + n + count])
    else Overrun
  }

  /** The smallest record of a type: the size of its structure. */
  function Smallest(code: byte): nat {
    match code
    case 3 => 24 case 4 => 20 case 5 => 24 case 6 => 24 case 7 => 20
    case 10 => 24 case 20 => 48 case 21 => 48 case 23 => 40 case 24 => 32
    case _ => 0
  }

  function SpelledOp(rec: Bytes, stack: Bytes): Op {
    if |rec| < 7 then Skipped
    else if |rec| < Smallest(rec[6]) then Overrun
    else SpelledBody(rec, stack)
  }

  function SpelledBody(rec: Bytes, stack: Bytes): Op
    requires |rec| >= 7
  {
    match rec[6]
    case 3 => LinkWith(TwoPathsFrom(rec), Int(rec, 12))
    case 4 => UnlinkOp(PathFrom(rec, 18), Int(rec, 12))
    case 5 => SymlinkWith(TwoPathsFrom(rec), Int(rec, 12))
    case 6 => MkdirOp(PathFrom(rec, 22), Int(rec, 12), Int(rec, 16))
    case 7 => RmdirOp(PathFrom(rec, 18), Int(rec, 12))
    case 9 => TruncateOp
    case 10 => RenameWith(TwoPathsFrom(rec), Int(rec, 12), stack)
    case 20 => ReadOp(Key(Number(rec, 16, 8), Int(rec, 8)), Number(rec, 24, 8), Int(rec, 36))
    case 21 => SpelledWrite(rec)
    case 23 => OpenOp(PathFrom(rec, 38), Int(rec, 8), Number(rec, 12, 4), Key(Number(rec, 24, 8), Int(rec, 16)))
    case 24 => CloseOp(Key(Number(rec, 16, 8), Int(rec, 8)))
    case _ => Skipped
  }

  ghost predicate Place(u: Struct, f: Field, at: nat, w: nat) { Offset(u, f) == at && Width(u, f) == w }

  lemma FieldIs(rec: Bytes, u: Struct, f: Field, at: nat, w: nat)
    requires Place(u, f, at, w)
    ensures FieldIn(rec, u, f) == Number(rec, at, w)
  {
  }

  lemma OpenPlaces()
    ensures var u := UserStruct(Open);
            && Place(u, Flags, 8, 4) && Place(u, Mode, 12, 4) && Place(u, Pid, 16, 4) && Place(u, Addr, 24, 8)
            && Offset(u, Path1) == 38 && SizeOf(u) == 40
  {
  }

  lemma TransferPlaces(k: Kind)
    requires k == Read || k == Write
    ensures var u := UserStruct(k);
            && Place(u, Pid, 8, 4) && Place(u, Addr, 16, 8) && Place(u, Count, 24, 8) && Place(u, Ret, 36, 4)
            && Place(u, Len1, 40, 2) && Offset(u, Path1) == 42 && SizeOf(u) == 48
  {
  }

  lemma ClosePlaces()
    ensures var u := UserStruct(Close); Place(u, Pid, 8, 4) && Place(u, Addr, 16, 8) && SizeOf(u) == 32
  {
  }

  lemma MkdirPlaces()
    ensures var u := UserStruct(Mkdir);
            Place(u, Mode, 12, 4) && Place(u, Ret, 16, 4) && Offset(u, Path1) == 22 && SizeOf(u) == 24
  {
  }

  lemma RemovePlaces(k: Kind)
    requires k == Rmdir || k == Unlink
    ensures var u := UserStruct(k); Place(u, Ret, 12, 4) && Offset(u, Path1) == 18 && SizeOf(u) == 20
  {
  }

  lemma TwoPathsPlaces(k: Kind)
    requires k == Link || k == Symlink || k == Rename
    ensures var u := UserStruct(k);
            && Place(u, Ret, 12, 4) && Place(u, Len1, 16, 2) && Place(u, Len2, 18, 2)
            && Offset(u, Path1) == 20 && SizeOf(u) == 24
  {
  }

  lemma OpenIs(rec: Bytes, u: Struct, stack: Bytes)
    requires Place(u, Flags, 8, 4) && Place(u, Mode, 12, 4) && Place(u, Pid, 16, 4) && Place(u, Addr, 24, 8)
    requires Offset(u, Path1) == 38
    ensures DecodeAs(rec, Open, u, stack) ==
            OpenOp(PathFrom(rec, 38), Int(rec, 8), Number(rec, 12, 4), Key(Number(rec, 24, 8), Int(rec, 16)))
  {
    FieldIs(rec, u, Flags, 8, 4);
    FieldIs(rec, u, Mode, 12, 4);
    FieldIs(rec, u, Pid, 16, 4);
    FieldIs(rec, u, Addr, 24, 8);
  }

  lemma TransferIs(rec: Bytes, u: Struct, stack: Bytes)
    requires Place(u, Pid, 8, 4) && Place(u, Addr, 16, 8) && Place(u, Count, 24, 8) && Place(u, Ret, 36, 4)
    requires Place(u, Len1, 40, 2) && Offset(u, Path1) == 42
    ensures DecodeAs(rec, Read, u, stack) ==
            ReadOp(Key(Number(rec, 16, 8), Int(rec, 8)), Number(rec, 24, 8), Int(rec, 36))
    ensures DecodeAs(rec, Write, u, stack) == SpelledWrite(rec)
  {
    FieldIs(rec, u, Pid, 8, 4);
    FieldIs(rec, u, Addr, 16, 8);
    FieldIs(rec, u, Count, 24, 8);
    FieldIs(rec, u, Ret, 36, 4);
    FieldIs(rec, u, Len1, 40, 2);
  }

  lemma TwoPathsAre(rec: Bytes, u: Struct)
    requires Place(u, Len1, 16, 2) && Place(u, Len2, 18, 2) && Offset(u, Path1) == 20
    ensures TwoPathsIn(rec, u) == TwoPathsFrom(rec)
  {
    FieldIs(rec, u, Len1, 16, 2);
    FieldIs(rec, u, Len2, 18, 2);
  }

  function Sized(rec: Bytes, size: nat, op: Op): Op { if |rec| < size then Overrun else op }

  lemma WholeIs(rec: Bytes, k: Kind, u: Struct, stack: Bytes, op: Op, size: nat)
    requires SizeOf(u) == size && DecodeAs(rec, k, u, stack) == op
    ensures DecodeWhole(rec, k, u, stack) == Sized(rec, size, op)
  {
  }

  lemma OpenRecord(rec: Bytes, stack: Bytes, op: Op)
    requires op == OpenOp(PathFrom(rec, 38), Int(rec, 8), Number(rec, 12, 4), Key(Number(rec, 24, 8), Int(rec, 16)))
    ensures DecodeWhole(rec, Open, UserStruct(Open), stack) == Sized(rec, 40, op)
  {
    OpenPlaces();
    OpenIs(rec, UserStruct(Open), stack);
    WholeIs(rec, Open, UserStruct(Open), stack, op, 40);
  }

  lemma ReadRecord(rec: Bytes, stack: Bytes, op: Op)
    requires op == ReadOp(Key(Number(rec, 16, 8), Int(rec, 8)), Number(rec, 24, 8), Int(rec, 36))
    ensures DecodeWhole(rec, Read, UserStruct(Read), stack) == Sized(rec, 48, op)
  {
    TransferPlaces(Read);
    TransferIs(rec, UserStruct(Read), stack);
    WholeIs(rec, Read, UserStruct(Read), stack, op, 48);
  }

  lemma WriteRecord(rec: Bytes, stack: Bytes, op: Op)
    requires op == SpelledWrite(rec)
    ensures DecodeWhole(rec, Write, UserStruct(Write), stack) == Sized(rec, 48, op)
  {
    TransferPlaces(Write);
    TransferIs(rec, UserStruct(Write), stack);
    WholeIs(rec, Write, UserStruct(Write), stack, op, 48);
  }

  lemma CloseRecord(rec: Bytes, stack: Bytes, op: Op)
    requires op == CloseOp(Key(Number(rec, 16, 8), Int(rec, 8)))
    ensures DecodeWhole(rec, Close, UserStruct(Close), stack) == Sized(rec, 32, op)
  {
    ClosePlaces();
    FieldIs(rec, UserStruct(Close), Pid, 8, 4);
    FieldIs(rec, UserStruct(Close), Addr, 16, 8);
    WholeIs(rec, Close, UserStruct(Close), stack, op, 32);
  }

  lemma MkdirRecord(rec: Bytes, stack: Bytes, op: Op)
    requires op == MkdirOp(PathFrom(rec, 22), Int(rec, 12), Int(rec, 16))
    ensures DecodeWhole(rec, Mkdir, UserStruct(Mkdir), stack) == Sized(rec, 24, op)
  {
    MkdirPlaces();
    FieldIs(rec, UserStruct(Mkdir), Mode, 12, 4);
    FieldIs(rec, UserStruct(Mkdir), Ret, 16, 4);
    WholeIs(rec, Mkdir, UserStruct(Mkdir), stack, op, 24);
  }

  lemma RemoveIs(rec: Bytes, u: Struct, stack: Bytes)
    requires Place(u, Ret, 12, 4) && Offset(u, Path1) == 18
    ensures DecodeAs(rec, Rmdir, u, stack) == RmdirOp(PathFrom(rec, 18), Int(rec, 12))
    ensures DecodeAs(rec, Unlink, u, stack) == UnlinkOp(PathFrom(rec, 18), Int(rec, 12))
  {
    FieldIs(rec, u, Ret, 12, 4);
  }

  lemma RemoveRecord(rec: Bytes, k: Kind, stack: Bytes, op: Op)
    requires k == Rmdir ==> op == RmdirOp(PathFrom(rec, 18), Int(rec, 12))
    requires k == Unlink ==> op == UnlinkOp(PathFrom(rec, 18), Int(rec, 12))
    requires k == Rmdir || k == Unlink
    ensures DecodeWhole(rec, k, UserStruct(k), stack) == Sized(rec, 20, op)
  {
    RemovePlaces(k);
    RemoveIs(rec, UserStruct(k), stack);
    WholeIs(rec, k, UserStruct(k), stack, op, 20);
  }

  function SpelledTwoPaths(rec: Bytes, k: Kind, stack: Bytes): Op {
    if k == Link then LinkWith(TwoPathsFrom(rec), Int(rec, 12))
    else if k == Symlink then SymlinkWith(TwoPathsFrom(rec), Int(rec, 12))
    else RenameWith(TwoPathsFrom(rec), Int(rec, 12), stack)
  }

  lemma TwoPathsDecode(rec: Bytes, k: Kind, u: Struct, stack: Bytes)
    requires k == Link || k == Symlink || k == Rename
    requires Place(u, Ret, 12, 4) && Place(u, Len1, 16, 2) && Place(u, Len2, 18, 2) && Offset(u, Path1) == 20
    ensures DecodeAs(rec, k, u, stack) == SpelledTwoPaths(rec, k, stack)
  {
    TwoPathsAre(rec, u);
    FieldIs(rec, u, Ret, 12, 4);
  }

  lemma TwoPathRecord(rec: Bytes, k: Kind, stack: Bytes)
    requires k == Link || k == Symlink || k == Rename
    ensures DecodeWhole(rec, k, UserStruct(k), stack) == Sized(rec, 24, SpelledTwoPaths(rec, k, stack))
  {
    TwoPathsPlaces(k);
    TwoPathsDecode(rec, k, UserStruct(k), stack);
    WholeIs(rec, k, UserStruct(k), stack, SpelledTwoPaths(rec, k, stack), 24);
  }

  lemma DecodesBy(rec: Bytes, k: Kind, stack: Bytes)
    requires |rec| >= 7 && rec[6] != 9 && KindOfCode(rec[6]) == Some(k)
    ensures DecodeOp(rec, stack) == DecodeWhole(rec, k, UserStruct(k), stack)
  {
  }

  /** Every sequence of bytes, a record of the assemblers or not, decodes as spelled out: the type at 6
      chooses, the default of the switch included, and each field is where the structure has it. */
  lemma DecodedIsSpelled(rec: Bytes, stack: Bytes)
    ensures DecodeOp(rec, stack) == SpelledOp(rec, stack)
  {
    if |rec| >= 7 {
      var op := SpelledBody(rec, stack);
      match rec[6]
      case 3 => DecodesBy(rec, Link, stack); TwoPathRecord(rec, Link, stack);
      case 4 => DecodesBy(rec, Unlink, stack); RemoveRecord(rec, Unlink, stack, op);
      case 5 => DecodesBy(rec, Symlink, stack); TwoPathRecord(rec, Symlink, stack);
      case 6 => DecodesBy(rec, Mkdir, stack); MkdirRecord(rec, stack, op);
      case 7 => DecodesBy(rec, Rmdir, stack); RemoveRecord(rec, Rmdir, stack, op);
      case 10 => DecodesBy(rec, Rename, stack); TwoPathRecord(rec, Rename, stack);
      case 20 => DecodesBy(rec, Read, stack); ReadRecord(rec, stack, op);
      case 21 => DecodesBy(rec, Write, stack); WriteRecord(rec, stack, op);
      case 23 => DecodesBy(rec, Open, stack); OpenRecord(rec, stack, op);
      case 24 => DecodesBy(rec, Close, stack); CloseRecord(rec, stack, op);
      case _ => OthersDecode(rec, stack);
    }
  }

  lemma OthersDecode(rec: Bytes, stack: Bytes)
    requires |rec| >= 7 && !Dispatched(rec[6])
    ensures DecodeOp(rec, stack) == SpelledOp(rec, stack)
  {
    OtherCodes(rec[6]);
    OthersDoNothing(rec, stack);
  }

  lemma OtherCodes(code: byte)
    requires !Dispatched(code)
    ensures KindOfCode(code) == None
  {
  }

  /** The types that the reader's switch has a replay function for that makes a call. */
  predicate Dispatched(code: byte) {
    code in [3, 4, 5, 6, 7, 10, 20, 21, 23, 24]
  }

  /** A record of any other type, truncate and setxattr among them, leaves the run as it was: no call,
      the same list, nothing printed, in every mode. */
  lemma OthersAreSkipped(rec: Bytes, stack: Bytes, mode: R.Mode, os: R.Os, st: R.State)
    requires |rec| >= 7 && !Dispatched(rec[6])
    ensures R.CallFor(st.entries, DecodeOp(rec, stack)) == []
    ensures R.RunOp(mode, os, st, DecodeOp(rec, stack)) == st
  {
    DecodedIsSpelled(rec, stack);
    OthersDoNothing(rec, stack);
    NothingDone(DecodeOp(rec, stack), mode, os, st);
  }

  lemma OthersDoNothing(rec: Bytes, stack: Bytes)
    requires |rec| >= 7 && !Dispatched(rec[6])
    ensures SpelledOp(rec, stack) == if rec[6] == 9 then TruncateOp else Skipped
  {
  }

  lemma NothingDone(op: Op, mode: R.Mode, os: R.Os, st: R.State)
    requires op == Skipped || op == TruncateOp
    ensures R.CallFor(st.entries, op) == [] && R.RunOp(mode, os, st, op) == st
  {
    assert st.calls + [] == st.calls && st.output + [] == st.output;
  }
}
