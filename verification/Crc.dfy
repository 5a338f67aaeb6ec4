/** The checksum of trfs_crc.c, as written: the state is a signed int, so `crc >> 8` copies the
    sign bit.  The update of section 8 of RFC 1952 is the same loop on an unsigned state. */
module Crc {
  import opened CrcTable

  datatype Shift = Signed | Unsigned

  const ONES: bv32 := 0xFFFFFFFF

  predicate Negative(c: bv32) { c & 0x80000000 != 0 }

  /** The copies of the sign bit that a shift by eight brings in. */
  function SignFill(sh: Shift, c: bv32): bv32 {
    if sh.Signed? && Negative(c) then 0xFF000000 else 0
  }

  /** `crc >> 8`. */
  function Shr8(sh: Shift, c: bv32): bv32 {
    (c >> 8) ^ SignFill(sh, c)
  }

  /** `(crc ^ *p) & 0xFF`. */
  function Index(c: bv32, b: bv8): bv8 {
    ((c & 0xFF) as bv8) ^ b
  }

  /** One turn of the loop. */
  function ByteStep(sh: Shift, c: bv32, b: bv8): bv32 {
    Crc32Tab(Index(c, b)) ^ Shr8(sh, c)
  }

  /** The loop, from state `c`. */
  function Loop(sh: Shift, c: bv32, p: seq<bv8>): bv32
    decreases |p|
  {
    if p == [] then c else Loop(sh, ByteStep(sh, c, p[0]), p[1..])
  }

  function Checksum(sh: Shift, crc: bv32, p: seq<bv8>): bv32 {
    Loop(sh, crc ^ ONES, p) ^ ONES
  }

  method ChecksumCompute(crc0: bv32, buf: array<bv8>, size: nat) returns (crc: bv32)
    requires size <= buf.Length
    ensures crc == Checksum(Signed, crc0, buf[..size])
  {
    crc := crc0 ^ ONES;
    var p := 0;
    while p < size
      invariant p <= size
      invariant Loop(Signed, crc, buf[p..size]) == Loop(Signed, crc0 ^ ONES, buf[..size])
    {
      assert buf[p..size][1..] == buf[p + 1..size];
      crc := ByteStep(Signed, crc, buf[p]);
      p := p + 1;
    }
    crc := crc ^ ONES;
  }

  // ----- chaining -----

  lemma {:induction false} LoopConcat(sh: Shift, c: bv32, p: seq<bv8>, q: seq<bv8>)
    ensures Loop(sh, c, p + q) == Loop(sh, Loop(sh, c, p), q)
    decreases |p|
  {
    if p == [] {
      assert p + q == q;
    } else {
      assert (p + q)[1..] == p[1..] + q;
      LoopConcat(sh, ByteStep(sh, c, p[0]), p[1..], q);
    }
  }

  lemma OnesTwice(c: bv32)
    ensures (c ^ ONES) ^ ONES == c
  {
  }

  /** Checksumming in pieces, each seeded with the last result, is checksumming the whole. */
  lemma ChecksumChains(sh: Shift, crc: bv32, p: seq<bv8>, q: seq<bv8>)
    ensures Checksum(sh, Checksum(sh, crc, p), q) == Checksum(sh, crc, p + q)
  {
    var c := crc ^ ONES;
    var s := Loop(sh, c, p);
    OnesTwice(s);
    assert Checksum(sh, crc, p) ^ ONES == s;
    LoopConcat(sh, c, p, q);
  }

  // ----- linearity over XOR -----

  /** `z` is the XOR of `x` and `y`.  Kept as a relation so that each step is reasoned about once. */
  predicate IsXor(z: bv32, x: bv32, y: bv32) { z == x ^ y }

  predicate IsXor8(z: bv8, x: bv8, y: bv8) { z == x ^ y }

  ghost predicate IsXorSeq(w: seq<bv8>, u: seq<bv8>, v: seq<bv8>) {
    |w| == |u| == |v| && forall i :: 0 <= i < |w| ==> IsXor8(w[i], u[i], v[i])
  }

  lemma ShiftXor(x: bv32, y: bv32)
    ensures (x ^ y) >> 1 == (x >> 1) ^ (y >> 1)
    ensures (x ^ y) & 1 == (x & 1) ^ (y & 1)
    ensures x & 1 == 0 || x & 1 == 1
  {
  }

  lemma XorConst(a: bv32, b: bv32, p: bv32)
    ensures (a ^ p) ^ (b ^ p) == a ^ b
    ensures (a ^ p) ^ b == (a ^ b) ^ p && a ^ (b ^ p) == (a ^ b) ^ p
  {
  }

  lemma BitStepXor(z: bv32, x: bv32, y: bv32)
    requires IsXor(z, x, y)
    ensures IsXor(BitStep(z), BitStep(x), BitStep(y))
  {
    ShiftXor(x, y);
    ShiftXor(y, x);
    XorConst(x >> 1, y >> 1, POLY);
  }

  lemma BitSteps8Xor(z: bv32, x: bv32, y: bv32)
    requires IsXor(z, x, y)
    ensures IsXor(BitSteps8(z), BitSteps8(x), BitSteps8(y))
  {
    var z1, x1, y1 := BitStep(z), BitStep(x), BitStep(y);
    var z2, x2, y2 := BitStep(z1), BitStep(x1), BitStep(y1);
    var z3, x3, y3 := BitStep(z2), BitStep(x2), BitStep(y2);
    var z4, x4, y4 := BitStep(z3), BitStep(x3), BitStep(y3);
    var z5, x5, y5 := BitStep(z4), BitStep(x4), BitStep(y4);
    var z6, x6, y6 := BitStep(z5), BitStep(x5), BitStep(y5);
    BitStepXor(z, x, y);
    BitStepXor(z1, x1, y1);
    BitStepXor(z2, x2, y2);
    BitStepXor(z3, x3, y3);
    BitStepXor(z4, x4, y4);
    BitStepXor(z5, x5, y5);
    BitStepXor(z6, x6, y6);
    BitStepXor(BitStep(z6), BitStep(x6), BitStep(y6));
  }

  lemma TableXor(z: bv8, x: bv8, y: bv8)
    requires IsXor8(z, x, y)
    ensures IsXor(Crc32Tab(z), Crc32Tab(x), Crc32Tab(y))
  {
    BitSteps8Xor(z as bv32, x as bv32, y as bv32);
    EntryIsRemainder(z);
    EntryIsRemainder(x);
    EntryIsRemainder(y);
  }

  lemma IndexXor(z: bv32, x: bv32, y: bv32, w: bv8, u: bv8, v: bv8)
    requires IsXor(z, x, y) && IsXor8(w, u, v)
    ensures IsXor8(Index(z, w), Index(x, u), Index(y, v))
  {
  }

  lemma ShiftedXor(z: bv32, x: bv32, y: bv32)
    requires IsXor(z, x, y)
    ensures IsXor(z >> 8, x >> 8, y >> 8)
  {
  }

  lemma XorXor(z: bv32, x: bv32, y: bv32, z': bv32, x': bv32, y': bv32)
    requires IsXor(z, x, y) && IsXor(z', x', y')
    ensures IsXor(z ^ z', x ^ x', y ^ y')
  {
  }

  lemma Combine(rz: bv32, tz: bv32, sz: bv32, rx: bv32, tx: bv32, sx: bv32, ry: bv32, ty: bv32, sy: bv32)
    requires IsXor(rz, tz, sz) && IsXor(rx, tx, sx) && IsXor(ry, ty, sy)
    requires IsXor(tz, tx, ty) && IsXor(sz, sx, sy)
    ensures IsXor(rz, rx, ry)
  {
    XorXor(tz, tx, ty, sz, sx, sy);
  }

  lemma Parts(sh: Shift, c: bv32, b: bv8)
    ensures IsXor(Shr8(sh, c), c >> 8, SignFill(sh, c))
    ensures IsXor(ByteStep(sh, c, b), Crc32Tab(Index(c, b)), Shr8(sh, c))
  {
  }

  lemma SignFillXor(sh: Shift, z: bv32, x: bv32, y: bv32)
    requires IsXor(z, x, y)
    ensures IsXor(SignFill(sh, z), SignFill(sh, x), SignFill(sh, y))
  {
    NegativeXor(z, x, y);
    FillXor(sh, z, x, y);
  }

  lemma FillXor(sh: Shift, z: bv32, x: bv32, y: bv32)
    requires Negative(z) == (Negative(x) != Negative(y))
    ensures IsXor(SignFill(sh, z), SignFill(sh, x), SignFill(sh, y))
  {
  }

  lemma NegativeXor(z: bv32, x: bv32, y: bv32)
    requires IsXor(z, x, y)
    ensures Negative(z) == (Negative(x) != Negative(y))
  {
  }

  lemma Shr8Xor(sh: Shift, z: bv32, x: bv32, y: bv32)
    requires IsXor(z, x, y)
    ensures IsXor(Shr8(sh, z), Shr8(sh, x), Shr8(sh, y))
  {
    ShiftedXor(z, x, y);
    SignFillXor(sh, z, x, y);
    Parts(sh, z, 0);
    Parts(sh, x, 0);
    Parts(sh, y, 0);
    Combine(Shr8(sh, z), z >> 8, SignFill(sh, z),
            Shr8(sh, x), x >> 8, SignFill(sh, x),
            Shr8(sh, y), y >> 8, SignFill(sh, y));
  }

  lemma ByteStepXor(sh: Shift, z: bv32, x: bv32, y: bv32, w: bv8, u: bv8, v: bv8)
    requires IsXor(z, x, y) && IsXor8(w, u, v)
    ensures IsXor(ByteStep(sh, z, w), ByteStep(sh, x, u), ByteStep(sh, y, v))
  {
    IndexXor(z, x, y, w, u, v);
    TableXor(Index(z, w), Index(x, u), Index(y, v));
    Shr8Xor(sh, z, x, y);
    Parts(sh, z, w);
    Parts(sh, x, u);
    Parts(sh, y, v);
    Combine(ByteStep(sh, z, w), Crc32Tab(Index(z, w)), Shr8(sh, z),
            ByteStep(sh, x, u), Crc32Tab(Index(x, u)), Shr8(sh, x),
            ByteStep(sh, y, v), Crc32Tab(Index(y, v)), Shr8(sh, y));
  }

  /** The loop without its complements is linear over XOR in state and message together. */
  lemma {:induction false} LoopXor(sh: Shift, z: bv32, x: bv32, y: bv32, w: seq<bv8>, u: seq<bv8>, v: seq<bv8>)
    requires IsXor(z, x, y) && IsXorSeq(w, u, v)
    ensures IsXor(Loop(sh, z, w), Loop(sh, x, u), Loop(sh, y, v))
    decreases |w|
  {
    if w != [] {
      ByteStepXor(sh, z, x, y, w[0], u[0], v[0]);
      LoopXor(sh, ByteStep(sh, z, w[0]), ByteStep(sh, x, u[0]), ByteStep(sh, y, v[0]), w[1..], u[1..], v[1..]);
    }
  }

  // ----- the table-driven turn and the bit-serial one -----

  lemma EntryForm(sh: Shift, c: bv32, b: bv8)
    ensures IsXor(ByteStep(sh, c, b), BitSteps8(Index(c, b) as bv32), Shr8(sh, c))
  {
    Parts(sh, c, b);
    EntryIsRemainder(Index(c, b));
  }

  lemma EightShifts(x: bv32)
    ensures BitSteps8(x & 0xFFFFFF00) == x >> 8
    ensures IsXor(x, x & 0xFF, x & 0xFFFFFF00)
  {
  }

  lemma LowByte(c: bv32, b: bv8)
    ensures (c ^ (b as bv32)) & 0xFF == Index(c, b) as bv32 && (c ^ (b as bv32)) >> 8 == c >> 8
  {
  }

  lemma Regroup(r: bv32, t: bv32, s: bv32, h: bv32, f: bv32, p: bv32)
    requires IsXor(r, t, s) && IsXor(s, h, f) && IsXor(p, t, h)
    ensures IsXor(r, p, f)
  {
  }

  /** The table-driven turn is eight shift-and-xor steps with the polynomial, from the state with
      the byte added in; the signed form also inverts the top byte when the state was negative. */
  lemma ByteStepIsBitSerial(sh: Shift, c: bv32, b: bv8)
    ensures IsXor(ByteStep(sh, c, b), BitSteps8(c ^ (b as bv32)), SignFill(sh, c))
  {
    EntryForm(sh, c, b);
    LowByte(c, b);
    Parts(sh, c, b);
    SerialStep(ByteStep(sh, c, b), Index(c, b) as bv32, Shr8(sh, c), c >> 8, SignFill(sh, c), c ^ (b as bv32));
  }

  lemma SerialStep(r: bv32, low: bv32, s: bv32, high: bv32, f: bv32, x: bv32)
    requires IsXor(r, BitSteps8(low), s) && IsXor(s, high, f) && x & 0xFF == low && x >> 8 == high
    ensures IsXor(r, BitSteps8(x), f)
  {
    SerialForm(x, low, high);
    Regroup(r, BitSteps8(low), s, high, f, BitSteps8(x));
  }

  lemma SerialForm(x: bv32, low: bv32, high: bv32)
    requires x & 0xFF == low && x >> 8 == high
    ensures IsXor(BitSteps8(x), BitSteps8(low), high)
  {
    EightShifts(x);
    BitSteps8Xor(x, x & 0xFF, x & 0xFFFFFF00);
  }

  // ----- bursts -----

  ghost predicate AllZero(d: seq<bv8>) {
    forall i :: 0 <= i < |d| ==> d[i] == 0
  }

  lemma BackBits(r: bv32, c: bv32, i: bv8)
    requires IsXor(r, BitSteps8(i as bv32), Shr8(Signed, c)) && r & 0xFF800000 == 0
    ensures i == 0 && !Negative(c)
  {
  }

  lemma PlainShift(r: bv32, c: bv32, b: bv8)
    requires IsXor(r, BitSteps8(0), Shr8(Signed, c)) && !Negative(c) && Index(c, b) == 0
    ensures r == c >> 8 && (c & 0xFF) as bv8 == b
  {
  }

  /** A state whose nine top bits are clear has one predecessor, the one that was shifted into it:
      the entries' top bytes are all different, and the one that is 0xFF has the next bit clear. */
  lemma BackStep(c: bv32, b: bv8)
    requires ByteStep(Signed, c, b) & 0xFF800000 == 0
    ensures ByteStep(Signed, c, b) == c >> 8 && (c & 0xFF) as bv8 == b
  {
    EntryForm(Signed, c, b);
    BackBits(ByteStep(Signed, c, b), c, Index(c, b));
    PlainShift(ByteStep(Signed, c, b), c, b);
  }

  lemma ZeroStep()
    ensures ByteStep(Signed, 0, 0) == 0
  {
    EntryIsRemainder(0);
  }

  /** No state but zero goes to zero on a zero byte, so the turn is injective on the state. */
  lemma OnlyZeroVanishes(c: bv32)
    requires ByteStep(Signed, c, 0) == 0
    ensures c == 0
  {
    BackStep(c, 0);
  }

  lemma FirstByte(c: bv32, b: bv8)
    requires c == ByteStep(Signed, 0, b) && c & 0xFF000000 == 0
    ensures b == 0 && c == 0
  {
    EntryForm(Signed, 0, b);
    FirstByteBits(c, b);
  }

  lemma FirstByteBits(c: bv32, b: bv8)
    requires IsXor(c, BitSteps8(Index(0, b) as bv32), Shr8(Signed, 0)) && c & 0xFF000000 == 0
    ensures b == 0 && c == 0
  {
  }

  function LittleEndian(d: seq<bv8>): bv32
  {
    if d == [] then 0 else (LittleEndian(d[1..]) << 8) | (d[0] as bv32)
  }

  lemma Reassemble(c: bv32, v: bv32, b: bv8)
    requires c >> 8 == v && (c & 0xFF) as bv8 == b
    ensures c == (v << 8) | (b as bv32)
  {
  }

  lemma ByteOnTop(v: bv32, b: bv8)
    ensures v & 0xFFFF0000 == 0 ==> ((v << 8) | (b as bv32)) & 0xFF000000 == 0
    ensures v & 0xFFFFFF00 == 0 ==> ((v << 8) | (b as bv32)) & 0xFFFF0000 == 0
    ensures v == 0 ==> ((v << 8) | (b as bv32)) & 0xFFFFFF00 == 0
    ensures v & 0xFF000000 == 0 && (v << 8) | (b as bv32) == 0 ==> v == 0 && b == 0
  {
  }

  lemma {:induction false} ShortValue(d: seq<bv8>)
    requires |d| <= 3
    ensures LittleEndian(d) & 0xFF000000 == 0
    ensures |d| <= 2 ==> LittleEndian(d) & 0xFFFF0000 == 0
    ensures |d| <= 1 ==> LittleEndian(d) & 0xFFFFFF00 == 0
    ensures LittleEndian(d) == 0 ==> AllZero(d)
    decreases |d|
  {
    if d != [] {
      ShortValue(d[1..]);
      ByteOnTop(LittleEndian(d[1..]), d[0]);
      if LittleEndian(d) == 0 {
        assert forall i :: 0 < i < |d| ==> d[i] == d[1..][i - 1];
      }
    }
  }

  lemma ClearTop(v: bv32)
    ensures v & 0xFFFF0000 == 0 ==> v & 0xFF800000 == 0
  {
  }

  /** At most three bytes take a state to zero only if the state was their little-endian value. */
  lemma {:induction false} TailDetermines(c: bv32, d: seq<bv8>)
    requires |d| <= 3 && Loop(Signed, c, d) == 0
    ensures c == LittleEndian(d)
    decreases |d|
  {
    if d != [] {
      TailDetermines(ByteStep(Signed, c, d[0]), d[1..]);
      ShortValue(d[1..]);
      ClearTop(LittleEndian(d[1..]));
      BackStep(c, d[0]);
      Reassemble(c, LittleEndian(d[1..]), d[0]);
    }
  }

  /** At most four bytes take the zero state to zero only if they are all zero. */
  lemma FourVanish(d: seq<bv8>)
    requires |d| <= 4 && Loop(Signed, 0, d) == 0
    ensures AllZero(d)
  {
    if d != [] {
      TailDetermines(ByteStep(Signed, 0, d[0]), d[1..]);
      ShortValue(d[1..]);
      FirstByte(ByteStep(Signed, 0, d[0]), d[0]);
      assert forall i :: 0 < i < |d| ==> d[i] == d[1..][i - 1];
    }
  }

  lemma LoopLast(sh: Shift, c: bv32, p: seq<bv8>)
    requires p != []
    ensures Loop(sh, c, p) == ByteStep(sh, Loop(sh, c, p[..|p| - 1]), p[|p| - 1])
  {
    var last := [p[|p| - 1]];
    assert p == p[..|p| - 1] + last;
    LoopConcat(sh, c, p[..|p| - 1], last);
    var s := Loop(sh, c, p[..|p| - 1]);
    assert last[1..] == [];
    assert Loop(sh, s, last) == Loop(sh, ByteStep(sh, s, last[0]), []);
  }

  /** A message that is zero after its fourth byte and takes the zero state to zero is all zero. */
  lemma {:induction false} LoopVanishes(d: seq<bv8>)
    requires Loop(Signed, 0, d) == 0
    requires forall i :: 4 <= i < |d| ==> d[i] == 0
    ensures AllZero(d)
    decreases |d|
  {
    if |d| > 4 {
      LoopLast(Signed, 0, d);
      OnlyZeroVanishes(Loop(Signed, 0, d[..|d| - 1]));
      LoopVanishes(d[..|d| - 1]);
    } else {
      FourVanish(d);
    }
  }

  function XorSeq(u: seq<bv8>, v: seq<bv8>): (w: seq<bv8>)
    requires |u| == |v|
    ensures IsXorSeq(w, u, v)
  {
    seq(|u|, i requires 0 <= i < |u| => u[i] ^ v[i])
  }

  lemma ZeroXor(y: bv32)
    ensures IsXor(y, 0, y) && IsXor(0, y, y)
  {
  }

  lemma ChecksumIsLoop(sh: Shift, crc: bv32, c: bv32, p: seq<bv8>)
    requires c == crc ^ ONES
    ensures IsXor(Checksum(sh, crc, p), Loop(sh, c, p), ONES)
  {
  }

  lemma Undo(z: bv32, x: bv32, y: bv32)
    requires IsXor(z, x, y)
    ensures IsXor(x, z, y) && IsXor(y, z, x)
  {
  }

  lemma XorInjective(u: bv32, x: bv32, v: bv32, y: bv32, k: bv32)
    requires IsXor(u, x, k) && IsXor(v, y, k)
    ensures u == v <==> x == y
  {
    if x == y {
      OneXor(u, v, x, k);
    }
    if u == v {
      Undo(u, x, k);
      Undo(v, y, k);
      OneXor(x, y, u, k);
    }
  }

  lemma OneXor(z: bv32, z': bv32, x: bv32, y: bv32)
    requires IsXor(z, x, y) && IsXor(z', x, y)
    ensures z == z'
  {
  }

  lemma LoopsDiffer(c: bv32, a: seq<bv8>, b: seq<bv8>)
    requires |a| == |b|
    ensures IsXor(Loop(Signed, 0, XorSeq(a, b)), Loop(Signed, c, a), Loop(Signed, c, b))
  {
    ZeroXor(c);
    LoopXor(Signed, 0, c, c, XorSeq(a, b), a, b);
  }

  lemma XorZero(z: bv32, x: bv32, y: bv32)
    requires IsXor(z, x, y)
    ensures z == 0 <==> x == y
  {
    ZeroXor(y);
    if x == y {
      OneXor(z, 0, x, y);
    }
    if z == 0 {
      Undo(z, x, y);
      OneXor(x, y, 0, y);
    }
  }

  lemma LoopsAgreeIff(c: bv32, a: seq<bv8>, b: seq<bv8>)
    requires |a| == |b|
    ensures Loop(Signed, c, a) == Loop(Signed, c, b) <==> Loop(Signed, 0, XorSeq(a, b)) == 0
  {
    LoopsDiffer(c, a, b);
    XorZero(Loop(Signed, 0, XorSeq(a, b)), Loop(Signed, c, a), Loop(Signed, c, b));
  }

  /** Checksums of two messages agree just when the difference of the messages takes zero to zero. */
  lemma SameChecksumIff(crc: bv32, a: seq<bv8>, b: seq<bv8>)
    requires |a| == |b|
    ensures Checksum(Signed, crc, a) == Checksum(Signed, crc, b) <==> Loop(Signed, 0, XorSeq(a, b)) == 0
  {
    ChecksumsAreLoops(crc, crc ^ ONES, a, b);
    LoopsAgreeIff(crc ^ ONES, a, b);
  }

  lemma ChecksumsAreLoops(crc: bv32, c: bv32, a: seq<bv8>, b: seq<bv8>)
    requires c == crc ^ ONES
    ensures Checksum(Signed, crc, a) == Checksum(Signed, crc, b) <==> Loop(Signed, c, a) == Loop(Signed, c, b)
  {
    if Checksum(Signed, crc, a) == Checksum(Signed, crc, b) {
      ChecksumsGiveLoops(crc, c, a, b);
    }
  }

  lemma ChecksumsGiveLoops(crc: bv32, c: bv32, a: seq<bv8>, b: seq<bv8>)
    requires c == crc ^ ONES && Checksum(Signed, crc, a) == Checksum(Signed, crc, b)
    ensures Loop(Signed, c, a) == Loop(Signed, c, b)
  {
    OnesTwice(Loop(Signed, c, a));
    OnesTwice(Loop(Signed, c, b));
  }

  ghost predicate DifferOnlyIn(a: seq<bv8>, b: seq<bv8>, from: nat, to: nat) {
    |a| == |b| && forall i :: 0 <= i < |a| && !(from <= i < to) ==> a[i] == b[i]
  }

  lemma {:induction false} ZerosKeepZero(d: seq<bv8>, e: seq<bv8>)
    requires AllZero(d)
    ensures Loop(Signed, 0, d + e) == Loop(Signed, 0, e)
    decreases |d|
  {
    if d == [] {
      assert d + e == e;
    } else {
      ZeroStep();
      assert (d + e)[1..] == d[1..] + e;
      ZerosKeepZero(d[1..], e);
    }
  }

  /** Two different messages that differ only inside four consecutive bytes have different
      checksums, from every seed. */
  lemma BurstDetected(crc: bv32, a: seq<bv8>, b: seq<bv8>, k: nat)
    requires k <= |a| && DifferOnlyIn(a, b, k, k + 4) && a != b
    ensures Checksum(Signed, crc, a) != Checksum(Signed, crc, b)
  {
    if Checksum(Signed, crc, a) == Checksum(Signed, crc, b) {
      SameChecksumIff(crc, a, b);
      DifferenceVanishes(a, b, k);
      assert false;
    }
  }

  lemma DifferenceVanishes(a: seq<bv8>, b: seq<bv8>, k: nat)
    requires k <= |a| && DifferOnlyIn(a, b, k, k + 4) && Loop(Signed, 0, XorSeq(a, b)) == 0
    ensures a == b
  {
    var d := XorSeq(a, b);
    assert d == d[..k] + d[k..];
    ZerosKeepZero(d[..k], d[k..]);
    LoopVanishes(d[k..]);
    forall i | 0 <= i < |a|
      ensures a[i] == b[i]
    {
      assert d[i] == if i < k then 0 else d[k..][i - k];
    }
  }

  const FIVE: seq<bv8> := [0x41, 0x06, 0x71, 0xDB, 0x01]

  lemma TwoTurns()
    ensures ByteStep(Signed, 0, 0x41) == 0x01DB7106
    ensures ByteStep(Signed, 0x01DB7106, 0x06) == 0x0001DB71
  {
  }

  lemma ThreeTurns()
    ensures ByteStep(Signed, 0x0001DB71, 0x71) == 0x000001DB
    ensures ByteStep(Signed, 0x000001DB, 0xDB) == 0x00000001
    ensures ByteStep(Signed, 0x00000001, 0x01) == 0
  {
  }

  lemma FiveVanish()
    ensures Loop(Signed, 0, FIVE) == 0
  {
    TwoTurns();
    ThreeTurns();
    assert FIVE[1..] == [0x06, 0x71, 0xDB, 0x01];
    assert FIVE[1..][1..] == [0x71, 0xDB, 0x01];
    assert FIVE[1..][1..][1..] == [0xDB, 0x01];
    assert FIVE[1..][1..][1..][1..] == [0x01];
    assert FIVE[1..][1..][1..][1..][1..] == [];
    assert Loop(Signed, 0x01DB7106, FIVE[1..]) == Loop(Signed, 0x0001DB71, FIVE[1..][1..]);
    assert Loop(Signed, 0x0001DB71, FIVE[1..][1..]) == Loop(Signed, 0x000001DB, FIVE[1..][1..][1..]);
    assert Loop(Signed, 0x000001DB, FIVE[1..][1..][1..]) == Loop(Signed, 0x00000001, FIVE[1..][1..][1..][1..]);
  }

  /** The message with five bytes of it, from `k`, changed so that the difference vanishes. */
  function Disguise(a: seq<bv8>, k: nat): (b: seq<bv8>)
    requires k + 5 <= |a|
    ensures |b| == |a|
  {
    seq(|a|, i requires 0 <= i < |a| => if k <= i < k + 5 then a[i] ^ FIVE[i - k] else a[i])
  }

  lemma DisguiseDiffers(a: seq<bv8>, k: nat)
    requires k + 5 <= |a|
    ensures Disguise(a, k) != a && DifferOnlyIn(a, Disguise(a, k), k, k + 5)
  {
    assert Disguise(a, k)[k] == a[k] ^ 0x41;
  }

  /** Four is the most: in every message, every window of five bytes has a change that keeps the
      checksum, from every seed. */
  lemma BurstOfFiveMissed(crc: bv32, a: seq<bv8>, k: nat)
    requires k + 5 <= |a|
    ensures exists b :: b != a && DifferOnlyIn(a, b, k, k + 5) && Checksum(Signed, crc, b) == Checksum(Signed, crc, a)
  {
    var b := Disguise(a, k);
    DisguiseDiffers(a, k);
    DisguiseVanishes(a, k);
    SameChecksumIff(crc, a, b);
  }

  lemma DisguiseVanishes(a: seq<bv8>, k: nat)
    requires k + 5 <= |a|
    ensures Loop(Signed, 0, XorSeq(a, Disguise(a, k))) == 0
  {
    var d := XorSeq(a, Disguise(a, k));
    DisguiseDifference(a, k);
    var front, rest := d[..k], d[k + 5..];
    ZerosKeepZero(front, FIVE + rest);
    FiveVanish();
    LoopConcat(Signed, 0, FIVE, rest);
    ZerosKeepZero(rest, []);
    assert rest + [] == rest;
  }

  lemma DisguiseDifference(a: seq<bv8>, k: nat)
    requires k + 5 <= |a|
    ensures var d := XorSeq(a, Disguise(a, k));
            && d == d[..k] + (FIVE + d[k + 5..])
            && AllZero(d[..k])
            && AllZero(d[k + 5..])
  {
    var d := XorSeq(a, Disguise(a, k));
    forall i | 0 <= i < |a|
      ensures d[i] == if k <= i < k + 5 then FIVE[i - k] else 0
    {
      if k <= i < k + 5 {
        SelfXor(a[i], FIVE[i - k]);
      }
    }
    assert d[k..k + 5] == FIVE;
    assert d == d[..k] + (d[k..k + 5] + d[k + 5..]);
  }

  lemma SelfXor(x: bv8, f: bv8)
    ensures x ^ (x ^ f) == f
  {
  }

  // ----- agreement with RFC 1952 -----

  lemma SignedStepAgrees(c: bv32, b: bv8)
    ensures ByteStep(Signed, c, b) == ByteStep(Unsigned, c, b) <==> !Negative(c)
  {
    Parts(Signed, c, b);
    Parts(Unsigned, c, b);
    ShiftsAgreeIff(ByteStep(Signed, c, b), ByteStep(Unsigned, c, b), Crc32Tab(Index(c, b)), c);
  }

  lemma ShiftsAgreeIff(s: bv32, u: bv32, t: bv32, c: bv32)
    requires IsXor(s, t, Shr8(Signed, c)) && IsXor(u, t, Shr8(Unsigned, c))
    ensures s == u <==> !Negative(c)
  {
    ShiftsDiffer(c);
    if s == u {
      Undo(s, t, Shr8(Signed, c));
      Undo(u, t, Shr8(Unsigned, c));
      OneXor(Shr8(Signed, c), Shr8(Unsigned, c), s, t);
    } else if !Negative(c) {
      OneXor(s, u, t, Shr8(Signed, c));
    }
  }

  lemma ShiftsDiffer(c: bv32)
    ensures Shr8(Signed, c) == Shr8(Unsigned, c) <==> !Negative(c)
  {
  }

  lemma {:induction false} LoopsAgreeUntil(c: bv32, p: seq<bv8>)
    requires forall n :: 0 <= n < |p| ==> !Negative(Loop(Signed, c, p[..n]))
    ensures Loop(Signed, c, p) == Loop(Unsigned, c, p)
    decreases |p|
  {
    if p != [] {
      var q := p[..|p| - 1];
      forall n | 0 <= n < |q|
        ensures !Negative(Loop(Signed, c, q[..n]))
      {
        assert q[..n] == p[..n];
      }
      LoopsAgreeUntil(c, q);
      LoopLast(Signed, c, p);
      LoopLast(Unsigned, c, p);
      SignedStepAgrees(Loop(Signed, c, q), p[|p| - 1]);
    }
  }

  /** The signed and unsigned checksums agree on every prefix of a message just when no state that
      gets shifted has its top bit set. */
  lemma AgreesWithRfcIff(crc: bv32, p: seq<bv8>)
    ensures (forall n :: 0 <= n <= |p| ==> Checksum(Signed, crc, p[..n]) == Checksum(Unsigned, crc, p[..n]))
       <==> (forall n :: 0 <= n < |p| ==> !Negative(Loop(Signed, crc ^ ONES, p[..n])))
  {
    var c := crc ^ ONES;
    if forall n :: 0 <= n < |p| ==> !Negative(Loop(Signed, c, p[..n])) {
      forall n | 0 <= n <= |p|
        ensures Checksum(Signed, crc, p[..n]) == Checksum(Unsigned, crc, p[..n])
      {
        forall m | 0 <= m < n
          ensures !Negative(Loop(Signed, c, p[..n][..m]))
        {
          assert p[..n][..m] == p[..m];
        }
        LoopsAgreeUntil(c, p[..n]);
      }
    }
    if forall n :: 0 <= n <= |p| ==> Checksum(Signed, crc, p[..n]) == Checksum(Unsigned, crc, p[..n]) {
      forall n | 0 <= n < |p|
        ensures !Negative(Loop(Signed, c, p[..n]))
      {
        SameLoops(crc, c, p[..n]);
        SameLoops(crc, c, p[..n + 1]);
        LoopsPart(c, p, n);
      }
    }
  }

  lemma SameLoops(crc: bv32, c: bv32, p: seq<bv8>)
    requires c == crc ^ ONES && Checksum(Signed, crc, p) == Checksum(Unsigned, crc, p)
    ensures Loop(Signed, c, p) == Loop(Unsigned, c, p)
  {
    ChecksumIsLoop(Signed, crc, c, p);
    ChecksumIsLoop(Unsigned, crc, c, p);
    XorInjective(Checksum(Signed, crc, p), Loop(Signed, c, p), Checksum(Unsigned, crc, p), Loop(Unsigned, c, p), ONES);
  }

  lemma LoopsPart(c: bv32, p: seq<bv8>, n: nat)
    requires n < |p| && Loop(Signed, c, p[..n]) == Loop(Unsigned, c, p[..n])
    requires Loop(Signed, c, p[..n + 1]) == Loop(Unsigned, c, p[..n + 1])
    ensures !Negative(Loop(Signed, c, p[..n]))
  {
    LoopLast(Signed, c, p[..n + 1]);
    LoopLast(Unsigned, c, p[..n + 1]);
    assert p[..n + 1][..n] == p[..n];
    SignedStepAgrees(Loop(Signed, c, p[..n]), p[n]);
  }

  lemma ComplementFlips(crc: bv32)
    ensures Negative(crc ^ ONES) == !Negative(crc)
  {
  }

  /** From a seed with the top bit clear, zero for one, the two part at the first byte. */
  lemma PlainSeedDisagrees(crc: bv32, b: bv8)
    requires !Negative(crc)
    ensures Checksum(Signed, crc, [b]) != Checksum(Unsigned, crc, [b])
  {
    ComplementFlips(crc);
    if Checksum(Signed, crc, [b]) == Checksum(Unsigned, crc, [b]) {
      SameLoops(crc, crc ^ ONES, [b]);
      OneByte(crc ^ ONES, b);
      SignedStepAgrees(crc ^ ONES, b);
      assert false;
    }
  }

  lemma OneByte(c: bv32, b: bv8)
    ensures Loop(Signed, c, [b]) == ByteStep(Signed, c, b) && Loop(Unsigned, c, [b]) == ByteStep(Unsigned, c, b)
  {
    assert [b][1..] == [];
  }

  // ----- known values -----

  /** "123456789" in ASCII. */
  predicate Digits(p: seq<bv8>) { p == [0x31, 0x32, 0x33, 0x34, 0x35, 0x36, 0x37, 0x38, 0x39] }

  lemma UnsignedTurns1()
    ensures ByteStep(Unsigned, 0xFFFFFFFF, 0x31) == 0x7C231048
    ensures ByteStep(Unsigned, 0x7C231048, 0x32) == 0xB0ACBB32
    ensures ByteStep(Unsigned, 0xB0ACBB32, 0x33) == 0x77B79C2D
  {
  }

  lemma UnsignedTurns2()
    ensures ByteStep(Unsigned, 0x77B79C2D, 0x34) == 0x641C1F5C
    ensures ByteStep(Unsigned, 0x641C1F5C, 0x35) == 0x340AC5E3
    ensures ByteStep(Unsigned, 0x340AC5E3, 0x36) == 0xF68D2C9E
  {
  }

  lemma UnsignedTurns3()
    ensures ByteStep(Unsigned, 0xF68D2C9E, 0x37) == 0xAFFC9660
    ensures ByteStep(Unsigned, 0xAFFC9660, 0x38) == 0x651F2550
    ensures ByteStep(Unsigned, 0x651F2550, 0x39) == 0x340BC6D9
  {
  }

  lemma SignedTurns1()
    ensures ByteStep(Signed, 0xFFFFFFFF, 0x31) == 0x83231048
    ensures ByteStep(Signed, 0x83231048, 0x32) == 0x4F53BB32
    ensures ByteStep(Signed, 0x4F53BB32, 0x33) == 0x7748632D
  {
  }

  lemma SignedTurns2()
    ensures ByteStep(Signed, 0x7748632D, 0x34) == 0x641CE0A3
    ensures ByteStep(Signed, 0x641CE0A3, 0x35) == 0x19082A91
    ensures ByteStep(Signed, 0x19082A91, 0x36) == 0x48AB3E61
  {
  }

  lemma SignedTurns3()
    ensures ByteStep(Signed, 0x48AB3E61, 0x37) == 0x82405FFF
    ensures ByteStep(Signed, 0x82405FFF, 0x38) == 0xFA82174C
    ensures ByteStep(Signed, 0xFA82174C, 0x39) == 0xDF9507A4
  {
  }

  lemma ThreeLoops(sh: Shift, c0: bv32, c1: bv32, c2: bv32, c3: bv32, p: seq<bv8>)
    requires |p| >= 3 && ByteStep(sh, c0, p[0]) == c1 && ByteStep(sh, c1, p[1]) == c2 && ByteStep(sh, c2, p[2]) == c3
    ensures Loop(sh, c0, p) == Loop(sh, c3, p[3..])
  {
    assert p[1..][0] == p[1] && p[1..][1..] == p[2..] && p[2..][0] == p[2] && p[2..][1..] == p[3..];
    assert Loop(sh, c1, p[1..]) == Loop(sh, c2, p[2..]);
    assert Loop(sh, c2, p[2..]) == Loop(sh, c3, p[3..]);
  }

  lemma NineLoops(sh: Shift, c0: bv32, c3: bv32, c6: bv32, c9: bv32, p: seq<bv8>)
    requires |p| == 9 && Loop(sh, c0, p) == Loop(sh, c3, p[3..]) && Loop(sh, c3, p[3..]) == Loop(sh, c6, p[3..][3..])
    requires Loop(sh, c6, p[3..][3..]) == Loop(sh, c9, p[3..][3..][3..])
    ensures Loop(sh, c0, p) == c9
  {
  }

  lemma UnsignedDigits1(p: seq<bv8>)
    requires p == [0x31, 0x32, 0x33, 0x34, 0x35, 0x36, 0x37, 0x38, 0x39]
    ensures Loop(Unsigned, 0xFFFFFFFF, p) == Loop(Unsigned, 0x77B79C2D, p[3..])
  {
    UnsignedTurns1();
    ThreeLoops(Unsigned, 0xFFFFFFFF, 0x7C231048, 0xB0ACBB32, 0x77B79C2D, p);
  }

  lemma UnsignedDigits2(p: seq<bv8>)
    requires p == [0x34, 0x35, 0x36, 0x37, 0x38, 0x39]
    ensures Loop(Unsigned, 0x77B79C2D, p) == Loop(Unsigned, 0xF68D2C9E, p[3..])
  {
    UnsignedTurns2();
    ThreeLoops(Unsigned, 0x77B79C2D, 0x641C1F5C, 0x340AC5E3, 0xF68D2C9E, p);
  }

  lemma UnsignedDigits3(p: seq<bv8>)
    requires p == [0x37, 0x38, 0x39]
    ensures Loop(Unsigned, 0xF68D2C9E, p) == Loop(Unsigned, 0x340BC6D9, p[3..])
  {
    UnsignedTurns3();
    ThreeLoops(Unsigned, 0xF68D2C9E, 0xAFFC9660, 0x651F2550, 0x340BC6D9, p);
  }

  lemma UnsignedDigits(p: seq<bv8>)
    requires Digits(p)
    ensures Loop(Unsigned, 0xFFFFFFFF, p) == 0x340BC6D9
  {
    UnsignedDigits1(p);
    UnsignedDigits2(p[3..]);
    UnsignedDigits3(p[3..][3..]);
    NineLoops(Unsigned, 0xFFFFFFFF, 0x77B79C2D, 0xF68D2C9E, 0x340BC6D9, p);
  }

  lemma SignedDigits1(p: seq<bv8>)
    requires p == [0x31, 0x32, 0x33, 0x34, 0x35, 0x36, 0x37, 0x38, 0x39]
    ensures Loop(Signed, 0xFFFFFFFF, p) == Loop(Signed, 0x7748632D, p[3..])
  {
    SignedTurns1();
    ThreeLoops(Signed, 0xFFFFFFFF, 0x83231048, 0x4F53BB32, 0x7748632D, p);
  }

  lemma SignedDigits2(p: seq<bv8>)
    requires p == [0x34, 0x35, 0x36, 0x37, 0x38, 0x39]
    ensures Loop(Signed, 0x7748632D, p) == Loop(Signed, 0x48AB3E61, p[3..])
  {
    SignedTurns2();
    ThreeLoops(Signed, 0x7748632D, 0x641CE0A3, 0x19082A91, 0x48AB3E61, p);
  }

  lemma SignedDigits3(p: seq<bv8>)
    requires p == [0x37, 0x38, 0x39]
    ensures Loop(Signed, 0x48AB3E61, p) == Loop(Signed, 0xDF9507A4, p[3..])
  {
    SignedTurns3();
    ThreeLoops(Signed, 0x48AB3E61, 0x82405FFF, 0xFA82174C, 0xDF9507A4, p);
  }

  lemma SignedDigits(p: seq<bv8>)
    requires Digits(p)
    ensures Loop(Signed, 0xFFFFFFFF, p) == 0xDF9507A4
  {
    SignedDigits1(p);
    SignedDigits2(p[3..]);
    SignedDigits3(p[3..][3..]);
    NineLoops(Signed, 0xFFFFFFFF, 0x7748632D, 0x48AB3E61, 0xDF9507A4, p);
  }

  lemma Complements()
    ensures 0 as bv32 ^ ONES == 0xFFFFFFFF
    ensures 0x340BC6D9 as bv32 ^ ONES == 0xCBF43926 && 0xDF9507A4 as bv32 ^ ONES == 0x206AF85B
  {
  }

  /** The check value of the CRC-32 of RFC 1952, and what the code as written makes of the same bytes. */
  lemma CheckValues(p: seq<bv8>)
    requires Digits(p)
    ensures Checksum(Unsigned, 0, p) == 0xCBF43926 && Checksum(Signed, 0, p) == 0x206AF85B
  {
    UnsignedDigits(p);
    SignedDigits(p);
    Complements();
  }
}
