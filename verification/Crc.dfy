/** The six CRC variants as shift registers fed one byte at a time, bit by bit, and the
    algebra of that form: it is linear over XOR. */
module Crc {
  datatype Variant = Arc | Binhex | Ccitt | Kermit | Ccitt32 | Zip {

    /** Reflected registers shift towards bit 0, the others towards the top bit. */
    predicate Reflected() {
      Arc? || Kermit? || Zip?
    }

    /** The register's bytes. */
    function Width(): nat {
      if Zip? || Ccitt32? then 4 else 2
    }

    function Mask(): bv32 {
      if Zip? || Ccitt32? then 0xffff_ffff else 0xffff
    }

    function Top(): bv32 {
      if Zip? || Ccitt32? then 0x8000_0000 else 0x8000
    }

    function Poly(): bv32 {
      match this
      case Arc => 0xa001
      case Kermit => 0x8408
      case Zip => 0xedb8_8320
      case Binhex => 0x1021
      case Ccitt => 0x1021
      case Ccitt32 => 0x04c1_1db7
    }
  }

  /** Named so that equal arguments are seen to give equal results. */
  function Xor(x: bv32, y: bv32): bv32 {
    x ^ y
  }

  function XorByte(a: bv8, b: bv8): bv8 {
    a ^ b
  }

  function Keep(x: bv32, mask: bv32): bv32 {
    x & mask
  }

  /** Whether the next clock shifts a 1 out. */
  predicate Out(v: Variant, x: bv32) {
    Keep(x, if v.Reflected() then 1 else v.Top()) != 0
  }

  function ShiftRight(x: bv32, mask: bv32): bv32 {
    (x >> 1) & mask
  }

  function ShiftLeft(x: bv32, mask: bv32): bv32 {
    (x << 1) & mask
  }

  function Shift(v: Variant, x: bv32): bv32 {
    if v.Reflected() then ShiftRight(x, v.Mask()) else ShiftLeft(x, v.Mask())
  }

  function XorIf(out: bool, x: bv32, p: bv32): bv32 {
    if out then Xor(x, p) else x
  }

  /** One clock: shift, and XOR the polynomial in when a 1 falls out. */
  function Step(v: Variant, x: bv32): bv32 {
    XorIf(Out(v, x), Shift(v, x), v.Poly())
  }

  function Step8(v: Variant, x: bv32): bv32 {
    Step(v, Step(v, Step(v, Step(v, Step(v, Step(v, Step(v, Step(v, x))))))))
  }

  /** Where a message byte meets the register. */
  function Align(v: Variant, b: bv8): bv32 {
    if v.Reflected() then b as bv32 else if v.Width() == 2 then (b as bv32) << 8 else (b as bv32) << 24
  }

  function ByteStep(v: Variant, x: bv32, b: bv8): bv32 {
    Step8(v, Xor(x, Align(v, b)))
  }

  /** The bit-at-a-time CRC of a message from register x. */
  function Register(v: Variant, x: bv32, m: seq<bv8>): bv32 {
    if m == [] then x else ByteStep(v, Register(v, x, m[..|m| - 1]), m[|m| - 1])
  }

  // ---------- linearity ----------

  lemma ShiftRightXor(x: bv32, y: bv32, m: bv32)
    ensures ((x ^ y) >> 1) & m == ((x >> 1) & m) ^ ((y >> 1) & m)
  {
  }

  lemma ShiftRightLinear(x: bv32, y: bv32, m: bv32)
    ensures ShiftRight(Xor(x, y), m) == Xor(ShiftRight(x, m), ShiftRight(y, m))
  {
    ShiftRightXor(x, y, m);
    assert Xor(x, y) == x ^ y;
    assert ShiftRight(x ^ y, m) == ((x ^ y) >> 1) & m;
    assert Xor((x >> 1) & m, (y >> 1) & m) == ((x >> 1) & m) ^ ((y >> 1) & m);
  }

  lemma ShiftLeftXor(x: bv32, y: bv32, m: bv32)
    ensures ((x ^ y) << 1) & m == ((x << 1) & m) ^ ((y << 1) & m)
  {
  }

  lemma ShiftLeftLinear(x: bv32, y: bv32, m: bv32)
    ensures ShiftLeft(Xor(x, y), m) == Xor(ShiftLeft(x, m), ShiftLeft(y, m))
  {
    ShiftLeftXor(x, y, m);
    assert Xor(x, y) == x ^ y;
    assert ShiftLeft(x ^ y, m) == ((x ^ y) << 1) & m;
    assert Xor((x << 1) & m, (y << 1) & m) == ((x << 1) & m) ^ ((y << 1) & m);
  }

  lemma AndXor(x: bv32, y: bv32, m: bv32)
    ensures (x ^ y) & m == (x & m) ^ (y & m)
  {
  }

  lemma KeepLinear(x: bv32, y: bv32, m: bv32)
    ensures Keep(Xor(x, y), m) == Xor(Keep(x, m), Keep(y, m))
  {
    AndXor(x, y, m);
    assert Xor(x, y) == x ^ y;
    assert Keep(x ^ y, m) == (x ^ y) & m;
    assert Xor(x & m, y & m) == (x & m) ^ (y & m);
  }

  lemma ShiftLinear(v: Variant, x: bv32, y: bv32)
    ensures Shift(v, Xor(x, y)) == Xor(Shift(v, x), Shift(v, y))
  {
    ShiftRightLinear(x, y, v.Mask());
    ShiftLeftLinear(x, y, v.Mask());
  }

  lemma OutLinearBit(x: bv32, y: bv32, bit: bv32)
    requires bit in {1, 0x8000, 0x8000_0000}
    ensures Keep(Xor(x, y), bit) != 0 <==> (Keep(x, bit) != 0) != (Keep(y, bit) != 0)
  {
    KeepLinear(x, y, bit);
    KeepsBit(x, bit);
    KeepsBit(y, bit);
    XorUnit(bit);
    XorUnit(0);
    XorCommutes(0, bit);
  }

  lemma KeepsBit(x: bv32, bit: bv32)
    requires bit in {1, 0x8000, 0x8000_0000}
    ensures Keep(x, bit) == 0 || Keep(x, bit) == bit
  {
  }

  lemma OutLinear(v: Variant, x: bv32, y: bv32)
    ensures Out(v, Xor(x, y)) <==> Out(v, x) != Out(v, y)
  {
    OutLinearBit(x, y, if v.Reflected() then 1 else v.Top());
  }

  lemma XorAssociates(a: bv32, b: bv32, c: bv32)
    ensures Xor(a, Xor(b, c)) == Xor(Xor(a, b), c)
  {
  }

  lemma XorCommutes(a: bv32, b: bv32)
    ensures Xor(a, b) == Xor(b, a)
  {
  }

  lemma XorUnit(a: bv32)
    ensures Xor(a, 0) == a && Xor(a, a) == 0
  {
  }

  /** A term moves out of the second operand, or out of the first, or cancels from both. */
  lemma XorMoves(a: bv32, b: bv32, p: bv32)
    ensures Xor(a, Xor(b, p)) == Xor(Xor(a, b), p)
    ensures Xor(Xor(a, p), b) == Xor(Xor(a, b), p)
    ensures Xor(Xor(a, p), Xor(b, p)) == Xor(a, b)
  {
    XorAssociates(a, b, p);
    XorAssociates(b, a, p);
    XorCommutes(a, b);
    XorCommutes(Xor(a, p), b);
    XorAssociates(Xor(a, p), b, p);
    XorAssociates(Xor(a, b), p, p);
    XorUnit(p);
    XorUnit(Xor(a, b));
  }

  lemma XorIfTrue(x: bv32, p: bv32)
    ensures XorIf(true, x, p) == Xor(x, p)
  {
  }

  lemma XorIfFalse(x: bv32, p: bv32)
    ensures XorIf(false, x, p) == x
  {
  }

  lemma XorIfLinear(o: bool, r: bool, a: bv32, b: bv32, p: bv32)
    ensures XorIf(o != r, Xor(a, b), p) == Xor(XorIf(o, a, p), XorIf(r, b, p))
  {
    XorMoves(a, b, p);
    match (o, r)
    case (true, true) => XorIfFalse(Xor(a, b), p); XorIfTrue(a, p); XorIfTrue(b, p);
    case (true, false) => XorIfTrue(Xor(a, b), p); XorIfTrue(a, p); XorIfFalse(b, p);
    case (false, true) => XorIfTrue(Xor(a, b), p); XorIfFalse(a, p); XorIfTrue(b, p);
    case (false, false) => XorIfFalse(Xor(a, b), p); XorIfFalse(a, p); XorIfFalse(b, p);
  }

  lemma StepLinear(v: Variant, x: bv32, y: bv32)
    ensures Step(v, Xor(x, y)) == Xor(Step(v, x), Step(v, y))
  {
    ShiftLinear(v, x, y);
    OutLinear(v, x, y);
    XorIfLinear(Out(v, x), Out(v, y), Shift(v, x), Shift(v, y), v.Poly());
  }

  lemma Step8Linear(v: Variant, x: bv32, y: bv32)
    ensures Step8(v, Xor(x, y)) == Xor(Step8(v, x), Step8(v, y))
  {
    var x1, y1 := Step(v, x), Step(v, y);
    var x2, y2 := Step(v, x1), Step(v, y1);
    var x3, y3 := Step(v, x2), Step(v, y2);
    var x4, y4 := Step(v, x3), Step(v, y3);
    var x5, y5 := Step(v, x4), Step(v, y4);
    var x6, y6 := Step(v, x5), Step(v, y5);
    var x7, y7 := Step(v, x6), Step(v, y6);
    StepLinear(v, x, y);
    StepLinear(v, x1, y1);
    StepLinear(v, x2, y2);
    StepLinear(v, x3, y3);
    StepLinear(v, x4, y4);
    StepLinear(v, x5, y5);
    StepLinear(v, x6, y6);
    StepLinear(v, x7, y7);
  }

  // ---------- byte steps ----------

  predicate Fits(v: Variant, x: bv32) {
    Keep(x, v.Mask()) == x
  }

  /** The byte about to leave the register. */
  function Outgoing(v: Variant, x: bv32): bv8 {
    if v.Reflected() then (x & 0xff) as bv8
    else if v.Width() == 2 then ((x >> 8) & 0xff) as bv8
    else ((x >> 24) & 0xff) as bv8
  }

  /** The table index formed from the register and the message byte. */
  function Index(v: Variant, x: bv32, b: bv8): bv8 {
    XorByte(Outgoing(v, x), b)
  }

  /** The rest of the register, moved up by a byte. */
  function Rest(v: Variant, x: bv32): bv32 {
    if v.Reflected() then x >> 8 else (x << 8) & v.Mask()
  }

  /** The register without its outgoing byte. */
  function Quiet(v: Variant, x: bv32): bv32 {
    Keep(x, if v.Reflected() then 0xffff_ff00 else if v.Width() == 2 then 0xff else 0x00ff_ffff)
  }

  lemma SplitRight(v: Variant, x: bv32, b: bv8)
    requires v.Reflected()
    ensures x ^ Align(v, b) == Quiet(v, x) ^ Align(v, Index(v, x, b))
  {
  }

  lemma SplitLeft16(v: Variant, x: bv32, b: bv8)
    requires !v.Reflected() && v.Width() == 2 && Fits(v, x)
    ensures x ^ Align(v, b) == Quiet(v, x) ^ Align(v, Index(v, x, b))
  {
  }

  lemma SplitLeft32(v: Variant, x: bv32, b: bv8)
    requires !v.Reflected() && v.Width() == 4
    ensures x ^ Align(v, b) == Quiet(v, x) ^ Align(v, Index(v, x, b))
  {
  }

  lemma SplitBits(v: Variant, x: bv32, b: bv8)
    requires Fits(v, x)
    ensures x ^ Align(v, b) == Quiet(v, x) ^ Align(v, Index(v, x, b))
  {
    if v.Reflected() {
      SplitRight(v, x, b);
    } else if v.Width() == 2 {
      SplitLeft16(v, x, b);
    } else {
      SplitLeft32(v, x, b);
    }
  }

  lemma XorCongruence(a: bv32, b: bv32, c: bv32, d: bv32)
    requires a ^ b == c ^ d
    ensures Xor(a, b) == Xor(c, d)
  {
  }

  lemma SplitOutgoingByte(v: Variant, x: bv32, b: bv8)
    requires Fits(v, x)
    ensures Xor(x, Align(v, b)) == Xor(Quiet(v, x), Align(v, Index(v, x, b)))
  {
    SplitBits(v, x, b);
    XorCongruence(x, Align(v, b), Quiet(v, x), Align(v, Index(v, x, b)));
  }

  lemma QuietRight(v: Variant, x: bv32)
    requires v.Reflected() && Fits(v, x)
    ensures Step8(v, Quiet(v, x)) == Rest(v, x)
  {
  }

  lemma QuietLeft16(v: Variant, x: bv32)
    requires !v.Reflected() && v.Width() == 2 && Fits(v, x)
    ensures Step8(v, Quiet(v, x)) == Rest(v, x)
  {
  }

  lemma QuietLeft32(v: Variant, x: bv32)
    requires !v.Reflected() && v.Width() == 4
    ensures Step8(v, Quiet(v, x)) == Rest(v, x)
  {
  }

  lemma QuietStep(v: Variant, x: bv32)
    requires Fits(v, x)
    ensures Step8(v, Quiet(v, x)) == Rest(v, x)
  {
    if v.Reflected() {
      QuietRight(v, x);
    } else if v.Width() == 2 {
      QuietLeft16(v, x);
    } else {
      QuietLeft32(v, x);
    }
  }

  lemma ArcBits(x: bv32)
    requires x & 0xffff == x
    ensures var y := RightClock(0xa001, 0xffff, x); y & 0xffff == y && (y == 0 <==> x == 0)
  {
  }

  lemma ArcKernel(x: bv32)
    requires Keep(x, 0xffff) == x
    ensures var y := RightClock(0xa001, 0xffff, x); Keep(y, 0xffff) == y && (y == 0 <==> x == 0)
  {
    ArcBits(x);
    assert Keep(RightClock(0xa001, 0xffff, x), 0xffff) == RightClock(0xa001, 0xffff, x) & 0xffff;
  }

  lemma KermitBits(x: bv32)
    requires x & 0xffff == x
    ensures var y := RightClock(0x8408, 0xffff, x); y & 0xffff == y && (y == 0 <==> x == 0)
  {
  }

  lemma KermitKernel(x: bv32)
    requires Keep(x, 0xffff) == x
    ensures var y := RightClock(0x8408, 0xffff, x); Keep(y, 0xffff) == y && (y == 0 <==> x == 0)
  {
    KermitBits(x);
    assert Keep(RightClock(0x8408, 0xffff, x), 0xffff) == RightClock(0x8408, 0xffff, x) & 0xffff;
  }

  lemma ZipBits(x: bv32)
    ensures var y := RightClock(0xedb8_8320, 0xffff_ffff, x); (y == 0 <==> x == 0)
  {
  }

  lemma ZipKernel(x: bv32)
    requires Keep(x, 0xffff_ffff) == x
    ensures var y := RightClock(0xedb8_8320, 0xffff_ffff, x); Keep(y, 0xffff_ffff) == y && (y == 0 <==> x == 0)
  {
    ZipBits(x);
    assert Keep(RightClock(0xedb8_8320, 0xffff_ffff, x), 0xffff_ffff) ==
           RightClock(0xedb8_8320, 0xffff_ffff, x) & 0xffff_ffff;
  }

  lemma BinhexBits(x: bv32)
    requires x & 0xffff == x
    ensures var y := LeftClock(0x1021, 0x8000, 0xffff, x); y & 0xffff == y && (y == 0 <==> x == 0)
  {
  }

  lemma BinhexKernel(x: bv32)
    requires Keep(x, 0xffff) == x
    ensures var y := LeftClock(0x1021, 0x8000, 0xffff, x); Keep(y, 0xffff) == y && (y == 0 <==> x == 0)
  {
    BinhexBits(x);
    assert Keep(LeftClock(0x1021, 0x8000, 0xffff, x), 0xffff) == LeftClock(0x1021, 0x8000, 0xffff, x) & 0xffff;
  }

  lemma Ccitt32Bits(x: bv32)
    ensures var y := LeftClock(0x04c1_1db7, 0x8000_0000, 0xffff_ffff, x); (y == 0 <==> x == 0)
  {
  }

  lemma Ccitt32Kernel(x: bv32)
    requires Keep(x, 0xffff_ffff) == x
    ensures var y := LeftClock(0x04c1_1db7, 0x8000_0000, 0xffff_ffff, x);
            Keep(y, 0xffff_ffff) == y && (y == 0 <==> x == 0)
  {
    Ccitt32Bits(x);
    assert Keep(LeftClock(0x04c1_1db7, 0x8000_0000, 0xffff_ffff, x), 0xffff_ffff) ==
           LeftClock(0x04c1_1db7, 0x8000_0000, 0xffff_ffff, x) & 0xffff_ffff;
  }

  /** A clock keeps a register inside its width and never turns a nonzero one into zero. */
  lemma StepKernel(v: Variant, x: bv32)
    requires Fits(v, x)
    ensures Fits(v, Step(v, x))
    ensures Step(v, x) == 0 <==> x == 0
  {
    match v
    case Arc => StepRight(v, x); ArcKernel(x);
    case Kermit => StepRight(v, x); KermitKernel(x);
    case Zip => StepRight(v, x); ZipKernel(x);
    case Binhex => StepLeft(v, x); BinhexKernel(x);
    case Ccitt => StepLeft(v, x); BinhexKernel(x);
    case Ccitt32 => StepLeft(v, x); Ccitt32Kernel(x);
  }

  lemma Step8Kernel(v: Variant, x: bv32)
    requires Fits(v, x)
    ensures Fits(v, Step8(v, x))
    ensures Step8(v, x) == 0 <==> x == 0
  {
    var x1 := Step(v, x);
    var x2 := Step(v, x1);
    var x3 := Step(v, x2);
    var x4 := Step(v, x3);
    var x5 := Step(v, x4);
    var x6 := Step(v, x5);
    var x7 := Step(v, x6);
    StepKernel(v, x);
    StepKernel(v, x1);
    StepKernel(v, x2);
    StepKernel(v, x3);
    StepKernel(v, x4);
    StepKernel(v, x5);
    StepKernel(v, x6);
    StepKernel(v, x7);
  }

  lemma AlignFits(v: Variant, b: bv8)
    ensures Fits(v, Align(v, b))
  {
  }

  lemma AlignXorRight(v: Variant, a: bv8, b: bv8)
    requires v.Reflected()
    ensures Align(v, XorByte(a, b)) == Xor(Align(v, a), Align(v, b))
  {
  }

  lemma AlignXorLeft16(v: Variant, a: bv8, b: bv8)
    requires !v.Reflected() && v.Width() == 2
    ensures Align(v, XorByte(a, b)) == Xor(Align(v, a), Align(v, b))
  {
  }

  lemma AlignXorLeft32(v: Variant, a: bv8, b: bv8)
    requires !v.Reflected() && v.Width() == 4
    ensures Align(v, XorByte(a, b)) == Xor(Align(v, a), Align(v, b))
  {
  }

  lemma AlignLinear(v: Variant, a: bv8, b: bv8)
    ensures Align(v, XorByte(a, b)) == Xor(Align(v, a), Align(v, b))
  {
    if v.Reflected() {
      AlignXorRight(v, a, b);
    } else if v.Width() == 2 {
      AlignXorLeft16(v, a, b);
    } else {
      AlignXorLeft32(v, a, b);
    }
  }

  lemma XorZeroIsEqual(a: bv32, b: bv32)
    ensures Xor(a, b) == 0 <==> a == b
  {
    XorUnit(a);
    XorUnit(b);
    XorAssociates(a, b, b);
    XorCommutes(0, b);
  }

  lemma XorFits(v: Variant, a: bv32, b: bv32)
    requires Fits(v, a) && Fits(v, b)
    ensures Fits(v, Xor(a, b))
  {
    KeepLinear(a, b, v.Mask());
  }

  lemma ByteStepFits(v: Variant, x: bv32, b: bv8)
    requires Fits(v, x)
    ensures Fits(v, ByteStep(v, x, b))
  {
    AlignFits(v, b);
    XorFits(v, x, Align(v, b));
    Step8Kernel(v, Xor(x, Align(v, b)));
  }

  /** The byte step of the table-driven loops: one look-up replaces eight clocks. */
  lemma ByteStepSplits(v: Variant, x: bv32, b: bv8)
    requires Fits(v, x)
    ensures ByteStep(v, x, b) == Xor(Rest(v, x), Step8(v, Align(v, Index(v, x, b))))
    ensures Fits(v, ByteStep(v, x, b))
  {
    SplitOutgoingByte(v, x, b);
    Step8Linear(v, Quiet(v, x), Align(v, Index(v, x, b)));
    QuietStep(v, x);
    ByteStepFits(v, x, b);
  }

  /** A byte step loses nothing: the register before it is determined by the one after. */
  lemma ByteStepInjective(v: Variant, x: bv32, y: bv32, b: bv8)
    requires Fits(v, x) && Fits(v, y) && ByteStep(v, x, b) == ByteStep(v, y, b)
    ensures x == y
  {
    var a := Align(v, b);
    Step8Linear(v, Xor(x, a), Xor(y, a));
    XorMoves(x, y, a);
    XorFits(v, x, y);
    XorUnit(ByteStep(v, x, b));
    Step8Kernel(v, Xor(x, y));
    XorZeroIsEqual(x, y);
  }

  // ---------- messages ----------

  lemma {:induction false} RegisterFits(v: Variant, x: bv32, m: seq<bv8>)
    requires Fits(v, x)
    ensures Fits(v, Register(v, x, m))
  {
    if m != [] {
      RegisterFits(v, x, m[..|m| - 1]);
      ByteStepSplits(v, Register(v, x, m[..|m| - 1]), m[|m| - 1]);
    }
  }

  lemma {:induction false} RegisterAppend(v: Variant, x: bv32, m: seq<bv8>, n: seq<bv8>)
    ensures Register(v, x, m + n) == Register(v, Register(v, x, m), n)
  {
    if n == [] {
      assert m + n == m;
    } else {
      assert (m + n)[..|m + n| - 1] == m + n[..|n| - 1];
      RegisterAppend(v, x, m, n[..|n| - 1]);
    }
  }

  lemma {:induction false} RegisterInjective(v: Variant, x: bv32, y: bv32, m: seq<bv8>)
    requires Fits(v, x) && Fits(v, y) && Register(v, x, m) == Register(v, y, m)
    ensures x == y
  {
    if m != [] {
      var k := |m| - 1;
      RegisterFits(v, x, m[..k]);
      RegisterFits(v, y, m[..k]);
      ByteStepInjective(v, Register(v, x, m[..k]), Register(v, y, m[..k]), m[k]);
      RegisterInjective(v, x, y, m[..k]);
    }
  }

  function XorBytes(m: seq<bv8>, n: seq<bv8>): (e: seq<bv8>)
    requires |m| == |n|
    ensures |e| == |m|
  {
    seq(|m|, i requires 0 <= i < |m| => XorByte(m[i], n[i]))
  }

  lemma ByteStepLinear(v: Variant, x: bv32, y: bv32, a: bv8, b: bv8)
    ensures ByteStep(v, Xor(x, y), XorByte(a, b)) == Xor(ByteStep(v, x, a), ByteStep(v, y, b))
  {
    var p, q := Align(v, a), Align(v, b);
    AlignLinear(v, a, b);
    Interleave(x, y, p, q);
    Step8Linear(v, Xor(x, p), Xor(y, q));
  }

  /** The CRC is linear in seed and message together, so whether an error is seen depends
      only on the pattern of flipped bits. */
  lemma {:induction false} RegisterLinear(v: Variant, x: bv32, y: bv32, m: seq<bv8>, n: seq<bv8>)
    requires |m| == |n|
    ensures Register(v, Xor(x, y), XorBytes(m, n)) == Xor(Register(v, x, m), Register(v, y, n))
  {
    if m != [] {
      var k := |m| - 1;
      RegisterLinear(v, x, y, m[..k], n[..k]);
      assert XorBytes(m, n)[..k] == XorBytes(m[..k], n[..k]);
      ByteStepLinear(v, Register(v, x, m[..k]), Register(v, y, n[..k]), m[k], n[k]);
    }
  }

  lemma Interleave(p: bv32, q: bv32, a: bv32, b: bv32)
    ensures Xor(Xor(p, q), Xor(a, b)) == Xor(Xor(p, a), Xor(q, b))
  {
    XorAssociates(Xor(p, q), a, b);
    XorMoves(p, q, a);
    XorAssociates(Xor(p, a), q, b);
  }

  // ---------- windows no longer than the register ----------

  /** Undoes the movement of eight quiet clocks. */
  function Back(v: Variant, x: bv32): bv32 {
    if v.Reflected() then (x << 8) & v.Mask() else x >> 8
  }

  /** The bytes of a window laid side by side, the first one outgoing first. */
  function Pack(v: Variant, m: seq<bv8>): bv32 {
    if m == [] then 0 else Xor(Align(v, m[0]), Back(v, Pack(v, m[1..])))
  }

  function StepBytes(v: Variant, n: nat, x: bv32): bv32 {
    if n == 0 then x else StepBytes(v, n - 1, Step8(v, x))
  }

  /** The first n bytes of the register to go out. */
  function Window(v: Variant, n: nat): bv32
    requires n <= v.Width()
  {
    if n == 0 then 0
    else if n == 1 then (if v.Reflected() then 0xff else if v.Width() == 2 then 0xff00 else 0xff00_0000)
    else if n == 2 then (if v.Reflected() || v.Width() == 2 then 0xffff else 0xffff_0000)
    else if n == 3 then (if v.Reflected() then 0x00ff_ffff else 0xffff_ff00)
    else 0xffff_ffff
  }

  predicate Within(v: Variant, n: nat, x: bv32)
    requires n <= v.Width()
  {
    Keep(x, Window(v, n)) == x
  }

  lemma BackRight16(v: Variant, n: nat, x: bv32)
    requires v.Reflected() && v.Width() == 2 && n < v.Width() && Within(v, n, x)
    ensures Within(v, n + 1, Back(v, x))
    ensures Rest(v, Back(v, x)) == x
  {
  }

  lemma BackRight32(v: Variant, n: nat, x: bv32)
    requires v.Reflected() && v.Width() == 4 && n < v.Width() && Within(v, n, x)
    ensures Within(v, n + 1, Back(v, x))
    ensures Rest(v, Back(v, x)) == x
  {
  }

  lemma BackLeft16(v: Variant, n: nat, x: bv32)
    requires !v.Reflected() && v.Width() == 2 && n < v.Width() && Within(v, n, x)
    ensures Within(v, n + 1, Back(v, x))
    ensures Rest(v, Back(v, x)) == x
  {
  }

  lemma BackLeft32(v: Variant, n: nat, x: bv32)
    requires !v.Reflected() && v.Width() == 4 && n < v.Width() && Within(v, n, x)
    ensures Within(v, n + 1, Back(v, x))
    ensures Rest(v, Back(v, x)) == x
  {
  }

  lemma BackIsQuietRight(v: Variant, x: bv32)
    requires v.Reflected()
    ensures Quiet(v, Back(v, x)) == Back(v, x) && Fits(v, Back(v, x))
  {
  }

  lemma BackIsQuietLeft16(v: Variant, x: bv32)
    requires !v.Reflected() && v.Width() == 2 && Fits(v, x)
    ensures Quiet(v, Back(v, x)) == Back(v, x) && Fits(v, Back(v, x))
  {
  }

  lemma BackIsQuietLeft32(v: Variant, x: bv32)
    requires !v.Reflected() && v.Width() == 4
    ensures Quiet(v, Back(v, x)) == Back(v, x) && Fits(v, Back(v, x))
  {
  }

  lemma WithinFits(v: Variant, n: nat, x: bv32)
    requires n < v.Width() && Within(v, n, x)
    ensures Fits(v, x)
  {
  }

  lemma BackIsQuiet(v: Variant, n: nat, x: bv32)
    requires n < v.Width() && Within(v, n, x)
    ensures Quiet(v, Back(v, x)) == Back(v, x) && Fits(v, Back(v, x))
  {
    if v.Reflected() {
      BackIsQuietRight(v, x);
    } else if v.Width() == 2 {
      WithinFits(v, n, x);
      BackIsQuietLeft16(v, x);
    } else {
      BackIsQuietLeft32(v, x);
    }
  }

  lemma BackWithin(v: Variant, n: nat, x: bv32)
    requires n < v.Width() && Within(v, n, x)
    ensures Within(v, n + 1, Back(v, x))
    ensures Rest(v, Back(v, x)) == x
  {
    if v.Reflected() {
      if v.Width() == 2 {
        BackRight16(v, n, x);
      } else {
        BackRight32(v, n, x);
      }
    } else if v.Width() == 2 {
      BackLeft16(v, n, x);
    } else {
      BackLeft32(v, n, x);
    }
  }

  lemma AlignWithin(v: Variant, n: nat, b: bv8)
    requires n < v.Width()
    ensures Within(v, n + 1, Align(v, b))
  {
  }

  lemma XorWithin(v: Variant, n: nat, x: bv32, y: bv32)
    requires n <= v.Width() && Within(v, n, x) && Within(v, n, y)
    ensures Within(v, n, Xor(x, y))
  {
    KeepLinear(x, y, Window(v, n));
  }

  lemma QuietLinear(v: Variant, x: bv32, y: bv32)
    ensures Quiet(v, Xor(x, y)) == Xor(Quiet(v, x), Quiet(v, y))
  {
    KeepLinear(x, y, if v.Reflected() then 0xffff_ff00 else if v.Width() == 2 then 0xff else 0x00ff_ffff);
  }

  lemma AlignSeparates(v: Variant, a: bv8, b: bv8)
    ensures Quiet(v, Align(v, a)) == 0
    ensures Align(v, a) == Align(v, b) ==> a == b
  {
  }

  lemma WindowHead(v: Variant, a: bv8, b: bv8, x: bv32, y: bv32)
    requires Quiet(v, x) == x && Quiet(v, y) == y
    requires Xor(Align(v, a), x) == Xor(Align(v, b), y)
    ensures a == b && x == y
  {
    AlignSeparates(v, a, b);
    AlignSeparates(v, b, a);
    QuietLinear(v, Align(v, a), x);
    QuietLinear(v, Align(v, b), y);
    XorUnit(x);
    XorUnit(y);
    XorCommutes(0, x);
    XorCommutes(0, y);
    XorAssociates(Align(v, a), x, x);
    XorAssociates(Align(v, b), y, y);
    XorUnit(Align(v, a));
    XorUnit(Align(v, b));
  }

  lemma {:induction false} PackWithin(v: Variant, m: seq<bv8>)
    requires |m| <= v.Width()
    ensures Within(v, |m|, Pack(v, m))
  {
    if m == [] {
      assert Keep(0, Window(v, 0)) == 0;
    } else {
      PackWithin(v, m[1..]);
      BackWithin(v, |m| - 1, Pack(v, m[1..]));
      AlignWithin(v, |m| - 1, m[0]);
      XorWithin(v, |m|, Align(v, m[0]), Back(v, Pack(v, m[1..])));
    }
  }

  /** The packed rest of a window moves back without loss. */
  lemma PackTail(v: Variant, m: seq<bv8>)
    requires 0 < |m| <= v.Width()
    ensures var p := Pack(v, m[1..]);
            Quiet(v, Back(v, p)) == Back(v, p) && Rest(v, Back(v, p)) == p && Fits(v, Back(v, p))
  {
    PackWithin(v, m[1..]);
    BackIsQuiet(v, |m| - 1, Pack(v, m[1..]));
    BackWithin(v, |m| - 1, Pack(v, m[1..]));
  }

  lemma {:induction false} PackInjective(v: Variant, m: seq<bv8>, n: seq<bv8>)
    requires |m| == |n| <= v.Width() && Pack(v, m) == Pack(v, n)
    ensures m == n
  {
    if m != [] {
      PackTail(v, m);
      PackTail(v, n);
      WindowHead(v, m[0], n[0], Back(v, Pack(v, m[1..])), Back(v, Pack(v, n[1..])));
      PackInjective(v, m[1..], n[1..]);
      assert m == [m[0]] + m[1..] && n == [n[0]] + n[1..];
    }
  }

  /** A quiet word XORed in a byte early comes through the byte step unchanged. */
  lemma StepAbsorbs(v: Variant, x: bv32, b: bv8, p: bv32)
    requires Quiet(v, Back(v, p)) == Back(v, p) && Rest(v, Back(v, p)) == p && Fits(v, Back(v, p))
    ensures Step8(v, Xor(x, Xor(Align(v, b), Back(v, p)))) == Xor(ByteStep(v, x, b), p)
  {
    QuietStep(v, Back(v, p));
    XorAssociates(x, Align(v, b), Back(v, p));
    Step8Linear(v, Xor(x, Align(v, b)), Back(v, p));
  }

  lemma RegisterFirst(v: Variant, x: bv32, m: seq<bv8>)
    requires m != []
    ensures Register(v, x, m) == Register(v, ByteStep(v, x, m[0]), m[1..])
  {
    var first := [m[0]];
    assert m == first + m[1..];
    RegisterAppend(v, x, first, m[1..]);
    assert first[..0] == [] && first[0] == m[0];
  }

  /** Clocking a window in whole begins by feeding its first byte. */
  lemma WindowFirst(v: Variant, x: bv32, m: seq<bv8>)
    requires 0 < |m| <= v.Width()
    ensures Step8(v, Xor(x, Pack(v, m))) == Xor(ByteStep(v, x, m[0]), Pack(v, m[1..]))
  {
    PackTail(v, m);
    StepAbsorbs(v, x, m[0], Pack(v, m[1..]));
  }

  lemma StepBytesNext(v: Variant, n: nat, x: bv32)
    ensures StepBytes(v, n + 1, x) == StepBytes(v, n, Step8(v, x))
  {
  }

  /** Clocking a window in whole is feeding its first byte and clocking the rest. */
  lemma WindowUnfolds(v: Variant, x: bv32, m: seq<bv8>, rest: seq<bv8>)
    requires 0 < |m| <= v.Width() && rest == m[1..]
    ensures StepBytes(v, |m|, Xor(x, Pack(v, m))) == StepBytes(v, |rest|, Xor(ByteStep(v, x, m[0]), Pack(v, rest)))
  {
    StepBytesNext(v, |rest|, Xor(x, Pack(v, m)));
    WindowFirst(v, x, m);
  }

  lemma EmptyWindow(v: Variant, x: bv32)
    ensures StepBytes(v, 0, Xor(x, Pack(v, []))) == x
  {
    XorUnit(x);
  }

  /** Feeding a window no longer than the register is XORing it in whole and clocking. */
  lemma {:induction false} WindowAsWord(v: Variant, x: bv32, m: seq<bv8>)
    requires Fits(v, x) && |m| <= v.Width()
    ensures Register(v, x, m) == StepBytes(v, |m|, Xor(x, Pack(v, m)))
    decreases |m|
  {
    if m == [] {
      EmptyWindow(v, x);
    } else {
      ByteStepFits(v, x, m[0]);
      WindowAsWord(v, ByteStep(v, x, m[0]), m[1..]);
      WindowUnfolds(v, x, m, m[1..]);
      RegisterFirst(v, x, m);
    }
  }

  lemma {:induction false} StepBytesKernel(v: Variant, n: nat, x: bv32)
    requires Fits(v, x)
    ensures StepBytes(v, n, x) == 0 <==> x == 0
  {
    if n > 0 {
      Step8Kernel(v, x);
      StepBytesKernel(v, n - 1, Step8(v, x));
    }
  }

  lemma {:induction false} StepBytesLinear(v: Variant, n: nat, x: bv32, y: bv32)
    ensures StepBytes(v, n, Xor(x, y)) == Xor(StepBytes(v, n, x), StepBytes(v, n, y))
  {
    if n > 0 {
      Step8Linear(v, x, y);
      StepBytesLinear(v, n - 1, Step8(v, x), Step8(v, y));
    }
  }

  /** Two different windows no longer than the register leave different registers. */
  lemma WindowsDiffer(v: Variant, x: bv32, m: seq<bv8>, n: seq<bv8>)
    requires Fits(v, x) && |m| == |n| <= v.Width() && m != n
    ensures Register(v, x, m) != Register(v, x, n)
  {
    if Register(v, x, m) == Register(v, x, n) {
      var p, q := Pack(v, m), Pack(v, n);
      WindowAsWord(v, x, m);
      WindowAsWord(v, x, n);
      StepBytesLinear(v, |m|, Xor(x, p), Xor(x, q));
      XorUnit(StepBytes(v, |m|, Xor(x, p)));
      XorCommutes(x, p);
      XorCommutes(x, q);
      XorMoves(p, q, x);
      PackFits(v, m);
      PackFits(v, n);
      XorFits(v, p, q);
      StepBytesKernel(v, |m|, Xor(p, q));
      XorZeroIsEqual(p, q);
      PackInjective(v, m, n);
    }
  }

  lemma {:induction false} PackFits(v: Variant, m: seq<bv8>)
    requires |m| <= v.Width()
    ensures Fits(v, Pack(v, m))
  {
    if m == [] {
      assert Keep(0, v.Mask()) == 0;
    } else {
      PackWithin(v, m[1..]);
      BackIsQuiet(v, |m| - 1, Pack(v, m[1..]));
      AlignFits(v, m[0]);
      XorFits(v, Align(v, m[0]), Back(v, Pack(v, m[1..])));
    }
  }

  // ---------- eight clocks on plain bit-vectors ----------

  function RightClock(p: bv32, mask: bv32, x: bv32): bv32 {
    if x & 1 != 0 then ((x >> 1) & mask) ^ p else (x >> 1) & mask
  }

  function LeftClock(p: bv32, top: bv32, mask: bv32, x: bv32): bv32 {
    if x & top != 0 then ((x << 1) & mask) ^ p else (x << 1) & mask
  }

  function RightEntry(p: bv32, m: bv32, x: bv32): bv32 {
    RightClock(p, m, RightClock(p, m, RightClock(p, m, RightClock(p, m,
    RightClock(p, m, RightClock(p, m, RightClock(p, m, RightClock(p, m, x))))))))
  }

  function LeftEntry(p: bv32, t: bv32, m: bv32, x: bv32): bv32 {
    LeftClock(p, t, m, LeftClock(p, t, m, LeftClock(p, t, m, LeftClock(p, t, m,
    LeftClock(p, t, m, LeftClock(p, t, m, LeftClock(p, t, m, LeftClock(p, t, m, x))))))))
  }

  lemma RightClockParts(p: bv32, mask: bv32, x: bv32)
    ensures RightClock(p, mask, x) == XorIf(Keep(x, 1) != 0, ShiftRight(x, mask), p)
  {
  }

  lemma StepRight(v: Variant, x: bv32)
    requires v.Reflected()
    ensures Step(v, x) == RightClock(v.Poly(), v.Mask(), x)
  {
    RightClockParts(v.Poly(), v.Mask(), x);
  }

  lemma LeftClockParts(p: bv32, top: bv32, mask: bv32, x: bv32)
    ensures LeftClock(p, top, mask, x) == XorIf(Keep(x, top) != 0, ShiftLeft(x, mask), p)
  {
  }

  lemma StepLeft(v: Variant, x: bv32)
    requires !v.Reflected()
    ensures Step(v, x) == LeftClock(v.Poly(), v.Top(), v.Mask(), x)
  {
    LeftClockParts(v.Poly(), v.Top(), v.Mask(), x);
  }

  lemma RightEntryClocks(v: Variant, x0: bv32)
    requires v.Reflected()
    ensures Step8(v, x0) == RightEntry(v.Poly(), v.Mask(), x0)
  {
    var x1 := Step(v, x0);
    var x2 := Step(v, x1);
    var x3 := Step(v, x2);
    var x4 := Step(v, x3);
    var x5 := Step(v, x4);
    var x6 := Step(v, x5);
    var x7 := Step(v, x6);
    StepRight(v, x0);
    StepRight(v, x1);
    StepRight(v, x2);
    StepRight(v, x3);
    StepRight(v, x4);
    StepRight(v, x5);
    StepRight(v, x6);
    StepRight(v, x7);
  }

  lemma LeftEntryClocks(v: Variant, x0: bv32)
    requires !v.Reflected()
    ensures Step8(v, x0) == LeftEntry(v.Poly(), v.Top(), v.Mask(), x0)
  {
    var x1 := Step(v, x0);
    var x2 := Step(v, x1);
    var x3 := Step(v, x2);
    var x4 := Step(v, x3);
    var x5 := Step(v, x4);
    var x6 := Step(v, x5);
    var x7 := Step(v, x6);
    StepLeft(v, x0);
    StepLeft(v, x1);
    StepLeft(v, x2);
    StepLeft(v, x3);
    StepLeft(v, x4);
    StepLeft(v, x5);
    StepLeft(v, x6);
    StepLeft(v, x7);
  }
}
