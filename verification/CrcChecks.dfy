/** Anchors of the six CRCs in plain numbers: the value each gives for the nine ASCII digits
    "123456789", by which CRCs are catalogued. */
module CrcChecks {
  import opened Crc
  import opened CrcMessages

  const DIGITS: seq<bv8> := [0x31, 0x32, 0x33, 0x34, 0x35, 0x36, 0x37, 0x38, 0x39]

  // ---------- the digits on plain bit-vectors ----------

  function RightByte(p: bv32, m: bv32, x: bv32, b: bv8): bv32 {
    RightEntry(p, m, x ^ (b as bv32))
  }

  function LeftByte16(p: bv32, x: bv32, b: bv8): bv32 {
    LeftEntry(p, 0x8000, 0xffff, x ^ ((b as bv32) << 8))
  }

  function LeftByte32(p: bv32, x: bv32, b: bv8): bv32 {
    LeftEntry(p, 0x8000_0000, 0xffff_ffff, x ^ ((b as bv32) << 24))
  }

  lemma ArcDigits()
    ensures RightByte(0xa001, 0xffff, RightByte(0xa001, 0xffff, RightByte(0xa001, 0xffff,
            RightByte(0xa001, 0xffff, RightByte(0xa001, 0xffff, RightByte(0xa001, 0xffff,
            RightByte(0xa001, 0xffff, RightByte(0xa001, 0xffff, RightByte(0xa001, 0xffff,
            0, 0x31), 0x32), 0x33), 0x34), 0x35), 0x36), 0x37), 0x38), 0x39)
            == 0xbb3d
  {
  }

  lemma KermitDigits()
    ensures RightByte(0x8408, 0xffff, RightByte(0x8408, 0xffff, RightByte(0x8408, 0xffff,
            RightByte(0x8408, 0xffff, RightByte(0x8408, 0xffff, RightByte(0x8408, 0xffff,
            RightByte(0x8408, 0xffff, RightByte(0x8408, 0xffff, RightByte(0x8408, 0xffff,
            0, 0x31), 0x32), 0x33), 0x34), 0x35), 0x36), 0x37), 0x38), 0x39)
            == 0x2189
  {
  }

  lemma ZipDigits()
    ensures RightByte(0xedb8_8320, 0xffff_ffff, RightByte(0xedb8_8320, 0xffff_ffff, RightByte(0xedb8_8320, 0xffff_ffff,
            RightByte(0xedb8_8320, 0xffff_ffff, RightByte(0xedb8_8320, 0xffff_ffff, RightByte(0xedb8_8320, 0xffff_ffff,
            RightByte(0xedb8_8320, 0xffff_ffff, RightByte(0xedb8_8320, 0xffff_ffff, RightByte(0xedb8_8320, 0xffff_ffff,
            0xffff_ffff, 0x31), 0x32), 0x33), 0x34), 0x35), 0x36), 0x37), 0x38), 0x39)
            == 0x340b_c6d9
  {
  }

  lemma BinhexDigits()
    ensures LeftByte16(0x1021, LeftByte16(0x1021, LeftByte16(0x1021,
            LeftByte16(0x1021, LeftByte16(0x1021, LeftByte16(0x1021,
            LeftByte16(0x1021, LeftByte16(0x1021, LeftByte16(0x1021,
            0, 0x31), 0x32), 0x33), 0x34), 0x35), 0x36), 0x37), 0x38), 0x39)
            == 0x31c3
  {
  }

  lemma CcittDigits()
    ensures LeftByte16(0x1021, LeftByte16(0x1021, LeftByte16(0x1021,
            LeftByte16(0x1021, LeftByte16(0x1021, LeftByte16(0x1021,
            LeftByte16(0x1021, LeftByte16(0x1021, LeftByte16(0x1021,
            0xffff, 0x31), 0x32), 0x33), 0x34), 0x35), 0x36), 0x37), 0x38), 0x39)
            == 0x29b1
  {
  }

  lemma Ccitt32Digits()
    ensures LeftByte32(0x04c1_1db7, LeftByte32(0x04c1_1db7, LeftByte32(0x04c1_1db7,
            LeftByte32(0x04c1_1db7, LeftByte32(0x04c1_1db7, LeftByte32(0x04c1_1db7,
            LeftByte32(0x04c1_1db7, LeftByte32(0x04c1_1db7, LeftByte32(0x04c1_1db7,
            0xffff_ffff, 0x31), 0x32), 0x33), 0x34), 0x35), 0x36), 0x37), 0x38), 0x39)
            == 0x0376_e6e7
  {
  }

  // ---------- the same on the register ----------

  function Fold<X>(f: (X, bv8) -> X, x: X, s: seq<bv8>): X {
    if s == [] then x else f(Fold(f, x, s[..|s| - 1]), s[|s| - 1])
  }

  lemma FoldMore<X>(f: (X, bv8) -> X, x: X, s: seq<bv8>, k: nat)
    requires k < |s|
    ensures Fold(f, x, s[..k + 1]) == f(Fold(f, x, s[..k]), s[k])
  {
    assert s[..k + 1][..k] == s[..k];
  }

  lemma FoldNine<X>(f: (X, bv8) -> X, x: X, s: seq<bv8>)
    requires |s| == 9
    ensures Fold(f, x, s) == f(f(f(f(f(f(f(f(f(x, s[0]), s[1]), s[2]), s[3]), s[4]), s[5]), s[6]), s[7]), s[8])
  {
    FoldMore(f, x, s, 0);
    FoldMore(f, x, s, 1);
    FoldMore(f, x, s, 2);
    FoldMore(f, x, s, 3);
    FoldMore(f, x, s, 4);
    FoldMore(f, x, s, 5);
    FoldMore(f, x, s, 6);
    FoldMore(f, x, s, 7);
    FoldMore(f, x, s, 8);
    assert s[..9] == s && s[..0] == [];
  }

  lemma RightByteIs(v: Variant, x: bv32, b: bv8)
    requires v.Reflected()
    ensures ByteStep(v, x, b) == RightByte(v.Poly(), v.Mask(), x, b)
  {
    RightEntryClocks(v, Xor(x, Align(v, b)));
  }

  lemma Left16ByteIs(v: Variant, x: bv32, b: bv8)
    requires !v.Reflected() && v.Width() == 2
    ensures ByteStep(v, x, b) == LeftByte16(v.Poly(), x, b)
  {
    LeftEntryClocks(v, Xor(x, Align(v, b)));
  }

  lemma Left32ByteIs(v: Variant, x: bv32, b: bv8)
    requires !v.Reflected() && v.Width() == 4
    ensures ByteStep(v, x, b) == LeftByte32(v.Poly(), x, b)
  {
    LeftEntryClocks(v, Xor(x, Align(v, b)));
  }

  lemma {:induction false} RegisterFolds(v: Variant, f: (bv32, bv8) -> bv32, x: bv32, s: seq<bv8>)
    requires forall y, b :: f(y, b) == ByteStep(v, y, b)
    ensures Register(v, x, s) == Fold(f, x, s)
  {
    if s != [] {
      RegisterFolds(v, f, x, s[..|s| - 1]);
    }
  }

  lemma RightDigits(v: Variant, x: bv32, p: bv32, m: bv32)
    requires v.Reflected() && p == v.Poly() && m == v.Mask()
    ensures Register(v, x, DIGITS) ==
            RightByte(p, m, RightByte(p, m, RightByte(p, m,
            RightByte(p, m, RightByte(p, m, RightByte(p, m,
            RightByte(p, m, RightByte(p, m, RightByte(p, m,
            x, 0x31), 0x32), 0x33), 0x34), 0x35), 0x36), 0x37), 0x38), 0x39)
  {
    var f := (y: bv32, b: bv8) => RightByte(p, m, y, b);
    forall y: bv32, b: bv8 ensures f(y, b) == ByteStep(v, y, b) {
      RightByteIs(v, y, b);
    }
    RegisterFolds(v, f, x, DIGITS);
    FoldNine(f, x, DIGITS);
  }

  lemma Left16Digits(v: Variant, x: bv32, p: bv32)
    requires !v.Reflected() && v.Width() == 2 && p == v.Poly()
    ensures Register(v, x, DIGITS) ==
            LeftByte16(p, LeftByte16(p, LeftByte16(p,
            LeftByte16(p, LeftByte16(p, LeftByte16(p,
            LeftByte16(p, LeftByte16(p, LeftByte16(p,
            x, 0x31), 0x32), 0x33), 0x34), 0x35), 0x36), 0x37), 0x38), 0x39)
  {
    var f := (y: bv32, b: bv8) => LeftByte16(p, y, b);
    forall y: bv32, b: bv8 ensures f(y, b) == ByteStep(v, y, b) {
      Left16ByteIs(v, y, b);
    }
    RegisterFolds(v, f, x, DIGITS);
    FoldNine(f, x, DIGITS);
  }

  lemma Left32Digits(v: Variant, x: bv32, p: bv32)
    requires !v.Reflected() && v.Width() == 4 && p == v.Poly()
    ensures Register(v, x, DIGITS) ==
            LeftByte32(p, LeftByte32(p, LeftByte32(p,
            LeftByte32(p, LeftByte32(p, LeftByte32(p,
            LeftByte32(p, LeftByte32(p, LeftByte32(p,
            x, 0x31), 0x32), 0x33), 0x34), 0x35), 0x36), 0x37), 0x38), 0x39)
  {
    var f := (y: bv32, b: bv8) => LeftByte32(p, y, b);
    forall y: bv32, b: bv8 ensures f(y, b) == ByteStep(v, y, b) {
      Left32ByteIs(v, y, b);
    }
    RegisterFolds(v, f, x, DIGITS);
    FoldNine(f, x, DIGITS);
  }

  lemma ArcCheck()
    ensures Init(Arc) == 0 && Update(Arc, 0, DIGITS) == 0xbb3d
  {
    RightDigits(Arc, 0, 0xa001, 0xffff);
    ArcDigits();
  }

  lemma KermitCheck()
    ensures Init(Kermit) == 0 && Update(Kermit, 0, DIGITS) == 0x2189
  {
    RightDigits(Kermit, 0, 0x8408, 0xffff);
    KermitDigits();
  }

  lemma ZipCheck()
    ensures Init(Zip) == 0xffff_ffff && Update(Zip, 0xffff_ffff, DIGITS) == 0xcbf4_3926
  {
    RightDigits(Zip, 0xffff_ffff, 0xedb8_8320, 0xffff_ffff);
    ZipDigits();
  }

  lemma BinhexCheck()
    ensures Init(Binhex) == 0 && Update(Binhex, 0, DIGITS) == 0x31c3
  {
    Left16Digits(Binhex, 0, 0x1021);
    BinhexDigits();
  }

  lemma CcittCheck()
    ensures Init(Ccitt) == 0xffff && Update(Ccitt, 0xffff, DIGITS) == 0x29b1
  {
    Left16Digits(Ccitt, 0xffff, 0x1021);
    CcittDigits();
  }

  lemma Ccitt32Check()
    ensures Init(Ccitt32) == 0xffff_ffff && Update(Ccitt32, 0xffff_ffff, DIGITS) == 0x0376_e6e7
  {
    Left32Digits(Ccitt32, 0xffff_ffff, 0x04c1_1db7);
    Ccitt32Digits();
  }
}
