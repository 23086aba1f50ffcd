/** What an Update call promises about whole messages, for all six variants at once. */
module CrcMessages {
  import opened Crc

  const FINAL_XOR: bv32 := 0xffff_ffff

  function Finish(v: Variant, r: bv32): bv32 {
    if v.Zip? then Xor(r, FINAL_XOR) else r
  }

  /** The value an Update function returns; no data, or a NULL buffer, gives 0 whatever the
      seed. */
  function Update(v: Variant, x: bv32, m: seq<bv8>): bv32 {
    if m == [] then 0 else Finish(v, Register(v, x, m))
  }

  lemma FinishUndone(v: Variant, r: bv32)
    ensures Finish(v, Finish(v, r)) == r
  {
    XorAssociates(r, FINAL_XOR, FINAL_XOR);
    XorUnit(r);
    XorUnit(FINAL_XOR);
  }

  /** Finish is its own inverse, so it keeps different registers different. */
  lemma FinishInjective(v: Variant, r: bv32, s: bv32)
    requires Finish(v, r) == Finish(v, s)
    ensures r == s
  {
    FinishUndone(v, r);
    FinishUndone(v, s);
  }

  /** Streaming: feeding a message in two parts, undoing the final XOR in between, agrees
      with feeding it whole. */
  lemma ChunkingAgrees(v: Variant, x: bv32, m: seq<bv8>, n: seq<bv8>)
    requires m != [] && n != []
    ensures Update(v, Finish(v, Update(v, x, m)), n) == Update(v, x, m + n)
  {
    FinishUndone(v, Register(v, x, m));
    RegisterAppend(v, x, m, n);
  }

  /** The seed each variant starts from, as its INIT macro converts to the register type. */
  function Init(v: Variant): bv32 {
    match v
    case Arc => 0
    case Binhex => 0
    case Kermit => 0
    case Ccitt => 0xffff
    case Ccitt32 => 0xffff_ffff
    case Zip => 0xffff_ffff
  }

  /** An empty first chunk resets the register to 0 (to all ones for ZIP) instead of leaving
      it, so streaming survives one exactly from the seed it resets to. */
  lemma EmptyFirstChunkAgreesIff(v: Variant, x: bv32, n: seq<bv8>)
    requires Fits(v, x) && n != []
    ensures Update(v, Finish(v, Update(v, x, [])), n) == Update(v, x, n) <==> x == Finish(v, 0)
  {
    var y := Finish(v, 0);
    FinishOfZero(v);
    if Update(v, y, n) == Update(v, x, n) {
      FinishInjective(v, Register(v, y, n), Register(v, x, n));
      RegisterInjective(v, x, y, n);
    }
  }

  lemma FinishOfZero(v: Variant)
    ensures Finish(v, 0) == if v.Zip? then FINAL_XOR else 0
    ensures Fits(v, Finish(v, 0))
  {
  }

  /** With the documented seeds that holds for ARC, BinHex, Kermit and ZIP, and fails for the
      two CCITT variants. */
  lemma EmptyFirstChunkFromInit(v: Variant, n: seq<bv8>)
    requires n != []
    ensures Update(v, Finish(v, Update(v, Init(v), [])), n) == Update(v, Init(v), n) <==> !v.Ccitt? && !v.Ccitt32?
  {
    InitFits(v);
    FinishOfZero(v);
    EmptyFirstChunkAgreesIff(v, Init(v), n);
  }

  lemma InitFits(v: Variant)
    ensures Fits(v, Init(v))
  {
    if v.Width() == 2 {
      assert Keep(0, 0xffff) == 0 && Keep(0xffff, 0xffff) == 0xffff;
    } else {
      assert Keep(0xffff_ffff, 0xffff_ffff) == 0xffff_ffff;
    }
  }

  /** Burst detection: messages that differ only inside a window no longer than the register
      never have equal CRCs. */
  lemma BurstIsDetected(v: Variant, x: bv32, head: seq<bv8>, m: seq<bv8>, n: seq<bv8>, tail: seq<bv8>)
    requires Fits(v, x) && |m| == |n| <= v.Width() && m != n
    ensures Update(v, x, head + m + tail) != Update(v, x, head + n + tail)
  {
    var r := Register(v, x, head);
    RegisterAppend(v, x, head, m);
    RegisterAppend(v, x, head, n);
    RegisterAppend(v, x, head + m, tail);
    RegisterAppend(v, x, head + n, tail);
    RegisterFits(v, x, head);
    RegisterFits(v, r, m);
    RegisterFits(v, r, n);
    WindowsDiffer(v, r, m, n);
    var p, q := Register(v, r, m), Register(v, r, n);
    if Register(v, p, tail) == Register(v, q, tail) {
      RegisterInjective(v, p, q, tail);
    }
    if Update(v, x, head + m + tail) == Update(v, x, head + n + tail) {
      FinishInjective(v, Register(v, p, tail), Register(v, q, tail));
    }
  }

  /** A CRC as it is appended to a message: low byte first for the reflected variants, high
      byte first for the others. */
  function Trailer(v: Variant, c: bv32): (m: seq<bv8>)
    ensures |m| == v.Width()
  {
    if v.Reflected() then
      if v.Width() == 2 then [(c & 0xff) as bv8, ((c >> 8) & 0xff) as bv8]
      else [(c & 0xff) as bv8, ((c >> 8) & 0xff) as bv8, ((c >> 16) & 0xff) as bv8, ((c >> 24) & 0xff) as bv8]
    else
      if v.Width() == 2 then [((c >> 8) & 0xff) as bv8, (c & 0xff) as bv8]
      else [((c >> 24) & 0xff) as bv8, ((c >> 16) & 0xff) as bv8, ((c >> 8) & 0xff) as bv8, (c & 0xff) as bv8]
  }

  /** What checking a message together with its own CRC yields. */
  function Residue(v: Variant): bv32 {
    if v.Zip? then 0x2144_df1c else 0
  }

  lemma PackUnrolled(v: Variant, m: seq<bv8>)
    ensures |m| == 2 ==> Pack(v, m) == Xor(Align(v, m[0]), Back(v, Align(v, m[1])))
    ensures |m| == 4 ==>
              Pack(v, m) ==
              Xor(Align(v, m[0]), Back(v, Xor(Align(v, m[1]), Back(v, Xor(Align(v, m[2]), Back(v, Align(v, m[3])))))))
  {
    if |m| == 2 || |m| == 4 {
      var last := m[|m| - 1];
      PackOfOne(v, last);
      assert m[|m| - 1..] == [last];
      if |m| == 4 {
        assert m[1..][1..] == m[2..] && m[2..][1..] == m[3..];
      }
    }
  }

  lemma PackOfOne(v: Variant, b: bv8)
    ensures Pack(v, [b]) == Align(v, b)
  {
    assert [b][1..] == [];
    assert Back(v, 0) == 0;
    XorUnit(Align(v, b));
  }

  lemma TwoRight(v: Variant, c: bv32)
    requires v.Width() == 2 && v.Reflected() && Fits(v, c)
    ensures Xor(Align(v, (c & 0xff) as bv8), Back(v, Align(v, ((c >> 8) & 0xff) as bv8))) == c
  {
  }

  lemma TwoLeft(v: Variant, c: bv32)
    requires v.Width() == 2 && !v.Reflected() && Fits(v, c)
    ensures Xor(Align(v, ((c >> 8) & 0xff) as bv8), Back(v, Align(v, (c & 0xff) as bv8))) == c
  {
  }

  lemma FourRight(v: Variant, c: bv32)
    requires v.Width() == 4 && v.Reflected()
    ensures var b0, b1 := (c & 0xff) as bv8, ((c >> 8) & 0xff) as bv8;
            var b2, b3 := ((c >> 16) & 0xff) as bv8, ((c >> 24) & 0xff) as bv8;
            Xor(Align(v, b0), Back(v, Xor(Align(v, b1), Back(v, Xor(Align(v, b2), Back(v, Align(v, b3))))))) == c
  {
  }

  lemma FourLeft(v: Variant, c: bv32)
    requires v.Width() == 4 && !v.Reflected()
    ensures var b0, b1 := (c & 0xff) as bv8, ((c >> 8) & 0xff) as bv8;
            var b2, b3 := ((c >> 16) & 0xff) as bv8, ((c >> 24) & 0xff) as bv8;
            Xor(Align(v, b3), Back(v, Xor(Align(v, b2), Back(v, Xor(Align(v, b1), Back(v, Align(v, b0))))))) == c
  {
  }

  lemma TrailerPacks(v: Variant, c: bv32)
    requires Fits(v, c)
    ensures Pack(v, Trailer(v, c)) == c
  {
    PackUnrolled(v, Trailer(v, c));
    if v.Width() == 2 {
      if v.Reflected() {
        TwoRight(v, c);
      } else {
        TwoLeft(v, c);
      }
    } else {
      if v.Reflected() {
        FourRight(v, c);
      } else {
        FourLeft(v, c);
      }
    }
  }

  lemma OnesAfterByte1()
    ensures Step8(Zip, 0xffff_ffff) == 0x2dfd_1072
  {
    RightEntryClocks(Zip, 0xffff_ffff);
    assert RightEntry(0xedb8_8320, 0xffff_ffff, 0xffff_ffff) == 0x2dfd_1072;
  }

  lemma OnesAfterByte2()
    ensures Step8(Zip, 0x2dfd_1072) == 0xbe26_ed00
  {
    RightEntryClocks(Zip, 0x2dfd_1072);
    assert RightEntry(0xedb8_8320, 0xffff_ffff, 0x2dfd_1072) == 0xbe26_ed00;
  }

  lemma OnesAfterByte3()
    ensures Step8(Zip, 0xbe26_ed00) == 0x00be_26ed
  {
    RightEntryClocks(Zip, 0xbe26_ed00);
    assert RightEntry(0xedb8_8320, 0xffff_ffff, 0xbe26_ed00) == 0x00be_26ed;
  }

  lemma OnesAfterByte4()
    ensures Step8(Zip, 0x00be_26ed) == 0xdebb_20e3
  {
    RightEntryClocks(Zip, 0x00be_26ed);
    assert RightEntry(0xedb8_8320, 0xffff_ffff, 0x00be_26ed) == 0xdebb_20e3;
  }

  lemma AllOnesClocked()
    ensures StepBytes(Zip, 4, 0xffff_ffff) == 0xdebb_20e3
  {
    OnesAfterByte1();
    OnesAfterByte2();
    OnesAfterByte3();
    OnesAfterByte4();
    assert StepBytes(Zip, 2, 0xbe26_ed00) == 0xdebb_20e3;
  }

  /** Appending its own CRC to a message gives a constant, whatever the message and seed:
      the check a receiver makes. */
  lemma OwnCrcGivesResidue(v: Variant, x: bv32, m: seq<bv8>)
    requires Fits(v, x) && m != []
    ensures Update(v, x, m + Trailer(v, Update(v, x, m))) == Residue(v)
  {
    var r := Register(v, x, m);
    var c := Finish(v, r);
    var t := Trailer(v, c);
    RegisterFits(v, x, m);
    FinishFits(v, r);
    RegisterAppend(v, x, m, t);
    TrailerPacks(v, c);
    WindowAsWord(v, r, t);
    XorUnit(r);
    if v.Zip? {
      XorAssociates(r, r, FINAL_XOR);
      XorCommutes(0, FINAL_XOR);
      XorUnit(FINAL_XOR);
      AllOnesClocked();
    } else {
      assert Fits(v, 0);
      StepBytesKernel(v, |t|, 0);
    }
  }

  lemma FinishFits(v: Variant, r: bv32)
    requires Fits(v, r)
    ensures Fits(v, Finish(v, r))
  {
  }
}
