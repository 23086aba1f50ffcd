/** The six table-driven update functions, each proved to return the bit-at-a-time CRC. */
module CrcUpdate {
  import opened Crc
  import opened CrcMessages
  import opened CrcTables

  /** The message a (pointer, length) pair denotes; a NULL pointer or zero length is none. */
  ghost function Message(data: array?<bv8>, size: nat): seq<bv8>
    requires data != null ==> size <= data.Length
    reads data
  {
    if data == null then [] else data[..size]
  }

  // ---------- one trip round each kind of loop ----------

  lemma Lookup(v: Variant, crc: bv32, b: bv8, entry: bv32)
    requires Fits(v, crc) && entry == Step8(v, Align(v, Index(v, crc, b)))
    ensures Xor(Rest(v, crc), entry) == ByteStep(v, crc, b)
    ensures Fits(v, ByteStep(v, crc, b))
  {
    ByteStepSplits(v, crc, b);
  }

  lemma RestRight16(v: Variant, crc: bv32)
    requires v.Reflected() && v.Width() == 2 && Fits(v, crc)
    ensures (crc >> 8) & 0xff == Rest(v, crc)
  {
  }

  lemma RestRight32(v: Variant, crc: bv32)
    requires v.Reflected() && v.Width() == 4
    ensures (crc >> 8) & 0xffff_ffff == Rest(v, crc)
  {
  }

  lemma RestLeft16(v: Variant, crc: bv32)
    requires !v.Reflected() && v.Width() == 2
    ensures (crc << 8) & 0xff00 == Rest(v, crc)
  {
  }

  lemma RestLeft32(v: Variant, crc: bv32)
    requires !v.Reflected() && v.Width() == 4
    ensures (crc << 8) & 0xffff_ff00 == Rest(v, crc)
  {
  }

  lemma RegisterExtends(v: Variant, x: bv32, m: seq<bv8>, k: nat)
    requires k < |m|
    ensures Register(v, x, m[..k + 1]) == ByteStep(v, Register(v, x, m[..k]), m[k])
  {
    assert m[..k + 1][..k] == m[..k];
  }

  lemma Widened(v: Variant, x: bv16)
    ensures Fits(v, x as bv32)
  {
  }

  lemma WordFits(v: Variant, x: bv32)
    requires v.Width() == 4
    ensures Fits(v, x)
  {
  }

  lemma Narrowed(v: Variant, x: bv32)
    requires v.Width() == 2 && Fits(v, x)
    ensures x <= 0xffff && (x as bv16) as bv32 == x
  {
  }

  /** One trip round the loop of Juno_CrcArcUpdate. */
  method ArcByte(crc: bv32, b: bv8) returns (next: bv32)
    requires Fits(Arc, crc)
    ensures Fits(Arc, next) && next == ByteStep(Arc, crc, b)
  {
    next := Xor((crc >> 8) & 0xff, ArcTable(XorByte((crc & 0xff) as bv8, b)));
    RestRight16(Arc, crc);
    ArcTableCorrect(Index(Arc, crc, b));
    Lookup(Arc, crc, b, ArcTable(Index(Arc, crc, b)));
  }

  method ArcUpdate(iCrc: bv16, data: array?<bv8>, size: nat) returns (r: bv16)
    requires data != null ==> size <= data.Length
    ensures r as bv32 == Update(Arc, iCrc as bv32, Message(data, size))
    ensures data == null || size == 0 ==> r == 0
  {
    if data == null || size == 0 {
      return 0;
    }
    ghost var m, seed := Message(data, size), iCrc as bv32;
    var crc := iCrc as bv32;
    Widened(Arc, iCrc);
    var cp, cnt := 0, size;
    while cnt > 0
      invariant cp + cnt == size
      invariant Fits(Arc, crc) && crc == Register(Arc, seed, m[..cp])
    {
      cnt := cnt - 1;
      RegisterExtends(Arc, seed, m, cp);
      crc := ArcByte(crc, data[cp]);
      cp := cp + 1;
    }
    assert m[..cp] == m;
    Narrowed(Arc, crc);
    return crc as bv16;
  }

  /** One trip round the loop of Juno_CrcKermitUpdate. */
  method KermitByte(crc: bv32, b: bv8) returns (next: bv32)
    requires Fits(Kermit, crc)
    ensures Fits(Kermit, next) && next == ByteStep(Kermit, crc, b)
  {
    next := Xor((crc >> 8) & 0xff, KermitTable(XorByte((crc & 0xff) as bv8, b)));
    RestRight16(Kermit, crc);
    KermitTableCorrect(Index(Kermit, crc, b));
    Lookup(Kermit, crc, b, KermitTable(Index(Kermit, crc, b)));
  }

  method KermitUpdate(iCrc: bv16, data: array?<bv8>, size: nat) returns (r: bv16)
    requires data != null ==> size <= data.Length
    ensures r as bv32 == Update(Kermit, iCrc as bv32, Message(data, size))
    ensures data == null || size == 0 ==> r == 0
  {
    if data == null || size == 0 {
      return 0;
    }
    ghost var m, seed := Message(data, size), iCrc as bv32;
    var crc := iCrc as bv32;
    Widened(Kermit, iCrc);
    var cp, cnt := 0, size;
    while cnt > 0
      invariant cp + cnt == size
      invariant Fits(Kermit, crc) && crc == Register(Kermit, seed, m[..cp])
    {
      cnt := cnt - 1;
      RegisterExtends(Kermit, seed, m, cp);
      crc := KermitByte(crc, data[cp]);
      cp := cp + 1;
    }
    assert m[..cp] == m;
    Narrowed(Kermit, crc);
    return crc as bv16;
  }

  /** One trip round the loop of Juno_CrcBinhexUpdate. */
  method BinhexByte(crc: bv32, b: bv8) returns (next: bv32)
    requires Fits(Binhex, crc)
    ensures Fits(Binhex, next) && next == ByteStep(Binhex, crc, b)
  {
    next := Xor((crc << 8) & 0xff00, BinhexTable(XorByte(((crc >> 8) & 0xff) as bv8, b)));
    RestLeft16(Binhex, crc);
    BinhexTableCorrect(Index(Binhex, crc, b));
    Lookup(Binhex, crc, b, BinhexTable(Index(Binhex, crc, b)));
  }

  method BinhexUpdate(iCrc: bv16, data: array?<bv8>, size: nat) returns (r: bv16)
    requires data != null ==> size <= data.Length
    ensures r as bv32 == Update(Binhex, iCrc as bv32, Message(data, size))
    ensures data == null || size == 0 ==> r == 0
  {
    if data == null || size == 0 {
      return 0;
    }
    ghost var m, seed := Message(data, size), iCrc as bv32;
    var crc := iCrc as bv32;
    Widened(Binhex, iCrc);
    var cp, cnt := 0, size;
    while cnt > 0
      invariant cp + cnt == size
      invariant Fits(Binhex, crc) && crc == Register(Binhex, seed, m[..cp])
    {
      cnt := cnt - 1;
      RegisterExtends(Binhex, seed, m, cp);
      crc := BinhexByte(crc, data[cp]);
      cp := cp + 1;
    }
    assert m[..cp] == m;
    Narrowed(Binhex, crc);
    return crc as bv16;
  }

  /** One trip round the loop of Juno_CrcCcittUpdate. */
  method CcittByte(crc: bv32, b: bv8) returns (next: bv32)
    requires Fits(Ccitt, crc)
    ensures Fits(Ccitt, next) && next == ByteStep(Ccitt, crc, b)
  {
    next := Xor((crc << 8) & 0xff00, CcittTable(XorByte(((crc >> 8) & 0xff) as bv8, b)));
    RestLeft16(Ccitt, crc);
    CcittTableCorrect(Index(Ccitt, crc, b));
    Lookup(Ccitt, crc, b, CcittTable(Index(Ccitt, crc, b)));
  }

  method CcittUpdate(iCrc: bv16, data: array?<bv8>, size: nat) returns (r: bv16)
    requires data != null ==> size <= data.Length
    ensures r as bv32 == Update(Ccitt, iCrc as bv32, Message(data, size))
    ensures data == null || size == 0 ==> r == 0
  {
    if data == null || size == 0 {
      return 0;
    }
    ghost var m, seed := Message(data, size), iCrc as bv32;
    var crc := iCrc as bv32;
    Widened(Ccitt, iCrc);
    var cp, cnt := 0, size;
    while cnt > 0
      invariant cp + cnt == size
      invariant Fits(Ccitt, crc) && crc == Register(Ccitt, seed, m[..cp])
    {
      cnt := cnt - 1;
      RegisterExtends(Ccitt, seed, m, cp);
      crc := CcittByte(crc, data[cp]);
      cp := cp + 1;
    }
    assert m[..cp] == m;
    Narrowed(Ccitt, crc);
    return crc as bv16;
  }

  /** One trip round the loop of Juno_CrcCcitt32Update. */
  method Ccitt32Byte(crc: bv32, b: bv8) returns (next: bv32)
    requires Fits(Ccitt32, crc)
    ensures Fits(Ccitt32, next) && next == ByteStep(Ccitt32, crc, b)
  {
    next := Xor((crc << 8) & 0xffff_ff00, Ccitt32Table(XorByte(((crc >> 24) & 0xff) as bv8, b)));
    RestLeft32(Ccitt32, crc);
    Ccitt32TableCorrect(Index(Ccitt32, crc, b));
    Lookup(Ccitt32, crc, b, Ccitt32Table(Index(Ccitt32, crc, b)));
  }

  method Ccitt32Update(iCrc: bv32, data: array?<bv8>, size: nat) returns (r: bv32)
    requires data != null ==> size <= data.Length
    ensures r == Update(Ccitt32, iCrc, Message(data, size))
    ensures data == null || size == 0 ==> r == 0
  {
    if data == null || size == 0 {
      return 0;
    }
    ghost var m, seed := Message(data, size), iCrc;
    var crc := iCrc;
    WordFits(Ccitt32, iCrc);
    var cp, cnt := 0, size;
    while cnt > 0
      invariant cp + cnt == size
      invariant Fits(Ccitt32, crc) && crc == Register(Ccitt32, seed, m[..cp])
    {
      cnt := cnt - 1;
      RegisterExtends(Ccitt32, seed, m, cp);
      crc := Ccitt32Byte(crc, data[cp]);
      cp := cp + 1;
    }
    assert m[..cp] == m;
    return crc;
  }

  /** One trip round the loop of Juno_CrcZipUpdate. */
  method ZipByte(crc: bv32, b: bv8) returns (next: bv32)
    requires Fits(Zip, crc)
    ensures Fits(Zip, next) && next == ByteStep(Zip, crc, b)
  {
    next := Xor((crc >> 8) & 0xffff_ffff, ZipTable(XorByte((crc & 0xff) as bv8, b)));
    RestRight32(Zip, crc);
    ZipTableCorrect(Index(Zip, crc, b));
    Lookup(Zip, crc, b, ZipTable(Index(Zip, crc, b)));
  }

  method ZipUpdate(iCrc: bv32, data: array?<bv8>, size: nat) returns (r: bv32)
    requires data != null ==> size <= data.Length
    ensures r == Update(Zip, iCrc, Message(data, size))
    ensures data == null || size == 0 ==> r == 0
  {
    if data == null || size == 0 {
      return 0;
    }
    ghost var m, seed := Message(data, size), iCrc;
    var crc := iCrc;
    WordFits(Zip, iCrc);
    var cp, cnt := 0, size;
    while cnt > 0
      invariant cp + cnt == size
      invariant Fits(Zip, crc) && crc == Register(Zip, seed, m[..cp])
    {
      cnt := cnt - 1;
      RegisterExtends(Zip, seed, m, cp);
      crc := ZipByte(crc, data[cp]);
      cp := cp + 1;
    }
    assert m[..cp] == m;
    return Xor(crc, 0xffff_ffff);
  }
}
