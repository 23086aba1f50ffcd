/** The register fed one message bit at a time. Bytes are only a grouping of the bit stream,
    so what holds of windows of whole bytes holds of windows at any bit offset. */
module CrcBits {
  import opened Crc
  import opened CrcMessages

  predicate Bit(b: bv8, place: bv8) {
    b & place != 0
  }

  predicate First(v: Variant, b: bv8) {
    Bit(b, if v.Reflected() then 1 else 128)
  }

  function Down(b: bv8): bv8 {
    b >> 1
  }

  function Up(b: bv8): bv8 {
    b << 1
  }

  function Next(v: Variant, b: bv8): bv8 {
    if v.Reflected() then Down(b) else Up(b)
  }

  /** The first k bits of a byte in the order they reach the register. */
  function FirstBits(v: Variant, b: bv8, k: nat): (s: seq<bool>)
    ensures |s| == k
    decreases k
  {
    if k == 0 then [] else [First(v, b)] + FirstBits(v, Next(v, b), k - 1)
  }

  function Bits(v: Variant, b: bv8): (s: seq<bool>)
    ensures |s| == 8
  {
    FirstBits(v, b, 8)
  }

  function BitsOf(v: Variant, m: seq<bv8>): (s: seq<bool>)
    ensures |s| == 8 * |m|
  {
    if m == [] then [] else BitsOf(v, m[..|m| - 1]) + Bits(v, m[|m| - 1])
  }

  /** Where a message bit meets the register: at the bit about to leave. */
  function Entry(v: Variant): bv32 {
    if v.Reflected() then 1 else v.Top()
  }

  function Clock(v: Variant, x: bv32, bit: bool): bv32 {
    Step(v, XorIf(bit, x, Entry(v)))
  }

  function Feed(v: Variant, x: bv32, bits: seq<bool>): bv32
    decreases |bits|
  {
    if bits == [] then x else Feed(v, Clock(v, x, bits[0]), bits[1..])
  }

  lemma {:induction false} FeedAppend(v: Variant, x: bv32, p: seq<bool>, q: seq<bool>)
    ensures Feed(v, x, p + q) == Feed(v, Feed(v, x, p), q)
    decreases |p|
  {
    if p == [] {
      assert p + q == q;
    } else {
      assert (p + q)[1..] == p[1..] + q;
      FeedAppend(v, Clock(v, x, p[0]), p[1..], q);
    }
  }

  // ---------- a clock loses nothing ----------

  lemma EntryFits(v: Variant)
    ensures Fits(v, Entry(v))
  {
    if v.Width() == 4 {
      assert Keep(0x8000_0000, 0xffff_ffff) == 0x8000_0000 && Keep(1, 0xffff_ffff) == 1;
    } else {
      assert Keep(0x8000, 0xffff) == 0x8000 && Keep(1, 0xffff) == 1;
    }
  }

  lemma EnteredFits(v: Variant, x: bv32, bit: bool)
    requires Fits(v, x)
    ensures Fits(v, XorIf(bit, x, Entry(v)))
  {
    EntryFits(v);
    XorFits(v, x, Entry(v));
    XorIfTrue(x, Entry(v));
    XorIfFalse(x, Entry(v));
  }

  lemma ClockFits(v: Variant, x: bv32, bit: bool)
    requires Fits(v, x)
    ensures Fits(v, Clock(v, x, bit))
  {
    EnteredFits(v, x, bit);
    StepKernel(v, XorIf(bit, x, Entry(v)));
  }

  lemma StepInjective(v: Variant, x: bv32, y: bv32)
    requires Fits(v, x) && Fits(v, y) && Step(v, x) == Step(v, y)
    ensures x == y
  {
    StepLinear(v, x, y);
    XorUnit(Step(v, x));
    XorFits(v, x, y);
    StepKernel(v, Xor(x, y));
    XorZeroIsEqual(x, y);
  }

  lemma XorCancels(x: bv32, y: bv32, e: bv32)
    requires Xor(x, e) == Xor(y, e)
    ensures x == y
  {
    XorAssociates(x, e, e);
    XorAssociates(y, e, e);
    XorUnit(e);
    XorUnit(x);
    XorUnit(y);
  }

  lemma ClockInjective(v: Variant, x: bv32, y: bv32, bit: bool)
    requires Fits(v, x) && Fits(v, y) && Clock(v, x, bit) == Clock(v, y, bit)
    ensures x == y
  {
    var e := Entry(v);
    EnteredFits(v, x, bit);
    EnteredFits(v, y, bit);
    StepInjective(v, XorIf(bit, x, e), XorIf(bit, y, e));
    if bit {
      XorIfTrue(x, e);
      XorIfTrue(y, e);
      XorCancels(x, y, e);
    } else {
      XorIfFalse(x, e);
      XorIfFalse(y, e);
    }
  }

  lemma {:induction false} FeedInjective(v: Variant, x: bv32, y: bv32, bits: seq<bool>)
    requires Fits(v, x) && Fits(v, y) && Feed(v, x, bits) == Feed(v, y, bits)
    ensures x == y
    decreases |bits|
  {
    if bits != [] {
      ClockFits(v, x, bits[0]);
      ClockFits(v, y, bits[0]);
      FeedInjective(v, Clock(v, x, bits[0]), Clock(v, y, bits[0]), bits[1..]);
      ClockInjective(v, x, y, bits[0]);
    }
  }

  lemma {:induction false} FeedFits(v: Variant, x: bv32, bits: seq<bool>)
    requires Fits(v, x)
    ensures Fits(v, Feed(v, x, bits))
    decreases |bits|
  {
    if bits != [] {
      ClockFits(v, x, bits[0]);
      FeedFits(v, Clock(v, x, bits[0]), bits[1..]);
    }
  }

  // ---------- a byte is its eight bits ----------

  /** The byte without its first bit. */
  function Later(v: Variant, b: bv8): bv8 {
    if v.Reflected() then b & 0xfe else b & 0x7f
  }

  lemma FirstApart(v: Variant, b: bv8)
    ensures Align(v, b) == if First(v, b) then Xor(Align(v, Later(v, b)), Entry(v)) else Align(v, Later(v, b))
  {
  }

  lemma LaterMoves(v: Variant, b: bv8)
    ensures Step(v, Align(v, Later(v, b))) == Align(v, Next(v, b))
  {
  }

  /** With a byte aligned on the register a clock takes in its first bit and moves the rest up. */
  lemma PeelBit(v: Variant, x: bv32, b: bv8)
    ensures Step(v, Xor(x, Align(v, b))) == Xor(Clock(v, x, First(v, b)), Align(v, Next(v, b)))
  {
    var e, later := Entry(v), Align(v, Later(v, b));
    FirstApart(v, b);
    LaterMoves(v, b);
    StepLinear(v, XorIf(First(v, b), x, e), later);
    XorMoves(x, later, e);
    if First(v, b) {
      XorIfTrue(x, e);
    } else {
      XorIfFalse(x, e);
    }
  }

  function Shifted(v: Variant, b: bv8, k: nat): bv8
    decreases k
  {
    if k == 0 then b else Shifted(v, Next(v, b), k - 1)
  }

  function Steps(v: Variant, k: nat, x: bv32): bv32
    decreases k
  {
    if k == 0 then x else Steps(v, k - 1, Step(v, x))
  }

  lemma {:induction false} PeelBits(v: Variant, x: bv32, b: bv8, k: nat)
    ensures Steps(v, k, Xor(x, Align(v, b))) == Xor(Feed(v, x, FirstBits(v, b, k)), Align(v, Shifted(v, b, k)))
    decreases k
  {
    if k > 0 {
      PeelBit(v, x, b);
      PeelBits(v, Clock(v, x, First(v, b)), Next(v, b), k - 1);
      FeedFirst(v, x, b, k - 1);
    }
  }

  lemma FeedFirst(v: Variant, x: bv32, b: bv8, k: nat)
    ensures Feed(v, x, FirstBits(v, b, k + 1)) == Feed(v, Clock(v, x, First(v, b)), FirstBits(v, Next(v, b), k))
  {
    assert FirstBits(v, b, k + 1)[1..] == FirstBits(v, Next(v, b), k);
  }

  lemma NextRight(v: Variant, b: bv8)
    requires v.Reflected()
    ensures Next(v, b) == Down(b)
  {
  }

  lemma DownEmpties(b: bv8)
    ensures Down(Down(Down(Down(Down(Down(Down(Down(b)))))))) == 0
  {
  }

  lemma EmptiesRight(v: Variant, b: bv8)
    requires v.Reflected()
    ensures Shifted(v, b, 8) == 0
  {
    var b1 := Down(b);
    var b2 := Down(b1);
    var b3 := Down(b2);
    var b4 := Down(b3);
    var b5 := Down(b4);
    var b6 := Down(b5);
    var b7 := Down(b6);
    var b8 := Down(b7);
    NextRight(v, b);
    NextRight(v, b1);
    NextRight(v, b2);
    NextRight(v, b3);
    NextRight(v, b4);
    NextRight(v, b5);
    NextRight(v, b6);
    NextRight(v, b7);
    DownEmpties(b);
  }

  lemma NextLeft(v: Variant, b: bv8)
    requires !v.Reflected()
    ensures Next(v, b) == Up(b)
  {
  }

  lemma UpEmpties(b: bv8)
    ensures Up(Up(Up(Up(Up(Up(Up(Up(b)))))))) == 0
  {
  }

  lemma EmptiesLeft(v: Variant, b: bv8)
    requires !v.Reflected()
    ensures Shifted(v, b, 8) == 0
  {
    var b1 := Up(b);
    var b2 := Up(b1);
    var b3 := Up(b2);
    var b4 := Up(b3);
    var b5 := Up(b4);
    var b6 := Up(b5);
    var b7 := Up(b6);
    var b8 := Up(b7);
    NextLeft(v, b);
    NextLeft(v, b1);
    NextLeft(v, b2);
    NextLeft(v, b3);
    NextLeft(v, b4);
    NextLeft(v, b5);
    NextLeft(v, b6);
    NextLeft(v, b7);
    UpEmpties(b);
  }

  lemma StepsNext(v: Variant, k: nat, x: bv32, y: bv32)
    requires y == Step(v, x)
    ensures Steps(v, k + 1, x) == Steps(v, k, y)
  {
  }

  lemma EightSteps(v: Variant, x: bv32)
    ensures Steps(v, 8, x) == Step8(v, x)
  {
    var x1 := Step(v, x);
    var x2 := Step(v, x1);
    var x3 := Step(v, x2);
    var x4 := Step(v, x3);
    var x5 := Step(v, x4);
    var x6 := Step(v, x5);
    var x7 := Step(v, x6);
    var x8 := Step(v, x7);
    StepsNext(v, 7, x, x1);
    StepsNext(v, 6, x1, x2);
    StepsNext(v, 5, x2, x3);
    StepsNext(v, 4, x3, x4);
    StepsNext(v, 3, x4, x5);
    StepsNext(v, 2, x5, x6);
    StepsNext(v, 1, x6, x7);
    StepsNext(v, 0, x7, x8);
  }

  lemma NothingLeft(v: Variant, x: bv32)
    ensures Xor(x, Align(v, 0)) == x
  {
    assert Align(v, 0) == 0;
    XorUnit(x);
  }

  /** Feeding the eight bits of a byte is the byte step. */
  lemma ByteIsEightBits(v: Variant, x: bv32, b: bv8)
    ensures Feed(v, x, Bits(v, b)) == ByteStep(v, x, b)
  {
    PeelBits(v, x, b, 8);
    EightSteps(v, Xor(x, Align(v, b)));
    if v.Reflected() {
      EmptiesRight(v, b);
    } else {
      EmptiesLeft(v, b);
    }
    NothingLeft(v, Feed(v, x, Bits(v, b)));
  }

  /** The byte-wise register is the register clocked once per message bit. */
  lemma {:induction false} RegisterIsBitwise(v: Variant, x: bv32, m: seq<bv8>)
    ensures Register(v, x, m) == Feed(v, x, BitsOf(v, m))
  {
    if m != [] {
      var k := |m| - 1;
      RegisterIsBitwise(v, x, m[..k]);
      ByteIsEightBits(v, Register(v, x, m[..k]), m[k]);
      FeedAppend(v, x, BitsOf(v, m[..k]), Bits(v, m[k]));
    }
  }

  // ---------- windows at any bit offset ----------

  lemma DownMoves(b: bv8)
    ensures Bit(Down(b), 1) == Bit(b, 2)
    ensures Bit(Down(b), 2) == Bit(b, 4)
    ensures Bit(Down(b), 4) == Bit(b, 8)
    ensures Bit(Down(b), 8) == Bit(b, 16)
    ensures Bit(Down(b), 16) == Bit(b, 32)
    ensures Bit(Down(b), 32) == Bit(b, 64)
    ensures Bit(Down(b), 64) == Bit(b, 128)
  {
  }

  lemma UpMoves(b: bv8)
    ensures Bit(Up(b), 128) == Bit(b, 64)
    ensures Bit(Up(b), 64) == Bit(b, 32)
    ensures Bit(Up(b), 32) == Bit(b, 16)
    ensures Bit(Up(b), 16) == Bit(b, 8)
    ensures Bit(Up(b), 8) == Bit(b, 4)
    ensures Bit(Up(b), 4) == Bit(b, 2)
    ensures Bit(Up(b), 2) == Bit(b, 1)
  {
  }

  /** The k-th bit of a byte to reach the register. */
  function Place(v: Variant, k: nat): bv8
    requires k < 8
  {
    match if v.Reflected() then k else 7 - k
    case 0 => 1
    case 1 => 2
    case 2 => 4
    case 3 => 8
    case 4 => 16
    case 5 => 32
    case 6 => 64
    case _ => 128
  }

  lemma NextMoves(v: Variant, b: bv8, k: nat)
    requires k < 7
    ensures Bit(Next(v, b), Place(v, k)) == Bit(b, Place(v, k + 1))
  {
    if v.Reflected() {
      NextRight(v, b);
      DownMoves(b);
    } else {
      NextLeft(v, b);
      UpMoves(b);
    }
  }

  lemma {:induction false} FirstBitsAt(v: Variant, b: bv8, n: nat, k: nat)
    requires k < n <= 8
    ensures FirstBits(v, b, n)[k] == Bit(b, Place(v, k))
    decreases k
  {
    if k > 0 {
      FirstBitsAt(v, Next(v, b), n - 1, k - 1);
      NextMoves(v, b, k - 1);
    }
  }

  lemma Assemble(c: seq<bool>) returns (b: bv8)
    requires |c| == 8
    ensures Bit(b, 1) == c[0] && Bit(b, 2) == c[1] && Bit(b, 4) == c[2] && Bit(b, 8) == c[3]
    ensures Bit(b, 16) == c[4] && Bit(b, 32) == c[5] && Bit(b, 64) == c[6] && Bit(b, 128) == c[7]
  {
    b := (if c[0] then 1 else 0) | (if c[1] then 2 else 0) | (if c[2] then 4 else 0)
         | (if c[3] then 8 else 0) | (if c[4] then 16 else 0) | (if c[5] then 32 else 0)
         | (if c[6] then 64 else 0) | (if c[7] then 128 else 0);
  }

  lemma PlacesRight(v: Variant)
    requires v.Reflected()
    ensures Place(v, 0) == 1 && Place(v, 1) == 2 && Place(v, 2) == 4 && Place(v, 3) == 8
    ensures Place(v, 4) == 16 && Place(v, 5) == 32 && Place(v, 6) == 64 && Place(v, 7) == 128
  {
  }

  lemma PlacesLeft(v: Variant)
    requires !v.Reflected()
    ensures Place(v, 0) == 128 && Place(v, 1) == 64 && Place(v, 2) == 32 && Place(v, 3) == 16
    ensures Place(v, 4) == 8 && Place(v, 5) == 4 && Place(v, 6) == 2 && Place(v, 7) == 1
  {
  }

  lemma ByteWithPlaces(v: Variant, s: seq<bool>) returns (b: bv8)
    requires |s| == 8
    ensures Bit(b, Place(v, 0)) == s[0] && Bit(b, Place(v, 1)) == s[1]
    ensures Bit(b, Place(v, 2)) == s[2] && Bit(b, Place(v, 3)) == s[3]
    ensures Bit(b, Place(v, 4)) == s[4] && Bit(b, Place(v, 5)) == s[5]
    ensures Bit(b, Place(v, 6)) == s[6] && Bit(b, Place(v, 7)) == s[7]
  {
    if v.Reflected() {
      PlacesRight(v);
      b := Assemble(s);
    } else {
      PlacesLeft(v);
      b := Assemble([s[7], s[6], s[5], s[4], s[3], s[2], s[1], s[0]]);
    }
  }

  lemma ByteFromBits(v: Variant, s: seq<bool>) returns (b: bv8)
    requires |s| == 8
    ensures Bits(v, b) == s
  {
    b := ByteWithPlaces(v, s);
    FirstBitsAt(v, b, 8, 0);
    FirstBitsAt(v, b, 8, 1);
    FirstBitsAt(v, b, 8, 2);
    FirstBitsAt(v, b, 8, 3);
    FirstBitsAt(v, b, 8, 4);
    FirstBitsAt(v, b, 8, 5);
    FirstBitsAt(v, b, 8, 6);
    FirstBitsAt(v, b, 8, 7);
  }

  lemma {:induction false} BytesFromBits(v: Variant, s: seq<bool>, k: nat) returns (m: seq<bv8>)
    requires |s| == 8 * k
    ensures |m| == k && BitsOf(v, m) == s
    decreases k
  {
    if k == 0 {
      m := [];
    } else {
      var before := BytesFromBits(v, s[..8 * (k - 1)], k - 1);
      var last := ByteFromBits(v, s[8 * (k - 1)..]);
      m := before + [last];
      assert m[..k - 1] == before;
      assert s == s[..8 * (k - 1)] + s[8 * (k - 1)..];
    }
  }

  /** Two different bit strings no longer than the register leave different registers. */
  lemma BitWindowsDiffer(v: Variant, x: bv32, p: seq<bool>, q: seq<bool>)
    requires Fits(v, x) && |p| == |q| <= 8 * v.Width() && p != q
    ensures Feed(v, x, p) != Feed(v, x, q)
  {
    var pad := seq(8 * v.Width() - |p|, _ => false);
    var m := BytesFromBits(v, p + pad, v.Width());
    var n := BytesFromBits(v, q + pad, v.Width());
    assert (p + pad)[..|p|] == p && (q + pad)[..|q|] == q;
    RegisterIsBitwise(v, x, m);
    RegisterIsBitwise(v, x, n);
    FeedAppend(v, x, p, pad);
    FeedAppend(v, x, q, pad);
    WindowsDiffer(v, x, m, n);
  }

  /** Burst detection in bits: messages whose bit streams differ only inside a stretch no
      longer than the register, wherever it starts, never have equal CRCs. */
  lemma BitBurstIsDetected(v: Variant, x: bv32, m: seq<bv8>, n: seq<bv8>,
                           head: seq<bool>, p: seq<bool>, q: seq<bool>, tail: seq<bool>)
    requires Fits(v, x)
    requires BitsOf(v, m) == head + p + tail && BitsOf(v, n) == head + q + tail
    requires |p| == |q| <= 8 * v.Width() && p != q
    ensures Update(v, x, m) != Update(v, x, n)
  {
    var r := Feed(v, x, head);
    var y, z := Feed(v, r, p), Feed(v, r, q);
    RegisterIsBitwise(v, x, m);
    RegisterIsBitwise(v, x, n);
    FeedAppend(v, x, head, p);
    FeedAppend(v, x, head, q);
    FeedAppend(v, x, head + p, tail);
    FeedAppend(v, x, head + q, tail);
    FeedFits(v, x, head);
    FeedFits(v, r, p);
    FeedFits(v, r, q);
    BitWindowsDiffer(v, r, p, q);
    if Feed(v, y, tail) == Feed(v, z, tail) {
      FeedInjective(v, y, z, tail);
    }
    if Update(v, x, m) == Update(v, x, n) {
      FinishInjective(v, Feed(v, y, tail), Feed(v, z, tail));
    }
  }
}
