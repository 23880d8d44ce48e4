/** Why eight bytes can go through eight tables at once. */
module Slicing {
  import opened Bits
  import opened Words64
  import opened Crc32cSpec

  /** The sum of every byte of s pushed through the zero bits from its own place to the end. */
  function Lanes(s: seq<Byte>): Word {
    if s == [] then 0 else Xor(Shifted(0, Index(s[0]), 8 * |s|), Lanes(s[1..]))
  }

  lemma {:induction false} ShiftedByte(b: Byte, n: nat)
    ensures Shifted(0, Index(b), n) == BitSteps(b as Word, n)
  {
    assert Index(b) as Byte == b;
    hide BitSteps, Wide, Index;
  }

  /** From a zero start, the register is the sum of its lanes. */
  lemma {:induction false} RegisterIsLanes(s: seq<Byte>)
    ensures Register(0, s) == Lanes(s)
  {
    hide BitSteps, Xor, Shifted, Wide, Index;
    if s != [] {
      var b, t := s[0], s[1..];
      assert s == [b] + t;
      JoinLanes(0, [b], t);
      RegisterIsLanes(t);
      RegisterOfByte(0, b);
      XorZero(b as Word);
      BitStepsAdd(b as Word, 8, 8 * |t|);
      ShiftedByte(b, 8 * |s|);
    }
  }

  lemma {:induction false} LanesXor(s: seq<Byte>, t: seq<Byte>)
    requires |s| == |t|
    ensures Lanes(XorBytes(s, t)) == Xor(Lanes(s), Lanes(t))
  {
    hide Xor, Shifted, XorByte, BitSteps, Wide, Index;
    XorZero(0);
    if s != [] {
      LanesXor(s[1..], t[1..]);
      assert XorBytes(s, t)[1..] == XorBytes(s[1..], t[1..]);
      var n, a, b := 8 * |s|, s[0], t[0];
      ShiftedByte(a, n);
      ShiftedByte(b, n);
      ShiftedByte(XorByte(a, b), n);
      XorByteAsWord(a, b);
      BitStepsXor(a as Word, b as Word, n);
      XorSwap(Shifted(0, Index(a), n), Lanes(s[1..]), Shifted(0, Index(b), n), Lanes(t[1..]));
    }
  }

  lemma XorByteAsWord(a: Byte, b: Byte)
    ensures XorByte(a, b) as Word == Xor(a as Word, b as Word)
  {}

  function Doubled(w: Word, n: nat): Word
    decreases n
  {
    if n == 0 then w else Doubled(Double(w), n - 1)
  }

  /** Doubling w n times loses no bit. */
  predicate HasRoom(w: Word, n: nat)
    decreases n
  {
    n == 0 || (w <= 0x7fffffff && HasRoom(Double(w), n - 1))
  }

  lemma DoubleIsEven(w: Word)
    requires w <= 0x7fffffff
    ensures !Odd(Double(w)) && Half(Double(w)) == w
  {}

  lemma EvenStep(w: Word)
    requires w <= 0x7fffffff
    ensures BitStep(Double(w)) == w
  {
    DoubleIsEven(w);
    hide Xor, Odd, Half, Double, Wide, Index;
  }

  /** Bits that are 0 leave the register without adding the polynomial. */
  lemma {:induction false} ZeroBitsLeave(w: Word, n: nat)
    requires HasRoom(w, n)
    ensures BitSteps(Doubled(w, n), n) == w
    decreases n
  {
    if n > 0 {
      EvenStep(w);
      hide Double, BitStep, Wide, Index;
      ZeroBitsLeave(Double(w), n - 1);
      BitStepsAdd(Doubled(w, n), n - 1, 1);
      assert BitSteps(Double(w), 1) == BitStep(Double(w));
    }
  }

  lemma {:induction false} EightDoublings(w: Word)
    requires w <= 0xffffff
    ensures HasRoom(w, 8) && Doubled(w, 8) == w << 8
  {}

  lemma AtByteBelow(b: Byte, j: nat)
    requires 0 < j < 4
    ensures AtByte(b, j) == AtByte(b, j - 1) << 8 && AtByte(b, j - 1) <= 0xffffff
  {}

  lemma AtByteMovesDown(b: Byte, j: nat)
    requires 0 < j < 4
    ensures BitSteps(AtByte(b, j), 8) == AtByte(b, j - 1)
  {
    hide BitSteps, HasRoom, Doubled, AtByte, Wide, Index;
    AtByteBelow(b, j);
    EightDoublings(AtByte(b, j - 1));
    ZeroBitsLeave(AtByte(b, j - 1), 8);
  }

  lemma {:induction false} ShiftedFirstByte(b: Byte, n: nat)
    ensures Shifted(0, Index(b), n) == BitSteps(AtByte(b, 0), n)
  {
    assert Index(b) as Byte == b;
    hide BitSteps, AtByte, Wide, Index;
  }

  function DropLow(x: Word): Word { x >> 8 }

  lemma DropLowIs(x: Word)
    ensures DropLow(x) == Xor(Xor(AtByte(ByteOf(x, 1), 0), AtByte(ByteOf(x, 2), 1)), AtByte(ByteOf(x, 3), 2))
  {}

  /** One byte step by table: the low byte is looked up, the rest moves down. */
  lemma {:induction false} StepByTable(x: Word)
    ensures BitSteps(x, 8) == Xor(Shifted(0, Index(ByteOf(x, 0)), 8), DropLow(x))
  {
    hide BitSteps, Xor, AtByte, ByteOf, Shifted, DropLow, Wide, Index;
    DropLowIs(x);
    ShiftByBytes(x, 8);
    ShiftedFirstByte(ByteOf(x, 0), 8);
    ThreeMoveDown(BitSteps(AtByte(ByteOf(x, 0), 0), 8), ByteOf(x, 1), ByteOf(x, 2), ByteOf(x, 3));
  }

  lemma ThreeMoveDown(p: Word, b: Byte, c: Byte, d: Byte)
    ensures Sum4(p, BitSteps(AtByte(b, 1), 8), BitSteps(AtByte(c, 2), 8), BitSteps(AtByte(d, 3), 8))
      == Xor(p, Xor(Xor(AtByte(b, 0), AtByte(c, 1)), AtByte(d, 2)))
  {
    hide BitSteps, Xor, AtByte, Wide, Index;
    AtByteMovesDown(b, 1);
    AtByteMovesDown(c, 2);
    AtByteMovesDown(d, 3);
    XorAssoc(p, AtByte(b, 0), AtByte(c, 1));
    XorAssoc(p, Xor(AtByte(b, 0), AtByte(c, 1)), AtByte(d, 2));
  }

  /** A byte in place j is 8 * j bits ahead of a byte in place 0. */
  lemma {:induction false} AtByteAhead(b: Byte, j: nat, n: nat)
    requires j < 4 && 8 * j <= n
    ensures BitSteps(AtByte(b, j), n) == Shifted(0, Index(b), n - 8 * j)
    decreases j
  {
    hide BitSteps, AtByte, Shifted, Wide, Index;
    if j == 0 {
      ShiftedFirstByte(b, n);
    } else {
      BitStepsAdd(AtByte(b, j), 8, n - 8);
      AtByteMovesDown(b, j);
      AtByteAhead(b, j - 1, n - 8);
    }
  }

  function Sum8(a: Word, b: Word, c: Word, d: Word, e: Word, f: Word, g: Word, h: Word): Word {
    Xor(Xor(Xor(Xor(Sum4(a, b, c, d), e), f), g), h)
  }

  lemma {:induction false} LanesUnfold(s: seq<Byte>)
    requires s != []
    ensures Lanes(s) == Xor(Shifted(0, Index(s[0]), 8 * |s|), Lanes(s[1..]))
  {}

  /** The lanes of the bytes from position i on. */
  function LanesFrom(s: seq<Byte>, i: nat): Word
    requires i <= |s|
  {
    Lanes(s[i..])
  }

  lemma LanesFromStep(p: Word, s: seq<Byte>, i: nat)
    requires i < |s|
    ensures var lane := Shifted(0, Index(s[i]), 8 * (|s| - i));
      LanesFrom(s, i) == Xor(LanesFrom(s, i + 1), lane) && Xor(p, LanesFrom(s, i)) == Xor(Xor(p, lane), LanesFrom(s, i + 1))
  {
    hide Xor, Shifted, Lanes, Index;
    LanesUnfold(s[i..]);
    assert s[i..][1..] == s[i + 1..];
    var lane := Shifted(0, Index(s[i]), 8 * (|s| - i));
    XorAssoc(p, lane, Lanes(s[i + 1..]));
    XorComm(lane, Lanes(s[i + 1..]));
  }

  lemma {:induction false} LanesFromEnds(s: seq<Byte>)
    ensures LanesFrom(s, 0) == Lanes(s) && LanesFrom(s, |s|) == 0
  {
    assert s[0..] == s;
    hide Xor, Shifted;
  }

  /** Eight lanes, summed in the order of the bytes. */
  lemma {:induction false} EightLanes(s: seq<Byte>)
    requires |s| == 8
    ensures Lanes(s) == Sum8(
        Shifted(0, Index(s[0]), 64), Shifted(0, Index(s[1]), 56), Shifted(0, Index(s[2]), 48), Shifted(0, Index(s[3]), 40),
        Shifted(0, Index(s[4]), 32), Shifted(0, Index(s[5]), 24), Shifted(0, Index(s[6]), 16), Shifted(0, Index(s[7]), 8))
  {
    hide Xor, Shifted, Lanes, LanesFrom, Index;
    LanesFromEnds(s);
    var p1 := Shifted(0, Index(s[0]), 64);
    var p2 := Xor(p1, Shifted(0, Index(s[1]), 56));
    var p3 := Xor(p2, Shifted(0, Index(s[2]), 48));
    var p4 := Xor(p3, Shifted(0, Index(s[3]), 40));
    var p5 := Xor(p4, Shifted(0, Index(s[4]), 32));
    var p6 := Xor(p5, Shifted(0, Index(s[5]), 24));
    var p7 := Xor(p6, Shifted(0, Index(s[6]), 16));
    XorComm(p1, LanesFrom(s, 1));
    LanesFromStep(p1, s, 0);
    LanesFromStep(p1, s, 1);
    LanesFromStep(p2, s, 2);
    LanesFromStep(p3, s, 3);
    LanesFromStep(p4, s, 4);
    LanesFromStep(p5, s, 5);
    LanesFromStep(p6, s, 6);
    LanesFromStep(p7, s, 7);
    XorZero(Xor(p7, Shifted(0, Index(s[7]), 8)));
  }

  /** Eight lanes, summed from the last byte to the first. */
  lemma {:induction false} EightLanesReversed(s: seq<Byte>)
    requires |s| == 8
    ensures Lanes(s) == Sum8(
        Shifted(0, Index(s[7]), 8), Shifted(0, Index(s[6]), 16), Shifted(0, Index(s[5]), 24), Shifted(0, Index(s[4]), 32),
        Shifted(0, Index(s[3]), 40), Shifted(0, Index(s[2]), 48), Shifted(0, Index(s[1]), 56), Shifted(0, Index(s[0]), 64))
  {
    hide Xor, Shifted, Lanes, LanesFrom, Index;
    LanesFromEnds(s);
    XorZero(Shifted(0, Index(s[7]), 8));
    LanesFromStep(0, s, 7);
    LanesFromStep(0, s, 6);
    LanesFromStep(0, s, 5);
    LanesFromStep(0, s, 4);
    LanesFromStep(0, s, 3);
    LanesFromStep(0, s, 2);
    LanesFromStep(0, s, 1);
    LanesFromStep(0, s, 0);
  }

  /** A word fed 64 zero bits is the sum of the lanes of its own four bytes. */
  lemma {:induction false} LanesOfWord(c: Word)
    ensures BitSteps(c, 64) == Lanes(Bytes(Wide(c)))
  {
    hide BitSteps, Xor, AtByte, ByteOf, Shifted, Lanes, ByteOf64, Bytes, Wide, Index;
    var s := Bytes(Wide(c));
    BytesOfWord(c);
    EightLanes(s);
    ShiftByBytes(c, 64);
    AtByteAhead(s[0], 0, 64);
    AtByteAhead(s[1], 1, 64);
    AtByteAhead(s[2], 2, 64);
    AtByteAhead(s[3], 3, 64);
    LaneOfZero(32);
    LaneOfZero(24);
    LaneOfZero(16);
    LaneOfZero(8);
    XorZero(BitSteps(c, 64));
  }

  lemma LaneOfZero(n: nat)
    ensures Shifted(0, Index(0), n) == 0
  {
    assert Index(0) == 0;
    ShiftedByte(0, n);
    hide BitSteps, Shifted, Wide, Index;
    BitStepsZero(n);
  }

  /** Slicing by eight: the register after s is the lanes of the loaded word plus the register. */
  lemma {:induction false} EightBytes(c: Word, s: seq<Byte>)
    requires |s| == 8
    ensures Register(c, s) == Lanes(Bytes(Xor64(Wide(c), LoadLittle(s))))
  {
    hide BitSteps, Xor, Lanes, Bytes, Register, XorBytes, LoadLittle, Xor64, Wide, Index;
    XorZero(c);
    Superposition(c, 0, s);
    RegisterIsLanes(s);
    LanesOfWord(c);
    BytesOfLoad(s);
    BytesOfXor(Wide(c), LoadLittle(s));
    LanesXor(Bytes(Wide(c)), s);
  }
}
