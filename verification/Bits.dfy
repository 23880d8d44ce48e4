/** 32- and 64-bit words, and facts about them small enough to be settled bit by bit. */
module Bits {
  type Byte = bv8
  type Word = bv32
  type Word64 = bv64

  /** Exclusive or, named so that a proof can use its laws without looking at bits. */
  function Xor(a: Word, b: Word): Word { a ^ b }

  function Complement(a: Word): Word { !a }

  lemma ComplementTwice(a: Word)
    ensures Complement(Complement(a)) == a
  {}

  function Odd(a: Word): bool { a & 1 == 1 }

  function Half(a: Word): Word { a >> 1 }

  function Double(a: Word): Word { a << 1 }

  function Bit(b: bool): Word { if b then 1 else 0 }

  lemma XorShift(a: Word, b: Word)
    ensures Half(Xor(a, b)) == Xor(Half(a), Half(b))
    ensures Double(Xor(a, b)) == Xor(Double(a), Double(b))
  {
    calc {
      Half(Xor(a, b));
      (a ^ b) >> 1;
      (a >> 1) ^ (b >> 1);
      Xor(Half(a), Half(b));
    }
    calc {
      Double(Xor(a, b));
      (a ^ b) << 1;
      (a << 1) ^ (b << 1);
      Xor(Double(a), Double(b));
    }
  }

  lemma XorOdd(a: Word, b: Word)
    ensures Odd(Xor(a, b)) == (Odd(a) != Odd(b))
  {
    LowBits(a, b);
  }

  lemma LowBits(a: Word, b: Word)
    ensures (a ^ b) & 1 == (a & 1) ^ (b & 1)
    ensures a & 1 == 0 || a & 1 == 1
    ensures b & 1 == 0 || b & 1 == 1
  {}

  lemma XorAssoc(a: Word, b: Word, c: Word)
    ensures Xor(Xor(a, b), c) == Xor(a, Xor(b, c))
  {}

  lemma XorComm(a: Word, b: Word)
    ensures Xor(a, b) == Xor(b, a)
  {}

  lemma XorZero(a: Word)
    ensures Xor(a, 0) == a
    ensures Xor(0, a) == a
    ensures Xor(a, a) == 0
  {}

  lemma XorSwap(a: Word, b: Word, c: Word, d: Word)
    ensures Xor(Xor(a, b), Xor(c, d)) == Xor(Xor(a, c), Xor(b, d))
  {
    hide Xor;
    XorAssoc(a, b, Xor(c, d));
    XorAssoc(b, c, d);
    XorComm(b, c);
    XorAssoc(c, b, d);
    XorAssoc(a, c, Xor(b, d));
  }

  /** A term met twice cancels, met once it can be pulled out. */
  lemma XorTerm(a: Word, b: Word, p: Word)
    ensures Xor(Xor(a, p), Xor(b, p)) == Xor(a, b)
    ensures Xor(Xor(a, p), b) == Xor(Xor(a, b), p)
    ensures Xor(a, Xor(b, p)) == Xor(Xor(a, b), p)
  {
    hide Xor;
    XorSwap(a, p, b, p);
    XorZero(p);
    XorZero(Xor(a, b));
    XorAssoc(a, b, p);
    XorAssoc(a, p, b);
    XorComm(p, b);
  }

  lemma OddIsLowBit(a: Word)
    ensures Bit(Odd(a)) == a & 1
  {
    LowBits(a, a);
  }

  lemma LowBitAndRest(a: Word)
    ensures (a & 1) ^ ((a >> 1) << 1) == a
  {}

  /** A word is the sum of its low bit and the rest. */
  lemma SplitLowBit(a: Word)
    ensures Xor(Bit(Odd(a)), Double(Half(a))) == a
  {
    hide Bit, Odd;
    OddIsLowBit(a);
    LowBitAndRest(a);
  }

  /** A byte as a table index. */
  function Index(b: Byte): (i: nat)
    ensures i < 256
  {
    b as int
  }

  /** A word in the low half of a 64-bit register. */
  function Wide(a: Word): Word64 { a as Word64 }

  /** Byte j of a word, counted from the low end. */
  function ByteOf(a: Word, j: nat): Byte
    requires j < 4
  {
    if j == 0 then (a & 0xff) as Byte
    else if j == 1 then ((a >> 8) & 0xff) as Byte
    else if j == 2 then ((a >> 16) & 0xff) as Byte
    else (a >> 24) as Byte
  }

  /** The word with byte b at position j and zeros elsewhere. */
  function AtByte(b: Byte, j: nat): Word
    requires j < 4
  {
    if j == 0 then b as Word
    else if j == 1 then (b as Word) << 8
    else if j == 2 then (b as Word) << 16
    else (b as Word) << 24
  }

  function Sum4(a: Word, b: Word, c: Word, d: Word): Word {
    Xor(Xor(Xor(a, b), c), d)
  }

  /** A word is the sum of its four bytes. */
  lemma SplitBytes(a: Word)
    ensures a == Sum4(AtByte(ByteOf(a, 0), 0), AtByte(ByteOf(a, 1), 1), AtByte(ByteOf(a, 2), 2), AtByte(ByteOf(a, 3), 3))
  {}

  /** The low half of a 64-bit register. */
  function Low(a: Word64): Word { (a & 0xffffffff) as Word }

  lemma LowOfWord(a: Word)
    ensures Low(Wide(a)) == a
  {}

  function Xor64(a: Word64, b: Word64): Word64 { a ^ b }

  lemma LowXor(a: Word64, b: Word64)
    ensures Low(Xor64(a, b)) == Xor(Low(a), Low(b))
  {}

  lemma LowNot(a: Word64)
    ensures Low(!a) == Complement(Low(a))
  {}
}
