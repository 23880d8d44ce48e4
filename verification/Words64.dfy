/** The eight bytes of a 64-bit word in either byte order, and the byte swap between them. */
module Words64 {
  import opened Bits

  function LowByte(a: Word64): Byte { (a & 0xff) as Byte }

  function Drop(a: Word64): Word64 { a >> 8 }

  function XorByte(a: Byte, b: Byte): Byte { a ^ b }

  /** Byte j of a 64-bit word, counted from the low end. */
  function ByteOf64(a: Word64, j: nat): Byte
    requires j < 8
  {
    if j == 0 then LowByte(a)
    else if j == 1 then ((a >> 8) & 0xff) as Byte
    else if j == 2 then ((a >> 16) & 0xff) as Byte
    else if j == 3 then ((a >> 24) & 0xff) as Byte
    else if j == 4 then ((a >> 32) & 0xff) as Byte
    else if j == 5 then ((a >> 40) & 0xff) as Byte
    else if j == 6 then ((a >> 48) & 0xff) as Byte
    else (a >> 56) as Byte
  }

  lemma ByteOfDropped(a: Word64, j: nat)
    requires 0 < j < 8
    ensures ByteOf64(a, j) == ByteOf64(Drop(a), j - 1)
  {}

  function Bytes(a: Word64): (s: seq<Byte>)
    ensures |s| == 8
  {
    seq(8, j requires 0 <= j < 8 => ByteOf64(a, j))
  }

  /** An aligned 64-bit load on a little-endian processor. */
  function LoadLittle(s: seq<Byte>): Word64
    requires |s| == 8
  {
    (s[0] as Word64) | ((s[1] as Word64) << 8) | ((s[2] as Word64) << 16) | ((s[3] as Word64) << 24) |
    ((s[4] as Word64) << 32) | ((s[5] as Word64) << 40) | ((s[6] as Word64) << 48) | ((s[7] as Word64) << 56)
  }

  /** An aligned 64-bit load on a big-endian processor. */
  function LoadBig(s: seq<Byte>): Word64
    requires |s| == 8
  {
    (s[7] as Word64) | ((s[6] as Word64) << 8) | ((s[5] as Word64) << 16) | ((s[4] as Word64) << 24) |
    ((s[3] as Word64) << 32) | ((s[2] as Word64) << 40) | ((s[1] as Word64) << 48) | ((s[0] as Word64) << 56)
  }

  /** Swaps the bytes of a word: neighbours, then pairs, then halves. */
  function Swap(x: Word64): Word64 {
    var y := ((x << 8) & 0xff00ff00ff00ff00) | ((x >> 8) & 0xff00ff00ff00ff);
    var z := ((y << 16) & 0xffff0000ffff0000) | ((y >> 16) & 0xffff0000ffff);
    (z << 32) | (z >> 32)
  }

  lemma SwapReversesEach(x: Word64)
    ensures ByteOf64(Swap(x), 0) == ByteOf64(x, 7)
    ensures ByteOf64(Swap(x), 1) == ByteOf64(x, 6)
    ensures ByteOf64(Swap(x), 2) == ByteOf64(x, 5)
    ensures ByteOf64(Swap(x), 3) == ByteOf64(x, 4)
    ensures ByteOf64(Swap(x), 4) == ByteOf64(x, 3)
    ensures ByteOf64(Swap(x), 5) == ByteOf64(x, 2)
    ensures ByteOf64(Swap(x), 6) == ByteOf64(x, 1)
    ensures ByteOf64(Swap(x), 7) == ByteOf64(x, 0)
  {}

  lemma SwapReverses(x: Word64, j: nat)
    requires j < 8
    ensures ByteOf64(Swap(x), j) == ByteOf64(x, 7 - j)
  {
    hide Swap, ByteOf64;
    SwapReversesEach(x);
  }

  lemma SwapTwice(x: Word64)
    ensures Swap(Swap(x)) == x
  {}

  lemma SwapXor(a: Word64, b: Word64)
    ensures Swap(Xor64(a, b)) == Xor64(Swap(a), Swap(b))
  {}

  lemma LoadBigIsSwapped(s: seq<Byte>)
    requires |s| == 8
    ensures LoadBig(s) == Swap(LoadLittle(s))
  {}

  lemma BytesOfLoad(s: seq<Byte>)
    requires |s| == 8
    ensures Bytes(LoadLittle(s)) == s
  {}

  lemma LowByteXor(a: Word64, b: Word64)
    ensures LowByte(Xor64(a, b)) == XorByte(LowByte(a), LowByte(b))
    ensures Drop(Xor64(a, b)) == Xor64(Drop(a), Drop(b))
  {
    calc {
      LowByte(Xor64(a, b));
      ((a ^ b) & 0xff) as Byte;
      ((a & 0xff) as Byte) ^ ((b & 0xff) as Byte);
      XorByte(LowByte(a), LowByte(b));
    }
    calc {
      Drop(Xor64(a, b));
      (a ^ b) >> 8;
      (a >> 8) ^ (b >> 8);
      Xor64(Drop(a), Drop(b));
    }
  }

  lemma {:induction false} ByteOfXor(a: Word64, b: Word64, j: nat)
    requires j < 8
    ensures ByteOf64(Xor64(a, b), j) == XorByte(ByteOf64(a, j), ByteOf64(b, j))
    decreases j
  {
    if j == 0 {
      LowByteXor(a, b);
    } else {
      LowByteXor(a, b);
      hide Xor64, XorByte, Drop, ByteOf64;
      ByteOfDropped(a, j);
      ByteOfDropped(b, j);
      ByteOfDropped(Xor64(a, b), j);
      ByteOfXor(Drop(a), Drop(b), j - 1);
    }
  }

  lemma ByteOfWord(a: Word, j: nat)
    requires j < 8
    ensures ByteOf64(Wide(a), j) == if j < 4 then ByteOf(a, j) else 0
  {}

  lemma BytesOfXor(a: Word64, b: Word64)
    ensures Bytes(Xor64(a, b)) == XorBytes(Bytes(a), Bytes(b))
  {
    hide Xor64, XorByte, ByteOf64, LowByte, Drop;
    forall j | 0 <= j < 8
      ensures Bytes(Xor64(a, b))[j] == XorBytes(Bytes(a), Bytes(b))[j]
    {
      ByteOfXor(a, b, j);
    }
  }

  function XorBytes(s: seq<Byte>, t: seq<Byte>): (r: seq<Byte>)
    requires |s| == |t|
    ensures |r| == |s|
  {
    seq(|s|, i requires 0 <= i < |s| => XorByte(s[i], t[i]))
  }

  lemma BytesOfWord(a: Word)
    ensures Bytes(Wide(a)) == [ByteOf(a, 0), ByteOf(a, 1), ByteOf(a, 2), ByteOf(a, 3), 0, 0, 0, 0]
  {
    ByteOfWord(a, 0);
    ByteOfWord(a, 1);
    ByteOfWord(a, 2);
    ByteOfWord(a, 3);
    ByteOfWord(a, 4);
    ByteOfWord(a, 5);
    ByteOfWord(a, 6);
    ByteOfWord(a, 7);
    hide ByteOf, ByteOf64;
  }
}
