/** CRC-32C with the Intel crc32 instruction: three lanes at a time, joined by zeros operators. */
module Crc32cHw {
  import opened Bits
  import opened Crc32cSpec
  import opened Crc32cMatrix

  /** Block sizes for the three-way computation: powers of two, multiples of eight. */
  const LONG: nat := 8192
  const SHORT: nat := 256

  /** vec times mat, one bit of vec after the other. */
  method Gf2MatrixTimes(mat: array<Word>, vec: Word) returns (sum: Word)
    requires Fits(vec, mat.Length)
    ensures sum == Times(mat[..], vec)
  {
    hide Xor, Odd, Half;
    sum := 0;
    var v, i := vec, 0;
    XorZero(Times(mat[..], vec));
    while v != 0
      invariant i <= mat.Length && Fits(v, mat.Length - i)
      invariant Xor(sum, Times(mat[i..], v)) == Times(mat[..], vec)
      decreases mat.Length - i
    {
      XorZero(sum);
      XorAssoc(sum, Selected(mat[i], Odd(v)), Times(mat[i + 1..], Half(v)));
      assert mat[i..][1..] == mat[i + 1..];
      if Odd(v) {
        sum := Xor(sum, mat[i]);
      }
      v := Half(v);
      i := i + 1;
    }
    TimesZero(mat[i..]);
    XorZero(sum);
  }

  /** Multiplies a matrix by itself: the operator for twice as many zero bits. */
  method Gf2MatrixSquare(square: array<Word>, mat: array<Word>)
    requires square.Length == mat.Length == 32 && square != mat
    modifies square
    ensures forall i :: 0 <= i < 32 ==> square[i] == Times(mat[..], mat[i])
    ensures forall n: nat :: Feeds(mat[..], n) ==> Feeds(square[..], 2 * n)
  {
    hide Times, Fits, Feeds;
    for i := 0 to 32
      invariant forall k :: 0 <= k < i ==> square[k] == Times(mat[..], mat[k])
    {
      AllFit(mat[i]);
      square[i] := Gf2MatrixTimes(mat, mat[i]);
    }
    forall n: nat | Feeds(mat[..], n)
      ensures Feeds(square[..], 2 * n)
    {
      SquareFeeds(mat[..], square[..], n);
    }
  }

  lemma PowersMove(done: seq<Word>, row: Word, n: nat)
    requires n > 0
    ensures done + Powers(row, n) == (done + [row]) + Powers(Double(row), n - 1)
  {
    hide Double;
    assert Powers(row, n) == [row] + Powers(Double(row), n - 1);
  }

  /** Puts the operator for one zero bit in odd. */
  method OneZeroBit(odd: array<Word>)
    requires odd.Length == 32
    modifies odd
    ensures Feeds(odd[..], 1)
  {
    hide Feeds, Times, Double, Fits, Powers;
    odd[0] := POLY;
    var row: Word := 1;
    for n := 1 to 32
      invariant odd[0] == POLY
      invariant Powers(1, 31) == odd[1..n] + Powers(row, 32 - n)
    {
      ghost var done := odd[1..n];
      PowersMove(done, row, 32 - n);
      odd[n] := row;
      assert odd[1..n + 1] == done + [row];
      row := Double(row);
    }
    PowersUnfold(row, 0);
    assert odd[..] == [POLY] + Powers(1, 31);
    ShiftRegisterFeeds(odd[..]);
  }

  /** Bits fed by the answer when an operator for bits is squared until len is shifted out. */
  ghost function BitsReached(bits: nat, len: nat): nat
    decreases len
  {
    if len < 2 then 2 * bits else BitsReached(2 * bits, len / 2)
  }

  lemma {:induction false} BitsReachedIs(bits: nat, len: nat)
    ensures BitsReached(bits, len) == 2 * (bits * PowerBelow(len))
    decreases len
  {
    if len >= 2 {
      BitsReachedIs(2 * bits, len / 2);
    }
  }

  /**
   * Puts in even the operator that feeds PowerBelow(len) zero bytes, whichever of the two
   * buffers the squaring ends in.
   */
  method Crc32cZerosOp(even: array<Word>, len: nat)
    requires even.Length == 32
    modifies even
    ensures Feeds(even[..], 8 * PowerBelow(len))
  {
    hide Feeds, Times;
    var odd := new Word[32];
    OneZeroBit(odd);
    Gf2MatrixSquare(even, odd);
    assert Feeds(even[..], 2 * 1);
    Gf2MatrixSquare(odd, even);
    assert Feeds(odd[..], 2 * 2);
    BitsReachedIs(4, len);
    var rest := len;
    ghost var bits: nat := 4;
    while true
      invariant Feeds(odd[..], bits)
      invariant BitsReached(bits, rest) == 8 * PowerBelow(len)
      decreases rest
    {
      Gf2MatrixSquare(even, odd);
      assert Feeds(even[..], 2 * bits);
      rest := rest / 2;
      if rest == 0 {
        return;
      }
      Gf2MatrixSquare(odd, even);
      bits := 2 * (2 * bits);
      rest := rest / 2;
      if rest == 0 {
        break;
      }
    }
    CopyMatrix(even, odd);
  }

  method CopyMatrix(even: array<Word>, odd: array<Word>)
    requires even.Length == odd.Length == 32 && even != odd
    modifies even
    ensures even[..] == odd[..]
  {
    for n := 0 to 32
      invariant even[..n] == odd[..n]
    {
      even[n] := odd[n];
    }
    assert even[..] == odd[..];
  }

  /** zeros shifts a CRC by n zero bytes, one byte of the CRC at a time. */
  ghost predicate ShiftTable(zeros: array2<Word>, n: nat)
    reads zeros
  {
    zeros.Length0 == 4 && zeros.Length1 == 256 &&
    forall j, k :: 0 <= j < 4 && 0 <= k < 256 ==> zeros[j, k] == Shifted(j, k, 8 * n)
  }

  /** Builds the tables that shift a CRC by len zero bytes, len rounded down to a power of two. */
  method Crc32cZeros(zeros: array2<Word>, len: nat)
    requires zeros.Length0 == 4 && zeros.Length1 == 256
    modifies zeros
    ensures ShiftTable(zeros, PowerBelow(len))
  {
    hide Fits, Times, Feeds, AtByte, BitSteps, PowerBelow, Shifted;
    var op := new Word[32];
    Crc32cZerosOp(op, len);
    ghost var bits := 8 * PowerBelow(len);
    for n := 0 to 256
      invariant Feeds(op[..], bits)
      invariant forall j, k :: 0 <= j < 4 && 0 <= k < n ==> zeros[j, k] == Shifted(j, k, bits)
    {
      zeros[0, n] := Applied(op, 0, n, bits);
      zeros[1, n] := Applied(op, 1, n, bits);
      zeros[2, n] := Applied(op, 2, n, bits);
      zeros[3, n] := Applied(op, 3, n, bits);
    }
  }

  /** The operator applied to byte n at position j. */
  method Applied(op: array<Word>, j: nat, n: nat, ghost bits: nat) returns (r: Word)
    requires Feeds(op[..], bits)
    requires j < 4 && n < 256
    ensures r == Shifted(j, n, bits)
  {
    var v := AtByte(n as Byte, j);
    AllFit(v);
    r := Gf2MatrixTimes(op, v);
  }

  /** Applies the zeros operator table to crc. */
  function Crc32cShift(zeros: array2<Word>, crc: Word, ghost n: nat): (r: Word)
    requires ShiftTable(zeros, n)
    reads zeros
    ensures r == BitSteps(crc, 8 * n)
  {
    ShiftByBytes(crc, 8 * n);
    Sum4(zeros[0, Index(ByteOf(crc, 0))], zeros[1, Index(ByteOf(crc, 1))],
         zeros[2, Index(ByteOf(crc, 2))], zeros[3, Index(ByteOf(crc, 3))])
  }

  /** The instruction crc32b: one byte into the low half of a register, whose high half is cleared. */
  function Crc32b(crc: Word64, b: Byte): Word64 {
    Wide(ByteStep(Low(crc), b))
  }

  /** The instruction crc32q: the eight bytes of memory from next, lowest address first. */
  function Crc32q(crc: Word64, buf: seq<Byte>, next: nat): Word64
    requires next + 8 <= |buf|
  {
    Wide(Register(Low(crc), buf[next..next + 8]))
  }

  /** crc is the register, in the low half, after the bytes s from the start value c. */
  ghost predicate Holds(crc: Word64, c: Word, s: seq<Byte>) {
    Low(crc) == Register(c, s)
  }

  lemma HoldsByte(crc: Word64, c: Word, buf: seq<Byte>, from: nat, next: nat)
    requires from <= next < |buf|
    requires Holds(crc, c, buf[from..next])
    ensures Holds(Crc32b(crc, buf[next]), c, buf[from..next + 1])
  {
    hide Low, Wide, Register, ByteStep;
    RegisterExtend(c, buf, from, next, next + 1);
    assert buf[next..next + 1] == [buf[next]];
    RegisterOfByte(Low(crc), buf[next]);
    LowOfWord(ByteStep(Low(crc), buf[next]));
  }

  lemma HoldsWord(crc: Word64, c: Word, buf: seq<Byte>, from: nat, next: nat)
    requires from <= next && next + 8 <= |buf|
    requires Holds(crc, c, buf[from..next])
    ensures Holds(Crc32q(crc, buf, next), c, buf[from..next + 8])
  {
    hide Low, Wide, Register;
    RegisterExtend(c, buf, from, next, next + 8);
    LowOfWord(Register(Low(crc), buf[next..next + 8]));
  }

  /**
   * Computes sets of three blocks while they last, each with three independent lanes that are
   * then joined by shifting over a block.
   */
  method ThreeLanes(block: nat, zeros: array2<Word>, ghost c: Word, crc: Word64, buf: seq<Byte>, start: nat)
      returns (crc0: Word64, next: nat)
    requires block > 0 && block % 8 == 0
    requires ShiftTable(zeros, block)
    requires start <= |buf| && Holds(crc, c, buf[0..start])
    ensures start <= next <= |buf| && Holds(crc0, c, buf[0..next])
    ensures |buf| - next < 3 * block
  {
    hide Holds, Crc32q, ShiftTable;
    crc0, next := crc, start;
    while |buf| - next >= 3 * block
      invariant start <= next <= |buf| && Holds(crc0, c, buf[0..next])
    {
      crc0 := OneSet(block, zeros, c, crc0, buf, next);
      next := next + 3 * block;
    }
  }

  /** One set of three blocks. */
  method OneSet(block: nat, zeros: array2<Word>, ghost c: Word, crc: Word64, buf: seq<Byte>, first: nat)
      returns (crc0: Word64)
    requires block > 0 && block % 8 == 0
    requires ShiftTable(zeros, block)
    requires first + 3 * block <= |buf| && Holds(crc, c, buf[0..first])
    ensures Holds(crc0, c, buf[0..first + 3 * block])
  {
    hide Holds, Crc32q, ShiftTable;
    var crc1, crc2: Word64 := 0, 0;
    var next, end := first, first + block;
    ghost var second, third := first + block, first + 2 * block;
    crc0 := crc;
    assert Holds(0, 0, []) by { HoldsNothing(); }
    assert buf[second..second] == [] == buf[third..third];
    while true
      invariant first <= next < end && (next - first) % 8 == 0
      invariant Holds(crc0, c, buf[0..next])
      invariant Holds(crc1, 0, buf[second..next + block])
      invariant Holds(crc2, 0, buf[third..next + 2 * block])
      decreases end - next
    {
      HoldsWord(crc0, c, buf, 0, next);
      HoldsWord(crc1, 0, buf, second, next + block);
      HoldsWord(crc2, 0, buf, third, next + 2 * block);
      crc0 := Crc32q(crc0, buf, next);
      crc1 := Crc32q(crc1, buf, next + block);
      crc2 := Crc32q(crc2, buf, next + 2 * block);
      next := next + 8;
      if next >= end {
        break;
      }
    }
    crc0 := Join(block, zeros, c, crc0, crc1, buf, first + block);
    crc0 := Join(block, zeros, c, crc0, crc2, buf, first + 2 * block);
  }

  lemma HoldsNothing()
    ensures Holds(0, 0, [])
  {}

  /** Shifts crc0 over the block that crc1 has seen and adds crc1. */
  method Join(block: nat, zeros: array2<Word>, ghost c: Word, crc0: Word64, crc1: Word64, buf: seq<Byte>, ghost from: nat)
      returns (crc: Word64)
    requires ShiftTable(zeros, block)
    requires from + block <= |buf|
    requires Holds(crc0, c, buf[0..from]) && Holds(crc1, 0, buf[from..from + block])
    ensures Holds(crc, c, buf[0..from + block])
  {
    hide ShiftTable, Register, Low, Wide, BitSteps, Xor, Xor64;
    var shifted := Crc32cShift(zeros, Low(crc0), block);
    crc := Xor64(Wide(shifted), crc1);
    LowXor(Wide(shifted), crc1);
    LowOfWord(shifted);
    JoinLanes(c, buf[0..from], buf[from..from + block]);
    assert buf[0..from + block] == buf[0..from] + buf[from..from + block];
  }

  /**
   * The CRC-32C of buf continued from crc, where buf starts at address addr: leading bytes up to
   * an eight-byte boundary, LONG sets, SHORT sets, eight-byte units, trailing bytes.
   */
  method Crc32cHw(crc: Word, buf: seq<Byte>, addr: nat, long: array2<Word>, short: array2<Word>) returns (r: Word)
    requires ShiftTable(long, LONG) && ShiftTable(short, SHORT)
    ensures r == Crc32c(crc, buf)
  {
    hide Holds, Crc32b, Crc32q, ShiftTable, Register, Complement, Low, Wide;
    ghost var c := Complement(crc);
    var crc0 := Wide(Complement(crc));
    var next := 0;
    HoldsStart(c);
    assert buf[0..0] == [];
    while next < |buf| && (addr + next) % 8 != 0
      invariant next <= |buf| && Holds(crc0, c, buf[0..next])
    {
      HoldsByte(crc0, c, buf, 0, next);
      crc0 := Crc32b(crc0, buf[next]);
      next := next + 1;
    }
    crc0, next := ThreeLanes(LONG, long, c, crc0, buf, next);
    crc0, next := ThreeLanes(SHORT, short, c, crc0, buf, next);
    var end := next + (|buf| - next) / 8 * 8;
    while next < end
      invariant next <= end <= |buf| && (end - next) % 8 == 0 && Holds(crc0, c, buf[0..next])
    {
      HoldsWord(crc0, c, buf, 0, next);
      crc0 := Crc32q(crc0, buf, next);
      next := next + 8;
    }
    while next < |buf|
      invariant next <= |buf| && Holds(crc0, c, buf[0..next])
    {
      HoldsByte(crc0, c, buf, 0, next);
      crc0 := Crc32b(crc0, buf[next]);
      next := next + 1;
    }
    assert buf[0..|buf|] == buf;
    r := Finished(crc0, crc, buf);
  }

  lemma HoldsStart(c: Word)
    ensures Holds(Wide(c), c, [])
  {
    LowOfWord(c);
  }

  /** The low half of the complemented register. */
  function Finished(crc0: Word64, ghost crc: Word, ghost buf: seq<Byte>): (r: Word)
    requires Holds(crc0, Complement(crc), buf)
    ensures r == Crc32c(crc, buf)
  {
    LowNot(crc0);
    Low(!crc0)
  }

  /** Fills the tables for the two block sizes. */
  method Crc32cInitHw(long: array2<Word>, short: array2<Word>)
    requires long.Length0 == short.Length0 == 4 && long.Length1 == short.Length1 == 256 && long != short
    modifies long, short
    ensures ShiftTable(long, LONG) && ShiftTable(short, SHORT)
  {
    Crc32cZeros(long, LONG);
    Crc32cZeros(short, SHORT);
  }
}
