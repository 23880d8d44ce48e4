/** The CRC-32C of section 12.1 of RFC 3720, one bit at a time: the reflected shift register. */
module Crc32cSpec {
  import opened Bits

  /** The Castagnoli polynomial, lowest power in the highest bit. */
  const POLY: Word := 0x82f63b78

  function BitStep(c: Word): Word {
    if Odd(c) then Xor(Half(c), POLY) else Half(c)
  }

  /** n shifts of the register, i.e. n zero bits fed in. */
  function BitSteps(c: Word, n: nat): Word
    decreases n
  {
    if n == 0 then c else BitSteps(BitStep(c), n - 1)
  }

  function ByteStep(c: Word, b: Byte): Word {
    BitSteps(Xor(c, b as Word), 8)
  }

  /** The register after all bytes of s. */
  function Register(c: Word, s: seq<Byte>): Word {
    if s == [] then c else ByteStep(Register(c, s[..|s| - 1]), s[|s| - 1])
  }

  /** The CRC-32C of s continued from the CRC crc of what came before (0 when nothing did). */
  function Crc32c(crc: Word, s: seq<Byte>): Word {
    Complement(Register(Complement(crc), s))
  }

  // ----- composition -----

  lemma {:induction false} BitStepsAdd(c: Word, m: nat, n: nat)
    ensures BitSteps(BitSteps(c, m), n) == BitSteps(c, m + n)
    decreases m
  {
    hide BitStep;
    if m > 0 {
      BitStepsAdd(BitStep(c), m - 1, n);
    }
  }

  lemma {:induction false} RegisterConcat(c: Word, s: seq<Byte>, t: seq<Byte>)
    ensures Register(c, s + t) == Register(Register(c, s), t)
  {
    hide ByteStep;
    if t == [] {
      assert s + t == s;
    } else {
      assert (s + t)[..|s + t| - 1] == s + t[..|t| - 1];
      RegisterConcat(c, s, t[..|t| - 1]);
    }
  }

  /** A CRC may be computed a chunk at a time, feeding each result into the next call. */
  lemma CrcOfChunks(crc: Word, s: seq<Byte>, t: seq<Byte>)
    ensures Crc32c(Crc32c(crc, s), t) == Crc32c(crc, s + t)
  {
    ComplementTwice(Register(Complement(crc), s));
    hide Register, Complement;
    RegisterConcat(Complement(crc), s, t);
  }

  // ----- linearity -----

  lemma BitStepXor(a: Word, b: Word)
    ensures BitStep(Xor(a, b)) == Xor(BitStep(a), BitStep(b))
  {
    XorShift(a, b);
    hide Xor, Half, Odd;
    XorOdd(a, b);
    XorTerm(Half(a), Half(b), POLY);
  }

  lemma {:induction false} BitStepsXor(a: Word, b: Word, n: nat)
    ensures BitSteps(Xor(a, b), n) == Xor(BitSteps(a, n), BitSteps(b, n))
    decreases n
  {
    hide BitStep, Xor;
    if n > 0 {
      BitStepXor(a, b);
      BitStepsXor(BitStep(a), BitStep(b), n - 1);
    }
  }

  lemma {:induction false} BitStepsZero(n: nat)
    ensures BitSteps(0, n) == 0
  {
    if n > 0 {
      BitStepsZero(n - 1);
    }
  }

  /**
   * Superposition: the register is linear in its start value, so a run from c + d is a run from
   * d plus c pushed through as many zero bits as there are bits in s.
   */
  lemma {:induction false} Superposition(c: Word, d: Word, s: seq<Byte>)
    ensures Register(Xor(c, d), s) == Xor(BitSteps(c, 8 * |s|), Register(d, s))
  {
    hide BitSteps, Xor;
    if s == [] {
      BitStepsAdd(c, 0, 0);
      assert BitSteps(c, 0) == c by { BitStepsNone(c); }
    } else {
      var t, b := s[..|s| - 1], s[|s| - 1] as Word;
      var r, z := Register(d, t), BitSteps(c, 8 * |t|);
      Superposition(c, d, t);
      XorAssoc(z, r, b);
      BitStepsXor(z, Xor(r, b), 8);
      BitStepsAdd(c, 8 * |t|, 8);
    }
  }

  lemma {:induction false} BitStepsNone(c: Word)
    ensures BitSteps(c, 0) == c
  {}

  /** The lanes s and t can be computed apart: the first result shifted plus the second. */
  lemma {:induction false} JoinLanes(c: Word, s: seq<Byte>, t: seq<Byte>)
    ensures Register(c, s + t) == Xor(BitSteps(Register(c, s), 8 * |t|), Register(0, t))
  {
    hide BitSteps, Register, Xor;
    var r := Register(c, s);
    RegisterConcat(c, s, t);
    XorZero(r);
    Superposition(r, 0, t);
  }

  /** Extending the part of a buffer that the register has seen. */
  lemma {:induction false} RegisterExtend(c: Word, buf: seq<Byte>, from: nat, mid: nat, to: nat)
    requires from <= mid <= to <= |buf|
    ensures Register(c, buf[from..to]) == Register(Register(c, buf[from..mid]), buf[mid..to])
  {
    hide Register;
    assert buf[from..to] == buf[from..mid] + buf[mid..to];
    RegisterConcat(c, buf[from..mid], buf[mid..to]);
  }

  lemma {:induction false} RegisterOfByte(c: Word, b: Byte)
    ensures Register(c, [b]) == ByteStep(c, b)
  {
    hide ByteStep;
    assert [b][..0] == [];
  }

  /** Byte n at position j of a CRC, after so many zero bits. */
  function Shifted(j: nat, n: nat, bits: nat): Word
    requires j < 4 && n < 256
  {
    BitSteps(AtByte(n as Byte, j), bits)
  }

  /** Shifting is linear, so the bytes of a word can be shifted apart. */
  lemma {:induction false} ShiftByBytes(a: Word, n: nat)
    ensures BitSteps(a, n) == Sum4(BitSteps(AtByte(ByteOf(a, 0), 0), n), BitSteps(AtByte(ByteOf(a, 1), 1), n),
                                   BitSteps(AtByte(ByteOf(a, 2), 2), n), BitSteps(AtByte(ByteOf(a, 3), 3), n))
  {
    SplitBytes(a);
    hide AtByte, ByteOf, Xor, BitSteps;
    var p, q, r, s := AtByte(ByteOf(a, 0), 0), AtByte(ByteOf(a, 1), 1), AtByte(ByteOf(a, 2), 2), AtByte(ByteOf(a, 3), 3);
    BitStepsXor(Xor(Xor(p, q), r), s, n);
    BitStepsXor(Xor(p, q), r, n);
    BitStepsXor(p, q, n);
  }

  lemma {:induction false} RegisterOfNothing(c: Word, buf: seq<Byte>)
    ensures Register(c, buf[0..0]) == c
  {
    hide ByteStep;
  }

  lemma {:induction false} RegisterNextByte(c: Word, buf: seq<Byte>, next: nat)
    requires next < |buf|
    ensures Register(c, buf[0..next + 1]) == ByteStep(Register(c, buf[0..next]), buf[next])
  {
    hide ByteStep;
    assert buf[0..next + 1][..next] == buf[0..next];
  }

  lemma CheckBytes()
    ensures ByteStep(0xffffffff, 0x31) == 0x6f0a661c
    ensures ByteStep(0x6f0a661c, 0x32) == 0x8caa3b9f
    ensures ByteStep(0x8caa3b9f, 0x33) == 0xef84d04d
    ensures ByteStep(0xef84d04d, 0x34) == 0x9c50b11
    ensures ByteStep(0x9c50b11, 0x35) == 0xe72edcca
    ensures ByteStep(0xe72edcca, 0x36) == 0xbeca8e79
    ensures ByteStep(0xbeca8e79, 0x37) == 0xedbd6815
    ensures ByteStep(0xedbd6815, 0x38) == 0x9f787f65
    ensures ByteStep(0x9f787f65, 0x39) == 0x1cf96d7c
  {
    assert BitSteps(0xffffffce, 8) == 0x6f0a661c;
    assert BitSteps(0x6f0a662e, 8) == 0x8caa3b9f;
    assert BitSteps(0x8caa3bac, 8) == 0xef84d04d;
    assert BitSteps(0xef84d079, 8) == 0x9c50b11;
    assert BitSteps(0x9c50b24, 8) == 0xe72edcca;
    assert BitSteps(0xe72edcfc, 8) == 0xbeca8e79;
    assert BitSteps(0xbeca8e4e, 8) == 0xedbd6815;
    assert BitSteps(0xedbd682d, 8) == 0x9f787f65;
    assert BitSteps(0x9f787f5c, 8) == 0x1cf96d7c;
    hide BitSteps;
  }

  predicate Digits(s: seq<Byte>) {
    && |s| == 9 && s[0] == 0x31 && s[1] == 0x32 && s[2] == 0x33 && s[3] == 0x34 && s[4] == 0x35
    && s[5] == 0x36 && s[6] == 0x37 && s[7] == 0x38 && s[8] == 0x39
  }

  lemma FirstDigits(s: seq<Byte>)
    requires Digits(s)
    ensures Register(0xffffffff, s[0..5]) == 0xe72edcca
  {
    var c: Word := 0xffffffff;
    CheckBytes();
    hide ByteStep, Register;
    assert Register(c, s[0..0]) == c by { RegisterOfNothing(c, s); }
    assert Register(c, s[0..1]) == 0x6f0a661c by { RegisterNextByte(c, s, 0); }
    assert Register(c, s[0..2]) == 0x8caa3b9f by { RegisterNextByte(c, s, 1); }
    assert Register(c, s[0..3]) == 0xef84d04d by { RegisterNextByte(c, s, 2); }
    assert Register(c, s[0..4]) == 0x9c50b11 by { RegisterNextByte(c, s, 3); }
    assert Register(c, s[0..5]) == 0xe72edcca by { RegisterNextByte(c, s, 4); }
  }

  /** The check value of CRC-32C: the nine ASCII digits 1 to 9 give 0xe3069283. */
  lemma CheckValue(s: seq<Byte>)
    requires Digits(s)
    ensures Crc32c(0, s) == 0xe3069283
  {
    var c := Complement(0);
    assert c == 0xffffffff && Complement(0x1cf96d7c) == 0xe3069283;
    FirstDigits(s);
    CheckBytes();
    hide ByteStep, Complement, Register;
    assert Register(c, s[0..6]) == 0xbeca8e79 by { RegisterNextByte(c, s, 5); }
    assert Register(c, s[0..7]) == 0xedbd6815 by { RegisterNextByte(c, s, 6); }
    assert Register(c, s[0..8]) == 0x9f787f65 by { RegisterNextByte(c, s, 7); }
    assert Register(c, s[0..9]) == 0x1cf96d7c by { RegisterNextByte(c, s, 8); }
    assert s[0..9] == s;
  }
}
