/** 32 x 32 matrices over GF(2), each row a word, and the operators that push zeros through a CRC. */
module Crc32cMatrix {
  import opened Bits
  import opened Crc32cSpec

  function Selected(row: Word, bit: bool): Word { if bit then row else 0 }

  /** The sum of the rows of mat that the bits of vec select. */
  function Times(mat: seq<Word>, vec: Word): Word {
    if mat == [] then 0
    else Xor(Selected(mat[0], Odd(vec)), Times(mat[1..], Half(vec)))
  }

  /** vec has no bit set at position n or above. */
  ghost predicate Fits(vec: Word, n: nat)
    decreases n
  {
    if n == 0 then vec == 0 else Fits(Half(vec), n - 1)
  }

  /** mat is the operator that pushes n zero bits into a CRC. */
  ghost predicate Feeds(mat: seq<Word>, n: nat) {
    |mat| == 32 && forall v :: Times(mat, v) == BitSteps(v, n)
  }

  /** The largest power of two up to n, and 1 for 0. */
  function PowerBelow(n: nat): nat {
    if n < 2 then 1 else 2 * PowerBelow(n / 2)
  }

  ghost predicate PowerOfTwo(n: nat)
  {
    n == 1 || (n > 1 && n % 2 == 0 && PowerOfTwo(n / 2))
  }

  lemma {:induction false} PowerBelowIsLargest(n: nat)
    ensures PowerOfTwo(PowerBelow(n))
    ensures n > 0 ==> PowerBelow(n) <= n < 2 * PowerBelow(n)
    ensures PowerOfTwo(n) ==> PowerBelow(n) == n
  {
    if n >= 2 {
      PowerBelowIsLargest(n / 2);
    }
  }

  // ----- algebra of Times -----

  lemma {:induction false} TimesXor(mat: seq<Word>, u: Word, v: Word)
    ensures Times(mat, Xor(u, v)) == Xor(Times(mat, u), Times(mat, v))
  {
    hide Xor, Odd, Half;
    XorZero(0);
    if mat != [] {
      XorShift(u, v);
      XorOdd(u, v);
      TimesXor(mat[1..], Half(u), Half(v));
      XorZero(mat[0]);
      XorSwap(Selected(mat[0], Odd(u)), Times(mat[1..], Half(u)), Selected(mat[0], Odd(v)), Times(mat[1..], Half(v)));
    }
  }

  lemma {:induction false} TimesZero(mat: seq<Word>)
    ensures Times(mat, 0) == 0
  {
    assert !Odd(0) && Half(0) == 0;
    XorZero(0);
    hide Xor, Odd, Half;
    if mat != [] {
      TimesZero(mat[1..]);
    }
  }

  /** If t is row by row the product of m with s, then t is m after s. */
  lemma {:induction false} TimesOfProducts(m: seq<Word>, s: seq<Word>, t: seq<Word>, v: Word)
    requires |s| == |t| && forall i :: 0 <= i < |s| ==> t[i] == Times(m, s[i])
    ensures Times(t, v) == Times(m, Times(s, v))
  {
    hide Xor, Odd, Half;
    TimesZero(m);
    if s != [] {
      TimesOfProducts(m, s[1..], t[1..], Half(v));
      TimesXor(m, Selected(s[0], Odd(v)), Times(s[1..], Half(v)));
    }
  }

  /** If t is row by row twice s, then t is s followed by a shift. */
  lemma {:induction false} TimesOfDoubles(s: seq<Word>, t: seq<Word>, v: Word)
    requires |s| == |t| && forall i :: 0 <= i < |s| ==> t[i] == Double(s[i])
    ensures Times(t, v) == Double(Times(s, v))
  {
    assert Double(0) == 0;
    hide Xor, Odd, Half, Double;
    if s != [] {
      TimesOfDoubles(s[1..], t[1..], Half(v));
      XorShift(Selected(s[0], Odd(v)), Times(s[1..], Half(v)));
    }
  }

  /** The product of a matrix with itself is the operator applied twice. */
  lemma {:induction false} SquareFeeds(mat: seq<Word>, square: seq<Word>, n: nat)
    requires Feeds(mat, n)
    requires |square| == 32 && forall i :: 0 <= i < 32 ==> square[i] == Times(mat, mat[i])
    ensures Feeds(square, 2 * n)
  {
    hide Times, BitStep;
    forall v
      ensures Times(square, v) == BitSteps(v, 2 * n)
    {
      TimesOfProducts(mat, mat, square, v);
      BitStepsAdd(v, n, n);
    }
  }

  lemma {:induction false} AllFit(v: Word)
    ensures Fits(v, 32)
  {
    var a, b, c := DropByte(v), DropByte(DropByte(v)), DropByte(DropByte(DropByte(v)));
    assert DropByte(c) == 0 by { DropFourBytes(v); }
    FitsShifted(c, 0);
    FitsShifted(b, 8);
    FitsShifted(a, 16);
    FitsShifted(v, 24);
  }

  function DropByte(v: Word): Word { Half(Half(Half(Half(Half(Half(Half(Half(v)))))))) }

  lemma DropFourBytes(v: Word)
    ensures DropByte(DropByte(DropByte(DropByte(v)))) == 0
  {
    Shift8(v);
    Shift8(v >> 8);
    Shift8(v >> 16);
    Shift8(v >> 24);
    assert v >> 8 >> 8 == v >> 16;
    assert v >> 16 >> 8 == v >> 24;
    assert v >> 24 >> 8 == 0;
    hide DropByte;
  }

  lemma Shift8(v: Word)
    ensures DropByte(v) == v >> 8
  {
    assert v >> 1 >> 1 >> 1 >> 1 >> 1 >> 1 >> 1 >> 1 == v >> 8;
  }

  lemma {:induction false} FitsShifted(v: Word, n: nat)
    requires Fits(DropByte(v), n)
    ensures Fits(v, n + 8)
  {
    hide Half;
    var w := Half(Half(Half(Half(v))));
    assert Fits(Half(Half(Half(w))), n + 1);
    assert Fits(Half(Half(w)), n + 2);
    assert Fits(Half(w), n + 3);
    assert Fits(w, n + 4);
    assert Fits(Half(Half(Half(v))), n + 5);
    assert Fits(Half(Half(v)), n + 6);
    assert Fits(Half(v), n + 7);
  }

  /** The rows row, 2 * row, 4 * row, ... */
  function Powers(row: Word, n: nat): (s: seq<Word>)
    ensures |s| == n
    decreases n
  {
    if n == 0 then [] else [row] + Powers(Double(row), n - 1)
  }

  lemma PowersUnfold(row: Word, n: nat)
    ensures Powers(row, n) == if n == 0 then [] else [row] + Powers(Double(row), n - 1)
  {}

  lemma {:induction false} PowersDouble(row: Word, n: nat)
    ensures forall i :: 0 <= i < n ==> Powers(Double(row), n)[i] == Double(Powers(row, n)[i])
    decreases n
  {
    hide Double;
    if n > 0 {
      PowersDouble(Double(row), n - 1);
    }
  }

  /** The powers of two are the rows of the identity. */
  lemma {:induction false} PowersAreIdentity(n: nat, v: Word)
    requires Fits(v, n)
    ensures Times(Powers(1, n), v) == v
    decreases n
  {
    hide Half, Double, Odd, Xor;
    if n > 0 {
      PowersAreIdentity(n - 1, Half(v));
      PowersDouble(1, n - 1);
      TimesOfDoubles(Powers(1, n - 1), Powers(Double(1), n - 1), Half(v));
      SplitLowBit(v);
      assert Powers(1, n)[1..] == Powers(Double(1), n - 1);
    }
  }

  /** The polynomial followed by the powers of two shifts by one bit. */
  lemma ShiftRegisterFeeds(mat: seq<Word>)
    requires mat == [POLY] + Powers(1, 31)
    ensures Feeds(mat, 1)
  {
    hide Half, Odd, Xor, Powers;
    assert mat[1..] == Powers(1, 31);
    forall v
      ensures Times(mat, v) == BitSteps(v, 1)
    {
      AllFit(v);
      PowersAreIdentity(31, Half(v));
      XorComm(POLY, Half(v));
      XorZero(Half(v));
      assert BitSteps(v, 1) == BitSteps(BitStep(v), 0) == BitStep(v);
    }
  }
}
