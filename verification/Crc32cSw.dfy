/** CRC-32C by table, eight bytes at a time, for either byte order. */
module Crc32cSw {
  import opened Bits
  import opened Words64
  import opened Crc32cSpec
  import opened Slicing

  /** Entry n of table k is byte n after k + 1 byte steps. */
  ghost predicate LittleTable(table: array2<Word>)
    reads table
  {
    table.Length0 == 8 && table.Length1 == 256 &&
    forall k, n :: 0 <= k < 8 && 0 <= n < 256 ==> table[k, n] == Shifted(0, n, 8 * (k + 1))
  }

  /** Entry n of table k is the little-endian entry with its bytes swapped. */
  ghost predicate BigTable(table: array2<Word64>)
    reads table
  {
    table.Length0 == 8 && table.Length1 == 256 &&
    forall k, n :: 0 <= k < 8 && 0 <= n < 256 ==> table[k, n] == Swapped(n, 8 * (k + 1))
  }

  function Swapped(n: nat, bits: nat): Word64
    requires n < 256
  {
    Swap(Wide(Shifted(0, n, bits)))
  }

  ghost predicate ByteTable(table: array<Word>)
    reads table
  {
    table.Length == 256 && forall n :: 0 <= n < 256 ==> table[n] == Shifted(0, n, 8)
  }

  /** Eight steps of the shift register from n. */
  function FirstEntry(n: nat): (crc: Word)
    requires n < 256
    ensures crc == Shifted(0, n, 8)
  {
    var c := n as Byte as Word;
    BitStep(BitStep(BitStep(BitStep(BitStep(BitStep(BitStep(BitStep(c))))))))
  }

  /** Eight more zero bits for an entry, by looking its low byte up. */
  lemma NextEntry(n: nat, bits: nat)
    requires n < 256
    ensures var crc := Shifted(0, n, bits);
      Shifted(0, n, bits + 8) == Xor(Shifted(0, Index(ByteOf(crc, 0)), 8), DropLow(crc))
  {
    hide BitSteps, Xor, ByteOf, DropLow, AtByte, Wide, Index;
    BitStepsAdd(AtByte(n as Byte, 0), bits, 8);
    StepByTable(Shifted(0, n, bits));
  }

  /** A byte fed in by table: (crc ^ b) & 0xff is looked up and crc >> 8 added. */
  lemma ByteByTable(crc: Word, b: Byte)
    ensures ByteStep(crc, b) == Xor(Shifted(0, Index(ByteOf(Xor(crc, b as Word), 0)), 8), DropLow(crc))
  {
    DropLowOfByte(crc, b);
    hide BitSteps, Xor, ByteOf, DropLow, Shifted, Wide, Index;
    StepByTable(Xor(crc, b as Word));
  }

  lemma DropLowOfByte(crc: Word, b: Byte)
    ensures DropLow(Xor(crc, b as Word)) == DropLow(crc)
  {
    calc {
      DropLow(Xor(crc, b as Word));
      (crc ^ (b as Word)) >> 8;
      crc >> 8;
      DropLow(crc);
    }
  }

  method Crc32cInitSwLittle(table: array2<Word>)
    requires table.Length0 == 8 && table.Length1 == 256
    modifies table
    ensures LittleTable(table)
  {
    hide Shifted, Xor, ByteOf, DropLow, BitStep, Wide, Index;
    for n := 0 to 256
      invariant forall m :: 0 <= m < n ==> table[0, m] == Shifted(0, m, 8)
    {
      table[0, n] := FirstEntry(n);
    }
    for n := 0 to 256
      invariant forall m :: 0 <= m < 256 ==> table[0, m] == Shifted(0, m, 8)
      invariant forall k, m :: 0 <= k < 8 && 0 <= m < n ==> table[k, m] == Shifted(0, m, 8 * (k + 1))
    {
      var crc := table[0, n];
      for k := 1 to 8
        invariant forall m :: 0 <= m < 256 ==> table[0, m] == Shifted(0, m, 8)
        invariant forall j, m :: 0 <= j < 8 && 0 <= m < n ==> table[j, m] == Shifted(0, m, 8 * (j + 1))
        invariant forall j :: 0 <= j < k ==> table[j, n] == Shifted(0, n, 8 * (j + 1))
        invariant crc == Shifted(0, n, 8 * k)
      {
        NextEntry(n, 8 * k);
        crc := Xor(table[0, Index(ByteOf(crc, 0))], DropLow(crc));
        table[k, n] := crc;
      }
    }
  }

  /** One byte by table. */
  function LittleByte(table: array2<Word>, crc: Word, b: Byte): (r: Word)
    requires LittleTable(table)
    reads table
    ensures r == ByteStep(crc, b)
  {
    ByteByTable(crc, b);
    Xor(table[0, Index(ByteOf(Xor(crc, b as Word), 0))], DropLow(crc))
  }

  /** Byte j of a word, pushed through so many zero bits. */
  function Lane(w: Word64, j: nat, bits: nat): Word
    requires j < 8
  {
    Shifted(0, Index(ByteOf64(w, j)), bits)
  }

  lemma {:induction false} EightLookups(c: Word, s: seq<Byte>, w: Word64)
    requires |s| == 8 && w == Xor64(Wide(c), LoadLittle(s))
    ensures Register(c, s) == Sum8(Lane(w, 0, 64), Lane(w, 1, 56), Lane(w, 2, 48), Lane(w, 3, 40),
                                   Lane(w, 4, 32), Lane(w, 5, 24), Lane(w, 6, 16), Lane(w, 7, 8))
  {
    hide Shifted, Xor, Xor64, LoadLittle, ByteOf64, Register, Lanes, Wide, Index, Sum8;
    EightBytes(c, s);
    EightLanes(Bytes(w));
  }

  /** Eight bytes by eight tables: the low byte has the longest way to go. */
  function LittleWord(table: array2<Word>, crcw: Word64, ghost c: Word, ghost s: seq<Byte>): (r: Word)
    requires LittleTable(table)
    requires |s| == 8 && crcw == Xor64(Wide(c), LoadLittle(s))
    reads table
    ensures r == Register(c, s)
  {
    hide Shifted, Xor64, LoadLittle, ByteOf64, Register, Wide, Index, Sum8;
    EightLookups(c, s, crcw);
    Sum8(table[7, Index(ByteOf64(crcw, 0))], table[6, Index(ByteOf64(crcw, 1))],
         table[5, Index(ByteOf64(crcw, 2))], table[4, Index(ByteOf64(crcw, 3))],
         table[3, Index(ByteOf64(crcw, 4))], table[2, Index(ByteOf64(crcw, 5))],
         table[1, Index(ByteOf64(crcw, 6))], table[0, Index(ByteOf64(crcw, 7))])
  }

  /** The CRC-32C of buf continued from crc on a little-endian processor, buf at address addr. */
  method Crc32cSwLittle(crc: Word, buf: seq<Byte>, addr: nat, table: array2<Word>) returns (r: Word)
    requires LittleTable(table)
    ensures r == Crc32c(crc, buf)
  {
    hide Register, Complement, LittleTable, ByteStep, LoadLittle, Xor64, Wide, Index;
    ghost var c := Complement(crc);
    var reg := Complement(crc);
    var next := 0;
    RegisterOfNothing(c, buf);
    while next < |buf| && (addr + next) % 8 != 0
      invariant next <= |buf| && reg == Register(c, buf[0..next])
    {
      RegisterNextByte(c, buf, next);
      reg := LittleByte(table, reg, buf[next]);
      next := next + 1;
    }
    if |buf| - next >= 8 {
      var crcw := Wide(reg);
      ghost var seen := reg;
      while true
        invariant next + 8 <= |buf| && crcw == Wide(seen) && seen == Register(c, buf[0..next])
        decreases |buf| - next
      {
        RegisterExtend(c, buf, 0, next, next + 8);
        crcw := Xor64(crcw, LoadLittle(buf[next..next + 8]));
        var word := LittleWord(table, crcw, seen, buf[next..next + 8]);
        crcw := Wide(word);
        seen := word;
        next := next + 8;
        if |buf| - next < 8 {
          break;
        }
      }
      LowOfWord(seen);
      reg := Low(crcw);
    }
    while next < |buf|
      invariant next <= |buf| && reg == Register(c, buf[0..next])
    {
      RegisterNextByte(c, buf, next);
      reg := LittleByte(table, reg, buf[next]);
      next := next + 1;
    }
    assert buf[0..|buf|] == buf;
    r := Complement(reg);
  }

  // ----- big-endian -----

  method Crc32cInitSwBig(byteTable: array<Word>, table: array2<Word64>)
    requires byteTable.Length == 256 && table.Length0 == 8 && table.Length1 == 256
    modifies byteTable, table
    ensures ByteTable(byteTable) && BigTable(table)
  {
    hide Shifted, Swap, Xor, ByteOf, DropLow, BitStep, Wide, Index;
    for n := 0 to 256
      invariant forall m :: 0 <= m < n ==> byteTable[m] == Shifted(0, m, 8)
    {
      byteTable[n] := FirstEntry(n);
    }
    for n := 0 to 256
      invariant ByteTable(byteTable)
      invariant forall k, m :: 0 <= k < 8 && 0 <= m < n ==> table[k, m] == Swapped(m, 8 * (k + 1))
    {
      var crc := byteTable[n];
      table[0, n] := Swap(Wide(crc));
      for k := 1 to 8
        invariant ByteTable(byteTable)
        invariant forall j, m :: 0 <= j < 8 && 0 <= m < n ==> table[j, m] == Swapped(m, 8 * (j + 1))
        invariant forall j :: 0 <= j < k ==> table[j, n] == Swapped(n, 8 * (j + 1))
        invariant crc == Shifted(0, n, 8 * k)
      {
        NextEntry(n, 8 * k);
        crc := Xor(byteTable[Index(ByteOf(crc, 0))], DropLow(crc));
        table[k, n] := Swap(Wide(crc));
      }
    }
  }

  function BigByte(table: array<Word>, crc: Word, b: Byte): (r: Word)
    requires ByteTable(table)
    reads table
    ensures r == ByteStep(crc, b)
  {
    ByteByTable(crc, b);
    Xor(table[Index(ByteOf(Xor(crc, b as Word), 0))], DropLow(crc))
  }

  /** The sum of two swapped words is the swapped sum. */
  lemma SwappedSum(a: Word, b: Word)
    ensures Xor64(Swap(Wide(a)), Swap(Wide(b))) == Swap(Wide(Xor(a, b)))
  {
    WidenedXor(a, b);
    hide Swap, Xor, Xor64, Wide, Index;
    SwapXor(Wide(a), Wide(b));
  }

  lemma WidenedXor(a: Word, b: Word)
    ensures Wide(Xor(a, b)) == Xor64(Wide(a), Wide(b))
  {
    calc {
      Wide(Xor(a, b));
      (a ^ b) as Word64;
      (a as Word64) ^ (b as Word64);
      Xor64(Wide(a), Wide(b));
    }
  }

  /** What a big-endian load adds to a swapped register is the swap of the little-endian sum. */
  lemma SwappedLoad(crcw: Word64, c: Word, s: seq<Byte>)
    requires |s| == 8 && crcw == Xor64(Swap(Wide(c)), LoadBig(s))
    ensures crcw == Swap(Xor64(Wide(c), LoadLittle(s)))
  {
    LoadBigIsSwapped(s);
    hide Swap, Xor64, LoadLittle, LoadBig, Wide, Index;
    SwapXor(Wide(c), LoadLittle(s));
  }

  function Sum8Of64(a: Word64, b: Word64, c: Word64, d: Word64, e: Word64, f: Word64, g: Word64, h: Word64): Word64 {
    Xor64(Xor64(Xor64(Xor64(Xor64(Xor64(Xor64(a, b), c), d), e), f), g), h)
  }

  lemma SwappedSum8(a: Word, b: Word, c: Word, d: Word, e: Word, f: Word, g: Word, h: Word)
    ensures Sum8Of64(Swap(Wide(a)), Swap(Wide(b)), Swap(Wide(c)), Swap(Wide(d)),
                     Swap(Wide(e)), Swap(Wide(f)), Swap(Wide(g)), Swap(Wide(h)))
      == Swap(Wide(Sum8(a, b, c, d, e, f, g, h)))
  {
    hide Swap, Xor, Xor64, Wide, Index;
    SwappedSum(a, b);
    SwappedSum(Xor(a, b), c);
    SwappedSum(Xor(Xor(a, b), c), d);
    var p := Sum4(a, b, c, d);
    SwappedSum(p, e);
    SwappedSum(Xor(p, e), f);
    SwappedSum(Xor(Xor(p, e), f), g);
    SwappedSum(Xor(Xor(Xor(p, e), f), g), h);
  }

  lemma {:induction false} EightLookupsReversed(c: Word, s: seq<Byte>, w: Word64)
    requires |s| == 8 && w == Xor64(Wide(c), LoadLittle(s))
    ensures Register(c, s) == Sum8(Lane(w, 7, 8), Lane(w, 6, 16), Lane(w, 5, 24), Lane(w, 4, 32),
                                   Lane(w, 3, 40), Lane(w, 2, 48), Lane(w, 1, 56), Lane(w, 0, 64))
  {
    hide Shifted, Xor, Xor64, LoadLittle, ByteOf64, Register, Lanes, Wide, Index, Sum8;
    EightBytes(c, s);
    EightLanesReversed(Bytes(w));
  }

  lemma {:induction false} EightSwappedLookups(c: Word, s: seq<Byte>, w: Word64)
    requires |s| == 8 && w == Xor64(Swap(Wide(c)), LoadBig(s))
    ensures Swap(Wide(Register(c, s))) == Sum8Of64(
        Swap(Wide(Lane(w, 0, 8))), Swap(Wide(Lane(w, 1, 16))), Swap(Wide(Lane(w, 2, 24))), Swap(Wide(Lane(w, 3, 32))),
        Swap(Wide(Lane(w, 4, 40))), Swap(Wide(Lane(w, 5, 48))), Swap(Wide(Lane(w, 6, 56))), Swap(Wide(Lane(w, 7, 64))))
  {
    hide Shifted, Swap, Xor64, LoadLittle, LoadBig, ByteOf64, Register, Wide, Index, Sum8, Sum8Of64;
    var v := Xor64(Wide(c), LoadLittle(s));
    SwappedLoad(w, c, s);
    SwapReversesEach(v);
    EightLookupsReversed(c, s, v);
    SwappedSum8(Lane(v, 7, 8), Lane(v, 6, 16), Lane(v, 5, 24), Lane(v, 4, 32),
                Lane(v, 3, 40), Lane(v, 2, 48), Lane(v, 1, 56), Lane(v, 0, 64));
  }

  /** Eight bytes by eight tables, all swapped: the low byte is the last, with the shortest way to go. */
  function BigWord(table: array2<Word64>, crcw: Word64, ghost c: Word, ghost s: seq<Byte>): (r: Word64)
    requires BigTable(table)
    requires |s| == 8 && crcw == Xor64(Swap(Wide(c)), LoadBig(s))
    reads table
    ensures r == Swap(Wide(Register(c, s)))
  {
    hide Shifted, Swap, Xor64, LoadBig, ByteOf64, Register, Wide, Index, Sum8Of64;
    EightSwappedLookups(c, s, crcw);
    Sum8Of64(table[0, Index(ByteOf64(crcw, 0))], table[1, Index(ByteOf64(crcw, 1))],
             table[2, Index(ByteOf64(crcw, 2))], table[3, Index(ByteOf64(crcw, 3))],
             table[4, Index(ByteOf64(crcw, 4))], table[5, Index(ByteOf64(crcw, 5))],
             table[6, Index(ByteOf64(crcw, 6))], table[7, Index(ByteOf64(crcw, 7))])
  }

  /** The CRC-32C of buf continued from crc on a big-endian processor, buf at address addr. */
  method Crc32cSwBig(crc: Word, buf: seq<Byte>, addr: nat, byteTable: array<Word>, table: array2<Word64>) returns (r: Word)
    requires ByteTable(byteTable) && BigTable(table)
    ensures r == Crc32c(crc, buf)
  {
    hide Register, Complement, ByteTable, BigTable, ByteStep, LoadBig, Xor64, Swap, Wide, Index;
    ghost var c := Complement(crc);
    var reg := Complement(crc);
    var next := 0;
    RegisterOfNothing(c, buf);
    while next < |buf| && (addr + next) % 8 != 0
      invariant next <= |buf| && reg == Register(c, buf[0..next])
    {
      RegisterNextByte(c, buf, next);
      reg := BigByte(byteTable, reg, buf[next]);
      next := next + 1;
    }
    if |buf| - next >= 8 {
      var crcw := Swap(Wide(reg));
      ghost var seen := reg;
      while true
        invariant next + 8 <= |buf| && crcw == Swap(Wide(seen)) && seen == Register(c, buf[0..next])
        decreases |buf| - next
      {
        RegisterExtend(c, buf, 0, next, next + 8);
        crcw := Xor64(crcw, LoadBig(buf[next..next + 8]));
        crcw := BigWord(table, crcw, seen, buf[next..next + 8]);
        seen := Register(seen, buf[next..next + 8]);
        next := next + 8;
        if |buf| - next < 8 {
          break;
        }
      }
      SwapTwice(Wide(seen));
      LowOfWord(seen);
      reg := Low(Swap(crcw));
    }
    while next < |buf|
      invariant next <= |buf| && reg == Register(c, buf[0..next])
    {
      RegisterNextByte(c, buf, next);
      reg := BigByte(byteTable, reg, buf[next]);
      next := next + 1;
    }
    assert buf[0..|buf|] == buf;
    r := Complement(reg);
  }
}
