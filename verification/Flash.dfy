/** The geometry of a flash with several regions of equal banks (common/flash.c). */
module Flash {
  import Arith

  datatype Region = Region(count: nat, sizeExp: nat)

  type Table = seq<Region>

  function Pow2(e: nat): (r: nat)
    ensures r > 0
  {
    if e == 0 then 1 else 2 * Pow2(e - 1)
  }

  function Size(r: Region): (size: nat)
    ensures size > 0
  {
    Pow2(r.sizeExp)
  }

  function Total(table: Table): nat {
    if table == [] then 0 else table[0].count + Total(table[1..])
  }

  /** The size of a bank; -1 past the last one. */
  function BankSize(table: Table, bank: int): int {
    if table == [] then -1
    else if bank < table[0].count then Size(table[0])
    else BankSize(table[1..], bank - table[0].count)
  }

  /** Where bank b starts: behind all the banks before it. */
  function Start(table: Table, b: nat): nat
    requires b <= Total(table)
  {
    if b == 0 then 0
    else
      BankSizePositive(table, b - 1);
      Start(table, b - 1) + BankSize(table, b - 1)
  }

  lemma {:induction false} BankSizePositive(table: Table, b: int)
    ensures BankSize(table, b) > 0 <==> table != [] && b < Total(table)
    ensures BankSize(table, b) > 0 || BankSize(table, b) == -1
  {
    if table != [] {
      BankSizePositive(table[1..], b - table[0].count);
    }
  }

  // ----- Start, region by region -----

  lemma {:induction false} StartInFirst(table: Table, b: nat)
    requires table != [] && b <= table[0].count
    ensures b <= Total(table) && Start(table, b) == b * Size(table[0])
  {
    if b > 0 {
      StartInFirst(table, b - 1);
      assert BankSize(table, b - 1) == Size(table[0]);
      assert b * Size(table[0]) == (b - 1) * Size(table[0]) + Size(table[0]);
    }
  }

  lemma {:induction false} StartPastFirst(table: Table, b: nat)
    requires table != [] && b <= Total(table[1..])
    ensures table[0].count + b <= Total(table)
    ensures Start(table, table[0].count + b) == table[0].count * Size(table[0]) + Start(table[1..], b)
  {
    if b == 0 {
      StartInFirst(table, table[0].count);
    } else {
      StartPastFirst(table, b - 1);
      BankSizePositive(table[1..], b - 1);
      assert BankSize(table, table[0].count + b - 1) == BankSize(table[1..], b - 1);
    }
  }

  lemma {:induction false} StartIncreases(table: Table, b: nat, c: nat)
    requires b < c <= Total(table)
    ensures Start(table, b) < Start(table, c)
  {
    BankSizePositive(table, c - 1);
    if b < c - 1 {
      StartIncreases(table, b, c - 1);
    }
  }

  // ----- From an offset to a bank -----

  function Index(table: Table, offset: int): int
    decreases |table|
  {
    if table == [] then if offset == 0 then 0 else -1
    else
      var all := table[0].count * Size(table[0]);
      if offset >= all then Behind(table[0].count, Index(table[1..], offset - all))
      else if offset % Size(table[0]) != 0 then -1
      else offset / Size(table[0])
  }

  function Behind(banks: nat, index: int): int {
    if index == -1 then -1 else banks + index
  }

  /** An offset inside the first region is a start exactly when the size divides it. */
  lemma InFirst(table: Table, offset: nat)
    requires table != [] && offset < table[0].count * Size(table[0])
    ensures offset % Size(table[0]) == 0 ==>
      var b := offset / Size(table[0]);
      0 <= b <= Total(table) && Start(table, b) == offset
    ensures offset % Size(table[0]) != 0 ==> forall b: nat | b <= Total(table) :: Start(table, b) != offset
  {
    var size, n := Size(table[0]), table[0].count;
    Arith.QuotientNonNegative(offset, size);
    if offset % size == 0 {
      var b := offset / size;
      if b > n {
        Arith.MulStrict(b, n, size);
        assert false;
      }
      StartInFirst(table, b);
    } else {
      forall b: nat | b <= Total(table) ensures Start(table, b) != offset {
        if b <= n {
          StartInFirst(table, b);
          Arith.DivModUnique(b * size, size, b, 0);
        } else {
          StartPastFirst(table, b - n);
        }
      }
    }
  }

  /** crec_flash_bank_index, as what it means: the bank that starts at an offset, the total for
      the end of the flash, and -1 exactly when no bank boundary lies there. */
  lemma {:induction false} IndexIsBoundary(table: Table, offset: nat)
    ensures var r := Index(table, offset);
      if r == -1 then forall b: nat | b <= Total(table) :: Start(table, b) != offset
      else 0 <= r <= Total(table) && Start(table, r) == offset
    decreases |table|
  {
    if table != [] {
      var n, all := table[0].count, table[0].count * Size(table[0]);
      if offset < all {
        InFirst(table, offset);
      } else {
        IndexIsBoundary(table[1..], offset - all);
        var r := Index(table[1..], offset - all);
        if r != -1 {
          StartPastFirst(table, r);
        } else {
          forall b: nat | b <= Total(table) ensures Start(table, b) != offset {
            if b >= n {
              StartPastFirst(table, b - n);
            } else {
              StartInFirst(table, n);
              StartIncreases(table, b, n);
            }
          }
        }
      }
    }
  }

  /** Index undoes Start, for every bank and for the end of the flash. */
  lemma IndexOfStart(table: Table, b: nat)
    requires b <= Total(table)
    ensures Index(table, Start(table, b)) == b
  {
    hide Index, Start;
    IndexIsBoundary(table, Start(table, b));
    var r := Index(table, Start(table, b));
    if r < b {
      StartIncreases(table, r, b);
    } else if b < r {
      StartIncreases(table, b, r);
    }
  }

  // ----- The operations -----

  /** flash_bank_info and crec_flash_bank_size (lines 139-162). */
  method CrecFlashBankSize(table: Table, bank: int) returns (size: int)
    ensures size == BankSize(table, bank)
    ensures size > 0 <==> table != [] && bank < Total(table)
  {
    BankSizePositive(table, bank);
    var b := bank;
    for i := 0 to |table|
      invariant BankSize(table, bank) == BankSize(table[i..], b)
    {
      if b < table[i].count {
        return Size(table[i]);
      }
      b := b - table[i].count;
    }
    return -1;
  }

  /** crec_flash_bank_index (lines 177-199). */
  method CrecFlashBankIndex(table: Table, offset: int) returns (bank: int)
    ensures bank == Index(table, offset)
    ensures offset >= 0 ==>
      if bank == -1 then forall b: nat | b <= Total(table) :: Start(table, b) != offset
      else 0 <= bank <= Total(table) && Start(table, bank) == offset
  {
    hide Start, Size, Index;
    if offset >= 0 {
      IndexIsBoundary(table, offset);
    }
    if offset == 0 {
      StartOfFirst(table);
      IndexOfStart(table, 0);
      return 0;
    }
    var rest, bankOffset := offset, 0;
    for i := 0 to |table|
      invariant offset != 0 && bankOffset >= 0 && (bankOffset == 0 || rest >= 0)
      invariant Index(table, offset) == Behind(bankOffset, Index(table[i..], rest))
    {
      IndexStep(table, i, rest);
      var all := table[i].count * Size(table[i]);
      if rest >= all {
        IndexIsBoundary(table[i + 1..], rest - all);
        rest := rest - all;
        bankOffset := bankOffset + table[i].count;
      } else if rest % Size(table[i]) != 0 {
        return -1;
      } else {
        if rest >= 0 {
          Arith.QuotientNonNegative(rest, Size(table[i]));
        }
        bank := bankOffset + rest / Size(table[i]);
        return;
      }
    }
    IndexOfNothing(rest);
    assert table[|table|..] == [];
    return if rest != 0 then -1 else bankOffset;
  }

  lemma IndexStep(table: Table, i: nat, rest: int)
    requires i < |table|
    ensures var all := table[i].count * Size(table[i]);
      && all >= 0
      && Index(table[i..], rest) ==
           if rest >= all then Behind(table[i].count, Index(table[i + 1..], rest - all))
           else if rest % Size(table[i]) != 0 then -1
           else rest / Size(table[i])
  {
    hide Size;
    assert table[i..][1..] == table[i + 1..];
  }

  lemma IndexOfNothing(rest: int)
    ensures Index([], rest) == if rest == 0 then 0 else -1
  {}

  lemma StartOfFirst(table: Table)
    ensures Start(table, 0) == 0
  {}

  /** crec_flash_bank_count (lines 201-209): the banks between two boundaries. */
  method CrecFlashBankCount(table: Table, offset: nat, size: nat) returns (count: int)
    ensures count == -1 <==> Index(table, offset) == -1 || Index(table, offset + size) == -1
    ensures count != -1 ==>
      && 0 <= count
      && exists b: nat | b + count <= Total(table) ::
           Start(table, b) == offset && Start(table, b + count) == offset + size
  {
    hide Index, Start;
    var begin := CrecFlashBankIndex(table, offset);
    var end := CrecFlashBankIndex(table, offset + size);
    if begin == -1 || end == -1 {
      return -1;
    }
    if end < begin {
      StartIncreases(table, end, begin);
    }
    assert Start(table, begin + (end - begin)) == offset + size;
    return end - begin;
  }

  /** What crec_flash_bank_count computes, as a function. */
  function Count(table: Table, offset: nat, size: nat): int {
    var begin, end := Index(table, offset), Index(table, offset + size);
    if begin == -1 || end == -1 then -1 else end - begin
  }

  /** Counts of adjacent ranges add up, whenever the middle is a boundary. */
  lemma CountAdds(table: Table, offset: nat, a: nat, b: nat)
    requires Index(table, offset + a) != -1 && Count(table, offset, a + b) != -1
    ensures Count(table, offset, a + b) == Count(table, offset, a) + Count(table, offset + a, b)
    ensures Count(table, offset, a) >= 0 && Count(table, offset + a, b) >= 0
  {
    hide Index;
    IndexIsBoundary(table, offset);
    IndexIsBoundary(table, offset + a);
    IndexIsBoundary(table, offset + a + b);
    var i, j, k := Index(table, offset), Index(table, offset + a), Index(table, offset + a + b);
    if j < i { StartIncreases(table, j, i); }
    if k < j { StartIncreases(table, k, j); }
  }

  /** crec_flash_bank_start_offset (lines 211-229). */
  method CrecFlashBankStartOffset(table: Table, bank: int) returns (offset: int)
    ensures offset == -1 <==> bank < 0 || bank > Total(table)
    ensures 0 <= bank <= Total(table) ==> offset == Start(table, bank) && Index(table, offset) == bank
  {
    if bank < 0 {
      return -1;
    }
    offset := 0;
    for i := 0 to bank
      invariant i <= Total(table) && offset == Start(table, i)
    {
      var size := CrecFlashBankSize(table, i);
      BankSizePositive(table, i);
      if size < 0 {
        return -1;
      }
      offset := offset + size;
    }
    IndexOfStart(table, bank);
  }

  // ----- The geometry in plain terms -----

  /** A bank of exponent e has 1 << e bytes, for every size an int can hold. */
  lemma SizeIsShift(r: Region)
    requires r.sizeExp < 31
    ensures Size(r) == (1 as bv32 << r.sizeExp) as int
  {
    ShiftDoubles(r.sizeExp);
  }

  lemma ShiftDoubles(e: nat)
    requires e < 31
    ensures Pow2(e) == (1 as bv32 << e) as int
  {
    PowValue(e);
    if e < 8 {
      Shift0(e);
    } else if e < 16 {
      Shift8(e);
    } else if e < 24 {
      Shift16(e);
    } else {
      Shift24(e);
    }
  }

  function Literal(e: nat): nat
    requires e < 31
  {
    [0x1, 0x2, 0x4, 0x8, 0x10, 0x20, 0x40, 0x80,
     0x100, 0x200, 0x400, 0x800, 0x1000, 0x2000, 0x4000, 0x8000,
     0x10000, 0x20000, 0x40000, 0x80000, 0x100000, 0x200000, 0x400000, 0x800000,
     0x1000000, 0x2000000, 0x4000000, 0x8000000, 0x10000000, 0x20000000, 0x40000000][e]
  }

  lemma {:induction false} PowValue(e: nat)
    requires e < 31
    ensures Pow2(e) == Literal(e)
  {
    if e > 0 {
      PowValue(e - 1);
    }
  }

  lemma Shift0(e: nat)
    requires 0 <= e < 8
    ensures (1 as bv32 << e) as int == Literal(e)
  {
    if e == 0 {} else if e == 1 {} else if e == 2 {} else if e == 3 {}
    else if e == 4 {} else if e == 5 {} else if e == 6 {} else {}
  }

  lemma Shift8(e: nat)
    requires 8 <= e < 16
    ensures (1 as bv32 << e) as int == Literal(e)
  {
    if e == 8 {} else if e == 9 {} else if e == 10 {} else if e == 11 {}
    else if e == 12 {} else if e == 13 {} else if e == 14 {} else {}
  }

  lemma Shift16(e: nat)
    requires 16 <= e < 24
    ensures (1 as bv32 << e) as int == Literal(e)
  {
    if e == 16 {} else if e == 17 {} else if e == 18 {} else if e == 19 {}
    else if e == 20 {} else if e == 21 {} else if e == 22 {} else {}
  }

  lemma Shift24(e: nat)
    requires 24 <= e < 31
    ensures (1 as bv32 << e) as int == Literal(e)
  {
    if e == 24 {} else if e == 25 {} else if e == 26 {} else if e == 27 {}
    else if e == 28 {} else if e == 29 {} else {}
  }

  /** A bank has the size of the region it lies in. */
  lemma {:induction false} BankSizeIs(before: Table, r: Region, behind: Table, bank: nat)
    requires Total(before) <= bank < Total(before) + r.count
    ensures BankSize(before + [r] + behind, bank) == Size(r)
  {
    if before == [] {
      assert before + [r] + behind == [r] + behind;
    } else {
      assert (before + [r] + behind)[1..] == before[1..] + [r] + behind;
      BankSizeIs(before[1..], r, behind, bank - before[0].count);
    }
  }
}
