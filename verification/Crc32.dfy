/** The table-driven CRC of gptp.c against a register that shifts one bit at a time
    (section 3.2.9 of IEEE 802.3), and the multicast hash built on it. */
module Crc32 {
  import opened CInt
  import opened Gf2

  const POLY := 0xEDB8_8320
  const ONES := 0xFFFF_FFFF

  lemma Widths()
    ensures Pow2(6) == 64 && Pow2(8) == 256 && Pow2(26) == 0x400_0000
    ensures Pow2(31) == TWO31 && Pow2(32) == TWO32
  {
    assert Pow2(4) == 16;
    assert Pow2(12) == 4096;
    assert Pow2(16) == 65536;
    assert Pow2(20) == 0x10_0000;
    assert Pow2(24) == 0x100_0000;
    assert Pow2(28) == 0x1000_0000;
  }

  // ----- The reference: a reflected shift register, one bit at a time

  function FeedBit(s: nat, bit: bool): nat {
    if (s % 2 == 1) != bit then Xor(POLY, s / 2) else s / 2
  }

  function FeedBits(s: nat, bits: seq<bool>): nat
    decreases |bits|
  {
    if bits == [] then s else FeedBits(FeedBit(s, bits[0]), bits[1..])
  }

  /** The low n bits of x, least significant first: the order on the wire. */
  function Bits(x: nat, n: nat): (bits: seq<bool>)
    ensures |bits| == n
    decreases n
  {
    if n == 0 then [] else [x % 2 == 1] + Bits(x / 2, n - 1)
  }

  function WireBits(data: seq<byte>): (bits: seq<bool>)
    ensures |bits| == 8 * |data|
  {
    if data == [] then [] else WireBits(data[..|data| - 1]) + Bits(data[|data| - 1], 8)
  }

  /** The frame check sequence of a byte string. */
  function Crc(data: seq<byte>): nat {
    Xor(FeedBits(ONES, WireBits(data)), ONES)
  }

  // ----- Shifting without input

  function Shift(x: nat): nat {
    if x % 2 == 1 then Xor(POLY, x / 2) else x / 2
  }

  function Shifts(x: nat, n: nat): nat
    decreases n
  {
    if n == 0 then x else Shifts(Shift(x), n - 1)
  }

  lemma {:induction false} FeedAppend(s: nat, a: seq<bool>, b: seq<bool>)
    ensures FeedBits(s, a + b) == FeedBits(FeedBits(s, a), b)
    decreases |a|
  {
    if a == [] {
      assert a + b == b;
    } else {
      assert (a + b)[1..] == a[1..] + b;
      FeedAppend(FeedBit(s, a[0]), a[1..], b);
    }
  }

  lemma BitsStep(l: nat, p: nat, n: nat)
    requires n > 0
    ensures Bits(l + 2 * p, n) == [l % 2 == 1] + Bits(l / 2 + p, n - 1)
  {
    assert (l + 2 * p) / 2 == l / 2 + p && (l + 2 * p) % 2 == l % 2;
  }

  lemma DoubleTwice(h: nat, p: nat)
    ensures h * (2 * p) == 2 * (h * p)
  {
  }

  lemma Doubled(h: nat, m: nat)
    requires m > 0
    ensures h * Pow2(m) == 2 * (h * Pow2(m - 1))
  {
    DoubleTwice(h, Pow2(m - 1));
  }

  lemma HalfBelow(l: nat, m: nat)
    requires m > 0 && l < Pow2(m)
    ensures l / 2 < Pow2(m - 1)
  {
  }

  lemma {:induction false} BitsAppend(l: nat, h: nat, m: nat, n: nat)
    requires l < Pow2(m)
    ensures h * Pow2(m) >= 0
    ensures Bits(l + h * Pow2(m), m + n) == Bits(l, m) + Bits(h, n)
    decreases m
  {
    if m > 0 {
      hide Pow2, Bits;
      Doubled(h, m);
      HalfBelow(l, m);
      BitsAppend(l / 2, h, m - 1, n);
      BitsStep(l, h * Pow2(m - 1), m + n);
      BitsStep(l, 0, m);
    }
  }

  /** Three summands swap over GF(2). */
  lemma Regroup(a: nat, b: nat, c: nat)
    ensures Xor(Xor(a, b), c) == Xor(a, Xor(b, c)) == Xor(b, Xor(a, c)) == Xor(Xor(a, c), b)
  {
    hide Xor;
    Associates(a, b, c);
    Commutes(a, b);
    Associates(b, a, c);
    Commutes(b, Xor(a, c));
  }

  /** Shifting is linear over GF(2). */
  lemma ShiftLinear(x: nat, y: nat)
    ensures Shift(Xor(x, y)) == Xor(Shift(x), Shift(y))
  {
    hide Xor;
    Halves(x, y);
    var a, b := x / 2, y / 2;
    Regroup(POLY, a, b);
    if x % 2 == 1 && y % 2 == 1 {
      Regroup(POLY, a, Xor(POLY, b));
      Cancels(b, POLY);
    }
  }

  lemma {:induction false} ShiftsLinear(x: nat, y: nat, n: nat)
    ensures Shifts(Xor(x, y), n) == Xor(Shifts(x, n), Shifts(y, n))
    decreases n
  {
    if n > 0 {
      ShiftLinear(x, y);
      ShiftsLinear(Shift(x), Shift(y), n - 1);
    }
  }

  lemma {:induction false} ShiftsOut(h: nat, n: nat)
    ensures Shifts(h * Pow2(n), n) == h
    decreases n
  {
    if n > 0 {
      hide Pow2;
      Doubled(h, n);
      ShiftDoubled(h * Pow2(n - 1));
      ShiftsOut(h, n - 1);
    }
  }

  lemma ShiftDoubled(x: nat)
    ensures Shift(2 * x) == x
  {
  }

  lemma FeedBitIsShift(s: nat, x: nat)
    ensures Shift(Xor(s, x)) == Xor(FeedBit(s, x % 2 == 1), x / 2)
  {
    hide Xor;
    Halves(s, x);
    Regroup(POLY, s / 2, x / 2);
  }

  /** Feeding n bits is adding them to the register and shifting n times. */
  lemma {:induction false} FeedIsShift(s: nat, x: nat, n: nat)
    requires x < Pow2(n)
    ensures FeedBits(s, Bits(x, n)) == Shifts(Xor(s, x), n)
    decreases n
  {
    if n == 0 {
      Zero(s);
    } else {
      hide Xor;
      assert Bits(x, n)[1..] == Bits(x / 2, n - 1);
      FeedBitIsShift(s, x);
      FeedIsShift(FeedBit(s, x % 2 == 1), x / 2, n - 1);
    }
  }

  /** Eight shifts of a sum: look the low byte up and shift the rest down. */
  lemma TableStep(x: nat)
    ensures Shifts(x, 8) == Xor(Shifts(x % 256, 8), x / 256)
  {
    hide Xor, Shifts, Pow2;
    Widths();
    var h, l := x / 256, x % 256;
    Disjoint(h, l, 8);
    ShiftsLinear(h * 256, l, 8);
    ShiftsOut(h, 8);
    Commutes(h, Shifts(l, 8));
  }

  lemma {:induction false} ShiftsBounded(x: nat, n: nat)
    requires x < TWO32
    ensures Shifts(x, n) < TWO32
    decreases n
  {
    if n > 0 {
      Widths();
      Bounded(POLY, x / 2, 32);
      ShiftsBounded(Shift(x), n - 1);
    }
  }

  // ----- The table-driven form

  /** The table and its flag are static: filled by the first call. */
  class Calculator {
    const table: array<nat>
    var tableInit: bool

    ghost predicate Valid()
      reads this, table
    {
      table.Length == 256 && (tableInit ==> forall i :: 0 <= i < 256 ==> table[i] == Shifts(i, 8))
    }

    constructor ()
      ensures Valid() && fresh(table)
    {
      table := new nat[256](_ => 0);
      tableInit := false;
    }

    method FillTable()
      requires Valid()
      modifies this, table
      ensures Valid() && tableInit
    {
      var i := 0;
      while i < 256
        invariant 0 <= i <= 256
        invariant forall k :: 0 <= k < i ==> table[k] == Shifts(k, 8)
      {
        var v: nat, j := i, 0;
        while j < 8
          invariant 0 <= j <= 8
          invariant Shifts(v, 8 - j) == Shifts(i, 8)
        {
          v := if v % 2 == 1 then Xor(POLY, v / 2) else v / 2;
          j := j + 1;
        }
        table[i] := v;
        i := i + 1;
      }
      tableInit := true;
    }

    /** For byte strings of any length the table-driven loop computes the
        bit-serial frame check sequence. */
    method EthernetCrc32(data: seq<byte>) returns (crc: nat)
      requires Valid()
      modifies this, table
      ensures Valid() && tableInit
      ensures crc == Crc(data) && crc < TWO32
    {
      crc := ONES;
      if !tableInit {
        FillTable();
      }
      var i := 0;
      while i < |data|
        invariant 0 <= i <= |data| && Valid() && tableInit
        invariant crc == FeedBits(ONES, WireBits(data[..i])) && crc < TWO32
      {
        var b := data[i];
        assert data[..i + 1][..i] == data[..i];
        ByteStep(data[..i + 1], crc);
        crc := Xor(table[Xor(crc, b) % 256], crc / 256);
        i := i + 1;
      }
      assert data[..i] == data;
      Widths();
      Bounded(crc, ONES, 32);
      crc := Xor(crc, ONES);
    }

    /** mac_to_hash_table: eight bytes of which one bit is set. */
    method MacToHashTable(mac: seq<byte>, hashTable: array<byte>)
      requires Valid() && |mac| == 6 && hashTable.Length == 8 && (hashTable as object) != table
      modifies this, table, hashTable
      ensures Valid()
      ensures forall k :: 0 <= k < 64 ==>
        ((hashTable[k / 8] as int) / [1, 2, 4, 8, 16, 32, 64, 128][k % 8] % 2 == 1 <==> k == Crc(mac) / 0x400_0000)
    {
      hide SetBit, HashBit, Crc;
      var i := 0;
      while i < 8
        modifies hashTable
        invariant 0 <= i <= 8
        invariant forall j :: 0 <= j < i ==> hashTable[j] == 0
      {
        hashTable[i] := 0;
        i := i + 1;
      }
      assert hashTable[..] == NoHash();
      var crc := EthernetCrc32(mac);
      var index := crc / 0x400_0000 % 64;
      OneBit(index);
      hashTable[index / 8] := SetBit(hashTable[index / 8], index % 8);
      assert hashTable[..] == NoHash()[index / 8 := SetBit(0, index % 8)];
      forall k | 0 <= k < 64
        ensures (hashTable[k / 8] as int) / [1, 2, 4, 8, 16, 32, 64, 128][k % 8] % 2 == 1
           <==> HashBit(hashTable[..], k)
      {
        HashBitIs(hashTable[..], k);
      }
    }
  }

  function NoHash(): seq<byte> {
    [0, 0, 0, 0, 0, 0, 0, 0]
  }

  lemma {:induction false} PowerBit(b: nat, k: nat)
    ensures Pow2(b) / Pow2(k) % 2 == 1 <==> k == b
  {
    if k > 0 && b > 0 {
      DivTwice(Pow2(b), Pow2(k - 1));
      PowerBit(b - 1, k - 1);
    } else if k > 0 {
      QuotientUnique(1, Pow2(k), 0, 1);
    }
  }

  lemma ByteBit(b: nat, k: nat)
    requires b < 8 && k < 8
    ensures SetBit(0, b) / Pow2(k) % 2 == 1 <==> k == b
  {
    Masks(b);
    PowerBit(b, k);
    hide Pow2;
    assert SetBit(0, b) == Pow2(b);
  }

  lemma OneBit(index: nat)
    requires index < 64
    ensures var hash := NoHash()[index / 8 := SetBit(0, index % 8)];
      forall k :: 0 <= k < 64 ==> (HashBit(hash, k) <==> k == index)
  {
    hide Pow2, SetBit;
    var hash := NoHash()[index / 8 := SetBit(0, index % 8)];
    forall k | 0 <= k < 64 ensures HashBit(hash, k) <==> k == index {
      ByteBit(index % 8, k % 8);
      if k / 8 != index / 8 {
        assert hash[k / 8] == 0;
      }
    }
  }

  /** One round of the loop appends one byte. */
  lemma ByteStep(data: seq<byte>, crc: nat)
    requires data != [] && crc == FeedBits(ONES, WireBits(data[..|data| - 1])) && crc < TWO32
    ensures var b := data[|data| - 1];
      var next := Xor(Shifts(Xor(crc, b) % 256, 8), crc / 256);
      FeedBits(ONES, WireBits(data)) == next && next < TWO32
  {
    hide Xor;
    var b := data[|data| - 1];
    Widths();
    FeedAppend(ONES, WireBits(data[..|data| - 1]), Bits(b, 8));
    FeedIsShift(crc, b, 8);
    TableStep(Xor(crc, b));
    High(crc, b, 8);
    Bounded(crc, b, 32);
    ShiftsBounded(Xor(crc, b), 8);
  }

  // ----- What the check sequence detects

  /** A frame with its own check sequence appended, low byte first. */
  function Sealed(data: seq<byte>): seq<byte> {
    data + LittleEndian(Crc(data), 4)
  }

  function LittleEndian(x: nat, k: nat): (s: seq<byte>)
    ensures |s| == k
    decreases k
  {
    if k == 0 then [] else [x % 256] + LittleEndian(x / 256, k - 1)
  }

  /** What every sealed frame checks to. */
  const RESIDUE := Xor(Shifts(ONES, 32), ONES)

  lemma WireEmpty()
    ensures WireBits([]) == []
  {
  }

  lemma {:induction false} WireAppend(a: seq<byte>, b: seq<byte>)
    ensures WireBits(a + b) == WireBits(a) + WireBits(b)
    decreases |b|
  {
    hide WireBits, Bits;
    if b == [] {
      assert a + b == a;
      WireEmpty();
    } else {
      var n := |b| - 1;
      WireAppend(a, b[..n]);
      WireStep(a + b[..n], b[n]);
      WireStep(b[..n], b[n]);
      assert a + b == a + b[..n] + [b[n]] && b == b[..n] + [b[n]];
    }
  }

  lemma WireStep(a: seq<byte>, b: byte)
    ensures WireBits(a + [b]) == WireBits(a) + Bits(b, 8)
  {
    hide Bits;
    assert (a + [b])[..|a|] == a;
  }

  lemma WireByte(b: byte)
    ensures WireBits([b]) == Bits(b, 8)
  {
    hide Bits;
    assert [b][..0] == [] && WireBits([]) == [];
  }

  lemma {:induction false} LittleEndianBits(x: nat, k: nat)
    ensures WireBits(LittleEndian(x, k)) == Bits(x, 8 * k)
    decreases k
  {
    hide WireBits, Bits;
    if k == 0 {
      WireEmpty();
    } else {
      Widths();
      LittleEndianBits(x / 256, k - 1);
      WireAppend([x % 256], LittleEndian(x / 256, k - 1));
      BitsAppend(x % 256, x / 256, 8, 8 * (k - 1));
      WireByte(x % 256);
    }
  }

  lemma {:induction false} FeedBounded(s: nat, bits: seq<bool>)
    requires s < TWO32
    ensures FeedBits(s, bits) < TWO32
    decreases |bits|
  {
    if bits != [] {
      Widths();
      Bounded(POLY, s / 2, 32);
      FeedBounded(FeedBit(s, bits[0]), bits[1..]);
    }
  }

  /** Appending the check sequence gives every frame the same check sequence. */
  lemma ConstantResidue(data: seq<byte>)
    ensures Crc(Sealed(data)) == RESIDUE
  {
    hide Xor;
    var s := FeedBits(ONES, WireBits(data));
    Widths();
    FeedBounded(ONES, WireBits(data));
    Bounded(s, ONES, 32);
    WireAppend(data, LittleEndian(Crc(data), 4));
    LittleEndianBits(Crc(data), 4);
    FeedAppend(ONES, WireBits(data), Bits(Crc(data), 32));
    FeedIsShift(s, Crc(data), 32);
    Cancels(ONES, s);
  }

  /** The polynomial of section 3.2.9 of IEEE 802.3, x^32 left out and the rest from
      x^0 at the top down: x^26 + x^23 + x^22 + x^16 + x^12 + x^11 + x^10 + x^8 + x^7
      + x^5 + x^4 + x^2 + x + 1. */
  lemma PolynomialIs()
    ensures POLY == Pow2(5) + Pow2(8) + Pow2(9) + Pow2(15) + Pow2(19) + Pow2(20) + Pow2(21) + Pow2(23) + Pow2(24)
                    + Pow2(26) + Pow2(27) + Pow2(29) + Pow2(30) + Pow2(31)
  {
    assert Pow2(5) == 0x20 && Pow2(8) == 0x100 && Pow2(9) == 0x200;
    assert Pow2(12) == 0x1000 && Pow2(15) == 0x8000;
    assert Pow2(19) == 0x8_0000 && Pow2(20) == 0x10_0000 && Pow2(21) == 0x20_0000;
    assert Pow2(23) == 0x80_0000 && Pow2(24) == 0x100_0000;
    assert Pow2(26) == 0x400_0000 && Pow2(27) == 0x800_0000;
    assert Pow2(29) == 0x2000_0000 && Pow2(30) == 0x4000_0000 && Pow2(31) == 0x8000_0000;
  }

  lemma {:induction false} ShiftsCompose(x: nat, m: nat, n: nat)
    ensures Shifts(x, m + n) == Shifts(Shifts(x, m), n)
    decreases m
  {
    if m > 0 {
      ShiftsCompose(Shift(x), m - 1, n);
    }
  }

  lemma {:induction false} NothingShifts(n: nat)
    ensures Shifts(0, n) == 0
    decreases n
  {
    if n > 0 {
      NothingShifts(n - 1);
    }
  }

  lemma {:induction false} Complement(x: nat, k: nat)
    requires x < Pow2(k)
    ensures Xor(x, Pow2(k) - 1) == Pow2(k) - 1 - x
    decreases k
  {
    if k > 0 {
      HalfBelow(x, k);
      Complement(x / 2, k - 1);
      assert (Pow2(k) - 1) / 2 == Pow2(k - 1) - 1;
    }
  }

  /** A string of four bytes is the number it spells, low byte first. */
  lemma CrcOfWord(x: nat)
    requires x < TWO32
    ensures Crc(LittleEndian(x, 4)) == Xor(Shifts(Xor(ONES, x), 32), ONES)
  {
    hide Xor, Shifts, FeedBits, WireBits, Bits, LittleEndian, Pow2;
    Widths();
    LittleEndianBits(x, 4);
    FeedIsShift(ONES, x, 32);
  }

  lemma FullWord()
    ensures Xor(Shifts(Xor(ONES, ONES), 32), ONES) == ONES
  {
    hide Xor, Shifts;
    Zero(ONES);
    Cancels(0, ONES);
    Commutes(0, ONES);
    NothingShifts(32);
  }

  lemma TopBitLeft()
    ensures Xor(Shifts(Xor(ONES, 0x7FFF_FFFF), 32), ONES) == 0x1247_7CDF
  {
    hide Xor, Shifts, Pow2;
    Widths();
    Disjoint(1, 0x7FFF_FFFF, 31);
    Cancels(0x8000_0000, 0x7FFF_FFFF);
    ShiftsCompose(0x8000_0000, 31, 1);
    ShiftsOut(1, 31);
    OneShift();
    Complement(POLY, 32);
  }

  lemma OneShift()
    ensures Shifts(1, 1) == POLY
  {
    hide Xor;
    Zero(POLY);
  }

  /** The known check values of three strings: nothing, four bytes that empty the
      register, and four that leave only its top bit, which comes out last. */
  lemma CheckValues()
    ensures Crc([]) == 0
    ensures Crc([0xFF, 0xFF, 0xFF, 0xFF]) == 0xFFFF_FFFF
    ensures Crc([0xFF, 0xFF, 0xFF, 0x7F]) == 0x1247_7CDF
  {
    Words();
    hide Xor, Shifts, LittleEndian, WireBits, FeedBits;
    WireEmpty();
    NothingFed();
    CrcOfWord(0xFFFF_FFFF);
    CrcOfWord(0x7FFF_FFFF);
    FullWord();
    TopBitLeft();
  }

  lemma NothingFed()
    ensures Xor(FeedBits(ONES, []), ONES) == 0
  {
    hide Xor;
    Zero(ONES);
    Commutes(0, ONES);
    Cancels(0, ONES);
  }

  lemma Words()
    ensures LittleEndian(0xFFFF_FFFF, 4) == [0xFF, 0xFF, 0xFF, 0xFF]
    ensures LittleEndian(0x7FFF_FFFF, 4) == [0xFF, 0xFF, 0xFF, 0x7F]
  {
    LittleEndianIs(0xFFFF_FFFF);
    LittleEndianIs(0x7FFF_FFFF);
  }

  lemma LittleEndianIs(x: nat)
    ensures LittleEndian(x, 4) == [x % 256, x / 256 % 256, x / 256 / 256 % 256, x / 256 / 256 / 256 % 256]
  {
    LittleEndianStep(x, 4);
    LittleEndianStep(x / 256, 3);
    LittleEndianStep(x / 256 / 256, 2);
    LittleEndianStep(x / 256 / 256 / 256, 1);
    assert LittleEndian(x / 256 / 256 / 256 / 256, 0) == [];
    hide LittleEndian;
  }

  lemma LittleEndianStep(x: nat, k: nat)
    requires k > 0
    ensures LittleEndian(x, k) == [x % 256] + LittleEndian(x / 256, k - 1)
  {
  }

  /** The register never forgets: shifting loses no information, because the
      polynomial's top bit marks the register whose low bit was set. */
  lemma ShiftInjective(x: nat, y: nat)
    requires x < TWO32 && y < TWO32 && Shift(x) == Shift(y)
    ensures x == y
  {
    hide Xor;
    Widths();
    KeepsTop(POLY, x / 2, 31);
    KeepsTop(POLY, y / 2, 31);
    Cancels(x / 2, POLY);
    Cancels(y / 2, POLY);
    assert x / 2 == y / 2;
  }

  lemma {:induction false} ShiftsInjective(x: nat, y: nat, n: nat)
    requires x < TWO32 && y < TWO32 && Shifts(x, n) == Shifts(y, n)
    ensures x == y
    decreases n
  {
    if n > 0 {
      ShiftsBounded(x, 1);
      ShiftsBounded(y, 1);
      ShiftsInjective(Shift(x), Shift(y), n - 1);
      ShiftInjective(x, y);
    }
  }

  /** The number whose low bits are the given ones. */
  function Number(bits: seq<bool>): (x: nat)
    ensures x < Pow2(|bits|)
    ensures Bits(x, |bits|) == bits
  {
    if bits == [] then 0
    else
      var x := 2 * Number(bits[1..]) + if bits[0] then 1 else 0;
      assert x / 2 == Number(bits[1..]);
      x
  }

  lemma {:induction false} Pow2Monotone(m: nat, n: nat)
    requires m <= n
    ensures Pow2(m) <= Pow2(n)
    decreases n
  {
    if m < n {
      Pow2Monotone(m, n - 1);
    }
  }

  /** Two different strings of up to 32 bits drive a register apart. */
  lemma BurstSeparates(s: nat, u: seq<bool>, v: seq<bool>)
    requires s < TWO32 && |u| == |v| <= 32 && u != v
    ensures FeedBits(s, u) != FeedBits(s, v)
  {
    hide Xor;
    var x, y, n := Number(u), Number(v), |u|;
    Widths();
    Pow2Monotone(n, 32);
    FeedIsShift(s, x, n);
    FeedIsShift(s, y, n);
    Bounded(s, x, 32);
    Bounded(s, y, 32);
    if FeedBits(s, u) == FeedBits(s, v) {
      ShiftsInjective(Xor(s, x), Xor(s, y), n);
      Cancels(x, s);
      Cancels(y, s);
    }
  }

  /** Registers that differ stay apart on the same input. */
  lemma {:induction false} FeedInjective(s: nat, t: nat, bits: seq<bool>)
    requires s < TWO32 && t < TWO32 && s != t
    ensures FeedBits(s, bits) != FeedBits(t, bits)
    decreases |bits|
  {
    if bits != [] {
      var x := if bits[0] then 1 else 0;
      hide Xor;
      Widths();
      FeedBitIsShift(s, x);
      FeedBitIsShift(t, x);
      assert x / 2 == 0;
      Zero(FeedBit(s, bits[0]));
      Zero(FeedBit(t, bits[0]));
      Bounded(s, x, 32);
      Bounded(t, x, 32);
      if Shift(Xor(s, x)) == Shift(Xor(t, x)) {
        ShiftInjective(Xor(s, x), Xor(t, x));
        Cancels(s, x);
        Cancels(t, x);
      }
      ShiftsBounded(Xor(s, x), 1);
      ShiftsBounded(Xor(t, x), 1);
      FeedInjective(FeedBit(s, bits[0]), FeedBit(t, bits[0]), bits[1..]);
    }
  }

  /** Every error burst of at most 32 bits, anywhere in a frame of any length,
      changes the check sequence. */
  lemma DetectsBursts(a: seq<byte>, b: seq<byte>, before: seq<bool>, u: seq<bool>, v: seq<bool>, after: seq<bool>)
    requires WireBits(a) == before + u + after && WireBits(b) == before + v + after
    requires |u| == |v| <= 32 && a != b
    ensures Crc(a) != Crc(b)
  {
    hide Xor;
    if u == v {
      WireInjective(a, b);
    }
    var s := FeedBits(ONES, before);
    FeedBounded(ONES, before);
    FeedAppend(ONES, before, u);
    FeedAppend(ONES, before, v);
    FeedAppend(ONES, before + u, after);
    FeedAppend(ONES, before + v, after);
    BurstSeparates(s, u, v);
    FeedBounded(s, u);
    FeedBounded(s, v);
    FeedInjective(FeedBits(s, u), FeedBits(s, v), after);
    Cancels(FeedBits(ONES, WireBits(a)), ONES);
    Cancels(FeedBits(ONES, WireBits(b)), ONES);
  }

  lemma {:induction false} BitsInjective(x: nat, y: nat, n: nat)
    requires x < Pow2(n) && y < Pow2(n) && Bits(x, n) == Bits(y, n)
    ensures x == y
    decreases n
  {
    if n > 0 {
      assert Bits(x, n)[0] == Bits(y, n)[0];
      assert Bits(x, n)[1..] == Bits(x / 2, n - 1) && Bits(y, n)[1..] == Bits(y / 2, n - 1);
      BitsInjective(x / 2, y / 2, n - 1);
    }
  }

  lemma {:induction false} WireInjective(a: seq<byte>, b: seq<byte>)
    requires WireBits(a) == WireBits(b)
    ensures a == b
    decreases |a|
  {
    hide WireBits, Bits;
    assert 8 * |a| == 8 * |b|;
    if a == [] {
      assert b == [];
    } else {
      var n := |a| - 1;
      WireSplits(a);
      WireSplits(b);
      WireInjective(a[..n], b[..n]);
      Widths();
      BitsInjective(a[n], b[n], 8);
      assert a == a[..n] + [a[n]] && b == b[..n] + [b[n]];
    }
  }

  lemma WireSplits(a: seq<byte>)
    requires a != []
    ensures var n := |a| - 1;
      WireBits(a)[..8 * n] == WireBits(a[..n]) && WireBits(a)[8 * n..] == Bits(a[n], 8)
  {
    hide Bits;
  }

  // ----- The multicast hash

  function HashBit(hash: seq<byte>, k: nat): bool
    requires |hash| == 8 && k < 64
  {
    hash[k / 8] / Pow2(k % 8) % 2 == 1
  }

  lemma HashBitIs(hash: seq<byte>, k: nat)
    requires |hash| == 8 && k < 64
    ensures HashBit(hash, k) <==> (hash[k / 8] as int) / [1, 2, 4, 8, 16, 32, 64, 128][k % 8] % 2 == 1
  {
    Masks(k % 8);
    hide Pow2;
  }

  /** `b | 1 << k` on a byte. */
  function SetBit(b: byte, k: nat): byte
    requires k < 8
  {
    Masks(k);
    if b / Pow2(k) % 2 == 1 then b else (b + Pow2(k)) % 256
  }

  lemma Masks(k: nat)
    requires k < 8
    ensures Pow2(k) == [1, 2, 4, 8, 16, 32, 64, 128][k]
  {
    assert Pow2(3) == 8;
    assert Pow2(5) == 32;
  }
}
