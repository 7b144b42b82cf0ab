/** The CRC-32 of readpng.c (section 5.5 and Annex D of the PNG Specification,
    Second Edition): a 256-entry table filled on first use, a running update
    over bytes, and the final one's complement. An `unsigned long` register is
    a `nat`; the shifts and masks the code applies are divisions and remainders
    by powers of two, and exclusive-or is spelled out bit by bit. The registers
    never exceed 32 bits (TableEntryBelow, UpdateCrcBelow), so the 64-bit
    width of `unsigned long` never comes into play. */
module Crc {
  import opened Bytes

  /** The reversed CRC-32 polynomial. */
  const Polynomial: nat := 0xedb8_8320

  const Mask32: nat := 0xffff_ffff

  /** Bitwise exclusive-or of two naturals. */
  function Xor(a: nat, b: nat): nat
    decreases a + b
  {
    if a == 0 then b
    else if b == 0 then a
    else 2 * Xor(a / 2, b / 2) + (a % 2 + b % 2) % 2
  }

  /** The exclusive-or of two values below 2^k stays below 2^k. */
  lemma {:induction false} XorBelow(a: nat, b: nat, k: nat)
    requires a < Pow2(k) && b < Pow2(k)
    ensures Xor(a, b) < Pow2(k)
    decreases a + b
  {
    if a != 0 && b != 0 {
      assert k > 0;
      XorBelow(a / 2, b / 2, k - 1);
    }
  }

  /** 2 to the power k. */
  function Pow2(k: nat): (p: nat)
    ensures p >= 1
  {
    if k == 0 then 1 else 2 * Pow2(k - 1)
  }

  /** One shift round of the table construction: `c & 1` is the low bit, `c >> 1` halves. */
  function Round(c: nat): nat {
    if c % 2 == 1 then Xor(Polynomial, c / 2) else c / 2
  }

  /** `k` shift rounds starting from `c`. */
  function Rounds(c: nat, k: nat): nat
    decreases k
  {
    if k == 0 then c else Rounds(Round(c), k - 1)
  }

  const BitsPerByte: nat := 8

  /** The CRC of the single byte n: eight rounds starting from n. */
  function TableEntry(n: nat): nat
    requires n < 256
  {
    Rounds(n, BitsPerByte)
  }

  /** A round keeps a register inside 32 bits. */
  lemma RoundBelow(c: nat)
    requires c <= Mask32
    ensures Round(c) <= Mask32
  {
    assert Pow2(32) == Mask32 + 1 by { Pow2Value32(); }
    if c % 2 == 1 {
      XorBelow(Polynomial, c / 2, 32);
    }
  }

  lemma Pow2Value32()
    ensures Pow2(32) == 0x1_0000_0000 && Pow2(8) == 256
  {
    assert Pow2(8) == 256;
    assert Pow2(16) == 256 * 256 by { Pow2Add(8, 8); }
    Pow2Add(16, 16);
  }

  lemma {:induction false} Pow2Add(a: nat, b: nat)
    ensures Pow2(a + b) == Pow2(a) * Pow2(b)
    decreases a
  {
    if a > 0 {
      Pow2Add(a - 1, b);
    }
  }

  lemma {:induction false} RoundsBelow(c: nat, k: nat)
    requires c <= Mask32
    ensures Rounds(c, k) <= Mask32
    decreases k
  {
    if k > 0 {
      RoundBelow(c);
      RoundsBelow(Round(c), k - 1);
    }
  }

  /** Every table entry is below 2^32. */
  lemma TableEntryBelow(n: nat)
    requires n < 256
    ensures TableEntry(n) <= Mask32
  {
    RoundsBelow(n, 8);
  }

  /** The table slot update_crc looks up: `(c ^ b) & 0xff`. */
  function Slot(c: nat, b: byte): (i: nat)
    ensures i < 256
  {
    Xor(c, b) % 256
  }

  /** One step of update_crc: the entry at the slot, exclusive-or `c >> 8`. */
  function Step(c: nat, b: byte): nat {
    Xor(TableEntry(Slot(c, b)), c / 256)
  }

  /** The running CRC after consuming `s` from left to right. */
  function UpdateCrc(c: nat, s: seq<byte>): nat
    decreases |s|
  {
    if |s| == 0 then c else UpdateCrc(Step(c, s[0]), s[1..])
  }

  /** Updating over a concatenation is updating over the first part, then the second. */
  lemma {:induction false} UpdateCrcAppend(c: nat, a: seq<byte>, b: seq<byte>)
    ensures UpdateCrc(c, a + b) == UpdateCrc(UpdateCrc(c, a), b)
    decreases |a|
  {
    if |a| == 0 {
      assert a + b == b;
    } else {
      assert (a + b)[0] == a[0] && (a + b)[1..] == a[1..] + b;
      UpdateCrcAppend(Step(c, a[0]), a[1..], b);
    }
  }

  /** Consuming one more byte is one more step. */
  lemma UpdateCrcSnoc(c: nat, s: seq<byte>, b: byte)
    ensures UpdateCrc(c, s + [b]) == Step(UpdateCrc(c, s), b)
  {
    UpdateCrcAppend(c, s, [b]);
  }

  /** A register below 2^32 stays below 2^32. */
  lemma {:induction false} UpdateCrcBelow(c: nat, s: seq<byte>)
    requires c <= Mask32
    ensures UpdateCrc(c, s) <= Mask32
    decreases |s|
  {
    if |s| > 0 {
      Pow2Value32();
      TableEntryBelow(Slot(c, s[0]));
      XorBelow(TableEntry(Slot(c, s[0])), c / 256, 32);
      UpdateCrcBelow(Step(c, s[0]), s[1..]);
    }
  }

  /** crc(): start from all ones, complement (exclusive-or with all ones) at the end. */
  function CrcOf(s: seq<byte>): (r: nat)
    ensures |s| == 0 ==> r == 0
    ensures r <= Mask32
  {
    UpdateCrcBelow(Mask32, s);
    Pow2Value32();
    XorBelow(UpdateCrc(Mask32, s), Mask32, 32);
    XorSelf(Mask32);
    Xor(UpdateCrc(Mask32, s), Mask32)
  }

  lemma {:induction false} XorSelf(a: nat)
    ensures Xor(a, a) == 0
    decreases a
  {
    if a != 0 {
      XorSelf(a / 2);
    }
  }

  /** The inner loop of make_crc_table: eight rounds of shift-and-reduce on n. */
  method ComputeEntry(n: nat) returns (c: nat)
    requires n < 256
    ensures c == TableEntry(n)
  {
    c := n;
    var k := 0;
    while k < 8
      invariant 0 <= k <= 8
      invariant Rounds(c, 8 - k) == TableEntry(n)
    {
      if c % 2 == 1 {
        c := Xor(Polynomial, c / 2);
      } else {
        c := c / 2;
      }
      k := k + 1;
    }
  }

  /** The global `crc_table` with its `crc_table_computed` flag. */
  class CrcTable {
    var table: array<nat>
    var computed: bool

    ghost predicate Valid()
      reads this, table
    {
      table.Length == 256 &&
      (computed ==> forall n :: 0 <= n < 256 ==> table[n] == TableEntry(n))
    }

    /** The zero-initialised global, flag cleared. */
    constructor ()
      ensures Valid() && fresh(table) && !computed
    {
      table := new nat[256];
      computed := false;
    }

    /** make_crc_table: fill every entry and set the flag. */
    method MakeCrcTable()
      requires Valid()
      modifies this, table
      ensures Valid() && computed && table == old(table)
      ensures forall n :: 0 <= n < 256 ==> table[n] <= Mask32
    {
      var n := 0;
      while n < 256
        invariant 0 <= n <= 256 && table == old(table) && table.Length == 256
        invariant forall i :: 0 <= i < n ==> table[i] == TableEntry(i)
      {
        var c := ComputeEntry(n);
        table[n] := c;
        n := n + 1;
      }
      computed := true;
      forall i | 0 <= i < 256 ensures table[i] <= Mask32 {
        TableEntryBelow(i);
      }
    }

    /** update_crc: builds the table on first use, then steps over buf[0..len-1];
        a negative len consumes nothing. */
    method Update(crc: nat, buf: array<byte>, len: int) returns (c: nat)
      requires Valid()
      requires len <= buf.Length
      modifies this, table
      ensures Valid() && computed && table == old(table)
      ensures c == UpdateCrc(crc, buf[..if len < 0 then 0 else len])
    {
      c := crc;
      if !computed {
        MakeCrcTable();
      }
      var n := 0;
      while n < len
        invariant 0 <= n <= buf.Length && (len >= 0 ==> n <= len) && (len < 0 ==> n == 0)
        invariant Valid() && computed && table == old(table)
        invariant c == UpdateCrc(crc, buf[..n])
      {
        UpdateCrcSnoc(crc, buf[..n], buf[n]);
        assert buf[..n + 1] == buf[..n] + [buf[n]];
        c := Xor(table[Xor(c, buf[n]) % 256], c / 256);
        n := n + 1;
      }
      assert buf[..n] == buf[..if len < 0 then 0 else len];
    }

    /** crc(): the CRC of buf[0..len-1]. */
    method Crc(buf: array<byte>, len: int) returns (c: nat)
      requires Valid()
      requires len <= buf.Length
      modifies this, table
      ensures Valid() && computed && table == old(table)
      ensures c == CrcOf(buf[..if len < 0 then 0 else len])
    {
      c := Update(Mask32, buf, len);
      c := Xor(c, Mask32);
    }
  }
}
