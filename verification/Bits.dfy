/** 32-bit words: the mask and field macros of include/bitops.h and include/mm.h, and the facts that tie
    the bit fields of a word to quotients and remainders of the unsigned integer it stands for. */
module Bits {

  /** The number of 32-bit words. */
  const WORD: nat := 0x1_0000_0000

  // ----- macros -----

  /** GENMASK(h, l) with 32-bit longs. */
  function GenMask(h: nat, l: nat): bv32
    requires l <= h < 32
  {
    (0xFFFF_FFFF << l) & (0xFFFF_FFFF >> (31 - h))
  }

  function SetBit(v: bv32, mask: bv32): bv32 { v | mask }

  function ClrBit(v: bv32, mask: bv32): bv32 { v & !mask }

  function SetVal(v: bv32, value: bv32, mask: bv32, offst: nat): bv32
    requires offst < 32
  {
    (v & !mask) | ((value << offst) & mask)
  }

  function GetVal(v: bv32, mask: bv32, offst: nat): bv32
    requires offst < 32
  {
    (v & mask) >> offst
  }

  // The count needs six bits.
  function NBits2(n: bv32): bv6 { if n & 2 != 0 then 1 else 0 }
  function NBits4(n: bv32): bv6 { if n & 0xC != 0 then 2 + NBits2(n >> 2) else NBits2(n) }
  function NBits8(n: bv32): bv6 { if n & 0xF0 != 0 then 4 + NBits4(n >> 4) else NBits4(n) }
  function NBits16(n: bv32): bv6 { if n & 0xFF00 != 0 then 8 + NBits8(n >> 8) else NBits8(n) }
  function NBits32(n: bv32): bv6 { if n & 0xFFFF_0000 != 0 then 16 + NBits16(n >> 16) else NBits16(n) }
  function NBits(n: bv32): bv6 { if n == 0 then 0 else NBits32(n) }

  /** NBITS is the floor of the base-2 logarithm of every non-zero word: shifting right by it leaves exactly 1. */
  lemma NBitsIsLog2(n: bv32)
    requires n != 0
    ensures NBits(n) < 32 && n >> NBits(n) == 1
  {
  }

  // ----- words and integers -----

  lemma Double(x: bv32)
    requires x & 0x8000_0000 == 0
    ensures (x << 1) as nat == 2 * (x as nat)
    ensures ((x << 1) | 1) as nat == 2 * (x as nat) + 1
  {
  }

  lemma TopBitClear(x: bv32)
    requires x as nat < 0x8000_0000
    ensures x & 0x8000_0000 == 0
  {
  }

  /** Every 32-bit unsigned integer is the value of some word. */
  lemma {:induction false} WordExists(n: nat) returns (x: bv32)
    requires n < 0x1_0000_0000
    ensures x as nat == n
  {
    if n == 0 {
      x := 0;
    } else {
      var h := WordExists(n / 2);
      TopBitClear(h);
      Double(h);
      x := if n % 2 == 0 then h << 1 else (h << 1) | 1;
    }
  }

  lemma WordBack(x: bv32)
    ensures (x as nat) as bv32 == x
  {
  }

  /** A 32-bit unsigned integer survives the trip through a word. */
  lemma RoundTrip(n: nat)
    requires n < 0x1_0000_0000
    ensures (n as bv32) as nat == n
  {
    var x := WordExists(n);
    WordBack(x);
  }

  lemma QuotRem(n: nat, d: nat, q: nat, r: nat)
    requires r < d && n == d * q + r
    ensures n / d == q && n % d == r
  {
    var k := n / d - q;
    assert d * k == r - n % d;
  }

  lemma JoinByte(a: bv24, b: bv8)
    ensures (((a as bv32) << 8) | (b as bv32)) as nat == 0x100 * (a as nat) + (b as nat)
    ensures (a as bv32) as nat == a as nat && (b as bv32) as nat == b as nat
  {
  }

  lemma PartsByte(x: bv32) returns (a: bv24, b: bv8)
    ensures a as bv32 == x >> 8 && b as bv32 == x & 0xFF
    ensures x == ((a as bv32) << 8) | (b as bv32)
  {
    a, b := (x >> 8) as bv24, (x & 0xFF) as bv8;
  }

  /** The low 8 bits (byte) and the rest are remainder and quotient by 2^8. */
  lemma SplitByte(x: bv32, n: nat)
    requires n == x as nat
    ensures (x & 0xFF) as nat == n % 0x100
    ensures (x >> 8) as nat == n / 0x100
  {
    var a, b := PartsByte(x);
    JoinByte(a, b);
    QuotRem(n, 0x100, a as nat, b as nat);
  }

  lemma JoinFpn(a: bv19, b: bv13)
    ensures (((a as bv32) << 13) | (b as bv32)) as nat == 0x2000 * (a as nat) + (b as nat)
    ensures (a as bv32) as nat == a as nat && (b as bv32) as nat == b as nat
  {
  }

  lemma PartsFpn(x: bv32) returns (a: bv19, b: bv13)
    ensures a as bv32 == x >> 13 && b as bv32 == x & 0x1FFF
    ensures x == ((a as bv32) << 13) | (b as bv32)
  {
    a, b := (x >> 13) as bv19, (x & 0x1FFF) as bv13;
  }

  /** The low 13 bits (frame number field) are the remainder by 2^13. */
  lemma SplitFpn(x: bv32, n: nat)
    requires n == x as nat
    ensures (x & 0x1FFF) as nat == n % 0x2000
  {
    var a, b := PartsFpn(x);
    JoinFpn(a, b);
    QuotRem(n, 0x2000, a as nat, b as nat);
  }

  lemma JoinPgn(a: bv18, b: bv14)
    ensures (((a as bv32) << 14) | (b as bv32)) as nat == 0x4000 * (a as nat) + (b as nat)
    ensures (a as bv32) as nat == a as nat && (b as bv32) as nat == b as nat
  {
  }

  lemma PartsPgn(x: bv32) returns (a: bv18, b: bv14)
    ensures a as bv32 == x >> 14 && b as bv32 == x & 0x3FFF
    ensures x == ((a as bv32) << 14) | (b as bv32)
  {
    a, b := (x >> 14) as bv18, (x & 0x3FFF) as bv14;
  }

  /** The low 14 bits (page number field) are the remainder by 2^14. */
  lemma SplitPgn(x: bv32, n: nat)
    requires n == x as nat
    ensures (x & 0x3FFF) as nat == n % 0x4000
  {
    var a, b := PartsPgn(x);
    JoinPgn(a, b);
    QuotRem(n, 0x4000, a as nat, b as nat);
  }

  lemma JoinSwpoff(a: bv11, b: bv21)
    ensures (((a as bv32) << 21) | (b as bv32)) as nat == 0x200000 * (a as nat) + (b as nat)
    ensures (a as bv32) as nat == a as nat && (b as bv32) as nat == b as nat
  {
  }

  lemma PartsSwpoff(x: bv32) returns (a: bv11, b: bv21)
    ensures a as bv32 == x >> 21 && b as bv32 == x & 0x1F_FFFF
    ensures x == ((a as bv32) << 21) | (b as bv32)
  {
    a, b := (x >> 21) as bv11, (x & 0x1F_FFFF) as bv21;
  }

  /** The low 21 bits (swap offset field) are the remainder by 2^21. */
  lemma SplitSwpoff(x: bv32, n: nat)
    requires n == x as nat
    ensures (x & 0x1F_FFFF) as nat == n % 0x200000
  {
    var a, b := PartsSwpoff(x);
    JoinSwpoff(a, b);
    QuotRem(n, 0x200000, a as nat, b as nat);
  }

  /** Five zero bits below the low byte of x. */
  lemma ByteTimes32(x: bv32)
    ensures ((x << 5) & 0x1FFF) as nat == 32 * ((x & 0xFF) as nat)
  {
  }
}
