/** The per-cell flag byte of an occupancy grid: which bit holds which flag, and how
    one bit of a cell's byte is read and written. */
module CellFlags {

  /** The flag byte stored for one cell. Bits 6 and 7 carry no flag. */
  type Byte = bv8

  /** The six flags, in bit order: FreeSpace is bit 0, FinalTopologicalMap bit 5. */
  datatype Flag = FreeSpace | SafeSpace | Obstacle | KnownAtBase | GotRelayed | FinalTopologicalMap

  /** The bit a flag occupies: its position in the enumeration. */
  function Ordinal(f: Flag): (k: nat)
    ensures k < 6
  {
    match f
    case FreeSpace => 0
    case SafeSpace => 1
    case Obstacle => 2
    case KnownAtBase => 3
    case GotRelayed => 4
    case FinalTopologicalMap => 5
  }

  /** Distinct flags occupy distinct bits. */
  lemma OrdinalInjective(f: Flag, g: Flag)
    ensures Ordinal(f) == Ordinal(g) <==> f == g
  {
  }

  /** The mask of one bit: two to the power `bit`, narrowed to a byte. */
  function Mask(bit: nat): (m: Byte)
    requires bit < 8
    ensures m == 1 || m == 2 || m == 4 || m == 8 || m == 16 || m == 32 || m == 64 || m == 128
  {
    match bit
    case 0 => 0x01
    case 1 => 0x02
    case 2 => 0x04
    case 3 => 0x08
    case 4 => 0x10
    case 5 => 0x20
    case 6 => 0x40
    case _ => 0x80
  }

  /** Reads one bit of a byte as 0 or 1. */
  function GetBit(b: Byte, bit: nat): (r: int)
    requires bit < 8
    ensures r == 0 || r == 1
  {
    if b & Mask(bit) != 0 then 1 else 0
  }

  /** The bit read is the binary digit of the byte at that position: the byte shifted right by
      `bit`, modulo two. This holds for bit 7 as well. */
  lemma GetBitIsShiftedDigit(b: Byte, bit: nat)
    requires bit < 8
    ensures GetBit(b, bit) == ((b >> bit) & 1) as int
  {
    match bit
    case 0 => {} case 1 => {} case 2 => {} case 3 => {}
    case 4 => {} case 5 => {} case 6 => {} case 7 => {}
  }

  /** Java's 32-bit sign extension of a byte. */
  function Widen(b: Byte): bv32
  {
    if b < 0x80 then b as bv32 else (b as bv32) | 0xFFFF_FF00
  }

  /** The value of a 32-bit pattern as a Java `int`. */
  function SignedInt(v: bv32): int
  {
    if v < 0x8000_0000 then v as int else v as int - 0x1_0000_0000
  }

  /** Reads one bit the way the grid's bit reader does: cell byte and mask are both
      widened to `int`, masked, and the bit counts as set when the result is positive. */
  function GetBitAsWritten(b: Byte, bit: nat): (r: int)
    requires bit < 8
    ensures r == 0 || r == 1
  {
    if SignedInt(Widen(b) & Widen(Mask(bit))) > 0 then 1 else 0
  }

  /** Below bit 7 the signed reading agrees with the plain one, so all six flags read correctly. */
  lemma GetBitAsWrittenAgreesBelowBit7(b: Byte, bit: nat)
    requires bit < 7
    ensures GetBitAsWritten(b, bit) == GetBit(b, bit)
  {
  }

  /** Bit 7 is never reported: its mask widens to a negative `int`. The byte 0x80 has bit 7 set,
      yet the signed reading says 0. */
  lemma GetBitAsWrittenMissesBit7(b: Byte)
    ensures GetBitAsWritten(b, 7) == 0
    ensures GetBit(0x80, 7) == 1
  {
  }

  /** Setting or clearing one bit leaves every other bit as it was. */
  lemma OtherBitsUnchanged(b: Byte, bit: nat, k: nat)
    requires bit < 8 && k < 8 && k != bit
    ensures GetBit(b | Mask(bit), k) == GetBit(b, k)
    ensures GetBit(b & !Mask(bit), k) == GetBit(b, k)
  {
    assert Mask(bit) & Mask(k) == 0 by {
      match bit
      case 0 => {} case 1 => {} case 2 => {} case 3 => {}
      case 4 => {} case 5 => {} case 6 => {} case 7 => {}
    }
  }

  /** Adding the mask to a clear bit sets it, subtracting it from a set bit clears it. */
  lemma OwnBitWritten(b: Byte, bit: nat)
    requires bit < 8
    ensures GetBit(b | Mask(bit), bit) == 1 && GetBit(b & !Mask(bit), bit) == 0
    ensures b & Mask(bit) == 0 ==> b + Mask(bit) == b | Mask(bit)
    ensures b & Mask(bit) != 0 ==> b - Mask(bit) == b & !Mask(bit)
    ensures b & Mask(bit) == 0 ==> b ^ Mask(bit) == b | Mask(bit)
    ensures b & Mask(bit) != 0 ==> b ^ Mask(bit) == b & !Mask(bit)
  {
  }

  /** Writes one bit the way the grid does it: by adding the mask to a clear bit when `value`
      is not 0, and by subtracting it from a set bit when `value` is not 1. The arithmetic is
      the same as or-ing the mask in, or and-ing it out. */
  function SetBit(b: Byte, bit: nat, value: int): (r: Byte)
    requires bit < 8
    ensures value == 1 ==> r == b | Mask(bit)
    ensures value == 0 ==> r == b & !Mask(bit)
    ensures value != 0 && value != 1 ==> r == b ^ Mask(bit)
  {
    OwnBitWritten(b, bit);
    if b & Mask(bit) == 0 then
      (if value == 0 then b else b + Mask(bit))
    else
      (if value == 1 then b else b - Mask(bit))
  }

  /** Reading back after a write: the written bit holds `value` (0 or 1; any other value flips
      it), and every other bit is as it was. */
  lemma SetBitReadBack(b: Byte, bit: nat, value: int, k: nat)
    requires bit < 8 && k < 8
    ensures k == bit && (value == 0 || value == 1) ==> GetBit(SetBit(b, bit, value), k) == value
    ensures k == bit && value != 0 && value != 1 ==> GetBit(SetBit(b, bit, value), k) == 1 - GetBit(b, k)
    ensures k != bit ==> GetBit(SetBit(b, bit, value), k) == GetBit(b, k)
  {
    OwnBitWritten(b, bit);
    if k != bit {
      OtherBitsUnchanged(b, bit, k);
    }
  }

  /** Whether a flag is set in a cell's byte. */
  predicate Has(b: Byte, f: Flag)
  {
    GetBit(b, Ordinal(f)) == 1
  }

  /** A cell nothing has been learnt about: neither free, safe nor an obstacle. */
  predicate Unexplored(b: Byte)
  {
    !Has(b, FreeSpace) && !Has(b, SafeSpace) && !Has(b, Obstacle)
  }

  /** Writing flag `f` leaves the other flags and the two spare bits alone. */
  lemma FlagsAfterWrite(b: Byte, f: Flag, value: int)
    requires value == 0 || value == 1
    ensures forall g :: Has(SetBit(b, Ordinal(f), value), g) <==> (if g == f then value == 1 else Has(b, g))
    ensures forall k: nat :: 6 <= k < 8 ==> GetBit(SetBit(b, Ordinal(f), value), k) == GetBit(b, k)
  {
    forall g ensures Has(SetBit(b, Ordinal(f), value), g) <==> (if g == f then value == 1 else Has(b, g)) {
      SetBitReadBack(b, Ordinal(f), value, Ordinal(g));
      OrdinalInjective(f, g);
    }
    forall k: nat | 6 <= k < 8 {
      SetBitReadBack(b, Ordinal(f), value, k);
    }
  }

  /** The byte with flag `f` set and every other bit as it was. */
  function With(b: Byte, f: Flag): (r: Byte)
    ensures forall g :: Has(r, g) <==> g == f || Has(b, g)
    ensures Has(b, f) ==> r == b
    ensures forall k: nat :: 6 <= k < 8 ==> GetBit(r, k) == GetBit(b, k)
  {
    FlagsAfterWrite(b, f, 1);
    SetBit(b, Ordinal(f), 1)
  }

  /** The byte with flag `f` clear and every other bit as it was. */
  function Without(b: Byte, f: Flag): (r: Byte)
    ensures forall g :: Has(r, g) <==> g != f && Has(b, g)
    ensures !Has(b, f) ==> r == b
    ensures forall k: nat :: 6 <= k < 8 ==> GetBit(r, k) == GetBit(b, k)
  {
    FlagsAfterWrite(b, f, 0);
    SetBit(b, Ordinal(f), 0)
  }

  /** The byte with the GotRelayed bit masked out: what two grids compare when merging. */
  function NoRelay(b: Byte): (r: Byte)
    ensures !Has(r, GotRelayed)
    ensures forall k: nat :: k < 8 && k != Ordinal(GotRelayed) ==> GetBit(r, k) == GetBit(b, k)
  {
    b & !((1 as bv8) << 4)
  }

  /** A byte is determined by its eight bits. */
  lemma SameBitsSameByte(a: Byte, b: Byte)
    requires forall k: nat :: k < 8 ==> GetBit(a, k) == GetBit(b, k)
    ensures a == b
  {
    assert GetBit(a, 0) == GetBit(b, 0) && GetBit(a, 1) == GetBit(b, 1);
    assert GetBit(a, 2) == GetBit(b, 2) && GetBit(a, 3) == GetBit(b, 3);
    assert GetBit(a, 4) == GetBit(b, 4) && GetBit(a, 5) == GetBit(b, 5);
    assert GetBit(a, 6) == GetBit(b, 6) && GetBit(a, 7) == GetBit(b, 7);
  }

  /** A byte is determined by its six flags and its two spare bits. */
  lemma SameFlagsSameByte(a: Byte, b: Byte)
    requires forall f :: Has(a, f) <==> Has(b, f)
    requires GetBit(a, 6) == GetBit(b, 6) && GetBit(a, 7) == GetBit(b, 7)
    ensures a == b
  {
    assert Has(a, FreeSpace) <==> Has(b, FreeSpace);
    assert Has(a, SafeSpace) <==> Has(b, SafeSpace);
    assert Has(a, Obstacle) <==> Has(b, Obstacle);
    assert Has(a, KnownAtBase) <==> Has(b, KnownAtBase);
    assert Has(a, GotRelayed) <==> Has(b, GotRelayed);
    assert Has(a, FinalTopologicalMap) <==> Has(b, FinalTopologicalMap);
    SameBitsSameByte(a, b);
  }

  /** The zero byte is the one with no flag and no spare bit set. */
  lemma ZeroByte(b: Byte)
    ensures b == 0 <==> (forall f :: !Has(b, f)) && GetBit(b, 6) == 0 && GetBit(b, 7) == 0
  {
    if (forall f :: !Has(b, f)) && GetBit(b, 6) == 0 && GetBit(b, 7) == 0 {
      SameFlagsSameByte(b, 0);
    }
  }

  /** Two bytes that agree on every flag but GotRelayed, and on the spare bits, agree once the
      GotRelayed bit is masked out. */
  lemma SameNoRelay(a: Byte, b: Byte)
    requires Has(a, FreeSpace) == Has(b, FreeSpace) && Has(a, SafeSpace) == Has(b, SafeSpace)
    requires Has(a, Obstacle) == Has(b, Obstacle) && Has(a, KnownAtBase) == Has(b, KnownAtBase)
    requires Has(a, FinalTopologicalMap) == Has(b, FinalTopologicalMap)
    requires GetBit(a, 6) == GetBit(b, 6) && GetBit(a, 7) == GetBit(b, 7)
    ensures NoRelay(a) == NoRelay(b)
  {
    forall k: nat | k < 8
      ensures GetBit(NoRelay(a), k) == GetBit(NoRelay(b), k)
    {
    }
    SameBitsSameByte(NoRelay(a), NoRelay(b));
  }
}
