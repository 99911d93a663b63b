/** CRC-7 of the SD/MMC command channel (section 4.5 of the SD Physical Layer Simplified
    Specification): generator polynomial x^7 + x^3 + 1, message bits taken most significant
    first. The driver keeps the 7-bit remainder left-aligned in a byte (bits 7..1, bit 0
    clear), so that `crc | 1` appends the frame's end bit. The contents of `crc7_table`
    are not part of this model; the table is rebuilt here from the polynomial. */
module Crc7 {

  /** x^7 + x^3 + 1 without its leading term, shifted to the left-aligned position. */
  const POLY_ALIGNED: bv8 := 0x12

  // ---------------------------------------------------------------------------------
  // The table the driver indexes, as a table generator computes it
  // ---------------------------------------------------------------------------------

  /** One table-generation step: shift the register once with no input bit. */
  function Shift(r: bv8): bv8 {
    if r & 0x80 != 0 then (r << 1) ^ POLY_ALIGNED else r << 1
  }

  /** `k` input-free shifts. */
  function ShiftN(r: bv8, k: nat): bv8
    decreases k
  {
    if k == 0 then r else ShiftN(Shift(r), k - 1)
  }

  /** `crc7_table[i]`: eight input-free shifts of the index. */
  function Lookup(i: bv8): bv8 {
    ShiftN(i, 8)
  }

  /** `crc = crc7_table[crc ^ b]` for each byte in turn (sdio.c:317-321, sdio.c:391-395). */
  function Chain(crc: bv8, msg: seq<bv8>): bv8
    decreases |msg|
  {
    if msg == [] then crc else Chain(Lookup(crc ^ msg[0]), msg[1..])
  }

  // ---------------------------------------------------------------------------------
  // Reference: the bit-serial CRC-7 shift register, bit by bit
  // ---------------------------------------------------------------------------------

  /** The 8-bit register as its bits, `b7` the most significant. */
  datatype Bits = Bits(b7: bool, b6: bool, b5: bool, b4: bool, b3: bool, b2: bool, b1: bool, b0: bool)

  /** Whether bit `m` (a one-bit mask) of `x` is set. */
  function Bit(x: bv8, m: bv8): bool {
    x & m != 0
  }

  function ToBits(x: bv8): Bits {
    Bits(Bit(x, 0x80), Bit(x, 0x40), Bit(x, 0x20), Bit(x, 0x10),
         Bit(x, 0x08), Bit(x, 0x04), Bit(x, 0x02), Bit(x, 0x01))
  }

  function FromBits(r: Bits): bv8 {
    (if r.b7 then 0x80 else 0) | (if r.b6 then 0x40 else 0) | (if r.b5 then 0x20 else 0)
      | (if r.b4 then 0x10 else 0) | (if r.b3 then 0x08 else 0) | (if r.b2 then 0x04 else 0)
      | (if r.b1 then 0x02 else 0) | (if r.b0 then 0x01 else 0)
  }

  function Xor(a: Bits, b: Bits): Bits {
    Bits(a.b7 != b.b7, a.b6 != b.b6, a.b5 != b.b5, a.b4 != b.b4,
         a.b3 != b.b3, a.b2 != b.b2, a.b1 != b.b1, a.b0 != b.b0)
  }

  /** Shift left by one, a 0 entering bit 0. */
  function Drop(a: Bits): Bits {
    Bits(a.b6, a.b5, a.b4, a.b3, a.b2, a.b1, a.b0, false)
  }

  /** One clock of the serial register: the bit leaving the top, xored with the input bit,
      is fed back at the x^3 and x^0 taps (bits 4 and 1 of the left-aligned byte). */
  function FeedBit(reg: Bits, bit: bool): Bits {
    var fb := reg.b7 != bit;
    Bits(reg.b6, reg.b5, reg.b4, reg.b3 != fb, reg.b2, reg.b1, reg.b0 != fb, false)
  }

  /** Feeds the top `k` bits of `pending`, most significant first. */
  function FeedBits(reg: Bits, pending: Bits, k: nat): Bits
    decreases k
  {
    if k == 0 then reg else FeedBits(FeedBit(reg, pending.b7), Drop(pending), k - 1)
  }

  /** The register after the eight bits of `b`, most significant first. */
  function FeedByte(reg: bv8, b: bv8): bv8 {
    FromBits(FeedBits(ToBits(reg), ToBits(b), 8))
  }

  /** Reference CRC-7 register after a whole message, starting from `reg`. */
  function Serial(reg: bv8, msg: seq<bv8>): bv8
    decreases |msg|
  {
    if msg == [] then reg else Serial(FeedByte(reg, msg[0]), msg[1..])
  }

  /** The input-free shift on bits. */
  function ShiftBits(a: Bits): Bits {
    FeedBit(a, false)
  }

  function ShiftBitsN(a: Bits, k: nat): Bits
    decreases k
  {
    if k == 0 then a else ShiftBitsN(ShiftBits(a), k - 1)
  }

  function DropN(a: Bits, k: nat): Bits
    decreases k
  {
    if k == 0 then a else DropN(Drop(a), k - 1)
  }

  // ---------------------------------------------------------------------------------
  // The table chain is the serial CRC
  // ---------------------------------------------------------------------------------

  lemma ToFromBits(x: bv8)
    ensures FromBits(ToBits(x)) == x
  {
  }

  /** Bit `m` of `x ^ y` is the exclusive or of bit `m` of `x` and of `y`. */
  lemma XorBit(x: bv8, y: bv8, m: bv8)
    requires m in {0x80, 0x40, 0x20, 0x10, 0x08, 0x04, 0x02, 0x01}
    ensures Bit(x ^ y, m) == (Bit(x, m) != Bit(y, m))
  {
  }

  lemma ToBitsXor(x: bv8, y: bv8)
    ensures ToBits(x ^ y) == Xor(ToBits(x), ToBits(y))
  {
    XorBit(x, y, 0x80); XorBit(x, y, 0x40); XorBit(x, y, 0x20); XorBit(x, y, 0x10);
    XorBit(x, y, 0x08); XorBit(x, y, 0x04); XorBit(x, y, 0x02); XorBit(x, y, 0x01);
  }

  lemma ToBitsShift(x: bv8)
    ensures ToBits(Shift(x)) == ShiftBits(ToBits(x))
  {
  }

  /** One serial step is one input-free shift of the table's register with the input bit
      folded into its top: the two registers differ by the input bits not yet fed. */
  lemma FeedStep(t: Bits, pending: Bits)
    ensures FeedBit(Xor(t, pending), pending.b7) == Xor(ShiftBits(t), Drop(pending))
  {
  }

  /** After `k` serial steps the register is `k` input-free shifts of the table's register,
      except for the input bits that are still pending. */
  lemma {:induction false} FeedBitsShifts(t: Bits, pending: Bits, k: nat)
    ensures FeedBits(Xor(t, pending), pending, k) == Xor(ShiftBitsN(t, k), DropN(pending, k))
    decreases k
  {
    if k > 0 {
      FeedStep(t, pending);
      FeedBitsShifts(ShiftBits(t), Drop(pending), k - 1);
    }
  }

  /** The table generator's shifts, seen bit by bit. */
  lemma {:induction false} ToBitsShiftN(x: bv8, k: nat)
    ensures ToBits(ShiftN(x, k)) == ShiftBitsN(ToBits(x), k)
    decreases k
  {
    if k > 0 {
      ToBitsShift(x);
      ToBitsShiftN(Shift(x), k - 1);
    }
  }

  /** Eight shifts empty a byte. */
  lemma DropEmpties(p: Bits)
    ensures DropN(p, 8) == Bits(false, false, false, false, false, false, false, false)
  {
  }

  lemma XorZero(a: Bits)
    ensures Xor(a, Bits(false, false, false, false, false, false, false, false)) == a
  {
  }

  /** Pushing a byte through the shift register is one table lookup on `reg ^ b`. */
  lemma ByteStepIsLookup(reg: bv8, b: bv8)
    ensures FeedByte(reg, b) == Lookup(reg ^ b)
  {
    var t := ToBits(reg ^ b);
    var p := ToBits(b);
    calc {
      ToBits(reg);
      { assert reg == (reg ^ b) ^ b; }
      ToBits((reg ^ b) ^ b);
      { ToBitsXor(reg ^ b, b); }
      Xor(t, p);
    }
    FeedBitsShifts(t, p, 8);
    DropEmpties(p);
    XorZero(ShiftBitsN(t, 8));
    ToBitsShiftN(reg ^ b, 8);
    ToFromBits(Lookup(reg ^ b));
  }

  /** Every shift brings a 0 into bit 0 and the polynomial has bit 0 clear. */
  lemma {:induction false} ShiftsClearBitZero(r: bv8, k: nat)
    requires k > 0
    ensures ShiftN(r, k) & 1 == 0
    decreases k
  {
    if k > 1 {
      ShiftsClearBitZero(Shift(r), k - 1);
    }
  }

  /** Each table entry is the CRC-7 of its index byte, held in bits 7..1 with bit 0 clear. */
  lemma TableEntry(i: bv8)
    ensures Lookup(i) == FeedByte(0, i)
    ensures Lookup(i) & 1 == 0
  {
    ByteStepIsLookup(0, i);
    ShiftsClearBitZero(i, 8);
  }

  /** The driver's table chain computes exactly the bit-serial CRC-7 of the message. */
  lemma {:induction false} ChainIsSerial(crc: bv8, msg: seq<bv8>)
    ensures Chain(crc, msg) == Serial(crc, msg)
    decreases |msg|
  {
    if msg != [] {
      ByteStepIsLookup(crc, msg[0]);
      ChainIsSerial(Lookup(crc ^ msg[0]), msg[1..]);
    }
  }

  /** A chain over a non-empty message ends with bit 0 clear, so `| 1` only adds the end bit. */
  lemma {:induction false} ChainEven(crc: bv8, msg: seq<bv8>)
    requires msg != [] || crc & 1 == 0
    ensures Chain(crc, msg) & 1 == 0
    decreases |msg|
  {
    if msg != [] {
      TableEntry(crc ^ msg[0]);
      ChainEven(Lookup(crc ^ msg[0]), msg[1..]);
    }
  }

  /** Feeding the remainder back in (its 7 bits and the end bit) leaves the constant residue
      of a single 1 bit: the remainder bits cancel the register, as polynomial division requires. */
  lemma CheckByteResidue(reg: bv8)
    requires reg & 1 == 0
    ensures FeedByte(reg, reg | 1) == Lookup(1)
  {
    ByteStepIsLookup(reg, reg | 1);
    assert reg ^ (reg | 1) == 1;
  }
}
