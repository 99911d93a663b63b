/** Register access to the console's NAND controller over SPI (spiex.c). Each access is one
    fixed byte frame: a command byte carrying the register number in bits 7..2 and the direction
    in bits 1..0, then either a turnaround byte and four reply bytes (read) or the value
    (write), least significant byte first. The transfer itself is outside this model; a read
    is given the bytes the controller shifted back. */
module Spiex {
  import opened Wrappers
  import opened ByteOrder

  /** One register access as it appears on the wire. Registers are 6-bit numbers. */
  datatype Access = Read(reg: bv8) | Write(reg: bv8, value: bv32)

  const DIR_READ: bv8 := 1
  const DIR_WRITE: bv8 := 2

  /** The command byte `(reg << 2) | dir`, truncated to a byte as `uint8_t` does. */
  function CommandByte(reg: bv8, dir: bv8): (c: bv8)
    requires dir == DIR_READ || dir == DIR_WRITE
    ensures c & 3 == dir
    ensures c >> 2 == reg & 0x3F
  {
    (reg << 2) | dir
  }

  /** `spiex_read_reg` sends the command byte, a 0xFF turnaround byte and four zero bytes. */
  function ReadFrame(reg: bv8): (f: seq<bv8>)
    ensures |f| == 6
    ensures f[0] & 3 == DIR_READ && f[0] >> 2 == reg & 0x3F
    ensures f[1] == 0xFF && f[2..] == [0, 0, 0, 0]
  {
    [CommandByte(reg, DIR_READ), 0xFF, 0, 0, 0, 0]
  }

  /** The value `spiex_read_reg` returns: the little-endian word in reply bytes 2..5. */
  function ReadValue(rx: seq<bv8>): bv32
    requires |rx| == 6
  {
    LeWord(rx[2..6])
  }

  /** `spiex_write_reg` sends the command byte followed by the value, least significant byte first. */
  function WriteFrame(reg: bv8, val: bv32): (f: seq<bv8>)
    ensures |f| == 5
    ensures f[0] & 3 == DIR_WRITE && f[0] >> 2 == reg & 0x3F
    ensures f[1..] == LeBytes(val)
  {
    [CommandByte(reg, DIR_WRITE)] + LeBytes(val)
  }

  function Encode(a: Access): (f: seq<bv8>) {
    match a
    case Read(reg) => ReadFrame(reg)
    case Write(reg, val) => WriteFrame(reg, val)
  }

  /** How the controller reads a frame: the direction bits select the layout. */
  function Decode(f: seq<bv8>): (a: Option<Access>)
    ensures a.Some? ==> Encode(a.value) == f
  {
    if |f| == 6 && f[0] & 3 == DIR_READ && f[1..] == [0xFF, 0, 0, 0, 0] then
      CommandBits(f[0], DIR_READ);
      Some(Read(f[0] >> 2))
    else if |f| == 5 && f[0] & 3 == DIR_WRITE then
      CommandBits(f[0], DIR_WRITE);
      LeRoundTrip(0, f[1..]);
      Some(Write(f[0] >> 2, LeWord(f[1..])))
    else
      None
  }

  /** A command byte is determined by its register bits and its direction bits. */
  lemma CommandBits(c: bv8, dir: bv8)
    requires dir == DIR_READ || dir == DIR_WRITE
    requires c & 3 == dir
    ensures CommandByte(c >> 2, dir) == c
  {
  }

  /** Every frame the driver sends decodes to the access it encodes, with the register number
      reduced to the six bits the command byte has room for. */
  lemma FrameRoundTrip(a: Access)
    ensures Decode(Encode(a)) == Some(match a
      case Read(reg) => Read(reg & 0x3F)
      case Write(reg, val) => Write(reg & 0x3F, val))
  {
    match a
    case Read(reg) =>
    case Write(reg, val) =>
      LeRoundTrip(val, [0, 0, 0, 0]);
  }

  /** A read frame and a write frame never share a command byte, whatever their registers. */
  lemma DirectionsDiffer(r: bv8, w: bv8, val: bv32)
    ensures ReadFrame(r)[0] != WriteFrame(w, val)[0]
  {
  }

  /** A controller that drives `v` into reply bytes 2..5 is read back as `v`. */
  lemma ReadValueOfReply(rx: seq<bv8>, v: bv32)
    requires |rx| == 6 && rx[2..] == LeBytes(v)
    ensures ReadValue(rx) == v
  {
    LeRoundTrip(v, rx[2..]);
  }
}
