/** The ISD1200 voice chip on its SPI link (isd1200.c). Every command is one full-duplex
    transfer: the frame is shifted out while the chip shifts a reply of the same length back
    into the same buffer. The chip is an oracle `Chip`: reply byte `j` is a function of every
    frame sent so far, the current one included, which covers status bits that change as the
    chip works. The driver is the class `Voice`, whose `wire` field is the frames sent so far.

    The driver's waits poll a status bit with no bound. Here each wait is given a number of
    polls; a wait that uses them all up reports that it is still polling, and `PollMoreFuel`
    shows that a larger budget changes nothing about a wait that finished. */
module Isd1200 {
  import opened Wrappers
  import opened ByteOrder

  const CMD_PLAY_VP: bv8 := 0xA6
  const CMD_EXE_VM: bv8 := 0xB0
  const CMD_READ_STATUS: bv8 := 0x40
  const CMD_READ_INT: bv8 := 0x46
  const CMD_READ_ID: bv8 := 0x48
  const CMD_DIG_READ: bv8 := 0xA2
  const CMD_DIG_WRITE: bv8 := 0xA0
  const CMD_CHIP_ERASE: bv8 := 0x26
  const CMD_PWR_UP: bv8 := 0x10
  const CMD_PWR_DN: bv8 := 0x12
  const CMD_RESET: bv8 := 0x14

  const STATUS_CMD_BSY: bv8 := 0x01
  const STATUS_VM_BSY: bv8 := 0x04
  const STATUS_DBUF_RDY: bv8 := 0x40
  const INTERRUPT_STATUS_WR_FIN: bv8 := 0x20

  /** The identification bytes `isd1200_init` insists on. */
  const PART_ID: bv8 := 0x03
  const MAN_ID: bv8 := 0xEF
  const MEM_TYPE: bv8 := 0x20

  /** Bytes of flash one `isd1200_flash_read` returns, and one `isd1200_flash_write` stores. */
  const READ_BYTES: nat := 512
  const WRITE_BYTES: nat := 16

  /** The chip: the byte it shifts out at position `j` of the last frame of a history. */
  type Chip = (seq<seq<bv8>>, nat) -> bv8

  /** The `n` bytes the chip shifts back during the last frame of `wire`. */
  function Reply(chip: Chip, wire: seq<seq<bv8>>, n: nat): (rx: seq<bv8>)
    ensures |rx| == n
    ensures forall j :: 0 <= j < n ==> rx[j] == chip(wire, j)
  {
    seq(n, (j: int) requires 0 <= j < n => chip(wire, j))
  }

  // ---------------------------------------------------------------------------------
  // Frames
  // ---------------------------------------------------------------------------------

  const STATUS_FRAME: seq<bv8> := [CMD_READ_STATUS, 0x00]
  const INT_FRAME: seq<bv8> := [CMD_READ_INT, 0x00]
  const ID_FRAME: seq<bv8> := [CMD_READ_ID, 0x00, 0x00, 0x00, 0x00]
  const CHIP_ERASE_FRAME: seq<bv8> := [CMD_CHIP_ERASE, 0x01]

  /** `play_vp` and `exe_vm`: the opcode, then the index stored as `__builtin_bswap16(index)`. */
  function IndexFrame(op: bv8, index: bv16): (f: seq<bv8>)
    ensures |f| == 3 && f[0] == op
    ensures f[1] == (index >> 8) as bv8 && f[2] == (index & 0xFF) as bv8
  {
    [op] + Be16(index)
  }

  /** The 24-bit address the chip reads from bytes 1..3 of a flash frame, most significant first. */
  function Address(f: seq<bv8>): bv32
    requires |f| >= 4
  {
    BeWord([0, f[1], f[2], f[3]])
  }

  /** The four bytes `*(uint32_t *)&buf[1] = __builtin_bswap32(offset << 8)` stores. */
  function AddressBytes(offset: bv32): (s: seq<bv8>)
    ensures |s| == 4
  {
    LeBytes(Bswap(offset << 8))
  }

  /** The stored bytes are the low 24 bits of the offset, most significant first, then a zero. */
  lemma AddressBytesLayout(offset: bv32)
    ensures BeWord([0] + AddressBytes(offset)[..3]) == offset & 0xFF_FFFF
    ensures AddressBytes(offset)[3] == 0
  {
    var x := offset << 8;
    assert AddressBytes(offset) == BeBytes(x);
    TopBytes(x);
    ShiftBack(offset);
    assert BeBytes(x)[3] == (x & 0xFF) as bv8;
  }

  lemma ShiftBack(offset: bv32)
    ensures (offset << 8) >> 8 == offset & 0xFF_FFFF
    ensures (offset << 8) & 0xFF == 0
  {
  }

  /** The three most significant bytes of a word, read as a word, are the word shifted right by 8. */
  lemma TopBytes(x: bv32)
    ensures BeWord([0] + BeBytes(x)[..3]) == x >> 8
  {
    var b := BeBytes(x);
    assert [0] + b[..3] == [0, b[0], b[1], b[2]];
  }

  /** `isd1200_flash_read(page)`: 0xA2, the address `page * 512` in 32-bit arithmetic, and 512
      zero bytes during which the chip sends the data. */
  function FlashReadFrame(page: bv32): (f: seq<bv8>)
    ensures |f| == 1 + 4 + READ_BYTES && f[0] == CMD_DIG_READ
  {
    [CMD_DIG_READ] + AddressBytes(page * 512) + seq(READ_BYTES, _ => 0)
  }

  /** `isd1200_flash_write(page, buffer)`: 0xA0 and the address `page * 16`, then the 16 data
      bytes, copied over the fourth address byte. */
  function FlashWriteFrame(page: bv32, data: seq<bv8>): (f: seq<bv8>)
    requires |data| == WRITE_BYTES
    ensures |f| == 1 + 3 + WRITE_BYTES && f[0] == CMD_DIG_WRITE && f[4..] == data
  {
    var buf := [CMD_DIG_WRITE] + AddressBytes(page * 16);
    buf[..4] + data
  }

  /** A read frame carries the page's byte address modulo 2^24, a zero byte, then zeros. */
  lemma FlashReadLayout(page: bv32)
    ensures var f := FlashReadFrame(page);
      && Address(f) == (page * 512) & 0xFF_FFFF
      && f[4] == 0
      && forall j :: 5 <= j < |f| ==> f[j] == 0
  {
    var f := FlashReadFrame(page);
    AddressBytesLayout(page * 512);
    assert f[1..5] == AddressBytes(page * 512);
    assert [0, f[1], f[2], f[3]] == [0] + AddressBytes(page * 512)[..3];
  }

  /** A write frame carries the page's 16-byte-unit address modulo 2^24 and then the data; the
      byte the data copy overwrites is the zero the shift left below the address, so the
      address reaches the chip intact. */
  lemma FlashWriteLayout(page: bv32, data: seq<bv8>)
    requires |data| == WRITE_BYTES
    ensures var f := FlashWriteFrame(page, data);
      && Address(f) == (page * 16) & 0xFF_FFFF
      && f[4..] == data
      && AddressBytes(page * 16)[3] == 0
  {
    var f := FlashWriteFrame(page, data);
    AddressBytesLayout(page * 16);
    assert f[1..4] == AddressBytes(page * 16)[..3];
    assert [0, f[1], f[2], f[3]] == [0] + AddressBytes(page * 16)[..3];
  }

  /** The index of `play_vp` and `exe_vm` comes back from bytes 1..2 read most significant first. */
  lemma IndexRoundTrip(op: bv8, index: bv16)
    ensures Be16Value(IndexFrame(op, index)[1..]) == index
  {
    Be16RoundTrip(index, [0, 0]);
    assert IndexFrame(op, index)[1..] == Be16(index);
  }

  /** The identification check of `isd1200_init`: part, manufacturer and memory type. */
  function IdMatches(rx: seq<bv8>): (ok: bool)
    requires |rx| == 5
    ensures ok <==> rx[1..4] == [PART_ID, MAN_ID, MEM_TYPE]
  {
    if rx[1] != PART_ID then false
    else if rx[2] != MAN_ID then false
    else if rx[3] != MEM_TYPE then false
    else (assert rx[1..4] == [rx[1], rx[2], rx[3]]; true)
  }

  // ---------------------------------------------------------------------------------
  // Waits
  // ---------------------------------------------------------------------------------

  /** The byte a wait polls: `isd1200_read_status` (byte 0 of the reply to 0x40 0x00) or
      `isd1200_read_interrupt_status` (byte 1 of the reply to 0x46 0x00). */
  datatype Probe = StatusByte | InterruptByte

  function ProbeFrame(p: Probe): (f: seq<bv8>)
    ensures |f| == 2
  {
    match p
    case StatusByte => STATUS_FRAME
    case InterruptByte => INT_FRAME
  }

  function ProbeIndex(p: Probe): (j: nat)
    ensures j < |ProbeFrame(p)|
  {
    match p
    case StatusByte => 0
    case InterruptByte => 1
  }

  /** Whether the poll that ended `w` saw bit `mask` of `p` equal to `want`. */
  predicate Sees(chip: Chip, w: seq<seq<bv8>>, p: Probe, mask: bv8, want: bool) {
    (chip(w, ProbeIndex(p)) & mask != 0) == want
  }

  /** A wait that polls `p` until bit `mask` reads `want`, at most `fuel` times: whether it saw
      it, and the wire afterwards. */
  function Poll(chip: Chip, w: seq<seq<bv8>>, p: Probe, mask: bv8, want: bool, fuel: nat): (r: (bool, seq<seq<bv8>>))
    ensures |w| <= |r.1| <= |w| + fuel && r.1[..|w|] == w
    decreases fuel
  {
    if fuel == 0 then (false, w)
    else
      var w1 := w + [ProbeFrame(p)];
      if Sees(chip, w1, p, mask, want) then (true, w1)
      else Poll(chip, w1, p, mask, want, fuel - 1)
  }

  /** A wait sends only probe frames; it stops at the first poll that sees the bit as wanted,
      every poll before that saw it otherwise, and a wait that did not finish used all its polls. */
  lemma {:induction false} PollSound(chip: Chip, w: seq<seq<bv8>>, p: Probe, mask: bv8, want: bool, fuel: nat)
    ensures var (done, w') := Poll(chip, w, p, mask, want, fuel);
      && (forall i :: |w| <= i < |w'| ==> w'[i] == ProbeFrame(p))
      && (forall i :: |w| < i < |w'| ==> !Sees(chip, w'[..i], p, mask, want))
      && (done ==> |w'| > |w| && Sees(chip, w', p, mask, want))
      && (!done ==> |w'| == |w| + fuel && (fuel > 0 ==> !Sees(chip, w', p, mask, want)))
    decreases fuel
  {
    if fuel > 0 {
      var w1 := w + [ProbeFrame(p)];
      if !Sees(chip, w1, p, mask, want) {
        PollSound(chip, w1, p, mask, want, fuel - 1);
        var w' := Poll(chip, w1, p, mask, want, fuel - 1).1;
        assert w'[..|w1|] == w1;
        forall i | |w| <= i < |w'|
          ensures w'[i] == ProbeFrame(p)
        {
          if i == |w| {
            assert w'[i] == w1[i];
          }
        }
        forall i | |w| < i < |w'|
          ensures !Sees(chip, w'[..i], p, mask, want)
        {
          if i == |w1| {
            assert w'[..i] == w1;
          }
        }
      }
    }
  }

  /** The budget only bounds the model: a wait that finished finishes the same way with more. */
  lemma {:induction false} PollMoreFuel(chip: Chip, w: seq<seq<bv8>>, p: Probe, mask: bv8, want: bool, fuel: nat, extra: nat)
    requires Poll(chip, w, p, mask, want, fuel).0
    ensures Poll(chip, w, p, mask, want, fuel + extra) == Poll(chip, w, p, mask, want, fuel)
    decreases fuel
  {
    var w1 := w + [ProbeFrame(p)];
    if !Sees(chip, w1, p, mask, want) {
      PollMoreFuel(chip, w1, p, mask, want, fuel - 1, extra);
    }
  }

  /** `isd1200_power_up`: 0x10, then wait for DBUF_RDY to be set and for VM_BSY to clear. */
  function PowerUpSpec(chip: Chip, w: seq<seq<bv8>>, fuel: nat): (r: (bool, seq<seq<bv8>>)) {
    var a := Poll(chip, w + [[CMD_PWR_UP]], StatusByte, STATUS_DBUF_RDY, true, fuel);
    if !a.0 then a
    else Poll(chip, a.1, StatusByte, STATUS_VM_BSY, false, fuel)
  }

  /** `isd1200_flash_write`: the frame, then wait for CMD_BSY to clear and for WR_FIN to be set. */
  function FlashWriteSpec(chip: Chip, w: seq<seq<bv8>>, page: bv32, data: seq<bv8>, fuel: nat): (r: (bool, seq<seq<bv8>>))
    requires |data| == WRITE_BYTES
  {
    var a := Poll(chip, w + [FlashWriteFrame(page, data)], StatusByte, STATUS_CMD_BSY, false, fuel);
    if !a.0 then a
    else Poll(chip, a.1, InterruptByte, INTERRUPT_STATUS_WR_FIN, true, fuel)
  }

  /** A power-up that returns has seen the data buffer ready and then the voice macro idle,
      with nothing but status reads after the 0x10. */
  lemma PowerUpWaits(chip: Chip, w: seq<seq<bv8>>, fuel: nat)
    ensures var (done, w') := PowerUpSpec(chip, w, fuel);
      var a := Poll(chip, w + [[CMD_PWR_UP]], StatusByte, STATUS_DBUF_RDY, true, fuel);
      && w'[..|w| + 1] == w + [[CMD_PWR_UP]]
      && (forall i :: |w| < i < |w'| ==> w'[i] == STATUS_FRAME)
      && (done ==> (&& a.0 && chip(a.1, 0) & STATUS_DBUF_RDY != 0
                   && |w'| > |a.1| && chip(w', 0) & STATUS_VM_BSY == 0))
  {
    var w1 := w + [[CMD_PWR_UP]];
    PollSound(chip, w1, StatusByte, STATUS_DBUF_RDY, true, fuel);
    var a := Poll(chip, w1, StatusByte, STATUS_DBUF_RDY, true, fuel);
    assert a.1[..|w1|] == w1;
    if a.0 {
      PollSound(chip, a.1, StatusByte, STATUS_VM_BSY, false, fuel);
      var w' := Poll(chip, a.1, StatusByte, STATUS_VM_BSY, false, fuel).1;
      assert w'[..|a.1|] == a.1;
      forall i | |w| < i < |w'|
        ensures w'[i] == STATUS_FRAME
      {
        if i < |a.1| {
          assert w'[i] == a.1[i];
        }
      }
      assert w'[..|w1|] == w1;
    }
  }

  /** A flash write that returns has seen CMD_BSY clear and then WR_FIN set, with only status
      reads and then only interrupt-status reads after the data frame. */
  lemma FlashWriteWaits(chip: Chip, w: seq<seq<bv8>>, page: bv32, data: seq<bv8>, fuel: nat)
    requires |data| == WRITE_BYTES
    ensures var (done, w') := FlashWriteSpec(chip, w, page, data, fuel);
      var a := Poll(chip, w + [FlashWriteFrame(page, data)], StatusByte, STATUS_CMD_BSY, false, fuel);
      && w'[..|w| + 1] == w + [FlashWriteFrame(page, data)]
      && (forall i :: |w| < i < |a.1| ==> w'[i] == STATUS_FRAME)
      && (done ==> (&& a.0 && chip(a.1, 0) & STATUS_CMD_BSY == 0
                   && (forall i :: |a.1| <= i < |w'| ==> w'[i] == INT_FRAME)
                   && |w'| > |a.1| && chip(w', 1) & INTERRUPT_STATUS_WR_FIN != 0))
  {
    var w1 := w + [FlashWriteFrame(page, data)];
    PollSound(chip, w1, StatusByte, STATUS_CMD_BSY, false, fuel);
    var a := Poll(chip, w1, StatusByte, STATUS_CMD_BSY, false, fuel);
    assert a.1[..|w1|] == w1;
    if a.0 {
      PollSound(chip, a.1, InterruptByte, INTERRUPT_STATUS_WR_FIN, true, fuel);
      var w' := Poll(chip, a.1, InterruptByte, INTERRUPT_STATUS_WR_FIN, true, fuel).1;
      assert w'[..|a.1|] == a.1;
      forall i | |w| < i < |a.1|
        ensures w'[i] == STATUS_FRAME
      {
        assert w'[i] == a.1[i];
      }
      assert w'[..|w1|] == w1;
    }
  }

  // ---------------------------------------------------------------------------------
  // The driver
  // ---------------------------------------------------------------------------------

  class Voice {
    /** The chip on the other side of the link. */
    const chip: Chip
    /** Every frame sent so far. */
    var wire: seq<seq<bv8>>
    /** `dev_id`: the device byte of the last successful identification, 0 before one. */
    var devId: bv8

    constructor(chip: Chip)
      ensures this.chip == chip && wire == [] && devId == 0
    {
      this.chip := chip;
      wire := [];
      devId := 0;
    }

    /** `nuvoton_spi_transfer`: the frame goes out, the chip's reply comes back in its place. */
    method Transfer(f: seq<bv8>) returns (rx: seq<bv8>)
      modifies this
      ensures wire == old(wire) + [f] && rx == Reply(chip, wire, |f|) && devId == old(devId)
    {
      wire := wire + [f];
      rx := Reply(chip, wire, |f|);
    }

    /** `isd1200_read_status`: byte 0 of the reply to 0x40 0x00. */
    method ReadStatus() returns (s: bv8)
      modifies this
      ensures wire == old(wire) + [STATUS_FRAME] && s == chip(wire, 0) && devId == old(devId)
    {
      var rx := Transfer(STATUS_FRAME);
      s := rx[0];
    }

    /** `isd1200_read_interrupt_status`: byte 1 of the reply to 0x46 0x00. */
    method ReadInterruptStatus() returns (s: bv8)
      modifies this
      ensures wire == old(wire) + [INT_FRAME] && s == chip(wire, 1) && devId == old(devId)
    {
      var rx := Transfer(INT_FRAME);
      s := rx[1];
    }

    /** The read a wait on `p` repeats. */
    method ReadProbe(p: Probe) returns (s: bv8)
      modifies this
      ensures wire == old(wire) + [ProbeFrame(p)] && s == chip(wire, ProbeIndex(p)) && devId == old(devId)
    {
      match p {
        case StatusByte => s := ReadStatus();
        case InterruptByte => s := ReadInterruptStatus();
      }
    }

    /** One of the driver's `while` waits on `p`, with at most `fuel` polls. */
    method PollUntil(p: Probe, mask: bv8, want: bool, fuel: nat) returns (done: bool)
      modifies this
      ensures (done, wire) == Poll(chip, old(wire), p, mask, want, fuel) && devId == old(devId)
    {
      var left := fuel;
      while left > 0
        invariant Poll(chip, old(wire), p, mask, want, fuel) == Poll(chip, wire, p, mask, want, left)
        invariant devId == old(devId)
        decreases left
      {
        var s := ReadProbe(p);
        if (s & mask != 0) == want {
          return true;
        }
        left := left - 1;
      }
      done := false;
    }

    /** `isd1200_power_up`. */
    method PowerUp(fuel: nat) returns (done: bool)
      modifies this
      ensures (done, wire) == PowerUpSpec(chip, old(wire), fuel) && devId == old(devId)
    {
      var rx := Transfer([CMD_PWR_UP]);
      done := PollUntil(StatusByte, STATUS_DBUF_RDY, true, fuel);
      if done {
        done := PollUntil(StatusByte, STATUS_VM_BSY, false, fuel);
      }
    }

    /** `isd1200_init` after the link is set up: power up, then read the identification; it
        succeeds and records the device byte only when part, manufacturer and memory type
        match. None: the power-up was still polling when its budget ran out. */
    method Init(fuel: nat) returns (ok: Option<bool>)
      modifies this
      ensures var pu := PowerUpSpec(chip, old(wire), fuel);
        if !pu.0 then ok == None && wire == pu.1 && devId == old(devId)
        else
          var rx := Reply(chip, pu.1 + [ID_FRAME], 5);
          && wire == pu.1 + [ID_FRAME]
          && ok == Some(IdMatches(rx))
          && devId == (if IdMatches(rx) then rx[4] else old(devId))
    {
      var up := PowerUp(fuel);
      if !up {
        return None;
      }
      var rx := Transfer(ID_FRAME);
      if rx[1] != PART_ID {
        return Some(false);
      }
      if rx[2] != MAN_ID {
        return Some(false);
      }
      if rx[3] != MEM_TYPE {
        return Some(false);
      }
      devId := rx[4];
      return Some(true);
    }

    /** `isd1200_power_down`. */
    method PowerDown()
      modifies this
      ensures wire == old(wire) + [[CMD_PWR_DN]] && devId == old(devId)
    {
      var rx := Transfer([CMD_PWR_DN]);
    }

    /** `isd1200_reset`. */
    method Reset()
      modifies this
      ensures wire == old(wire) + [[CMD_RESET]] && devId == old(devId)
    {
      var rx := Transfer([CMD_RESET]);
    }

    /** `isd1200_read_id`: the cached device byte, with no transfer. */
    method ReadId() returns (id: bv8)
      ensures id == devId
    {
      id := devId;
    }

    /** `isd1200_play_vp`. */
    method PlayVp(index: bv16)
      modifies this
      ensures wire == old(wire) + [IndexFrame(CMD_PLAY_VP, index)] && devId == old(devId)
    {
      var rx := Transfer(IndexFrame(CMD_PLAY_VP, index));
    }

    /** `isd1200_exe_vm`. */
    method ExeVm(index: bv16)
      modifies this
      ensures wire == old(wire) + [IndexFrame(CMD_EXE_VM, index)] && devId == old(devId)
    {
      var rx := Transfer(IndexFrame(CMD_EXE_VM, index));
    }

    /** `isd1200_flash_read`: the 512 bytes the chip sends after the address go to
        `buffer[..512]`; the rest of `buffer` is untouched. */
    method FlashRead(page: bv32, buffer: array<bv8>)
      requires buffer.Length >= READ_BYTES
      modifies this, buffer
      ensures wire == old(wire) + [FlashReadFrame(page)] && devId == old(devId)
      ensures buffer[..READ_BYTES] == Reply(chip, wire, 1 + 4 + READ_BYTES)[5..]
      ensures buffer[READ_BYTES..] == old(buffer[READ_BYTES..])
    {
      var rx := Transfer(FlashReadFrame(page));
      forall j | 0 <= j < READ_BYTES {
        buffer[j] := rx[5 + j];
      }
    }

    /** `isd1200_chip_erase`: 0x26 0x01, then wait for CMD_BSY to clear. */
    method ChipErase(fuel: nat) returns (done: bool)
      modifies this
      ensures (done, wire) == Poll(chip, old(wire) + [CHIP_ERASE_FRAME], StatusByte, STATUS_CMD_BSY, false, fuel)
      ensures devId == old(devId)
    {
      var rx := Transfer(CHIP_ERASE_FRAME);
      done := PollUntil(StatusByte, STATUS_CMD_BSY, false, fuel);
    }

    /** `isd1200_flash_write`: sends `buffer[..16]` to the page's address and waits. */
    method FlashWrite(page: bv32, buffer: array<bv8>, fuel: nat) returns (done: bool)
      requires buffer.Length >= WRITE_BYTES
      modifies this
      ensures (done, wire) == FlashWriteSpec(chip, old(wire), page, buffer[..WRITE_BYTES], fuel)
      ensures devId == old(devId)
    {
      var rx := Transfer(FlashWriteFrame(page, buffer[..WRITE_BYTES]));
      done := PollUntil(StatusByte, STATUS_CMD_BSY, false, fuel);
      if done {
        done := PollUntil(InterruptByte, INTERRUPT_STATUS_WR_FIN, true, fuel);
      }
    }
  }
}
