/** Constants and result codes shared by the SD/eMMC bus driver (sdio.c, sdio.h).
    Command numbers are the standard MMC/SD command indices; R1 status bits follow
    section 4.10.1 of the SD Physical Layer Simplified Specification. */
module SdDefs {

  // Return codes of sdio.h
  const SD_OK: int := 0
  const SD_ERR_STUCK: int := -1
  const SD_ERR_BAD_RESPONSE: int := -2

  const SDIO_MAX_BLOCK_COUNT: nat := 32
  const SD_SECTOR_SIZE: nat := 512

  // Command indices (MMC numbering, plus ACMD41 from the SD set)
  const MMC_GO_IDLE_STATE: bv8 := 0
  const MMC_SEND_OP_COND: bv8 := 1
  const MMC_ALL_SEND_CID: bv8 := 2
  const MMC_SET_RELATIVE_ADDR: bv8 := 3
  const MMC_SET_DSR: bv8 := 4
  const MMC_SELECT_CARD: bv8 := 7
  const MMC_SEND_EXT_CSD: bv8 := 8
  const MMC_SEND_CSD: bv8 := 9
  const MMC_SEND_CID: bv8 := 10
  const MMC_SEND_STATUS: bv8 := 13
  const MMC_GO_INACTIVE_STATE: bv8 := 15
  const MMC_READ_SINGLE_BLOCK: bv8 := 17
  const MMC_READ_MULTIPLE_BLOCK: bv8 := 18
  const MMC_SET_BLOCK_COUNT: bv8 := 23
  const MMC_WRITE_BLOCK: bv8 := 24
  const MMC_WRITE_MULTIPLE_BLOCK: bv8 := 25
  const SD_APP_OP_COND: bv8 := 41

  // Card status (R1) fields
  const R1_OUT_OF_RANGE: bv32 := 0x8000_0000
  const R1_READY_FOR_DATA: bv32 := 0x0000_0100
  const R1_STATE_PRG: bv32 := 7

  /** The 4-bit current_state field, bits 12..9 of the card status. */
  function R1CurrentState(status: bv32): (s: bv32)
    ensures s < 16
  {
    (status & 0x1E00) >> 9
  }

  // OCR bits
  const MMC_CARD_BUSY: bv32 := 0x8000_0000
  const SD_OCR_CCS: bv32 := 0x4000_0000

  /** `response & R1_OUT_OF_RANGE` stored into the driver's `int rc`: the bit is bit 31,
      so on the 32-bit two's-complement target the code is INT_MIN, never 0. */
  const RC_OUT_OF_RANGE: int := -0x8000_0000

  /** What a driver call ends in. `Halted` is the firmware's `panic`, which never returns;
      `Spinning` is a synchronous wait still polling when the observed hardware history ends. */
  datatype Rc = Code(code: int) | Halted | Spinning {
    predicate IsOk() { this == Code(SD_OK) }
  }

  /** What sd_command stores through its `response` out-parameter. */
  datatype Resp = NoResp | Word(value: bv32) | Register(bytes: seq<bv8>)

  /** One call of sd_command, as the driver issued it. */
  datatype Cmd = Cmd(index: bv8, arg: bv32)

  /** The argument that addresses the card by its relative address: `(rca_high << 24) | (rca_low << 16)`. */
  function RcaArg(rcaHigh: bv8, rcaLow: bv8): (a: bv32)
    ensures a & 0xFFFF == 0
    ensures ((a >> 24) as bv8, ((a >> 16) & 0xFF) as bv8) == (rcaHigh, rcaLow)
  {
    ((rcaHigh as bv32) << 24) | ((rcaLow as bv32) << 16)
  }
}
