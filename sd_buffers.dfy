/** Layouts the SD driver writes into its static buffers (sdio.c): the scatter/gather
    control-word list in `ctrl_words` that a chained DMA channel walks, and the instruction
    stream in `pio_cmd_buf` that a second DMA channel feeds to the data-line state machine.
    Addresses are symbolic: the driver only ever stores the addresses of a few known objects. */
module SdBuffers {
  import opened Wrappers
  import opened SdDefs

  /** `ctrl_words`: (SDIO_MAX_BLOCK_COUNT + 1) * 4 words. */
  const CTRL_WORDS: nat := (SDIO_MAX_BLOCK_COUNT + 1) * 4
  /** `pio_cmd_buf`: SDIO_MAX_BLOCK_COUNT * 3 words. */
  const PIO_CMD_WORDS: nat := SDIO_MAX_BLOCK_COUNT * 3
  /** `crcs`: SDIO_MAX_BLOCK_COUNT * 2 words. */
  const CRC_WORDS: nat := SDIO_MAX_BLOCK_COUNT * 2
  /** 32-bit words in one 512-byte sector. */
  const SECTOR_WORDS: nat := SD_SECTOR_SIZE / 4

  /** The objects a control word can point at. `Data(k)` is byte `k` of the caller's buffer. */
  datatype Addr = Data(offset: nat) | Crc(index: nat) | PioCmdBuf(index: nat) | ExtCsd
                | Zeroes | StartBit | SniffData | DatTxFifo

  /** The fields of a DMA control word the driver sets (`dma_ctrl_for` plus flags):
      transfer size in bytes, whether the read address increments, whether the transfer is
      forced (DREQ_FORCE) rather than paced by the data state machine's FIFO, and whether
      byte-swap and the CRC sniffer are on. The write address never increments and every
      record chains back to the control channel. */
  datatype DmaCtrl = DmaCtrl(size: nat, readIncrement: bool, forced: bool, bswapSniff: bool)

  /** One word of `ctrl_words`. */
  datatype CtrlWord = Null | Ptr(target: Addr) | Count(n: nat) | Ctrl(ctrl: DmaCtrl)

  /** A word that reads as 0. */
  predicate IsZero(w: CtrlWord) {
    w == Null || w == Count(0)
  }

  // ---------------------------------------------------------------------------------
  // The read list (sdio.c:737-753) and its walk (sdio.c:655-663)
  // ---------------------------------------------------------------------------------

  /** Block `i`: 128 words into the caller's buffer at 512 * i, then its CRC word into crcs[i]. */
  function ReadRecord(i: nat): (r: seq<CtrlWord>)
    ensures |r| == 4
  {
    [Ptr(Data(SD_SECTOR_SIZE * i)), Count(SECTOR_WORDS), Ptr(Crc(i)), Count(1)]
  }

  function ReadRecords(n: nat): (r: seq<CtrlWord>)
    ensures |r| == 4 * n
  {
    if n == 0 then [] else ReadRecords(n - 1) + ReadRecord(n - 1)
  }

  /** The whole list for `n` blocks, with its (0, 0) terminator. */
  function ReadList(n: nat): (r: seq<CtrlWord>)
    ensures |r| == 4 * n + 2
  {
    ReadRecords(n) + [Null, Null]
  }

  /** The walk of `sd_readblocks_scatter_async`: the sum of the counts of the (address, count)
      pairs from word `p` up to the first zero address; None when the walk leaves the buffer
      or meets a zero count (which the driver asserts against). */
  function Walk(ws: seq<CtrlWord>, p: nat): Option<nat>
    decreases |ws| - p
  {
    if p >= |ws| then None
    else if IsZero(ws[p]) then Some(0)
    else if p + 1 >= |ws| || !ws[p + 1].Count? || ws[p + 1].n == 0 then None
    else match Walk(ws, p + 2)
      case None => None
      case Some(t) => Some(t + ws[p + 1].n)
  }

  /** The walk only looks at the words from `p` on up to the terminator. */
  lemma {:induction false} WalkAppend(a: seq<CtrlWord>, b: seq<CtrlWord>, p: nat)
    requires p <= |a| && (|a| - p) % 2 == 0
    requires forall k :: p <= k < |a| && (k - p) % 2 == 0 ==> !IsZero(a[k])
    requires forall k :: p <= k < |a| && (k - p) % 2 == 1 ==> a[k].Count? && a[k].n > 0
    ensures Walk(a + b, p) == (match Walk(b, 0)
                               case None => None
                               case Some(t) => Some(t + CountSum(a, p)))
    decreases |a| - p
  {
    if p == |a| {
      WalkShift(a, b, 0);
    } else {
      WalkAppend(a, b, p + 2);
    }
  }

  /** Sum of the counts at odd offsets from `p`. */
  function CountSum(a: seq<CtrlWord>, p: nat): nat
    decreases |a| - p
  {
    if p + 1 >= |a| then 0 else (if a[p + 1].Count? then a[p + 1].n else 0) + CountSum(a, p + 2)
  }

  /** Walking `b` behind a prefix is walking `b`. */
  lemma {:induction false} WalkShift(a: seq<CtrlWord>, b: seq<CtrlWord>, q: nat)
    ensures Walk(a + b, |a| + q) == Walk(b, q)
    decreases |b| - q
  {
    if q < |b| && !IsZero(b[q]) && q + 1 < |b| && b[q + 1].Count? && b[q + 1].n > 0 {
      WalkShift(a, b, q + 2);
    }
  }

  lemma {:induction false} ReadRecordsShape(n: nat)
    ensures forall k :: 0 <= k < 4 * n && k % 2 == 0 ==> !IsZero(ReadRecords(n)[k])
    ensures forall k :: 0 <= k < 4 * n && k % 2 == 1 ==> ReadRecords(n)[k].Count? && ReadRecords(n)[k].n > 0
    ensures CountSum(ReadRecords(n), 0) == (SECTOR_WORDS + 1) * n
  {
    if n > 0 {
      ReadRecordsShape(n - 1);
      CountSumAppend(ReadRecords(n - 1), ReadRecord(n - 1));
      var r := ReadRecord(n - 1);
      assert CountSum(r, 4) == 0;
      assert CountSum(r, 2) == 1;
    }
  }

  lemma {:induction false} CountSumAppend(a: seq<CtrlWord>, b: seq<CtrlWord>)
    requires |a| % 2 == 0
    ensures CountSum(a + b, 0) == CountSum(a, 0) + CountSum(b, 0)
  {
    CountSumFrom(a, b, 0);
  }

  lemma {:induction false} CountSumFrom(a: seq<CtrlWord>, b: seq<CtrlWord>, p: nat)
    requires p <= |a| && (|a| - p) % 2 == 0
    ensures CountSum(a + b, p) == CountSum(a, p) + CountSum(b, 0)
    decreases |a| - p
  {
    if p == |a| {
      CountSumShift(a, b, 0);
    } else {
      CountSumFrom(a, b, p + 2);
    }
  }

  lemma {:induction false} CountSumShift(a: seq<CtrlWord>, b: seq<CtrlWord>, q: nat)
    ensures CountSum(a + b, |a| + q) == CountSum(b, q)
    decreases |b| - q
  {
    if q + 1 < |b| {
      CountSumShift(a, b, q + 2);
    }
  }

  /** The read list passes the driver's walk with 129 words per block: 128 of data and the
      CRC word, the total the driver asserts. */
  lemma ReadListTotal(n: nat, rest: seq<CtrlWord>)
    ensures Walk(ReadList(n) + rest, 0) == Some((SECTOR_WORDS + 1) * n)
  {
    ReadRecordsShape(n);
    assert ReadList(n) + rest == ReadRecords(n) + ([Null, Null] + rest);
    WalkAppend(ReadRecords(n), [Null, Null] + rest, 0);
  }

  /** `sd_read_ext_csd`'s list (sdio.c:964-974): the 512-byte EXT_CSD register into the
      caller's buffer, its CRC word into crcs[0], the terminator. */
  function ExtCsdList(): (r: seq<CtrlWord>)
    ensures |r| == 6
  {
    [Ptr(ExtCsd), Count(SECTOR_WORDS), Ptr(Crc(0)), Count(1), Null, Null]
  }

  /** The EXT_CSD list is the one-block read list aimed at the register buffer, and walks to
      the same 129 words. */
  lemma ExtCsdTotal(rest: seq<CtrlWord>)
    ensures ExtCsdList()[1..] == ReadList(1)[1..]
    ensures Walk(ExtCsdList() + rest, 0) == Some(SECTOR_WORDS + 1)
  {
    var ws := ExtCsdList() + rest;
    assert Walk(ws, 4) == Some(0);
    assert Walk(ws, 2) == Some(1);
  }

  /** Up to SDIO_MAX_BLOCK_COUNT blocks, the list fits `ctrl_words` and every CRC slot is in `crcs`. */
  lemma ReadListFits(n: nat)
    requires n <= SDIO_MAX_BLOCK_COUNT
    ensures |ReadList(n)| <= CTRL_WORDS
    ensures forall i :: 0 <= i < n ==> ReadRecord(i)[2] == Ptr(Crc(i)) && i < CRC_WORDS
    ensures |ReadProgram(n)| <= PIO_CMD_WORDS
  {
  }

  // ---------------------------------------------------------------------------------
  // Programs for the data-line state machine (sdio.c:46-51, sdio.c:627-647)
  // ---------------------------------------------------------------------------------

  /** Instructions run inline by the state machine. */
  datatype PioInstr = InNull(bits: nat) | JmpWaitingForCmd | JmpWaitHigh

  /** One word of `pio_cmd_buf`, as built by `sd_pio_cmd`: a jump to one of the program's
      states with a 16-bit parameter. */
  datatype PioWord = ReceiveBits(countMinus1: nat) | SendBits(countMinus1: nat) | Inline(instr: PioInstr)

  /** `start_read_to_buf` on the data state machine: receive the block and its 16 CRC bits,
      pad the last word to 32 bits, return to waiting for a command. */
  function ReceiveProgram(byteLength: nat): (r: seq<PioWord>)
    requires byteLength * 8 % 32 == 0
    ensures 2 <= |r| <= 3
  {
    var bitLength := byteLength * 8 + 16;
    [ReceiveBits(bitLength - 1)]
      + (if bitLength % 32 != 0 then [Inline(InNull(32 - bitLength % 32))] else [])
      + [Inline(JmpWaitingForCmd)]
  }

  /** Bits a receive program pushes into the RX FIFO: the received bits and the padding. */
  function PushedBits(prog: seq<PioWord>): nat {
    if prog == [] then 0
    else (match prog[0]
          case ReceiveBits(c) => c + 1
          case Inline(InNull(b)) => b
          case _ => 0) + PushedBits(prog[1..])
  }

  /** Each block's receive program pushes exactly the words its two list records take in:
      4112 received bits and 16 of padding are 129 words. */
  lemma ReceiveMatchesList()
    ensures PushedBits(ReceiveProgram(SD_SECTOR_SIZE)) == 32 * (ReadRecord(0)[1].n + ReadRecord(0)[3].n)
  {
    var p := ReceiveProgram(SD_SECTOR_SIZE);
    assert p == [ReceiveBits(4111), Inline(InNull(16)), Inline(JmpWaitingForCmd)];
    assert PushedBits(p[2..]) == 0;
    assert PushedBits(p[1..]) == 16;
  }

  function ReadProgram(n: nat): (r: seq<PioWord>)
    ensures |r| == 3 * n
  {
    if n == 0 then [] else ReadProgram(n - 1) + ReceiveProgram(SD_SECTOR_SIZE)
  }

  /** `sd_pio_cmd`: the word a state machine pulls, a JMP to `target` in the high half and the
      parameter in the low half. An unconditional JMP encodes as its target address. */
  function SdPioCmd(target: bv32, param: bv32): (w: bv32)
    requires target < 32 && param <= 0xFFFF
    ensures w & 0xFFFF == param
    ensures w >> 16 == target
  {
    (target << 16) | param
  }

  /** What the state machine takes back out of a command word. */
  function DecodePioCmd(w: bv32): (bv32, bv32) {
    (w >> 16, w & 0xFFFF)
  }

  lemma PioCmdRoundTrip(target: bv32, param: bv32)
    requires target < 32 && param <= 0xFFFF
    ensures DecodePioCmd(SdPioCmd(target, param)) == (target, param)
  {
  }

  // ---------------------------------------------------------------------------------
  // The write program and list (sdio.c:821-866)
  // ---------------------------------------------------------------------------------

  /** `build_transfer(src, words, size, flags)`: a record feeding the data state machine's
      TX FIFO, read address incrementing. */
  function Transfer(src: Addr, words: nat, size: nat, bswapSniff: bool): (r: seq<CtrlWord>)
    ensures |r| == 4
  {
    [Ptr(src), Ptr(DatTxFifo), Count(words), Ctrl(DmaCtrl(size, true, false, bswapSniff))]
  }

  /** Sector `i`: clear the sniffer, then its send_bits command, the start-bit word, 128 data
      words through byte-swap and the CRC sniffer, and the sniffed CRC as one 16-bit transfer. */
  function WriteRecord(i: nat): (r: seq<CtrlWord>)
    ensures |r| == 20
  {
    [Ptr(Zeroes), Ptr(SniffData), Count(1), Ctrl(DmaCtrl(4, false, true, false))]
      + Transfer(PioCmdBuf(i), 1, 4, false)
      + Transfer(StartBit, 1, 4, false)
      + Transfer(Data(SD_SECTOR_SIZE * i), SECTOR_WORDS, 4, true)
      + Transfer(SniffData, 1, 2, false)
  }

  function WriteRecords(n: nat): (r: seq<CtrlWord>)
    ensures |r| == 20 * n
  {
    if n == 0 then [] else WriteRecords(n - 1) + WriteRecord(n - 1)
  }

  /** The whole write list: the sectors, the final jump back to the wait state, the terminator. */
  function WriteList(n: nat): (r: seq<CtrlWord>)
    ensures |r| == 20 * n + 6
  {
    WriteRecords(n) + Transfer(PioCmdBuf(n), 1, 4, false) + [Null, Null]
  }

  /** `pio_cmd_buf` for a write: one send_bits per sector (512 bytes, the start word and the
      CRC word), then the jump back to wait_high. */
  function WriteProgram(n: nat): (r: seq<PioWord>)
    ensures |r| == n + 1
  {
    if n == 0 then [Inline(JmpWaitHigh)] else [SendBits(SD_SECTOR_SIZE * 8 + 32 + 32 - 1)] + WriteProgram(n - 1)
  }

  /** The write program is `n` send_bits commands and the final jump. */
  lemma {:induction false} WriteProgramShape(n: nat)
    ensures forall i :: 0 <= i < n ==> WriteProgram(n)[i] == SendBits(SD_SECTOR_SIZE * 8 + 32 + 32 - 1)
    ensures WriteProgram(n)[n] == Inline(JmpWaitHigh)
  {
    if n > 0 {
      WriteProgramShape(n - 1);
      assert forall i :: 1 <= i <= n ==> WriteProgram(n)[i] == WriteProgram(n - 1)[i - 1];
    }
  }

  /** Every sector's send_bits count matches the FIFO words its records deliver after the
      command word: the start-bit word, the 128 data words and the CRC word. */
  lemma SendMatchesRecords(i: nat)
    ensures WriteProgram(1)[0].countMinus1 + 1
      == 32 * (WriteRecord(i)[10].n + WriteRecord(i)[14].n + WriteRecord(i)[18].n)
  {
  }

  /** The largest sector count whose write list fits `ctrl_words`. */
  const MAX_WRITE_SECTORS: nat := (CTRL_WORDS - 6) / 20

  /** The write list fits exactly up to MAX_WRITE_SECTORS (6) sectors. */
  lemma WriteListFits(n: nat)
    ensures |WriteList(n)| <= CTRL_WORDS <==> n <= MAX_WRITE_SECTORS
    ensures n <= MAX_WRITE_SECTORS ==> |WriteProgram(n)| <= PIO_CMD_WORDS
  {
  }

  /** The driver's guard as written (sdio.c:832): panic when sector_count > (SDIO_MAX_BLOCK_COUNT - 1) / 4. */
  predicate WriteGuardAsWritten(n: nat) {
    n > (SDIO_MAX_BLOCK_COUNT - 1) / 4
  }

  /** The corrected guard: panic when the list would not fit. */
  predicate WriteGuard(n: nat) {
    n > MAX_WRITE_SECTORS
  }

  /** The guard as written lets 7 sectors through, whose list needs 146 of the 132 words. */
  lemma WriteGuardAdmitsOverflow()
    ensures !WriteGuardAsWritten(7) && |WriteList(7)| == 146 > CTRL_WORDS
  {
  }

  /** The corrected guard admits exactly the counts whose list fits. */
  lemma WriteGuardExact(n: nat)
    ensures !WriteGuard(n) <==> |WriteList(n)| <= CTRL_WORDS
  {
    WriteListFits(n);
  }

  /** As written, `pio_cmd_buf` is filled before the guard runs: a count of 96 or more writes
      past its end before the panic is reached. */
  lemma PioFillBeforeGuard(n: nat)
    requires n >= PIO_CMD_WORDS
    ensures WriteGuardAsWritten(n) && |WriteProgram(n)| > PIO_CMD_WORDS
  {
  }
}
