/** The SD/eMMC driver's state and operations (sdio.c): the card's identity kept by `sd_init`,
    the static `ctrl_words` and `pio_cmd_buf` buffers the block transfers fill in place, and
    the command, read, write and completion entry points. The PIO state machines and DMA
    channels are not modelled: the card side of the bus is a `Bus` value the driver consumes,
    and completion polls read a given history of data-path observations. */
module SdDriver {
  import opened Wrappers
  import opened SdDefs
  import opened SdCommand
  import opened SdBuffers
  import opened SdProtocol

  /** What the data path was last started on. */
  datatype Armed = Idle | Reading(blocks: nat) | Writing(sectors: nat)

  /** `memcpy(dst, src, |src|)`. */
  method CopyInto(dst: array<bv8>, src: seq<bv8>)
    requires dst.Length == |src|
    modifies dst
    ensures dst[..] == src
  {
    for i := 0 to |src|
      invariant dst[..i] == src[..i]
    {
      dst[i] := src[i];
    }
  }

  /** `s` with `t` written over it from position `p`. */
  function Splice<T>(s: seq<T>, p: nat, t: seq<T>): (r: seq<T>)
    requires p + |t| <= |s|
    ensures |r| == |s| && r[..p] == s[..p] && r[p..p + |t|] == t && r[p + |t|..] == s[p + |t|..]
  {
    s[..p] + t + s[p + |t|..]
  }

  /** Writing `a` and then `b` right after it is writing `a + b`. */
  lemma SpliceAppend<T>(s: seq<T>, p: nat, a: seq<T>, b: seq<T>)
    requires p + |a| + |b| <= |s|
    ensures Splice(Splice(s, p, a), p + |a|, b) == Splice(s, p, a + b)
  {
    var t := Splice(s, p, a);
    assert t[..p + |a|] == s[..p] + a;
    assert t[p + |a| + |b|..] == s[p + |a| + |b|..];
    assert s[..p] + a + b + s[p + |a| + |b|..] == s[..p] + (a + b) + s[p + |a| + |b|..];
  }

  class Driver {
    /** The card side of the bus: what the hardware will do for the coming commands, and the
        commands sent so far. */
    var bus: Bus
    var rcaHigh: bv8
    var rcaLow: bv8
    var armed: Armed
    const cidRaw: array<bv8>
    const csdRaw: array<bv8>
    const ctrlWords: array<CtrlWord>
    const pioCmdBuf: array<PioWord>

    ghost predicate Valid()
      reads this
    {
      cidRaw.Length == 16 && csdRaw.Length == 16 && cidRaw != csdRaw
      && ctrlWords.Length == CTRL_WORDS && pioCmdBuf.Length == PIO_CMD_WORDS
    }

    /** What the driver keeps about the card. */
    ghost function CardState(): Card
      reads this, cidRaw, csdRaw
    {
      Card(cidRaw[..], csdRaw[..], rcaHigh, rcaLow)
    }

    /** The statics before `sd_init`, against a card whose behaviour is `caps`. */
    constructor (caps: seq<Capture>)
      ensures Valid()
      ensures bus == Bus(caps, []) && armed == Idle
      ensures CardState() == Card(seq(16, _ => 0), seq(16, _ => 0), 0, 0)
      ensures ctrlWords[..] == seq(CTRL_WORDS, _ => Null)
    {
      bus := Bus(caps, []);
      rcaHigh, rcaLow := 0, 0;
      armed := Idle;
      cidRaw := new bv8[16](_ => 0);
      csdRaw := new bv8[16](_ => 0);
      ctrlWords := new CtrlWord[CTRL_WORDS](_ => Null);
      pioCmdBuf := new PioWord[PIO_CMD_WORDS](_ => Inline(JmpWaitHigh));
    }

    // -------------------------------------------------------------------------------
    // sd_command (sdio.c:302-418)
    // -------------------------------------------------------------------------------

    /** Sends one command and interprets its response, realigning the captured words in a
        local `receive_buf`. */
    method Command(cmd: bv8, arg: bv32) returns (o: Outcome)
      modifies this
      ensures (o, bus) == Step(old(bus), cmd, arg)
      ensures rcaHigh == old(rcaHigh) && rcaLow == old(rcaLow) && armed == old(armed)
    {
      var c := Head(bus.caps);
      bus := Bus(Rest(bus.caps), bus.sent + [Cmd(cmd, arg)]);
      var index := (cmd | 0x40) & 0x3F;
      if c.Busy? {
        o := Outcome(Code(SD_ERR_STUCK), NoResp);
      } else if ReceiveLength(index) == 0 || c.Silent? {
        o := Outcome(Code(SD_OK), NoResp);
      } else {
        var receiveBuf := new bv32[5](i requires 0 <= i < 5 => c.words[i]);
        assert receiveBuf[..] == c.words;
        Realign(receiveBuf);
        o := Interpret(index, Memory(receiveBuf[..]));
      }
    }

    // -------------------------------------------------------------------------------
    // read_status (sdio.c:487-505)
    // -------------------------------------------------------------------------------

    /** Up to three SEND_STATUS commands until the card reports READY_FOR_DATA; true when the
        firmware panicked on a response. */
    method ReadStatus() returns (halted: bool)
      modifies this
      ensures (bus, halted) == StatusPolls(old(bus), RcaArg(rcaHigh, rcaLow), 3, 0)
      ensures rcaHigh == old(rcaHigh) && rcaLow == old(rcaLow) && armed == old(armed)
    {
      var arg := RcaArg(rcaHigh, rcaLow);
      var response: bv32 := 0;
      var retries: nat := 3;
      halted := false;
      while retries > 0
        invariant rcaHigh == old(rcaHigh) && rcaLow == old(rcaLow) && armed == old(armed)
        invariant StatusPolls(old(bus), arg, 3, 0) == StatusPolls(bus, arg, retries, response)
        decreases retries
      {
        ghost var before := bus;
        var o := Command(MMC_SEND_STATUS, arg);
        assert StatusPolls(before, arg, retries, response)
            == if o.rc == Halted then (bus, true)
               else if Stored(o, response) & R1_READY_FOR_DATA != 0 then (bus, false)
               else StatusPolls(bus, arg, retries - 1, Stored(o, response));
        retries := retries - 1;
        if o.rc == Halted {
          halted := true;
          return;
        }
        response := Stored(o, response);
        if response & R1_READY_FOR_DATA != 0 {
          return;
        }
      }
    }

    // -------------------------------------------------------------------------------
    // sd_init (sdio.c:589-624)
    // -------------------------------------------------------------------------------

    /** The handshake after pin and clock setup: GO_IDLE_STATE, then SEND_OP_COND until the
        card is ready, then the identification. */
    method Init() returns (rc: Rc)
      requires Valid()
      modifies this, cidRaw, csdRaw
      ensures InitEnd(rc, bus, CardState()) == InitSpec(old(bus), old(CardState()))
      ensures armed == old(armed)
    {
      var o := Command(MMC_GO_IDLE_STATE, 0);
      ghost var polling := bus;
      while true
        invariant OcrLoop(polling) == OcrLoop(bus)
        invariant CardState() == old(CardState()) && armed == old(armed)
        decreases |bus.caps|
      {
        if bus.caps == [] {
          rc := Spinning;
          return;
        }
        ghost var before := bus;
        o := Command(MMC_SEND_OP_COND, OP_COND_ARG);
        if OcrReady(Stored(o, 0)) {
          assert OcrLoop(before) == (Code(SD_OK), bus);
          break;
        }
      }
      rc := Identify();
    }

    /** ALL_SEND_CID, SET_RELATIVE_ADDR, SEND_CSD and SELECT_CARD, return codes ignored. */
    method Identify() returns (rc: Rc)
      requires Valid()
      modifies this, cidRaw, csdRaw
      ensures InitEnd(rc, bus, CardState()) == IdentifySpec(old(bus), old(CardState()))
      ensures armed == old(armed)
    {
      ghost var card := CardState();
      ghost var b0 := bus;
      var o := Command(MMC_ALL_SEND_CID, 0);
      if o.resp.Register? {
        CopyInto(cidRaw, o.resp.bytes);
      }
      ghost var cid := cidRaw[..];
      assert cid == StoredRegister(o, card.cid);
      o := Command(MMC_SET_RELATIVE_ADDR, 0);
      assert (o, bus) == Step(Step(b0, MMC_ALL_SEND_CID, 0).1, MMC_SET_RELATIVE_ADDR, 0);
      if o.rc == Halted {
        assert CardState() == card.(cid := cid);
        assert IdentifySpec(b0, card) == InitEnd(Halted, bus, card.(cid := cid));
        return Halted;
      }
      var rca := RcaOf(Stored(o, 0));
      rcaHigh, rcaLow := rca.0, rca.1;
      o := Command(MMC_SEND_CSD, RcaArg(rcaHigh, rcaLow));
      if o.resp.Register? {
        CopyInto(csdRaw, o.resp.bytes);
      }
      assert csdRaw[..] == StoredRegister(o, card.csd) && cidRaw[..] == cid;
      o := Command(MMC_SELECT_CARD, RcaArg(rcaHigh, rcaLow));
      rc := if o.rc == Halted then Halted else Code(SD_OK);
      assert IdentifySpec(b0, card) == InitEnd(rc, bus, Card(cid, csdRaw[..], rca.0, rca.1));
      assert CardState() == Card(cid, csdRaw[..], rca.0, rca.1);
    }

    // -------------------------------------------------------------------------------
    // Reads (sdio.c:627-782)
    // -------------------------------------------------------------------------------

    /** The walk over the (address, count) pairs of `ctrl_words` up to the zero address. */
    method ListTotal() returns (total: nat)
      requires Valid() && Walk(ctrlWords[..], 0).Some?
      ensures Walk(ctrlWords[..], 0) == Some(total)
    {
      ghost var ws := ctrlWords[..];
      var p := 0;
      total := 0;
      while !IsZero(ctrlWords[p])
        invariant Walk(ws, p).Some? && p < |ws|
        invariant Walk(ws, 0) == Some(total + Walk(ws, p).value)
        decreases |ws| - p
      {
        total := total + ctrlWords[p + 1].n;
        p := p + 2;
      }
    }

    /** `start_read_to_buf` for the data state machine at word `pos` of `pio_cmd_buf`: receive
        the block and its CRC, pad to a word, return to waiting for a command. */
    method StartReadToBuf(pos: nat, byteLength: nat) returns (next: nat)
      requires Valid() && byteLength * 8 % 32 == 0 && byteLength * 8 + 16 <= 0x1_0000
      requires pos + |ReceiveProgram(byteLength)| <= pioCmdBuf.Length
      modifies pioCmdBuf
      ensures next == pos + |ReceiveProgram(byteLength)|
      ensures pioCmdBuf[..] == old(pioCmdBuf[..pos]) + ReceiveProgram(byteLength) + old(pioCmdBuf[next..])
    {
      var bitLength := byteLength * 8 + 16;
      pioCmdBuf[pos] := ReceiveBits(bitLength - 1);
      next := pos + 1;
      if bitLength % 32 != 0 {
        pioCmdBuf[next] := Inline(InNull(32 - bitLength % 32));
        next := next + 1;
      }
      pioCmdBuf[next] := Inline(JmpWaitingForCmd);
      next := next + 1;
    }

    /** `sd_readblocks_scatter_async` on `ctrl_words`: check the list's total, queue one
        receive program per block, arm the data path, then send the read commands. */
    method ScatterReadAsync(block: bv32, n: nat) returns (rc: Rc)
      requires Valid() && 1 <= n <= SDIO_MAX_BLOCK_COUNT
      requires Walk(ctrlWords[..], 0) == Some((SECTOR_WORDS + 1) * n)
      modifies this, pioCmdBuf
      ensures pioCmdBuf[..3 * n] == ReadProgram(n)
      ensures armed == Reading(n)
      ensures (rc, bus) == ReadCommands(old(bus), block, n)
      ensures rcaHigh == old(rcaHigh) && rcaLow == old(rcaLow)
    {
      var total := ListTotal();
      assert total == (SECTOR_WORDS + 1) * n;
      ReadListFits(n);
      var pos := 0;
      for i := 0 to n
        invariant pos == 3 * i
        invariant pioCmdBuf[..pos] == ReadProgram(i)
        invariant bus == old(bus) && rcaHigh == old(rcaHigh) && rcaLow == old(rcaLow)
      {
        ghost var prior := pioCmdBuf[..pos];
        pos := StartReadToBuf(pos, SD_SECTOR_SIZE);
        assert pioCmdBuf[..pos] == prior + ReceiveProgram(SD_SECTOR_SIZE);
      }
      armed := Reading(n);
      rc := SendReadCommands(block, n);
    }

    /** The command half of `sd_readblocks_scatter_async`: a read command's result is the
        card's OUT_OF_RANGE bit. */
    method SendReadCommands(block: bv32, n: nat) returns (rc: Rc)
      requires 1 <= n <= SDIO_MAX_BLOCK_COUNT
      modifies this
      ensures (rc, bus) == ReadCommands(old(bus), block, n)
      ensures rcaHigh == old(rcaHigh) && rcaLow == old(rcaLow) && armed == old(armed)
    {
      if n == 1 {
        var o := Command(MMC_READ_SINGLE_BLOCK, block);
        rc := if o.rc.IsOk() then OutOfRangeRc(Stored(o, 0)) else o.rc;
      } else {
        var o := Command(MMC_SET_BLOCK_COUNT, n as bv32);
        if o.rc.IsOk() {
          o := Command(MMC_READ_MULTIPLE_BLOCK, block);
          rc := if o.rc.IsOk() then OutOfRangeRc(Stored(o, 0)) else o.rc;
        } else {
          rc := o.rc;
        }
      }
    }

    /** The list loop of `sd_readblocks_async` and `sd_readblocks_sync`. */
    method BuildReadList(n: nat)
      requires Valid() && n <= SDIO_MAX_BLOCK_COUNT
      modifies ctrlWords
      ensures ctrlWords[..4 * n + 2] == ReadList(n)
    {
      ReadListFits(n);
      var p := 0;
      for i := 0 to n
        invariant p == 4 * i
        invariant ctrlWords[..p] == ReadRecords(i)
      {
        PutReadRecord(p, i);
        assert ctrlWords[..p + 4] == ctrlWords[..p] + ctrlWords[p..p + 4];
        p := p + 4;
      }
      ctrlWords[p] := Null;
      ctrlWords[p + 1] := Null;
      assert ctrlWords[..p + 2] == ctrlWords[..p] + [Null, Null];
    }

    /** The four words of block `i`'s record, written at `p`. */
    method PutReadRecord(p: nat, i: nat)
      requires Valid() && p + 4 <= ctrlWords.Length
      modifies ctrlWords
      ensures ctrlWords[..] == Splice(old(ctrlWords[..]), p, ReadRecord(i))
    {
      ctrlWords[p] := Ptr(Data(SD_SECTOR_SIZE * i));
      ctrlWords[p + 1] := Count(SECTOR_WORDS);
      ctrlWords[p + 2] := Ptr(Crc(i));
      ctrlWords[p + 3] := Count(1);
      assert ctrlWords[..] == Splice(old(ctrlWords[..]), p, ReadRecord(i));
    }

    /** `sd_readblocks_async`: the list for `n` blocks, then the scatter read. */
    method ReadBlocksAsync(block: bv32, n: nat) returns (rc: Rc)
      requires Valid() && 1 <= n <= SDIO_MAX_BLOCK_COUNT
      modifies this, ctrlWords, pioCmdBuf
      ensures ctrlWords[..4 * n + 2] == ReadList(n)
      ensures pioCmdBuf[..3 * n] == ReadProgram(n)
      ensures armed == Reading(n)
      ensures (rc, bus) == ReadCommands(old(bus), block, n)
      ensures rcaHigh == old(rcaHigh) && rcaLow == old(rcaLow)
    {
      BuildReadList(n);
      ReadListTotal(n, ctrlWords[4 * n + 2..]);
      assert ctrlWords[..] == ReadList(n) + ctrlWords[4 * n + 2..];
      rc := ScatterReadAsync(block, n);
    }

    /** `sd_scatter_read_complete`: done once the DMA channels are idle and the data state
        machine is back at `waiting_for_cmd` with an empty TX FIFO; `*status` is always SD_OK. */
    method ReadComplete(h: DatObs) returns (done: bool, status: int)
      ensures done <==> ReadDone(h)
      ensures status == SD_OK
    {
      if h.chainBusy || h.dataBusy || h.pioBusy {
        done := false;
      } else {
        done := h.atWaitingForCmd && h.txEmpty;
      }
      status := SD_OK;
    }

    /** Polls `sd_scatter_read_complete` over the observed history; the wait overwrites `rc`
        with the completion status. */
    method AwaitRead(obs: seq<DatObs>) returns (rc: Rc)
      ensures rc == ReadWait(obs)
    {
      var i := 0;
      while true
        invariant 0 <= i <= |obs| && ReadWait(obs[i..]) == ReadWait(obs)
        decreases |obs| - i
      {
        if i == |obs| {
          return Spinning;
        }
        var done, status := ReadComplete(obs[i]);
        rc := Code(status);
        if done {
          return;
        }
        assert obs[i..][1..] == obs[i + 1..];
        i := i + 1;
      }
    }

    /** `sd_readblocks_sync`: the asynchronous read, then, if it started, the wait. */
    method ReadBlocksSync(block: bv32, n: nat, obs: seq<DatObs>) returns (rc: Rc)
      requires Valid() && 1 <= n <= SDIO_MAX_BLOCK_COUNT
      modifies this, ctrlWords, pioCmdBuf
      ensures ctrlWords[..4 * n + 2] == ReadList(n)
      ensures pioCmdBuf[..3 * n] == ReadProgram(n)
      ensures var start := ReadCommands(old(bus), block, n);
        bus == start.1 && rc == (if start.0.IsOk() then ReadWait(obs) else start.0)
      ensures armed == Reading(n)
      ensures rcaHigh == old(rcaHigh) && rcaLow == old(rcaLow)
    {
      rc := ReadBlocksAsync(block, n);
      if rc.IsOk() {
        rc := AwaitRead(obs);
      }
    }

    // -------------------------------------------------------------------------------
    // Writes (sdio.c:821-950)
    // -------------------------------------------------------------------------------

    /** `build_transfer(src, words, size, flags)` at word `p` of `ctrl_words`. */
    method PutTransfer(p: nat, src: Addr, words: nat, size: nat, bswapSniff: bool)
      requires Valid() && p + 4 <= ctrlWords.Length
      modifies ctrlWords
      ensures ctrlWords[..] == Splice(old(ctrlWords[..]), p, Transfer(src, words, size, bswapSniff))
    {
      ctrlWords[p] := Ptr(src);
      ctrlWords[p + 1] := Ptr(DatTxFifo);
      ctrlWords[p + 2] := Count(words);
      ctrlWords[p + 3] := Ctrl(DmaCtrl(size, true, false, bswapSniff));
      assert ctrlWords[..] == Splice(old(ctrlWords[..]), p, Transfer(src, words, size, bswapSniff));
    }

    /** The records of sector `i` at word `p`. */
    method PutWriteRecord(p: nat, i: nat)
      requires Valid() && p + 20 <= ctrlWords.Length
      modifies ctrlWords
      ensures ctrlWords[..] == Splice(old(ctrlWords[..]), p, WriteRecord(i))
    {
      ghost var s := ctrlWords[..];
      var clear := [Ptr(Zeroes), Ptr(SniffData), Count(1), Ctrl(DmaCtrl(4, false, true, false))];
      ctrlWords[p] := clear[0];
      ctrlWords[p + 1] := clear[1];
      ctrlWords[p + 2] := clear[2];
      ctrlWords[p + 3] := clear[3];
      assert ctrlWords[..] == Splice(s, p, clear);
      ghost var t1, t2 := Transfer(PioCmdBuf(i), 1, 4, false), Transfer(StartBit, 1, 4, false);
      ghost var t3, t4 := Transfer(Data(SD_SECTOR_SIZE * i), SECTOR_WORDS, 4, true), Transfer(SniffData, 1, 2, false);
      PutTransfer(p + 4, PioCmdBuf(i), 1, 4, false);
      SpliceAppend(s, p, clear, t1);
      PutTransfer(p + 8, StartBit, 1, 4, false);
      SpliceAppend(s, p, clear + t1, t2);
      PutTransfer(p + 12, Data(SD_SECTOR_SIZE * i), SECTOR_WORDS, 4, true);
      SpliceAppend(s, p, clear + t1 + t2, t3);
      PutTransfer(p + 16, SniffData, 1, 2, false);
      SpliceAppend(s, p, clear + t1 + t2 + t3, t4);
    }

    /** The write program: one send_bits per sector and the jump back to wait_high. */
    method BuildWriteProgram(n: nat)
      requires Valid() && n + 1 <= pioCmdBuf.Length
      modifies pioCmdBuf
      ensures pioCmdBuf[..n + 1] == WriteProgram(n)
    {
      for i := 0 to n
        invariant forall k :: 0 <= k < i ==> pioCmdBuf[k] == SendBits(SD_SECTOR_SIZE * 8 + 32 + 32 - 1)
      {
        pioCmdBuf[i] := SendBits(SD_SECTOR_SIZE * 8 + 32 + 32 - 1);
      }
      pioCmdBuf[n] := Inline(JmpWaitHigh);
      WriteProgramShape(n);
    }

    /** The write list: the sectors' records, the final jump record, the terminator. */
    method BuildWriteList(n: nat)
      requires Valid() && n <= MAX_WRITE_SECTORS
      modifies ctrlWords
      ensures ctrlWords[..20 * n + 6] == WriteList(n)
    {
      var p := 0;
      for i := 0 to n
        invariant p == 20 * i
        invariant ctrlWords[..p] == WriteRecords(i)
      {
        PutWriteRecord(p, i);
        assert ctrlWords[..p + 20] == ctrlWords[..p] + ctrlWords[p..p + 20];
        p := p + 20;
      }
      PutTransfer(p, PioCmdBuf(n), 1, 4, false);
      ctrlWords[p + 4] := Null;
      ctrlWords[p + 5] := Null;
      assert ctrlWords[..p + 6] == ctrlWords[..p] + ctrlWords[p..p + 4] + [Null, Null];
    }

    /** `sd_writeblocks_async` with the sector-count guard checked first and against the
        capacity of `ctrl_words` (see WriteGuard): build the program and the list, send the
        write commands, and start the write chain if they succeeded. */
    method WriteBlocksAsync(sector: bv32, n: nat) returns (rc: Rc)
      requires Valid() && n >= 1
      modifies this, ctrlWords, pioCmdBuf
      ensures WriteGuard(n) ==> rc == Halted && bus == old(bus) && armed == old(armed)
      ensures WriteGuard(n) ==> ctrlWords[..] == old(ctrlWords[..]) && pioCmdBuf[..] == old(pioCmdBuf[..])
      ensures !WriteGuard(n) ==>
        ctrlWords[..20 * n + 6] == WriteList(n) && pioCmdBuf[..n + 1] == WriteProgram(n)
        && (rc, bus) == WriteCommands(old(bus), sector, n)
        && armed == (if rc.IsOk() then Writing(n) else old(armed))
      ensures rcaHigh == old(rcaHigh) && rcaLow == old(rcaLow)
    {
      if WriteGuard(n) {
        return Halted;
      }
      WriteListFits(n);
      BuildWriteProgram(n);
      BuildWriteList(n);
      rc := SendWriteCommands(sector, n);
      if rc.IsOk() {
        armed := Writing(n);
      }
    }

    /** The command half of `sd_writeblocks_async`. */
    method SendWriteCommands(sector: bv32, n: nat) returns (rc: Rc)
      requires 1 <= n <= SDIO_MAX_BLOCK_COUNT
      modifies this
      ensures (rc, bus) == WriteCommands(old(bus), sector, n)
      ensures rcaHigh == old(rcaHigh) && rcaLow == old(rcaLow) && armed == old(armed)
    {
      if n == 1 {
        var o := Command(MMC_WRITE_BLOCK, sector);
        rc := o.rc;
      } else {
        var o := Command(MMC_SET_BLOCK_COUNT, n as bv32);
        rc := o.rc;
        if rc.IsOk() {
          o := Command(MMC_WRITE_MULTIPLE_BLOCK, sector);
          rc := o.rc;
        }
      }
    }

    /** `sd_write_complete`: the data path has drained and a SEND_STATUS finds the card out of
        the programming state. `status` is SD_OK, or Halted when the status response panicked. */
    method WriteComplete(h: DatObs) returns (done: bool, status: Rc)
      modifies this
      ensures (done, status == Halted, bus) == WritePoll(old(bus), h, RcaArg(rcaHigh, rcaLow))
      ensures status in {Code(SD_OK), Halted}
      ensures rcaHigh == old(rcaHigh) && rcaLow == old(rcaLow) && armed == old(armed)
    {
      if h.chainBusy || h.dataBusy {
        done := false;
      } else {
        done := h.atWaitingForCmd;
      }
      status := Code(SD_OK);
      if done {
        var o := Command(MMC_SEND_STATUS, RcaArg(rcaHigh, rcaLow));
        if o.rc == Halted {
          return false, Halted;
        }
        if Programming(Stored(o, 0)) {
          done := false;
        }
      }
    }

    /** Polls `sd_write_complete` over the observed history. */
    method AwaitWrite(obs: seq<DatObs>) returns (rc: Rc)
      modifies this
      ensures (rc, bus) == WriteWait(old(bus), obs, RcaArg(rcaHigh, rcaLow))
      ensures rcaHigh == old(rcaHigh) && rcaLow == old(rcaLow) && armed == old(armed)
    {
      var arg := RcaArg(rcaHigh, rcaLow);
      var i := 0;
      while true
        invariant 0 <= i <= |obs|
        invariant WriteWait(bus, obs[i..], arg) == WriteWait(old(bus), obs, arg)
        invariant rcaHigh == old(rcaHigh) && rcaLow == old(rcaLow) && armed == old(armed)
        decreases |obs| - i
      {
        if i == |obs| {
          return Spinning;
        }
        var done, status := WriteComplete(obs[i]);
        rc := status;
        if done || status == Halted {
          return;
        }
        assert obs[i..][1..] == obs[i + 1..];
        i := i + 1;
      }
    }

    /** `sd_writeblocks_sync`: the asynchronous write, then, if it started, the wait. */
    method WriteBlocksSync(sector: bv32, n: nat, obs: seq<DatObs>) returns (rc: Rc)
      requires Valid() && n >= 1
      modifies this, ctrlWords, pioCmdBuf
      ensures WriteGuard(n) ==> rc == Halted && bus == old(bus) && armed == old(armed)
      ensures WriteGuard(n) ==> ctrlWords[..] == old(ctrlWords[..]) && pioCmdBuf[..] == old(pioCmdBuf[..])
      ensures !WriteGuard(n) ==>
        var start := WriteCommands(old(bus), sector, n);
        ctrlWords[..20 * n + 6] == WriteList(n) && pioCmdBuf[..n + 1] == WriteProgram(n)
        && (rc, bus) == (if start.0.IsOk() then WriteWait(start.1, obs, RcaArg(old(rcaHigh), old(rcaLow))) else start)
        && armed == (if start.0.IsOk() then Writing(n) else old(armed))
      ensures rcaHigh == old(rcaHigh) && rcaLow == old(rcaLow)
    {
      rc := WriteBlocksAsync(sector, n);
      if rc.IsOk() {
        rc := AwaitWrite(obs);
      }
    }

    // -------------------------------------------------------------------------------
    // Card registers (sdio.c:952-1023)
    // -------------------------------------------------------------------------------

    /** `sd_read_cid`: copy out the CID kept by `sd_init`. */
    method ReadCid(dst: array<bv8>)
      requires Valid() && dst.Length == 16 && dst != cidRaw
      modifies dst
      ensures dst[..] == cidRaw[..]
    {
      CopyInto(dst, cidRaw[..]);
    }

    /** `sd_read_csd`: copy out the CSD kept by `sd_init`. */
    method ReadCsd(dst: array<bv8>)
      requires Valid() && dst.Length == 16 && dst != csdRaw
      modifies dst
      ensures dst[..] == csdRaw[..]
    {
      CopyInto(dst, csdRaw[..]);
    }

    /** `sd_read_ext_csd`: a one-block list into the register buffer, its walk, one receive
        program, SEND_EXT_CSD, and, if that succeeded, the wait for the block. */
    method ReadExtCsd(obs: seq<DatObs>) returns (rc: Rc)
      requires Valid()
      modifies this, ctrlWords, pioCmdBuf
      ensures ctrlWords[..6] == ExtCsdList()
      ensures pioCmdBuf[..3] == ReceiveProgram(SD_SECTOR_SIZE)
      ensures armed == Reading(1)
      ensures rcaHigh == old(rcaHigh) && rcaLow == old(rcaLow)
      ensures var s := Step(old(bus), MMC_SEND_EXT_CSD, 0);
        bus == s.1 && rc == (if s.0.rc.IsOk() then ReadWait(obs) else s.0.rc)
    {
      ctrlWords[0] := Ptr(ExtCsd);
      ctrlWords[1] := Count(SECTOR_WORDS);
      ctrlWords[2] := Ptr(Crc(0));
      ctrlWords[3] := Count(1);
      ctrlWords[4] := Null;
      ctrlWords[5] := Null;
      assert ctrlWords[..] == ExtCsdList() + ctrlWords[6..];
      ExtCsdTotal(ctrlWords[6..]);
      var total := ListTotal();
      var next := StartReadToBuf(0, SD_SECTOR_SIZE);
      armed := Reading(1);
      var o := Command(MMC_SEND_EXT_CSD, 0);
      rc := o.rc;
      if rc.IsOk() {
        rc := AwaitRead(obs);
      }
    }
  }
}
