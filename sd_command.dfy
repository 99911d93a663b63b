/** The command channel of the SD/eMMC bus (sdio.c, `sd_command`): the 48-bit command frame
    (section 4.7.2 of the SD Physical Layer Simplified Specification), the one-bit realignment
    of a captured response, and the per-opcode validation of R1, R2 and R3 responses
    (section 4.9 of the same specification). */
module SdCommand {
  import opened SdDefs
  import opened Crc7
  import opened ByteOrder

  // ---------------------------------------------------------------------------------
  // The command frame (sdio.c:310-335)
  // ---------------------------------------------------------------------------------

  /** The six bytes sent for command `cmd` with argument `arg`: start and transmission bits
      with the index, the argument most significant byte first, then CRC-7 and the end bit. */
  function Frame(cmd: bv8, arg: bv32): (f: seq<bv8>)
    ensures |f| == 6
    ensures f[0] == cmd | 0x40 && f[1..5] == BeBytes(arg)
    ensures f[0] & 0xC0 == 0x40 <==> cmd < 0x80
    ensures f[5] == Serial(0, f[..5]) | 1
  {
    var head := [cmd | 0x40] + BeBytes(arg);
    ChainIsSerial(0, head);
    head + [Chain(0, head) | 1]
  }

  /** The two FIFO words `high`, `low` of `packed_command`; the state machine shifts out their
      top 48 bits, most significant first. */
  function PackedCommand(cmd: bv8, arg: bv32): (p: (bv32, bv32))
    ensures BeBytes(p.0) + BeBytes(p.1)[..2] == Frame(cmd, arg)
    ensures p.1 & 0xFFFF == 0
  {
    var f := Frame(cmd, arg);
    var high := BeWord(f[..4]);
    var low := BeWord([f[4], f[5], 0, 0]);
    BeBytesOfWord(f[..4]);
    BeBytesOfWord([f[4], f[5], 0, 0]);
    (high, low)
  }

  /** Whether a 6-byte frame carries the CRC-7 of its first five bytes with the end bit set:
      the test the driver applies to R1 responses (sdio.c:391-396). */
  predicate CrcMatches(r: seq<bv8>)
    requires |r| >= 6
  {
    (Chain(0, r[..5]) | 1) == r[5]
  }

  /** The index and argument a receiver reads back out of a command frame. */
  function DecodeFrame(f: seq<bv8>): (bv8, bv32)
    requires |f| == 6
  {
    (f[0] & 0x3F, BeWord(f[1..5]))
  }

  /** Encode/verify round trip: a sent frame passes the CRC test and decodes to its command. */
  lemma FrameRoundTrip(cmd: bv8, arg: bv32)
    requires cmd < 64
    ensures CrcMatches(Frame(cmd, arg))
    ensures DecodeFrame(Frame(cmd, arg)) == (cmd, arg)
  {
    var f := Frame(cmd, arg);
    assert f[..5] == [cmd | 0x40] + BeBytes(arg);
    ChainIsSerial(0, f[..5]);
    BeWordOfBytes(arg);
  }

  // ---------------------------------------------------------------------------------
  // Response formats (sdio.c:337-352, sdio.c:367-410)
  // ---------------------------------------------------------------------------------

  datatype Format = R0 | R1 | R2 | R3

  /** The response format the driver assumes for a command index (already masked to 6 bits). */
  function FormatOf(cmd: bv8): Format {
    if cmd == MMC_GO_IDLE_STATE || cmd == MMC_SET_DSR || cmd == MMC_GO_INACTIVE_STATE then R0
    else if cmd == MMC_SEND_CSD || cmd == MMC_ALL_SEND_CID || cmd == MMC_SEND_CID then R2
    else if cmd == SD_APP_OP_COND || cmd == MMC_SEND_OP_COND then R3
    else R1
  }

  /** `byte_length`: how many response bytes the driver receives for `cmd`. */
  function ReceiveLength(cmd: bv8): (n: nat)
    ensures FormatOf(cmd) == R0 <==> n == 0
    ensures FormatOf(cmd) == R2 <==> n * 8 == 136
    ensures FormatOf(cmd) in {R1, R3} <==> n * 8 == 48
  {
    if FormatOf(cmd) == R0 then 0 else if FormatOf(cmd) == R2 then 17 else 6
  }

  /** What `sd_command` reports: its return code and what it stored through `response`. */
  datatype Outcome = Outcome(rc: Rc, resp: Resp)

  /** R1 check: a CRC mismatch is a panic, an echoed index that differs is only logged. */
  function CheckR1(r: seq<bv8>): (o: Outcome)
    requires |r| >= 6
    ensures o.rc != Halted ==> o == Outcome(Code(SD_OK), Word(BeWord(r[1..5])))
  {
    if !CrcMatches(r) then Outcome(Halted, NoResp)
    else Outcome(Code(SD_OK), Word(BeWord(r[1..5])))
  }

  /** R3 (OCR) check: no CRC, but byte 0 must be 0x3F and bits 4..1 of byte 1 clear. The value
      is stored either way. */
  function CheckR3(r: seq<bv8>): (o: Outcome)
    requires |r| >= 6
    ensures o.resp == Word(BeWord(r[1..5]))
    ensures o.rc in {Code(SD_OK), Code(SD_ERR_BAD_RESPONSE)}
    ensures o.rc == Code(SD_OK) <==> r[0] == 0x3F && r[1] & 0x1E == 0
  {
    var ok := r[0] == 0x3F && r[1] & 0x1E == 0;
    Outcome(if ok then Code(SD_OK) else Code(SD_ERR_BAD_RESPONSE), Word(BeWord(r[1..5])))
  }

  /** Validation of the realigned response bytes `r` for the masked command index `cmd`. */
  function Interpret(cmd: bv8, r: seq<bv8>): (o: Outcome)
    requires |r| >= 17
    ensures FormatOf(cmd) == R2 ==> o == Outcome(Code(SD_OK), Register(r[1..17]))
    ensures FormatOf(cmd) == R3 ==> o == CheckR3(r)
    ensures FormatOf(cmd) in {R0, R1} ==> o == CheckR1(r)
  {
    match FormatOf(cmd)
    case R2 => Outcome(Code(SD_OK), Register(r[1..17]))
    case R3 => CheckR3(r)
    case _ => CheckR1(r)
  }

  /** The six bytes of an R1 response as a card sends them: the echoed byte 0, the 32-bit
      card status most significant byte first, CRC-7 and the end bit. */
  function R1Frame(first: bv8, status: bv32): (f: seq<bv8>)
    ensures |f| == 6 && f[0] == first && f[1..5] == BeBytes(status)
  {
    var head := [first] + BeBytes(status);
    head + [Chain(0, head) | 1]
  }

  /** An R1 check accepts exactly the frames a card builds, and returns their status. */
  lemma {:induction false} CheckR1Accepts(r: seq<bv8>)
    requires |r| >= 6
    ensures CheckR1(r).rc != Halted <==> r[..6] == R1Frame(r[0], BeWord(r[1..5]))
  {
    var v := BeWord(r[1..5]);
    BeBytesOfWord(r[1..5]);
    assert r[..5] == [r[0]] + BeBytes(v);
    if CheckR1(r).rc != Halted {
      assert r[..6] == r[..5] + [r[5]];
    } else {
      var f := R1Frame(r[0], v);
      assert f[..5] == r[..5];
      assert f[5] != r[5];
    }
  }

  /** A card-built R1 response, followed by any padding, is accepted with its status. */
  lemma R1RoundTrip(first: bv8, status: bv32, pad: seq<bv8>)
    requires |pad| >= 11
    ensures CheckR1(R1Frame(first, status) + pad) == Outcome(Code(SD_OK), Word(status))
  {
    var r := R1Frame(first, status) + pad;
    assert r[..5] == R1Frame(first, status)[..5];
    assert r[1..5] == BeBytes(status);
    BeWordOfBytes(status);
  }

  /** An R3 response as a card sends it: 0x3F, the OCR, then 0xFF. It is accepted iff the
      OCR has bits 28..25 clear, and the OCR is stored either way. */
  lemma R3RoundTrip(ocr: bv32, pad: seq<bv8>)
    requires |pad| >= 11
    ensures var r := [0x3F] + BeBytes(ocr) + [0xFF] + pad;
      CheckR3(r).resp == Word(ocr)
      && (CheckR3(r).rc == Code(SD_OK) <==> ocr & 0x1E00_0000 == 0)
  {
    var r := [0x3F] + BeBytes(ocr) + [0xFF] + pad;
    assert r[1..5] == BeBytes(ocr);
    BeWordOfBytes(ocr);
  }

  // ---------------------------------------------------------------------------------
  // Realignment of the captured response (sdio.c:358-365)
  // ---------------------------------------------------------------------------------

  /** The five 32-bit words of `receive_buf`. */
  type Words5 = s: seq<bv32> | |s| == 5 witness [0, 0, 0, 0, 0]

  /** Bytes in bus order: the state machine shifts bits in from the right, so each captured word
      holds its 32 bits most significant first. */
  function Stream(ws: seq<bv32>): (s: seq<bv8>)
    ensures |s| == 4 * |ws|
  {
    if ws == [] then [] else BeBytes(ws[0]) + Stream(ws[1..])
  }

  /** The same words as bytes in little-endian memory, which is how the driver reads them back. */
  function Memory(ws: seq<bv32>): (s: seq<bv8>)
    ensures |s| == 4 * |ws|
  {
    if ws == [] then [] else LeBytes(ws[0]) + Memory(ws[1..])
  }

  /** One byte of the right shift: `carry`'s lowest bit enters at the top. */
  function ShiftByte(b: bv8, carry: bv8): bv8 {
    (b >> 1) | (carry << 7)
  }

  /** Byte stream shifted right by one bit; `carry` is the byte before the first one. */
  function ShiftFrom(carry: bv8, s: seq<bv8>): (r: seq<bv8>)
    ensures |r| == |s|
    decreases |s|
  {
    if s == [] then [] else [ShiftByte(s[0], carry)] + ShiftFrom(s[0], s[1..])
  }

  /** The one-bit mask of bit `k` of a byte, counting from the most significant. */
  function Mask(k: nat): bv8
    requires k < 8
  {
    if k == 0 then 0x80 else if k == 1 then 0x40 else if k == 2 then 0x20 else if k == 3 then 0x10
    else if k == 4 then 0x08 else if k == 5 then 0x04 else if k == 6 then 0x02 else 0x01
  }

  /** Bit `j` of a byte stream, counting from the first byte's most significant bit. */
  predicate StreamBit(s: seq<bv8>, j: nat)
    requires j < 8 * |s|
  {
    s[j / 8] & Mask(j % 8) != 0
  }

  /** The words the driver computes in place, as a function of the captured ones: each word is
      shifted right by one, takes its top bit from the word before, and is byte-swapped. */
  function RealignFrom(prev: bv32, ws: seq<bv32>): (r: seq<bv32>)
    ensures |r| == |ws|
    decreases |ws|
  {
    if ws == [] then [] else [FixWord(ws[0], prev)] + RealignFrom(ws[0], ws[1..])
  }

  /** One word of the fix-up (sdio.c:360-364); the first word's predecessor is 0. */
  function FixWord(w: bv32, prev: bv32): bv32 {
    Bswap((w >> 1) | (prev << 31))
  }

  function Realigned(ws: seq<bv32>): seq<bv32> {
    RealignFrom(0, ws)
  }

  /** The four bytes of the shifted word, each from two neighbouring bytes. */
  lemma WordShiftBytes(w: bv32, prev: bv32)
    ensures var x := (w >> 1) | (prev << 31);
      var b := BeBytes(w);
      BeBytes(x) == [ShiftByte(b[0], BeBytes(prev)[3]), ShiftByte(b[1], b[0]),
                     ShiftByte(b[2], b[1]), ShiftByte(b[3], b[2])]
  {
  }

  /** One word of the fix-up is one word of the shifted byte stream. */
  lemma WordShift(w: bv32, prev: bv32)
    ensures BeBytes((w >> 1) | (prev << 31)) == ShiftFrom(BeBytes(prev)[3], BeBytes(w))
  {
    WordShiftBytes(w, prev);
    var b := BeBytes(w);
    var c := BeBytes(prev)[3];
    calc {
      ShiftFrom(c, b);
      [ShiftByte(b[0], c)] + ShiftFrom(b[0], b[1..]);
      [ShiftByte(b[0], c)] + ([ShiftByte(b[1], b[0])] + ShiftFrom(b[1], b[2..]));
      [ShiftByte(b[0], c)] + ([ShiftByte(b[1], b[0])] + ([ShiftByte(b[2], b[1])] + ShiftFrom(b[2], b[3..])));
      [ShiftByte(b[0], c), ShiftByte(b[1], b[0]), ShiftByte(b[2], b[1]), ShiftByte(b[3], b[2])];
    }
  }

  /** Shifting a concatenation: the second part's carry is the first part's last byte. */
  lemma {:induction false} ShiftFromAppend(carry: bv8, a: seq<bv8>, b: seq<bv8>)
    requires a != []
    ensures ShiftFrom(carry, a + b) == ShiftFrom(carry, a) + ShiftFrom(a[|a| - 1], b)
    decreases |a|
  {
    assert (a + b)[1..] == a[1..] + b;
    if |a| > 1 {
      ShiftFromAppend(a[0], a[1..], b);
    }
  }

  /** The whole fix-up shifts the captured stream right by one bit. */
  lemma {:induction false} RealignShifts(prev: bv32, ws: seq<bv32>)
    ensures Memory(RealignFrom(prev, ws)) == ShiftFrom(BeBytes(prev)[3], Stream(ws))
    decreases |ws|
  {
    if ws != [] {
      var x := (ws[0] >> 1) | (prev << 31);
      WordShift(ws[0], prev);
      assert LeBytes(FixWord(ws[0], prev)) == ShiftFrom(BeBytes(prev)[3], BeBytes(ws[0]));
      RealignShifts(ws[0], ws[1..]);
      ShiftFromAppend(BeBytes(prev)[3], BeBytes(ws[0]), Stream(ws[1..]));
    }
  }

  /** The realigned buffer, read as little-endian bytes, is the captured bit stream with a 0
      start bit prepended: the bit the state machine consumed while waiting for the response. */
  lemma RealignedMemory(ws: seq<bv32>)
    ensures Memory(Realigned(ws)) == ShiftFrom(0, Stream(ws))
  {
    RealignShifts(0, ws);
  }

  lemma {:induction false} ShiftFromIndex(carry: bv8, s: seq<bv8>, i: nat)
    requires i < |s|
    ensures ShiftFrom(carry, s)[i] == ShiftByte(s[i], if i == 0 then carry else s[i - 1])
    decreases i
  {
    if i > 0 {
      ShiftFromIndex(s[0], s[1..], i - 1);
    }
  }

  /** Within a byte, bit `k` moves to bit `k + 1`. */
  lemma InnerBit(b: bv8, c: bv8, k: nat)
    requires k < 7
    ensures (ShiftByte(b, c) & Mask(k + 1) != 0) == (b & Mask(k) != 0)
  {
    if k == 0 {
    } else if k == 1 {
    } else if k == 2 {
    } else if k == 3 {
    } else if k == 4 {
    } else if k == 5 {
    } else {
    }
  }

  /** The carry's lowest bit becomes the top bit. */
  lemma TopBitFromCarry(b: bv8, c: bv8)
    ensures (ShiftByte(b, c) & Mask(0) != 0) == (c & Mask(7) != 0)
  {
  }

  /** Bit meaning of the shift: a 0 enters as the first bit and every other bit moves one
      place later; the last captured bit falls off. */
  lemma ShiftFromBits(s: seq<bv8>, j: nat)
    requires j + 1 < 8 * |s|
    ensures !StreamBit(ShiftFrom(0, s), 0)
    ensures StreamBit(ShiftFrom(0, s), j + 1) == StreamBit(s, j)
  {
    var r := ShiftFrom(0, s);
    ShiftFromIndex(0, s, 0);
    TopBitFromCarry(s[0], 0);
    var i, k := j / 8, j % 8;
    if k == 7 {
      assert (j + 1) / 8 == i + 1 && (j + 1) % 8 == 0;
      NextByteBit(s, i);
    } else {
      assert (j + 1) / 8 == i && (j + 1) % 8 == k + 1;
      SameByteBit(s, i, k);
    }
  }

  lemma NextByteBit(s: seq<bv8>, i: nat)
    requires i + 1 < |s|
    ensures (ShiftFrom(0, s)[i + 1] & Mask(0) != 0) == (s[i] & Mask(7) != 0)
  {
    ShiftFromIndex(0, s, i + 1);
    TopBitFromCarry(s[i + 1], s[i]);
  }

  lemma SameByteBit(s: seq<bv8>, i: nat, k: nat)
    requires i < |s| && k < 7
    ensures (ShiftFrom(0, s)[i] & Mask(k + 1) != 0) == (s[i] & Mask(k) != 0)
  {
    ShiftFromIndex(0, s, i);
    InnerBit(s[i], if i == 0 then 0 else s[i - 1], k);
  }

  /** One byte of the inverse shift: the byte's low 7 bits and the next byte's top bit. */
  function UnshiftByte(b: bv8, next: bv8): bv8 {
    (b << 1) | (next >> 7)
  }

  /** Bytes shifted left by one bit (the first bit dropped): what the state machine captures
      of a response that starts with its 0 start bit. */
  function UnshiftBytes(s: seq<bv8>): (r: seq<bv8>)
    ensures |r| == |s|
  {
    if s == [] then [] else [UnshiftByte(s[0], if |s| > 1 then s[1] else 0)] + UnshiftBytes(s[1..])
  }

  /** Packs bytes four at a time, most significant first, as the capture does. */
  function PackWords(u: seq<bv8>): (ws: seq<bv32>)
    requires |u| % 4 == 0
    ensures |ws| == |u| / 4
    decreases |u|
  {
    if u == [] then [] else [BeWord(u[..4])] + PackWords(u[4..])
  }

  /** Capture words that carry response bytes `resp` (20 of them) after its start bit. */
  function CaptureOf(resp: seq<bv8>): (ws: Words5)
    requires |resp| == 20
  {
    PackWords(UnshiftBytes(resp))
  }

  lemma ShiftUnshiftByte(b: bv8, next: bv8, carry: bv8)
    requires carry & 1 == b >> 7
    ensures ShiftByte(UnshiftByte(b, next), carry) == b
    ensures UnshiftByte(b, next) & 1 == next >> 7
  {
  }

  lemma {:induction false} ShiftUnshift(carry: bv8, s: seq<bv8>)
    requires s != [] ==> carry & 1 == s[0] >> 7
    ensures ShiftFrom(carry, UnshiftBytes(s)) == s
    decreases |s|
  {
    if s != [] {
      var next: bv8 := if |s| > 1 then s[1] else 0;
      var u := UnshiftBytes(s);
      ShiftUnshiftByte(s[0], next, carry);
      ShiftUnshift(UnshiftByte(s[0], next), s[1..]);
      assert u == [UnshiftByte(s[0], next)] + UnshiftBytes(s[1..]);
    }
  }

  lemma {:induction false} StreamOfPack(u: seq<bv8>)
    requires |u| % 4 == 0
    ensures Stream(PackWords(u)) == u
    decreases |u|
  {
    if u != [] {
      BeBytesOfWord(u[..4]);
      StreamOfPack(u[4..]);
      assert u == u[..4] + u[4..];
    }
  }

  /** Round trip with the fix-up: the captured words of any response whose first bit is the 0
      start bit realign to exactly that response. */
  lemma CaptureRoundTrip(resp: seq<bv8>)
    requires |resp| == 20 && resp[0] < 0x80
    ensures Memory(Realigned(CaptureOf(resp))) == resp
  {
    RealignedMemory(CaptureOf(resp));
    StreamOfPack(UnshiftBytes(resp));
    ShiftUnshift(0, resp);
  }

  /** `receive_buf` shifted in place (sdio.c:360-364). The words are rewritten from the last to
      the first, so each still reads its unmodified predecessor. */
  method Realign(buf: array<bv32>)
    requires buf.Length == 5
    modifies buf
    ensures buf[..] == Realigned(old(buf[..]))
    ensures Memory(buf[..]) == ShiftFrom(0, Stream(old(buf[..])))
  {
    ghost var ws := buf[..];
    buf[4] := FixWord(buf[4], buf[3]);
    buf[3] := FixWord(buf[3], buf[2]);
    buf[2] := FixWord(buf[2], buf[1]);
    buf[1] := FixWord(buf[1], buf[0]);
    buf[0] := FixWord(buf[0], 0);
    RealignFive(ws);
    assert buf[..] == [buf[0], buf[1], buf[2], buf[3], buf[4]];
    RealignedMemory(ws);
  }

  /** The fix-up of five words, written out. */
  lemma RealignFive(ws: seq<bv32>)
    requires |ws| == 5
    ensures Realigned(ws) == [FixWord(ws[0], 0), FixWord(ws[1], ws[0]), FixWord(ws[2], ws[1]),
      FixWord(ws[3], ws[2]), FixWord(ws[4], ws[3])]
  {
    assert ws[4..][1..] == [];
    assert ws[3..][1..] == ws[4..];
    assert ws[2..][1..] == ws[3..];
    assert ws[1..][1..] == ws[2..];
    assert RealignFrom(ws[3], ws[4..]) == [FixWord(ws[4], ws[3])];
    assert RealignFrom(ws[2], ws[3..]) == [FixWord(ws[3], ws[2])] + RealignFrom(ws[3], ws[4..]);
    assert RealignFrom(ws[1], ws[2..]) == [FixWord(ws[2], ws[1])] + RealignFrom(ws[2], ws[3..]);
    assert RealignFrom(ws[0], ws[1..]) == [FixWord(ws[1], ws[0])] + RealignFrom(ws[1], ws[2..]);
  }

  // ---------------------------------------------------------------------------------
  // One call of sd_command against the card (sdio.c:302-416)
  // ---------------------------------------------------------------------------------

  /** What the hardware does with one command. `Busy`: the command state machine is still
      busy with earlier work, so `acquiesce_sm` times out and `sd_command` returns
      SD_ERR_STUCK before the frame is pushed. `Silent`: the command is sent but the response
      transfer reports stuck. `Raw`: the five words the response DMA leaves in `receive_buf` (only as many as the
      response needs are written; the rest is whatever the stack held). */
  datatype Capture = Busy | Silent | Raw(words: Words5)

  /** The result of `sd_command(cmd, arg, response)` given what the hardware does. A stuck
      response transfer is not reported: its code is dropped and SD_OK returned with nothing
      stored through `response`. */
  function CommandOutcome(cmd: bv8, c: Capture): (o: Outcome)
    ensures c.Busy? ==> o == Outcome(Code(SD_ERR_STUCK), NoResp)
    ensures o.rc == Code(SD_ERR_STUCK) <==> c.Busy?
    ensures c.Silent? ==> o == Outcome(Code(SD_OK), NoResp)
    ensures o.resp.Register? ==> |o.resp.bytes| == 16 && FormatOf(cmd & 0x3F) == R2
    ensures o.rc == Halted ==> FormatOf(cmd & 0x3F) == R1
    ensures o.rc == Code(SD_ERR_BAD_RESPONSE) ==> FormatOf(cmd & 0x3F) == R3
    ensures o.rc in {Code(SD_OK), Code(SD_ERR_STUCK), Code(SD_ERR_BAD_RESPONSE), Halted}
  {
    var index := (cmd | 0x40) & 0x3F;
    assert index == cmd & 0x3F;
    if c.Busy? then Outcome(Code(SD_ERR_STUCK), NoResp)
    else if ReceiveLength(index) == 0 then Outcome(Code(SD_OK), NoResp)
    else if c.Silent? then Outcome(Code(SD_OK), NoResp)
    else Interpret(index, Memory(Realigned(c.words)))
  }

  /** For a captured reply: an R3 command succeeds exactly when the realigned byte 0 is 0x3F
      and bits 4..1 of byte 1 are clear, and otherwise gives SD_ERR_BAD_RESPONSE; an R1 command
      panics exactly when the realigned bytes 0-5 are not a CRC-correct R1 frame. */
  lemma RawOutcome(cmd: bv8, ws: Words5)
    ensures var r, o := Memory(Realigned(ws)), CommandOutcome(cmd, Raw(ws));
      && (FormatOf(cmd & 0x3F) == R3 ==>
            o.resp == Word(BeWord(r[1..5]))
            && (o.rc == Code(SD_OK) <==> r[0] == 0x3F && r[1] & 0x1E == 0)
            && (o.rc == Code(SD_ERR_BAD_RESPONSE) <==> !(r[0] == 0x3F && r[1] & 0x1E == 0)))
      && (FormatOf(cmd & 0x3F) == R1 ==>
            o == if r[..6] == R1Frame(r[0], BeWord(r[1..5])) then Outcome(Code(SD_OK), Word(BeWord(r[1..5])))
                 else Outcome(Halted, NoResp))
  {
    var r := Memory(Realigned(ws));
    CheckR1Accepts(r);
    assert (cmd | 0x40) & 0x3F == cmd & 0x3F;
  }

  /** The card side of the bus: what the hardware will do for each coming command, and every
      `sd_command` call made so far, including calls refused as `Busy`. An exhausted history
      reads as `Busy`. */
  datatype Bus = Bus(caps: seq<Capture>, sent: seq<Cmd>)

  function Head(caps: seq<Capture>): Capture {
    if caps == [] then Busy else caps[0]
  }

  function Rest(caps: seq<Capture>): seq<Capture> {
    if caps == [] then [] else caps[1..]
  }

  /** One `sd_command` call: its outcome and the bus after it. */
  function Step(b: Bus, cmd: bv8, arg: bv32): (r: (Outcome, Bus))
    ensures r.1.sent == b.sent + [Cmd(cmd, arg)]
    ensures |r.1.caps| == if b.caps == [] then 0 else |b.caps| - 1
  {
    (CommandOutcome(cmd, Head(b.caps)), Bus(Rest(b.caps), b.sent + [Cmd(cmd, arg)]))
  }

  /** Twenty response bytes as the capture of an R1 reply: the frame and 14 bytes of padding. */
  function R1Reply(first: bv8, status: bv32): Capture
    requires first < 0x80
  {
    Raw(CaptureOf(R1Frame(first, status) + seq(14, _ => 0)))
  }

  /** The capture of an R2 reply carrying the 16-byte register `reg`. */
  function R2Reply(reg: seq<bv8>): Capture
    requires |reg| == 16
  {
    Raw(CaptureOf([0x3F] + reg + [0, 0, 0]))
  }

  /** The capture of an R3 reply carrying `ocr`. */
  function R3Reply(ocr: bv32): Capture {
    Raw(CaptureOf([0x3F] + BeBytes(ocr) + [0xFF] + seq(14, _ => 0)))
  }

  /** An R1 command answered by a well-formed reply succeeds with the card's status. */
  lemma CommandR1(cmd: bv8, first: bv8, status: bv32)
    requires FormatOf(cmd & 0x3F) == R1 && first < 0x80
    ensures CommandOutcome(cmd, R1Reply(first, status)) == Outcome(Code(SD_OK), Word(status))
  {
    var resp := R1Frame(first, status) + seq(14, _ => 0);
    CaptureRoundTrip(resp);
    R1RoundTrip(first, status, seq(14, _ => 0));
    assert (cmd | 0x40) & 0x3F == cmd & 0x3F;
  }

  /** An R2 command answered by a register reply stores that register. */
  lemma CommandR2(cmd: bv8, reg: seq<bv8>)
    requires FormatOf(cmd & 0x3F) == R2 && |reg| == 16
    ensures CommandOutcome(cmd, R2Reply(reg)) == Outcome(Code(SD_OK), Register(reg))
  {
    var resp := [0x3F] + reg + [0, 0, 0];
    CaptureRoundTrip(resp);
    assert resp[1..17] == reg;
    assert (cmd | 0x40) & 0x3F == cmd & 0x3F;
  }

  /** An R3 command accepts the reply the card sent exactly when its first byte is 0x3F and
      bits 4..1 of its second byte are clear; any other reply is SD_ERR_BAD_RESPONSE. */
  lemma CommandR3Accepts(cmd: bv8, resp: seq<bv8>)
    requires FormatOf(cmd & 0x3F) == R3 && |resp| == 20 && resp[0] < 0x80
    ensures var o := CommandOutcome(cmd, Raw(CaptureOf(resp)));
      o.resp == Word(BeWord(resp[1..5]))
      && (o.rc == Code(SD_OK) <==> resp[0] == 0x3F && resp[1] & 0x1E == 0)
      && (o.rc == Code(SD_ERR_BAD_RESPONSE) <==> !(resp[0] == 0x3F && resp[1] & 0x1E == 0))
  {
    CaptureRoundTrip(resp);
    RawOutcome(cmd, CaptureOf(resp));
  }

  /** An R3 command answered with an OCR stores it, and succeeds iff bits 28..25 are clear. */
  lemma CommandR3(cmd: bv8, ocr: bv32)
    requires FormatOf(cmd & 0x3F) == R3
    ensures CommandOutcome(cmd, R3Reply(ocr)).resp == Word(ocr)
    ensures CommandOutcome(cmd, R3Reply(ocr)).rc == Code(SD_OK) <==> ocr & 0x1E00_0000 == 0
  {
    var resp := [0x3F] + BeBytes(ocr) + [0xFF] + seq(14, _ => 0);
    CaptureRoundTrip(resp);
    R3RoundTrip(ocr, seq(14, _ => 0));
    assert (cmd | 0x40) & 0x3F == cmd & 0x3F;
  }
}
