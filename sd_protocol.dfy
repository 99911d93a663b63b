/** What the SD/eMMC driver (sdio.c) says to the card, as functions of the card side of the bus:
    the start-up handshake of `sd_init`, the status polls of `read_status`, the command
    sequences that start block reads and writes, and the wait for a write to be programmed.
    The driver's methods in SdDriver are proved against these. A C `uint32_t response` that no
    command wrote is modelled as 0. */
module SdProtocol {
  import opened SdDefs
  import opened SdCommand

  /** `after` is `before` followed only by copies of `c`. */
  predicate SentOnly(before: seq<Cmd>, after: seq<Cmd>, c: Cmd) {
    |before| <= |after| && after[..|before|] == before
    && forall i :: |before| <= i < |after| ==> after[i] == c
  }

  /** The 32-bit value a command left in the caller's `response`, or `prior` if it stored none. */
  function Stored(o: Outcome, prior: bv32): bv32 {
    if o.resp.Word? then o.resp.value else prior
  }

  /** One command answered by a well-formed R1 reply. */
  lemma StepR1(b: Bus, cmd: bv8, arg: bv32, status: bv32)
    requires FormatOf(cmd) == R1 && cmd < 0x40
    requires b.caps != [] && b.caps[0] == R1Reply(cmd, status)
    ensures Step(b, cmd, arg) == (Outcome(Code(SD_OK), Word(status)), Bus(b.caps[1..], b.sent + [Cmd(cmd, arg)]))
  {
    assert cmd & 0x3F == cmd;
    CommandR1(cmd, cmd, status);
  }

  /** One command answered by an R2 register reply. */
  lemma StepR2(b: Bus, cmd: bv8, arg: bv32, reg: seq<bv8>)
    requires FormatOf(cmd) == R2 && cmd < 0x40 && |reg| == 16
    requires b.caps != [] && b.caps[0] == R2Reply(reg)
    ensures Step(b, cmd, arg) == (Outcome(Code(SD_OK), Register(reg)), Bus(b.caps[1..], b.sent + [Cmd(cmd, arg)]))
  {
    assert cmd & 0x3F == cmd;
    CommandR2(cmd, reg);
  }

  // ---------------------------------------------------------------------------------
  // read_status (sdio.c:487-505)
  // ---------------------------------------------------------------------------------

  /** Up to `retries` SEND_STATUS commands, stopping after the first whose stored status has
      READY_FOR_DATA set. `response` is declared outside the loop, so a command that stores
      nothing leaves the previous value. The boolean is true when a command panicked. */
  function StatusPolls(b: Bus, arg: bv32, retries: nat, response: bv32): (r: (Bus, bool))
    ensures SentOnly(b.sent, r.0.sent, Cmd(MMC_SEND_STATUS, arg))
    ensures |b.sent| < |r.0.sent| <= |b.sent| + retries || (retries == 0 && r.0 == b)
    decreases retries
  {
    if retries == 0 then (b, false)
    else
      var s := Step(b, MMC_SEND_STATUS, arg);
      if s.0.rc == Halted then (s.1, true)
      else
        var v := Stored(s.0, response);
        if v & R1_READY_FOR_DATA != 0 then (s.1, false)
        else
          var r := StatusPolls(s.1, arg, retries - 1, v);
          assert r.0.sent[..|b.sent|] == r.0.sent[..|s.1.sent|][..|b.sent|];
          r
  }

  /** A card that answers ready at once is asked exactly once. */
  lemma ReadyStopsPolling(b: Bus, arg: bv32, retries: nat, response: bv32, status: bv32)
    requires retries > 0 && b.caps != [] && b.caps[0] == R1Reply(MMC_SEND_STATUS, status)
    requires status & R1_READY_FOR_DATA != 0
    ensures StatusPolls(b, arg, retries, response) == (Bus(b.caps[1..], b.sent + [Cmd(MMC_SEND_STATUS, arg)]), false)
  {
    CommandR1(MMC_SEND_STATUS, MMC_SEND_STATUS, status);
  }

  /** The queue starts with the card's replies to SEND_STATUS carrying `statuses`, none of
      them with READY_FOR_DATA set. */
  ghost predicate NotReadyReplies(caps: seq<Capture>, statuses: seq<bv32>) {
    && |caps| >= |statuses|
    && forall i :: 0 <= i < |statuses| ==>
         caps[i] == R1Reply(MMC_SEND_STATUS, statuses[i]) && statuses[i] & R1_READY_FOR_DATA == 0
  }

  lemma NotReadyRepliesTail(caps: seq<Capture>, statuses: seq<bv32>)
    requires NotReadyReplies(caps, statuses) && statuses != []
    ensures caps[0] == R1Reply(MMC_SEND_STATUS, statuses[0]) && statuses[0] & R1_READY_FOR_DATA == 0
    ensures NotReadyReplies(caps[1..], statuses[1..])
  {
    forall i | 0 <= i < |statuses| - 1
      ensures caps[1..][i] == R1Reply(MMC_SEND_STATUS, statuses[1..][i])
    {
      assert caps[1..][i] == caps[i + 1] && statuses[1..][i] == statuses[i + 1];
    }
  }

  /** A status without READY_FOR_DATA is stored and the loop polls again. */
  lemma NotReadyStep(b: Bus, arg: bv32, retries: nat, response: bv32, status: bv32)
    requires retries > 0 && b.caps != [] && b.caps[0] == R1Reply(MMC_SEND_STATUS, status)
    requires status & R1_READY_FOR_DATA == 0
    ensures StatusPolls(b, arg, retries, response)
         == StatusPolls(Bus(b.caps[1..], b.sent + [Cmd(MMC_SEND_STATUS, arg)]), arg, retries - 1, status)
  {
    StepR1(b, MMC_SEND_STATUS, arg, status);
  }

  /** A card that never answers ready is asked exactly `retries` times. */
  lemma {:induction false} NotReadyPollsAll(b: Bus, arg: bv32, retries: nat, response: bv32, statuses: seq<bv32>)
    requires |statuses| == retries && response & R1_READY_FOR_DATA == 0
    requires NotReadyReplies(b.caps, statuses)
    ensures StatusPolls(b, arg, retries, response).0 == Bus(b.caps[retries..], b.sent + seq(retries, _ => Cmd(MMC_SEND_STATUS, arg)))
    decreases retries
  {
    if retries > 0 {
      NotReadyRepliesTail(b.caps, statuses);
      NotReadyStep(b, arg, retries, response, statuses[0]);
      var b1 := Bus(b.caps[1..], b.sent + [Cmd(MMC_SEND_STATUS, arg)]);
      NotReadyPollsAll(b1, arg, retries - 1, statuses[0], statuses[1..]);
      assert b.caps[1..][retries - 1..] == b.caps[retries..];
      assert b1.sent + seq(retries - 1, _ => Cmd(MMC_SEND_STATUS, arg))
          == b.sent + seq(retries, _ => Cmd(MMC_SEND_STATUS, arg));
    } else {
      assert b.caps[0..] == b.caps && b.sent + [] == b.sent;
    }
  }

  // ---------------------------------------------------------------------------------
  // sd_init (sdio.c:589-624)
  // ---------------------------------------------------------------------------------

  /** SEND_OP_COND's argument: the voltage window 2.7-3.6 V with sector addressing requested. */
  const OP_COND_ARG: bv32 := 0x40FF_8000
  /** The OCR top byte of a card that has finished powering up and is sector addressed. */
  const OCR_READY: bv32 := MMC_CARD_BUSY | SD_OCR_CCS

  predicate OcrReady(ocr: bv32) {
    ocr & 0xFF00_0000 == OCR_READY
  }

  /** The SEND_OP_COND loop. `response` is declared inside the loop body, so a command that
      stores nothing leaves 0. Every command consumes one entry of the history and an exhausted
      history reads as a command state machine that stays busy, so the loop then spins forever. */
  function OcrLoop(b: Bus): (r: (Rc, Bus))
    ensures r.0 in {Code(SD_OK), Spinning}
    ensures SentOnly(b.sent, r.1.sent, Cmd(MMC_SEND_OP_COND, OP_COND_ARG))
    ensures |b.sent| < |r.1.sent| || r.0 == Spinning
    decreases |b.caps|
  {
    if b.caps == [] then (Spinning, b)
    else
      var s := Step(b, MMC_SEND_OP_COND, OP_COND_ARG);
      if OcrReady(Stored(s.0, 0)) then (Code(SD_OK), s.1)
      else
        var r := OcrLoop(s.1);
        assert r.1.sent[..|b.sent|] == r.1.sent[..|s.1.sent|][..|b.sent|];
        r
  }

  /** The R3 reply of a card at power-up. */
  function OcrReplies(ocrs: seq<bv32>): (caps: seq<Capture>)
    ensures |caps| == |ocrs|
    ensures forall i :: 0 <= i < |ocrs| ==> caps[i] == R3Reply(ocrs[i])
  {
    seq(|ocrs|, i requires 0 <= i < |ocrs| => R3Reply(ocrs[i]))
  }

  /** A card that reports busy for a while and then ready is asked once per report. */
  lemma {:induction false} OcrLoopCounts(pending: seq<bv32>, ready: bv32, rest: seq<Capture>, sent: seq<Cmd>)
    requires forall i :: 0 <= i < |pending| ==> !OcrReady(pending[i])
    requires OcrReady(ready)
    ensures OcrLoop(Bus(OcrReplies(pending + [ready]) + rest, sent))
         == (Code(SD_OK), Bus(rest, sent + seq(|pending| + 1, _ => Cmd(MMC_SEND_OP_COND, OP_COND_ARG))))
    decreases |pending|
  {
    var caps := OcrReplies(pending + [ready]) + rest;
    var ocr := (pending + [ready])[0];
    CommandR3(MMC_SEND_OP_COND, ocr);
    var s := Step(Bus(caps, sent), MMC_SEND_OP_COND, OP_COND_ARG);
    assert s.1 == Bus(caps[1..], sent + [Cmd(MMC_SEND_OP_COND, OP_COND_ARG)]);
    if pending == [] {
      assert caps[1..] == rest;
      assert seq(1, _ => Cmd(MMC_SEND_OP_COND, OP_COND_ARG)) == [Cmd(MMC_SEND_OP_COND, OP_COND_ARG)];
    } else {
      assert (pending + [ready])[1..] == pending[1..] + [ready];
      assert caps[1..] == OcrReplies(pending[1..] + [ready]) + rest;
      assert !OcrReady(ocr);
      var c := Cmd(MMC_SEND_OP_COND, OP_COND_ARG);
      OcrLoopCounts(pending[1..], ready, rest, sent + [c]);
      assert (sent + [c]) + seq(|pending|, _ => c) == sent + seq(|pending| + 1, _ => c);
    }
  }

  /** What the driver keeps about the card: `cid_raw`, `csd_raw`, `rca_high`, `rca_low`. */
  datatype Card = Card(cid: seq<bv8>, csd: seq<bv8>, rcaHigh: bv8, rcaLow: bv8)

  datatype InitEnd = InitEnd(rc: Rc, bus: Bus, card: Card)

  /** The register an R2 command stored, or the previous contents of the buffer. */
  function StoredRegister(o: Outcome, prior: seq<bv8>): seq<bv8> {
    if o.resp.Register? then o.resp.bytes else prior
  }

  /** `rca_high = response >> 24; rca_low = response >> 16;`, each truncated to a byte. */
  function RcaOf(response: bv32): (bv8, bv8) {
    ((response >> 24) as bv8, ((response >> 16) & 0xFF) as bv8)
  }

  /** The identification half of the handshake, once the card is ready: ALL_SEND_CID into
      `cid_raw`, SET_RELATIVE_ADDR (the RCA is bits 31..16 of the reply), then SEND_CSD into
      `csd_raw` and SELECT_CARD, both addressed by that RCA. No return code is looked at. */
  function IdentifySpec(b: Bus, card: Card): (r: InitEnd)
    requires |card.cid| == 16 && |card.csd| == 16
    ensures r.rc in {Code(SD_OK), Halted}
    ensures |r.card.cid| == 16 && |r.card.csd| == 16
    ensures |r.bus.sent| > |b.sent| + 1 && r.bus.sent[..|b.sent| + 2] == b.sent + [Cmd(MMC_ALL_SEND_CID, 0), Cmd(MMC_SET_RELATIVE_ADDR, 0)]
    ensures r.rc == Code(SD_OK) ==>
      r.bus.sent == b.sent + [Cmd(MMC_ALL_SEND_CID, 0), Cmd(MMC_SET_RELATIVE_ADDR, 0),
                              Cmd(MMC_SEND_CSD, RcaArg(r.card.rcaHigh, r.card.rcaLow)),
                              Cmd(MMC_SELECT_CARD, RcaArg(r.card.rcaHigh, r.card.rcaLow))]
  {
    var s2 := Step(b, MMC_ALL_SEND_CID, 0);
    var cid := StoredRegister(s2.0, card.cid);
    var s3 := Step(s2.1, MMC_SET_RELATIVE_ADDR, 0);
    var ids := [Cmd(MMC_ALL_SEND_CID, 0), Cmd(MMC_SET_RELATIVE_ADDR, 0)];
    assert s3.1.sent == b.sent + ids;
    if s3.0.rc == Halted then
      assert s3.1.sent[..|b.sent| + 2] == b.sent + ids;
      InitEnd(Halted, s3.1, card.(cid := cid))
    else
      var rca := RcaOf(Stored(s3.0, 0));
      var hi, lo := rca.0, rca.1;
      var s4 := Step(s3.1, MMC_SEND_CSD, RcaArg(hi, lo));
      var csd := StoredRegister(s4.0, card.csd);
      var s5 := Step(s4.1, MMC_SELECT_CARD, RcaArg(hi, lo));
      assert s5.1.sent == b.sent + ids + [Cmd(MMC_SEND_CSD, RcaArg(hi, lo)), Cmd(MMC_SELECT_CARD, RcaArg(hi, lo))];
      assert s5.1.sent[..|b.sent| + 2] == b.sent + ids;
      InitEnd(if s5.0.rc == Halted then Halted else Code(SD_OK), s5.1, Card(cid, csd, hi, lo))
  }

  /** `sd_init`'s handshake: GO_IDLE_STATE, the SEND_OP_COND loop, then the identification.
      The result is the clock divider's SD_OK unless the firmware panicked or the loop never
      ends: the commands' own codes are dropped. */
  function InitSpec(b: Bus, card: Card): (r: InitEnd)
    requires |card.cid| == 16 && |card.csd| == 16
    ensures r.rc in {Code(SD_OK), Halted, Spinning}
    ensures |r.card.cid| == 16 && |r.card.csd| == 16
    ensures |r.bus.sent| > |b.sent| && r.bus.sent[..|b.sent| + 1] == b.sent + [Cmd(MMC_GO_IDLE_STATE, 0)]
    ensures r.rc == Code(SD_OK) ==>
      (|r.bus.sent| >= |b.sent| + 6
       && r.bus.sent[|r.bus.sent| - 2..] == [Cmd(MMC_SEND_CSD, RcaArg(r.card.rcaHigh, r.card.rcaLow)),
                                             Cmd(MMC_SELECT_CARD, RcaArg(r.card.rcaHigh, r.card.rcaLow))])
  {
    var s0 := Step(b, MMC_GO_IDLE_STATE, 0);
    var ocr := OcrLoop(s0.1);
    assert ocr.1.sent[..|b.sent| + 1] == b.sent + [Cmd(MMC_GO_IDLE_STATE, 0)] by {
      assert ocr.1.sent[..|b.sent| + 1] == ocr.1.sent[..|s0.1.sent|];
    }
    if ocr.0 != Code(SD_OK) then InitEnd(ocr.0, ocr.1, card)
    else
      var r := IdentifySpec(ocr.1, card);
      assert r.bus.sent[..|b.sent| + 1] == r.bus.sent[..|ocr.1.sent|][..|b.sent| + 1];
      r
  }

  /** The RCA a card publishes in bits 31..16 of its SET_RELATIVE_ADDR reply is read back
      as the two RCA bytes, whatever the status bits below it. */
  lemma RcaFromReply(hi: bv8, lo: bv8, low: bv32)
    requires low <= 0xFFFF
    ensures RcaOf(RcaArg(hi, lo) | low) == (hi, lo)
  {
  }

  /** The four identification replies of a well-behaved card. */
  function IdentifyReplies(cid: seq<bv8>, csd: seq<bv8>, rcaReply: bv32, selStatus: bv32): seq<Capture>
    requires |cid| == 16 && |csd| == 16
  {
    [R2Reply(cid), R1Reply(MMC_SET_RELATIVE_ADDR, rcaReply), R2Reply(csd), R1Reply(MMC_SELECT_CARD, selStatus)]
  }

  /** Identification in terms of the four command outcomes alone. */
  lemma IdentifyFromSteps(b: Bus, cid: seq<bv8>, csd: seq<bv8>, hi: bv8, lo: bv8, low: bv32,
                          selStatus: bv32, card: Card)
    requires |cid| == 16 && |csd| == 16 && low <= 0xFFFF
    requires |card.cid| == 16 && |card.csd| == 16 && |b.caps| >= 4
    requires Step(b, MMC_ALL_SEND_CID, 0).0 == Outcome(Code(SD_OK), Register(cid))
    requires Step(b, MMC_ALL_SEND_CID, 0).1.caps == b.caps[1..]
    requires Step(Bus(b.caps[1..], b.sent + [Cmd(MMC_ALL_SEND_CID, 0)]), MMC_SET_RELATIVE_ADDR, 0)
          == (Outcome(Code(SD_OK), Word(RcaArg(hi, lo) | low)),
              Bus(b.caps[2..], b.sent + [Cmd(MMC_ALL_SEND_CID, 0), Cmd(MMC_SET_RELATIVE_ADDR, 0)]))
    requires Step(Bus(b.caps[2..], b.sent + [Cmd(MMC_ALL_SEND_CID, 0), Cmd(MMC_SET_RELATIVE_ADDR, 0)]),
                  MMC_SEND_CSD, RcaArg(hi, lo))
          == (Outcome(Code(SD_OK), Register(csd)),
              Bus(b.caps[3..], b.sent + [Cmd(MMC_ALL_SEND_CID, 0), Cmd(MMC_SET_RELATIVE_ADDR, 0),
                                         Cmd(MMC_SEND_CSD, RcaArg(hi, lo))]))
    requires Step(Bus(b.caps[3..], b.sent + [Cmd(MMC_ALL_SEND_CID, 0), Cmd(MMC_SET_RELATIVE_ADDR, 0),
                                             Cmd(MMC_SEND_CSD, RcaArg(hi, lo))]),
                  MMC_SELECT_CARD, RcaArg(hi, lo)).0.rc == Code(SD_OK)
    requires Step(Bus(b.caps[3..], b.sent + [Cmd(MMC_ALL_SEND_CID, 0), Cmd(MMC_SET_RELATIVE_ADDR, 0),
                                             Cmd(MMC_SEND_CSD, RcaArg(hi, lo))]),
                  MMC_SELECT_CARD, RcaArg(hi, lo)).1.caps == b.caps[4..]
    ensures IdentifySpec(b, card)
         == InitEnd(Code(SD_OK),
                    Bus(b.caps[4..], b.sent + [Cmd(MMC_ALL_SEND_CID, 0), Cmd(MMC_SET_RELATIVE_ADDR, 0),
                                               Cmd(MMC_SEND_CSD, RcaArg(hi, lo)), Cmd(MMC_SELECT_CARD, RcaArg(hi, lo))]),
                    Card(cid, csd, hi, lo))
  {
    RcaFromReply(hi, lo, low);
  }

  /** ALL_SEND_CID and SET_RELATIVE_ADDR answered by a card's CID and its RCA reply. */
  lemma CidThenRca(caps: seq<Capture>, sent: seq<Cmd>, cid: seq<bv8>, reply: bv32)
    requires |cid| == 16 && |caps| >= 2
    requires caps[0] == R2Reply(cid) && caps[1] == R1Reply(MMC_SET_RELATIVE_ADDR, reply)
    ensures Step(Bus(caps, sent), MMC_ALL_SEND_CID, 0).0 == Outcome(Code(SD_OK), Register(cid))
    ensures Step(Bus(caps, sent), MMC_ALL_SEND_CID, 0).1.caps == caps[1..]
    ensures Step(Bus(caps[1..], sent + [Cmd(MMC_ALL_SEND_CID, 0)]), MMC_SET_RELATIVE_ADDR, 0)
         == (Outcome(Code(SD_OK), Word(reply)),
             Bus(caps[2..], sent + [Cmd(MMC_ALL_SEND_CID, 0), Cmd(MMC_SET_RELATIVE_ADDR, 0)]))
  {
    assert caps[1..][1..] == caps[2..];
    assert sent + [Cmd(MMC_ALL_SEND_CID, 0)] + [Cmd(MMC_SET_RELATIVE_ADDR, 0)]
        == sent + [Cmd(MMC_ALL_SEND_CID, 0), Cmd(MMC_SET_RELATIVE_ADDR, 0)];
    StepR2(Bus(caps, sent), MMC_ALL_SEND_CID, 0, cid);
    StepR1(Bus(caps[1..], sent + [Cmd(MMC_ALL_SEND_CID, 0)]), MMC_SET_RELATIVE_ADDR, 0, reply);
  }

  /** SEND_CSD and SELECT_CARD to `arg`, answered by the card's CSD and a status. */
  lemma CsdThenSelect(caps: seq<Capture>, sent: seq<Cmd>, csd: seq<bv8>, arg: bv32, selStatus: bv32)
    requires |csd| == 16 && |caps| >= 2
    requires caps[0] == R2Reply(csd) && caps[1] == R1Reply(MMC_SELECT_CARD, selStatus)
    ensures Step(Bus(caps, sent), MMC_SEND_CSD, arg)
         == (Outcome(Code(SD_OK), Register(csd)), Bus(caps[1..], sent + [Cmd(MMC_SEND_CSD, arg)]))
    ensures Step(Bus(caps[1..], sent + [Cmd(MMC_SEND_CSD, arg)]), MMC_SELECT_CARD, arg).0.rc == Code(SD_OK)
    ensures Step(Bus(caps[1..], sent + [Cmd(MMC_SEND_CSD, arg)]), MMC_SELECT_CARD, arg).1.caps == caps[2..]
  {
    assert caps[1..][1..] == caps[2..];
    StepR2(Bus(caps, sent), MMC_SEND_CSD, arg, csd);
    StepR1(Bus(caps[1..], sent + [Cmd(MMC_SEND_CSD, arg)]), MMC_SELECT_CARD, arg, selStatus);
  }

  /** How a queue of four replies followed by `rest` is consumed. */
  lemma QueueOfFour(x0: Capture, x1: Capture, x2: Capture, x3: Capture, rest: seq<Capture>)
    ensures var q := [x0, x1, x2, x3] + rest;
      |q| >= 4 && q[0] == x0 && q[1] == x1 && q[2..][0] == x2 && q[2..][1] == x3
      && |q[2..]| >= 2 && q[2..][1..] == q[3..] && q[2..][2..] == q[4..] == rest
  {
    var q := [x0, x1, x2, x3] + rest;
    assert q[4..] == rest;
  }

  /** A card that sends its CID, its RCA, its CSD and a status is recorded and addressed by
      that RCA. */
  lemma IdentifyWellBehaved(cid: seq<bv8>, csd: seq<bv8>, hi: bv8, lo: bv8, low: bv32, selStatus: bv32,
                     rest: seq<Capture>, sent: seq<Cmd>, card: Card)
    requires |cid| == 16 && |csd| == 16 && low <= 0xFFFF
    requires |card.cid| == 16 && |card.csd| == 16
    ensures IdentifySpec(Bus(IdentifyReplies(cid, csd, RcaArg(hi, lo) | low, selStatus) + rest, sent), card)
         == InitEnd(Code(SD_OK),
                    Bus(rest, sent + [Cmd(MMC_ALL_SEND_CID, 0), Cmd(MMC_SET_RELATIVE_ADDR, 0),
                                      Cmd(MMC_SEND_CSD, RcaArg(hi, lo)), Cmd(MMC_SELECT_CARD, RcaArg(hi, lo))]),
                    Card(cid, csd, hi, lo))
  {
    var arg := RcaArg(hi, lo);
    var caps := IdentifyReplies(cid, csd, arg | low, selStatus) + rest;
    var sent2 := sent + [Cmd(MMC_ALL_SEND_CID, 0), Cmd(MMC_SET_RELATIVE_ADDR, 0)];
    QueueOfFour(R2Reply(cid), R1Reply(MMC_SET_RELATIVE_ADDR, arg | low), R2Reply(csd),
                R1Reply(MMC_SELECT_CARD, selStatus), rest);
    CidThenRca(caps, sent, cid, arg | low);
    CsdThenSelect(caps[2..], sent2, csd, arg, selStatus);
    assert sent2 + [Cmd(MMC_SEND_CSD, arg)] == sent + [Cmd(MMC_ALL_SEND_CID, 0), Cmd(MMC_SET_RELATIVE_ADDR, 0), Cmd(MMC_SEND_CSD, arg)];
    IdentifyFromSteps(Bus(caps, sent), cid, csd, hi, lo, low, selStatus, card);
  }

  /** The whole handshake against a well-behaved card: it answers GO_IDLE_STATE with nothing,
      reports busy `|pending|` times and then ready, then identifies itself. The driver stores
      the CID, the CSD and the RCA, addresses the card by that RCA, and reports SD_OK. */
  lemma InitHandshake(pending: seq<bv32>, ready: bv32, cid: seq<bv8>, csd: seq<bv8>, hi: bv8, lo: bv8,
                      low: bv32, selStatus: bv32, rest: seq<Capture>, sent: seq<Cmd>, card: Card)
    requires forall i :: 0 <= i < |pending| ==> !OcrReady(pending[i])
    requires OcrReady(ready)
    requires |cid| == 16 && |csd| == 16 && low <= 0xFFFF
    requires |card.cid| == 16 && |card.csd| == 16
    ensures InitSpec(Bus([Silent] + OcrReplies(pending + [ready])
                           + IdentifyReplies(cid, csd, RcaArg(hi, lo) | low, selStatus) + rest, sent), card)
        == InitEnd(Code(SD_OK),
                   Bus(rest, sent + [Cmd(MMC_GO_IDLE_STATE, 0)]
                     + seq(|pending| + 1, _ => Cmd(MMC_SEND_OP_COND, OP_COND_ARG))
                     + [Cmd(MMC_ALL_SEND_CID, 0), Cmd(MMC_SET_RELATIVE_ADDR, 0),
                        Cmd(MMC_SEND_CSD, RcaArg(hi, lo)), Cmd(MMC_SELECT_CARD, RcaArg(hi, lo))]),
                   Card(cid, csd, hi, lo))
  {
    var tail := IdentifyReplies(cid, csd, RcaArg(hi, lo) | low, selStatus) + rest;
    var caps := [Silent] + OcrReplies(pending + [ready]) + IdentifyReplies(cid, csd, RcaArg(hi, lo) | low, selStatus) + rest;
    assert caps[1..] == OcrReplies(pending + [ready]) + tail;
    var sent1 := sent + [Cmd(MMC_GO_IDLE_STATE, 0)];
    var polls := seq(|pending| + 1, _ => Cmd(MMC_SEND_OP_COND, OP_COND_ARG));
    assert Step(Bus(caps, sent), MMC_GO_IDLE_STATE, 0).1 == Bus(caps[1..], sent1);
    OcrLoopCounts(pending, ready, tail, sent1);
    IdentifyWellBehaved(cid, csd, hi, lo, low, selStatus, rest, sent1 + polls, card);
    assert sent1 + polls + [Cmd(MMC_ALL_SEND_CID, 0), Cmd(MMC_SET_RELATIVE_ADDR, 0),
                            Cmd(MMC_SEND_CSD, RcaArg(hi, lo)), Cmd(MMC_SELECT_CARD, RcaArg(hi, lo))]
        == sent + [Cmd(MMC_GO_IDLE_STATE, 0)] + polls
           + [Cmd(MMC_ALL_SEND_CID, 0), Cmd(MMC_SET_RELATIVE_ADDR, 0),
              Cmd(MMC_SEND_CSD, RcaArg(hi, lo)), Cmd(MMC_SELECT_CARD, RcaArg(hi, lo))];
  }

  // ---------------------------------------------------------------------------------
  // Starting block transfers (sdio.c:695-712, sdio.c:881-894)
  // ---------------------------------------------------------------------------------

  /** `rc = response & R1_OUT_OF_RANGE` in a C `int`: bit 31 makes it INT_MIN. */
  function OutOfRangeRc(response: bv32): (rc: Rc)
    ensures rc.IsOk() || rc == Code(RC_OUT_OF_RANGE)
  {
    if response & R1_OUT_OF_RANGE != 0 then Code(RC_OUT_OF_RANGE) else Code(SD_OK)
  }

  /** The commands `sd_readblocks_scatter_async` sends after arming the data path: one
      READ_SINGLE_BLOCK, or SET_BLOCK_COUNT and, if that succeeded, READ_MULTIPLE_BLOCK.
      A successful read command's result is the card's OUT_OF_RANGE bit. */
  function ReadCommands(b: Bus, block: bv32, n: nat): (r: (Rc, Bus))
    requires 1 <= n <= SDIO_MAX_BLOCK_COUNT
    ensures r.0 in {Code(SD_OK), Code(RC_OUT_OF_RANGE), Code(SD_ERR_STUCK), Halted}
    ensures n == 1 ==> r.1.sent == b.sent + [Cmd(MMC_READ_SINGLE_BLOCK, block)]
    ensures n > 1 ==> r.1.sent == b.sent + [Cmd(MMC_SET_BLOCK_COUNT, n as bv32)]
                                         + (if Step(b, MMC_SET_BLOCK_COUNT, n as bv32).0.rc.IsOk()
                                            then [Cmd(MMC_READ_MULTIPLE_BLOCK, block)] else [])
  {
    if n == 1 then
      var s := Step(b, MMC_READ_SINGLE_BLOCK, block);
      (if s.0.rc.IsOk() then OutOfRangeRc(Stored(s.0, 0)) else s.0.rc, s.1)
    else
      var s := Step(b, MMC_SET_BLOCK_COUNT, n as bv32);
      if !s.0.rc.IsOk() then (s.0.rc, s.1)
      else
        var t := Step(s.1, MMC_READ_MULTIPLE_BLOCK, block);
        (if t.0.rc.IsOk() then OutOfRangeRc(Stored(t.0, 0)) else t.0.rc, t.1)
  }

  /** Against well-formed R1 replies, a read starts with SD_OK exactly when the card's status
      for the read command has OUT_OF_RANGE clear. */
  lemma ReadCommandsOutOfRange(block: bv32, n: nat, countStatus: bv32, status: bv32, rest: seq<Capture>, sent: seq<Cmd>)
    requires 1 <= n <= SDIO_MAX_BLOCK_COUNT
    ensures var caps := (if n == 1 then [R1Reply(MMC_READ_SINGLE_BLOCK, status)]
                         else [R1Reply(MMC_SET_BLOCK_COUNT, countStatus), R1Reply(MMC_READ_MULTIPLE_BLOCK, status)]) + rest;
      var r := ReadCommands(Bus(caps, sent), block, n);
      r.1.caps == rest && (r.0.IsOk() <==> status & R1_OUT_OF_RANGE == 0)
      && (!r.0.IsOk() ==> r.0 == Code(RC_OUT_OF_RANGE))
  {
    if n == 1 {
      CommandR1(MMC_READ_SINGLE_BLOCK, MMC_READ_SINGLE_BLOCK, status);
    } else {
      CommandR1(MMC_SET_BLOCK_COUNT, MMC_SET_BLOCK_COUNT, countStatus);
      CommandR1(MMC_READ_MULTIPLE_BLOCK, MMC_READ_MULTIPLE_BLOCK, status);
    }
  }

  /** The commands `sd_writeblocks_async` sends: one WRITE_BLOCK, or SET_BLOCK_COUNT and, if
      that succeeded, WRITE_MULTIPLE_BLOCK. The result is the last command's code. */
  function WriteCommands(b: Bus, sector: bv32, n: nat): (r: (Rc, Bus))
    requires 1 <= n <= SDIO_MAX_BLOCK_COUNT
    ensures r.0 in {Code(SD_OK), Code(SD_ERR_STUCK), Halted}
    ensures n == 1 ==> r.1.sent == b.sent + [Cmd(MMC_WRITE_BLOCK, sector)]
    ensures n > 1 ==> r.1.sent == b.sent + [Cmd(MMC_SET_BLOCK_COUNT, n as bv32)]
                                         + (if Step(b, MMC_SET_BLOCK_COUNT, n as bv32).0.rc.IsOk()
                                            then [Cmd(MMC_WRITE_MULTIPLE_BLOCK, sector)] else [])
  {
    if n == 1 then
      var s := Step(b, MMC_WRITE_BLOCK, sector);
      (s.0.rc, s.1)
    else
      var s := Step(b, MMC_SET_BLOCK_COUNT, n as bv32);
      if !s.0.rc.IsOk() then (s.0.rc, s.1)
      else
        var t := Step(s.1, MMC_WRITE_MULTIPLE_BLOCK, sector);
        (t.0.rc, t.1)
  }

  // ---------------------------------------------------------------------------------
  // Completion (sdio.c:716-735, sdio.c:913-938)
  // ---------------------------------------------------------------------------------

  /** One look at the data path: whether the chain, data and instruction DMA channels are
      busy, whether the data state machine sits at `waiting_for_cmd`, and whether its TX FIFO
      is empty. */
  datatype DatObs = DatObs(chainBusy: bool, dataBusy: bool, pioBusy: bool, atWaitingForCmd: bool, txEmpty: bool)

  /** `sd_scatter_read_complete`'s verdict. */
  predicate ReadDone(h: DatObs) {
    !(h.chainBusy || h.dataBusy || h.pioBusy) && h.atWaitingForCmd && h.txEmpty
  }

  /** The data side of `sd_write_complete`: the DMA has fed everything to an idle state machine. */
  predicate WriteDrained(h: DatObs) {
    !(h.chainBusy || h.dataBusy) && h.atWaitingForCmd
  }

  /** Whether a card status reports current_state PRG: the card is still programming. */
  predicate Programming(status: bv32) {
    R1CurrentState(status) == R1_STATE_PRG
  }

  /** One call of `sd_write_complete`: whether it reports done, whether the firmware panicked
      in its SEND_STATUS, and the bus after it. */
  function WritePoll(b: Bus, h: DatObs, arg: bv32): (r: (bool, bool, Bus))
    ensures r.0 ==> WriteDrained(h) && !r.1
    ensures !WriteDrained(h) ==> r == (false, false, b)
    ensures WriteDrained(h) ==> r.2.sent == b.sent + [Cmd(MMC_SEND_STATUS, arg)]
  {
    if !WriteDrained(h) then (false, false, b)
    else
      var s := Step(b, MMC_SEND_STATUS, arg);
      if s.0.rc == Halted then (false, true, s.1)
      else (!Programming(Stored(s.0, 0)), false, s.1)
  }

  /** A drained data path with a card answering in state PRG is not complete. */
  lemma ProgrammingNotDone(b: Bus, h: DatObs, arg: bv32, status: bv32)
    requires b.caps != [] && b.caps[0] == R1Reply(MMC_SEND_STATUS, status)
    ensures WritePoll(b, h, arg).0 <==> WriteDrained(h) && !Programming(status)
  {
    CommandR1(MMC_SEND_STATUS, MMC_SEND_STATUS, status);
  }

  /** `sd_writeblocks_sync`'s wait: poll until complete over the observed history, every poll
      with the data path drained costing one SEND_STATUS. Completion sets `rc` to SD_OK. */
  function WriteWait(b: Bus, obs: seq<DatObs>, arg: bv32): (r: (Rc, Bus))
    ensures r.0 in {Code(SD_OK), Halted, Spinning}
    ensures SentOnly(b.sent, r.1.sent, Cmd(MMC_SEND_STATUS, arg))
    decreases |obs|
  {
    if obs == [] then (Spinning, b)
    else
      var p := WritePoll(b, obs[0], arg);
      if p.1 then (Halted, p.2)
      else if p.0 then (Code(SD_OK), p.2)
      else
        var r := WriteWait(p.2, obs[1..], arg);
        assert r.1.sent[..|b.sent|] == r.1.sent[..|p.2.sent|][..|b.sent|];
        r
  }

  /** `sd_readblocks_sync`'s wait: the result is SD_OK once some observation is complete. */
  function ReadWait(obs: seq<DatObs>): (rc: Rc)
    ensures rc.IsOk() <==> exists i :: 0 <= i < |obs| && ReadDone(obs[i])
    ensures rc.IsOk() || rc == Spinning
    decreases |obs|
  {
    if obs == [] then Spinning
    else if ReadDone(obs[0]) then Code(SD_OK)
    else
      var rc := ReadWait(obs[1..]);
      assert (exists i :: 0 <= i < |obs[1..]| && ReadDone(obs[1..][i]))
          <==> (exists i :: 1 <= i < |obs| && ReadDone(obs[i])) by {
        forall i | 1 <= i < |obs| ensures obs[1..][i - 1] == obs[i] { }
      }
      rc
  }
}
