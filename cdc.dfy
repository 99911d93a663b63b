/** The USB CDC request loop of the flasher (main.c): the host sends a five-byte header, an
    opcode and a little-endian page number, and for a write the 0x210 bytes of the page and its
    spare area; the device answers through the NAND driver. The receive FIFO and the transmit
    side of the CDC interface are fields of the class `Bridge`; the millisecond clock is a
    parameter. The status LED blinks at most once every 50 ms. */
module Cdc {
  import opened Wrappers
  import opened ByteOrder
  import opened Spiex
  import opened Xbox

  const GET_FLASH_CONFIG: bv8 := 0x01
  const READ_FLASH: bv8 := 0x02
  const WRITE_FLASH: bv8 := 0x03

  /** `sizeof(struct cmd)`: one opcode byte and a packed `uint32_t`. */
  const HEADER_BYTES: nat := 5
  /** A page and its spare area. */
  const PAGE_AND_SPARE: nat := 0x210
  /** The least time between two LED toggles, in milliseconds. */
  const BLINK_MS: bv32 := 50

  // ---------------------------------------------------------------------------------
  // Requests
  // ---------------------------------------------------------------------------------

  /** The bytes a host sends as the header of a request for `lba`. */
  function EncodeHeader(op: bv8, lba: bv32): (h: seq<bv8>)
    ensures |h| == HEADER_BYTES
  {
    [op] + LeBytes(lba)
  }

  /** The packed `struct cmd` read from the first five bytes: opcode and page. */
  function DecodeHeader(h: seq<bv8>): (r: (bv8, bv32))
    requires |h| == HEADER_BYTES
  {
    (h[0], LeWord(h[1..5]))
  }

  /** The header a host packs is read back as that opcode and page, and conversely. */
  lemma HeaderRoundTrip(op: bv8, lba: bv32, h: seq<bv8>)
    requires |h| == HEADER_BYTES
    ensures DecodeHeader(EncodeHeader(op, lba)) == (op, lba)
    ensures EncodeHeader(DecodeHeader(h).0, DecodeHeader(h).1) == h
  {
    LeRoundTrip(lba, h[1..5]);
    assert EncodeHeader(op, lba)[1..5] == LeBytes(lba);
  }

  /** The bytes `tud_cdc_rx_cb` waits for before it takes a request: the header, and the page
      and spare too when the first byte in the FIFO is WRITE_FLASH. An empty FIFO leaves the
      peeked byte unset, which cannot matter: nothing is available. */
  function Needed(fifo: seq<bv8>): (n: nat)
    ensures n == HEADER_BYTES || n == HEADER_BYTES + PAGE_AND_SPARE
    ensures n > HEADER_BYTES <==> fifo != [] && fifo[0] == WRITE_FLASH
  {
    if fifo != [] && fifo[0] == WRITE_FLASH then HEADER_BYTES + PAGE_AND_SPARE else HEADER_BYTES
  }

  /** What the device sends back, as calls of `tud_cdc_write` and `tud_cdc_write_flush`. */
  datatype Tx = Data(bytes: seq<bv8>) | Flush

  /** The writes of a reply before its flush: the status word of a known opcode, then the page
      and spare of a read that succeeded. */
  function Body(op: bv8, rc: bv32, page: seq<bv8>): seq<Tx> {
    if op == GET_FLASH_CONFIG || op == WRITE_FLASH then [Data(LeBytes(rc))]
    else if op == READ_FLASH then
      (if rc == 0 then [Data(LeBytes(rc)), Data(page)] else [Data(LeBytes(rc))])
    else []
  }

  /** The reply to a request: its writes, then one flush. */
  function Reply(op: bv8, rc: bv32, page: seq<bv8>): seq<Tx> {
    Body(op, rc, page) + [Flush]
  }

  /** Flushing after the body's writes completes the reply. */
  lemma ReplyAfter(tx0: seq<Tx>, op: bv8, rc: bv32, page: seq<bv8>)
    ensures tx0 + Body(op, rc, page) + [Flush] == tx0 + Reply(op, rc, page)
  {
  }

  /** The bytes of a reply, in the order the host reads them. */
  function Sent(r: seq<Tx>): (s: seq<bv8>)
    decreases |r|
  {
    if r == [] then [] else (if r[0].Data? then r[0].bytes else []) + Sent(r[1..])
  }

  /** The bytes of two replies in a row are the bytes of the first, then of the second. */
  lemma {:induction false} SentAppend(a: seq<Tx>, b: seq<Tx>)
    ensures Sent(a + b) == Sent(a) + Sent(b)
    decreases |a|
  {
    if a == [] {
      assert a + b == b;
    } else {
      assert (a + b)[0] == a[0] && (a + b)[1..] == a[1..] + b;
      SentAppend(a[1..], b);
      var h := if a[0].Data? then a[0].bytes else [];
      assert Sent(a + b) == h + (Sent(a[1..]) + Sent(b));
    }
  }

  /** Every known opcode answers with a 4-byte status word the host reads back as `rc`, and a
      read that succeeded adds exactly the bytes of the page; an unknown opcode sends nothing;
      every reply ends with its one flush. */
  lemma ReplyShape(op: bv8, rc: bv32, page: seq<bv8>)
    ensures var r := Reply(op, rc, page); var s := Sent(r);
      && (op == GET_FLASH_CONFIG || op == READ_FLASH || op == WRITE_FLASH ==>
            |s| >= 4 && LeWord(s[..4]) == rc
            && s[4..] == (if op == READ_FLASH && rc == 0 then page else []))
      && (op != GET_FLASH_CONFIG && op != READ_FLASH && op != WRITE_FLASH ==> s == [])
      && r[|r| - 1] == Flush && forall i :: 0 <= i < |r| - 1 ==> r[i].Data?
  {
    var b := Body(op, rc, page);
    SentAppend(b, [Flush]);
    assert Sent([Flush]) == [];
    LeRoundTrip(rc, [0, 0, 0, 0]);
    if op == READ_FLASH && rc == 0 {
      assert Sent([Data(page)]) == page;
      SentAppend([Data(LeBytes(rc))], [Data(page)]);
      assert b == [Data(LeBytes(rc))] + [Data(page)];
    } else if op == GET_FLASH_CONFIG || op == READ_FLASH || op == WRITE_FLASH {
      assert Sent(b) == LeBytes(rc) + Sent([]);
    }
  }

  // ---------------------------------------------------------------------------------
  // The LED
  // ---------------------------------------------------------------------------------

  /** The state of `led_blink`: its two statics. */
  datatype Led = Led(startMs: bv32, on: bool)

  /** At least 50 ms lie between `since` and `now`, measured by 32-bit wrap-around subtraction
      as `now - start_ms` is in C. */
  predicate Apart(since: bv32, now: bv32) {
    now - since >= BLINK_MS
  }

  /** One call of `led_blink` at time `now`: nothing while fewer than 50 ms have passed since
      the last toggle; otherwise the pin is driven with the current state, which then flips. */
  function LedStep(l: Led, now: bv32): (r: (Led, Option<bool>))
    ensures r.1.None? <==> !Apart(l.startMs, now)
    ensures r.1.None? ==> r.0 == l
    ensures r.1.Some? ==> r.1.value == l.on && r.0 == Led(now, !l.on)
  {
    if !Apart(l.startMs, now) then (l, None)
    else (Led(now, !l.on), Some(l.on))
  }

  /** The pin writes of a run of calls, with the times they happened. */
  function Blinks(l: Led, times: seq<bv32>): (r: (Led, seq<(bv32, bool)>))
    decreases |times|
  {
    if times == [] then (l, [])
    else
      var prev := Blinks(l, times[..|times| - 1]);
      var step := LedStep(prev.0, times[|times| - 1]);
      (step.0, prev.1 + (if step.1.Some? then [(times[|times| - 1], step.1.value)] else []))
  }

  /** Consecutive pin writes are at least 50 ms apart and drive opposite levels. */
  predicate Alternating(puts: seq<(bv32, bool)>) {
    forall k :: 0 < k < |puts| ==> Apart(puts[k - 1].0, puts[k].0) && puts[k].1 == !puts[k - 1].1
  }

  /** A pin write 50 ms after the last one, with the opposite level, keeps them alternating. */
  lemma AlternatingSnoc(puts: seq<(bv32, bool)>, x: (bv32, bool))
    requires Alternating(puts)
    requires puts != [] ==> Apart(puts[|puts| - 1].0, x.0) && x.1 == !puts[|puts| - 1].1
    ensures Alternating(puts + [x])
  {
    var q := puts + [x];
    forall k | 0 < k < |q|
      ensures Apart(q[k - 1].0, q[k].0) && q[k].1 == !q[k - 1].1
    {
      if k < |puts| {
        assert q[k] == puts[k] && q[k - 1] == puts[k - 1];
      } else {
        assert q[k - 1] == puts[|puts| - 1] && q[k] == x;
      }
    }
  }

  /** After a run of calls from `l` that drove the pin at `puts`, the LED state `l'` records
      the last toggle, the first write came at least 50 ms after the starting time with the
      starting level, and the writes alternate. */
  predicate RunKeeps(l: Led, l': Led, puts: seq<(bv32, bool)>) {
    && (puts == [] ==> l' == l)
    && (puts != [] ==> l'.startMs == puts[|puts| - 1].0 && l'.on == !puts[|puts| - 1].1)
    && (puts != [] ==> Apart(l.startMs, puts[0].0) && puts[0].1 == l.on)
    && Alternating(puts)
  }

  /** One more call keeps the run's invariant. */
  lemma RunStep(l: Led, l0: Led, puts0: seq<(bv32, bool)>, t: bv32)
    requires RunKeeps(l, l0, puts0)
    ensures var step := LedStep(l0, t);
      RunKeeps(l, step.0, puts0 + (if step.1.Some? then [(t, step.1.value)] else []))
  {
    var step := LedStep(l0, t);
    if step.1.Some? {
      var x := (t, step.1.value);
      AlternatingSnoc(puts0, x);
      assert (puts0 + [x])[0] == if puts0 == [] then x else puts0[0];
    } else {
      assert puts0 + [] == puts0;
    }
  }

  /** Over any run of calls the LED state records the last toggle, consecutive pin writes are
      at least 50 ms apart (counting across the 2^32 ms wrap) and drive opposite levels, and
      the first is at least 50 ms after the starting time with the starting level. */
  lemma {:induction false} BlinksSpaced(l: Led, times: seq<bv32>)
    ensures RunKeeps(l, Blinks(l, times).0, Blinks(l, times).1)
    decreases |times|
  {
    if times != [] {
      var init, t := times[..|times| - 1], times[|times| - 1];
      BlinksSpaced(l, init);
      RunStep(l, Blinks(l, init).0, Blinks(l, init).1, t);
    }
  }

  /** The pin level a call of `led_blink` drives, if it drives one. */
  function Put(o: Option<bool>): (s: seq<bool>)
    ensures |s| <= 1 && (o.Some? <==> s != []) && (o.Some? ==> s[0] == o.value)
  {
    if o.Some? then [o.value] else []
  }

  // ---------------------------------------------------------------------------------
  // The device
  // ---------------------------------------------------------------------------------

  class Bridge {
    /** The NAND driver the requests go to. */
    const nand: Nand
    /** Bytes received from the host and not yet read. */
    var fifo: seq<bv8>
    /** Everything sent to the host. */
    var tx: seq<Tx>
    /** `led_blink`'s statics and the levels driven on the LED pin so far. */
    var led: Led
    var pin: seq<bool>

    constructor(nand: Nand)
      ensures this.nand == nand && fifo == [] && tx == [] && led == Led(0, false) && pin == []
    {
      this.nand := nand;
      fifo := [];
      tx := [];
      led := Led(0, false);
      pin := [];
    }

    /** `tud_cdc_read`: up to `n` bytes, as many as the FIFO holds. */
    method Take(n: nat) returns (bytes: seq<bv8>)
      modifies this`fifo
      ensures var k := if n <= |old(fifo)| then n else |old(fifo)|;
        bytes == old(fifo)[..k] && fifo == old(fifo)[k..]
    {
      var k := if n <= |fifo| then n else |fifo|;
      bytes := fifo[..k];
      fifo := fifo[k..];
    }

    /** `led_blink` at time `now`. */
    method LedBlink(now: bv32)
      modifies this`led, this`pin
      ensures var (l, put) := LedStep(old(led), now); led == l && pin == old(pin) + Put(put)
    {
      if !Apart(led.startMs, now) {
        return;
      }
      var level := led.on;
      led := Led(now, !level);
      pin := pin + [level];
    }

    /** `tud_cdc_tx_complete_cb`. */
    method TxComplete(now: bv32)
      modifies this`led, this`pin
      ensures var (l, put) := LedStep(old(led), now); led == l && pin == old(pin) + Put(put)
    {
      LedBlink(now);
    }

    /** `tud_cdc_rx_cb` at time `now`: blink, then take one request if all of it is there. */
    method RxCallback(now: bv32)
      modifies this, nand
      ensures var (l, put) := LedStep(old(led), now); led == l && pin == old(pin) + Put(put)
      ensures |old(fifo)| < Needed(old(fifo)) ==>
        fifo == old(fifo) && tx == old(tx) && nand.ops == old(nand.ops) && nand.flashConfig == old(nand.flashConfig)
      ensures |old(fifo)| >= Needed(old(fifo)) ==> Served(old(fifo), old(tx), old(nand.ops), old(nand.flashConfig))
    {
      LedBlink(now);
      if |fifo| >= Needed(fifo) {
        Serve();
      }
    }

    /** What serving the request at the head of `fifo0` leaves behind, given the transmit log,
        the NAND trace and the flash-config cache before it: the request's bytes are consumed
        and it was handled as its header says. */
    ghost predicate Served(fifo0: seq<bv8>, tx0: seq<Tx>, ops0: seq<Access>, config0: bv32)
      requires |fifo0| >= Needed(fifo0)
      reads this, nand
    {
      var (op, lba) := DecodeHeader(fifo0[..HEADER_BYTES]);
      && fifo == fifo0[Needed(fifo0)..]
      && Handled(op, lba, fifo0[HEADER_BYTES..Needed(fifo0)], tx0, ops0, config0)
    }

    /** Request `op` for page `lba`, with `body` the bytes that followed its header: the NAND
        driver ran the operation the opcode names, and the reply was sent and flushed. */
    ghost predicate Handled(op: bv8, lba: bv32, body: seq<bv8>, tx0: seq<Tx>, ops0: seq<Access>, config0: bv32)
      requires op == WRITE_FLASH ==> |body| == PAGE_AND_SPARE
      reads this, nand
    {
      if op == GET_FLASH_CONFIG then
        && ConfigRead(ops0, config0)
        && tx == tx0 + Reply(op, nand.flashConfig, [])
      else if op == READ_FLASH then ReadHandled(lba, tx0, ops0, config0)
      else if op == WRITE_FLASH then WriteHandled(lba, body, tx0, ops0, config0)
      else
        && nand.ops == ops0 && nand.flashConfig == config0
        && tx == tx0 + Reply(op, 0, [])
    }

    /** A READ_FLASH request was served: `xbox_nand_read_block` ran, and its status word was
        sent, then the page and spare if it was 0. */
    ghost predicate ReadHandled(lba: bv32, tx0: seq<Tx>, ops0: seq<Access>, config0: bv32)
      reads this, nand
    {
      var p := ReadBlockSpec(nand.dev, ops0, lba);
      && nand.ops == p.ops && nand.flashConfig == config0
      && tx == tx0 + Reply(READ_FLASH, p.rc, if p.rc == 0 then LeStream(p.data) + LeStream(p.spare) else [])
    }

    /** A WRITE_FLASH request was served: `xbox_nand_write_block` ran on the page
        `body[..0x200]` and spare `body[0x200..]`, and its status word was sent. */
    ghost predicate WriteHandled(lba: bv32, body: seq<bv8>, tx0: seq<Tx>, ops0: seq<Access>, config0: bv32)
      requires |body| == PAGE_AND_SPARE
      reads this, nand
    {
      var w := WriteBlockSpec(nand.dev, ops0, lba, PageWords(body[..PAGE_BYTES], body[PAGE_BYTES..]));
      && nand.ops == w.1 && nand.flashConfig == config0
      && tx == tx0 + Reply(WRITE_FLASH, w.0, [])
    }

    /** `xbox_get_flash_config` as seen from the NAND trace: reg 0 is read only while the cache
        was 0, and the cache then holds what was read. */
    ghost predicate ConfigRead(ops0: seq<Access>, config0: bv32)
      reads this, nand
    {
      && (config0 != 0 ==> nand.ops == ops0 && nand.flashConfig == config0)
      && (config0 == 0 ==> nand.ops == ops0 + [Read(REG_CONFIG)] && nand.flashConfig == nand.dev(nand.ops))
    }

    /** The body of `tud_cdc_rx_cb` once enough bytes are available. */
    method Serve()
      requires |fifo| >= Needed(fifo)
      modifies this, nand
      ensures Served(old(fifo), old(tx), old(nand.ops), old(nand.flashConfig))
      ensures led == old(led) && pin == old(pin)
    {
      ghost var fifo0 := fifo;
      var header := Take(HEADER_BYTES);
      var (op, lba) := DecodeHeader(header);
      assert header == fifo0[..HEADER_BYTES] && op == fifo0[0];
      var body: seq<bv8> := [];
      if op == WRITE_FLASH {
        body := Take(PAGE_AND_SPARE);
      }
      assert body == fifo0[HEADER_BYTES..Needed(fifo0)] && fifo == fifo0[Needed(fifo0)..];
      Dispatch(op, lba, body);
    }

    /** The request `op` for page `lba` with its header consumed, and `body` the page and spare
        of a write: the NAND operation, the reply and the flush. */
    method Dispatch(op: bv8, lba: bv32, body: seq<bv8>)
      requires op == WRITE_FLASH ==> |body| == PAGE_AND_SPARE
      modifies this`tx, nand
      ensures Handled(op, lba, body, old(tx), old(nand.ops), old(nand.flashConfig))
    {
      ghost var tx0, ops0 := tx, nand.ops;
      if op == GET_FLASH_CONFIG {
        ServeConfig();
        tx := tx + [Flush];
        ReplyAfter(tx0, op, nand.flashConfig, []);
      } else if op == READ_FLASH {
        ServeRead(lba);
        tx := tx + [Flush];
        ghost var p := ReadBlockSpec(nand.dev, ops0, lba);
        ReplyAfter(tx0, op, p.rc, if p.rc == 0 then LeStream(p.data) + LeStream(p.spare) else []);
      } else if op == WRITE_FLASH {
        ServeWrite(lba, body);
        tx := tx + [Flush];
        ReplyAfter(tx0, op, WriteBlockSpec(nand.dev, ops0, lba, PageWords(body[..PAGE_BYTES], body[PAGE_BYTES..])).0, []);
      } else {
        tx := tx + [Flush];
        ReplyAfter(tx0, op, 0, []);
      }
    }

    /** The GET_FLASH_CONFIG branch before the flush: the 4 bytes of the configuration word. */
    method ServeConfig()
      modifies this`tx, nand
      ensures ConfigRead(old(nand.ops), old(nand.flashConfig))
      ensures tx == old(tx) + Body(GET_FLASH_CONFIG, nand.flashConfig, [])
    {
      var fc := nand.GetFlashConfig();
      tx := tx + [Data(LeBytes(fc))];
    }

    /** The READ_FLASH branch before the flush: the status word, then the page and its spare
        area if the read succeeded. */
    method ServeRead(lba: bv32)
      modifies this`tx, nand
      ensures var p := ReadBlockSpec(nand.dev, old(nand.ops), lba);
        && nand.ops == p.ops && nand.flashConfig == old(nand.flashConfig)
        && tx == old(tx) + Body(READ_FLASH, p.rc, if p.rc == 0 then LeStream(p.data) + LeStream(p.spare) else [])
    {
      var buffer := new bv8[PAGE_BYTES];
      var spare := new bv8[SPARE_BYTES];
      ghost var p := ReadBlockSpec(nand.dev, nand.ops, lba);
      ReadBlockResult(nand.dev, nand.ops, lba);
      ghost var b0, s0 := buffer[..], spare[..];
      var ret := nand.ReadBlock(lba, buffer, spare);
      tx := tx + [Data(LeBytes(ret))];
      if ret == 0 {
        OverlayWhole(b0, LeStream(p.data));
        OverlayWhole(s0, LeStream(p.spare));
        tx := tx + [Data(buffer[..] + spare[..])];
      }
    }

    /** The WRITE_FLASH branch before the flush: the page goes from `body[..0x200]` and the
        spare area from `body[0x200..]`; the reply is the status word. */
    method ServeWrite(lba: bv32, body: seq<bv8>)
      requires |body| == PAGE_AND_SPARE
      modifies this`tx, nand
      ensures var w := WriteBlockSpec(nand.dev, old(nand.ops), lba, PageWords(body[..PAGE_BYTES], body[PAGE_BYTES..]));
        && nand.ops == w.1 && nand.flashConfig == old(nand.flashConfig)
        && tx == old(tx) + Body(WRITE_FLASH, w.0, [])
    {
      var buffer := new bv8[PAGE_BYTES](i requires 0 <= i < PAGE_BYTES => body[i]);
      var spare := new bv8[SPARE_BYTES](i requires 0 <= i < SPARE_BYTES => body[PAGE_BYTES + i]);
      assert buffer[..PAGE_BYTES] == body[..PAGE_BYTES];
      assert spare[..SPARE_BYTES] == body[PAGE_BYTES..];
      var ret := nand.WriteBlock(lba, buffer, spare);
      tx := tx + [Data(LeBytes(ret))];
    }
  }

  /** An overlay that covers the whole buffer is just the new bytes. */
  lemma OverlayWhole(s: seq<bv8>, b: seq<bv8>)
    requires |b| == |s|
    ensures Overlay(s, 0, b) == b
  {
  }
}
