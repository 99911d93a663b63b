/** Page-level access to the console's NAND flash through the controller's register window
    (xbox.c). Every operation is an ordered sequence of register reads and writes (`Access`,
    each one SPI frame as `Spiex` lays it out). The controller is an oracle `Device`: the value
    a read returns is a function of every access made so far, which covers a status register
    that changes as the flash works and a data register that streams a page. The driver is the
    class `Nand`, whose `ops` field is the trace of accesses it has made. */
module Xbox {
  import opened ByteOrder
  import opened Spiex

  const REG_CONFIG: bv8 := 0x00
  const REG_STATUS: bv8 := 0x04
  const REG_COMMAND: bv8 := 0x08
  const REG_ADDRESS: bv8 := 0x0C
  const REG_DATA: bv8 := 0x10

  /** The status polls `xbox_nand_wait_ready` is given after its first one. */
  const READY_TIMEOUT: nat := 0x1000
  const PAGE_BYTES: nat := 0x200
  const SPARE_BYTES: nat := 0x10
  const PAGE_WORDS: nat := 128
  const SPARE_WORDS: nat := 4
  /** The bit of the configuration register that erase sets before it starts. */
  const CONFIG_ERASE_BIT: bv32 := 0x08

  /** The controller: the value it returns for the last read of a history of accesses. */
  type Device = seq<Access> -> bv32

  /** `xbox_nand_get_status` returns the register truncated to `uint16_t`. */
  function Status16(v: bv32): (s: bv16)
    ensures s as bv32 == v & 0xFFFF
  {
    (v & 0xFFFF) as bv16
  }

  /** Bit 0 of the status: the flash is still working. */
  predicate Busy(s: bv16) {
    s & 1 != 0
  }

  /** The return code of an operation whose wait timed out: `0x8000 | status`, never 0, with
      the status's low 15 bits kept. */
  function Failed(s: bv16): (r: bv32)
    ensures r != 0 && r >> 16 == 0 && r & 0x8000 != 0
    ensures r & 0x7FFF == (s as bv32) & 0x7FFF
  {
    0x8000 | (s as bv32)
  }

  /** The row address of a page: `lba << 9` in 32-bit arithmetic. */
  function RowAddress(lba: bv32): (a: bv32)
    ensures a & 0x1FF == 0 && a >> 9 == lba & 0x7F_FFFF
  {
    lba << 9
  }

  // ---------------------------------------------------------------------------------
  // Specification of each operation as the trace it makes
  // ---------------------------------------------------------------------------------

  /** `xbox_nand_clear_status`: the status register is read and the value written back. */
  function ClearOps(dev: Device, h: seq<Access>): (r: seq<Access>) {
    var h1 := h + [Read(REG_STATUS)];
    h1 + [Write(REG_STATUS, dev(h1))]
  }

  /** `xbox_nand_wait_ready(t)`: whether it gave up (returned 1), and the trace after its polls. */
  function Wait(dev: Device, h: seq<Access>, t: nat): (r: (bool, seq<Access>))
    ensures |h| < |r.1| <= |h| + t + 1
    ensures r.1[..|h|] == h
    decreases t
  {
    var h1 := h + [Read(REG_STATUS)];
    if !Busy(Status16(dev(h1))) then (false, h1)
    else if t == 0 then (true, h1)
    else Wait(dev, h1, t - 1)
  }

  /** The common tail of every operation: wait for the flash, and on a timeout return
      `0x8000 | status` from one more status read; otherwise 0. */
  function Finish(dev: Device, h: seq<Access>): (r: (bv32, seq<Access>)) {
    var (late, h1) := Wait(dev, h, READY_TIMEOUT);
    if late then
      var h2 := h1 + [Read(REG_STATUS)];
      (Failed(Status16(dev(h2))), h2)
    else
      (0, h1)
  }

  /** `k` words drained from the data register, each after a 0x00 to the command register:
      the trace and the words read, in order. */
  function Drain(dev: Device, h: seq<Access>, k: nat): (r: (seq<Access>, seq<bv32>))
    ensures |r.1| == k
    decreases k
  {
    if k == 0 then (h, [])
    else
      var prev := Drain(dev, h, k - 1);
      var h2 := prev.0 + [Write(REG_COMMAND, 0)] + [Read(REG_DATA)];
      (h2, prev.1 + [dev(h2)])
  }

  /** The outcome of `xbox_nand_read_block`: return code, trace, page words and spare words. */
  datatype PageRead = PageRead(rc: bv32, ops: seq<Access>, data: seq<bv32>, spare: seq<bv32>)

  function ReadBlockSpec(dev: Device, h: seq<Access>, lba: bv32): (p: PageRead) {
    var h1 := ClearOps(dev, h) + [Write(REG_ADDRESS, RowAddress(lba))] + [Write(REG_COMMAND, 0x03)];
    var (rc, h2) := Finish(dev, h1);
    if rc != 0 then PageRead(rc, h2, [], [])
    else
      var (h3, data) := Drain(dev, h2 + [Write(REG_ADDRESS, 0)], PAGE_WORDS);
      var (h4, spare) := Drain(dev, h3, SPARE_WORDS);
      PageRead(0, h4, data, spare)
  }

  /** `xbox_nand_erase_block`. */
  function EraseSpec(dev: Device, h: seq<Access>, lba: bv32): (r: (bv32, seq<Access>)) {
    var h1 := ClearOps(dev, h) + [Read(REG_CONFIG)];
    var h2 := h1 + [Write(REG_CONFIG, dev(h1) | CONFIG_ERASE_BIT)] + [Write(REG_ADDRESS, RowAddress(lba))]
                 + [Write(REG_COMMAND, 0xAA)] + [Write(REG_COMMAND, 0x55)] + [Write(REG_COMMAND, 0x05)];
    Finish(dev, h2)
  }

  /** Each word written to the data register, then 0x01 to the command register. */
  function Fill(h: seq<Access>, ws: seq<bv32>): (r: seq<Access>)
    ensures |r| == |h| + 2 * |ws|
    decreases |ws|
  {
    if ws == [] then h
    else Fill(h, ws[..|ws| - 1]) + [Write(REG_DATA, ws[|ws| - 1])] + [Write(REG_COMMAND, 0x01)]
  }

  /** The end of `xbox_nand_write_block` once the words are sent: wait, give the row address,
      wait, send the program sequence 0x55, 0xAA, 0x04, wait; the first timeout is returned. */
  function Program(dev: Device, h: seq<Access>, lba: bv32): (r: (bv32, seq<Access>)) {
    var f1 := Finish(dev, h);
    if f1.0 != 0 then f1
    else
      var f2 := Finish(dev, f1.1 + [Write(REG_ADDRESS, RowAddress(lba))]);
      if f2.0 != 0 then f2
      else Finish(dev, f2.1 + [Write(REG_COMMAND, 0x55)] + [Write(REG_COMMAND, 0xAA)] + [Write(REG_COMMAND, 0x04)])
  }

  /** The erase `xbox_nand_write_block` starts with, on an erase-block boundary only: an erase
      block is 0x20 pages of 0x200 bytes. */
  function EraseFirst(dev: Device, h: seq<Access>, lba: bv32): (r: (bv32, seq<Access>)) {
    if lba % 0x20 == 0 then EraseSpec(dev, h, lba) else (0, h)
  }

  /** The accesses that send the words of a page: clear the status, reset the address, fill. */
  function SendWords(dev: Device, h: seq<Access>, ws: seq<bv32>): (r: seq<Access>) {
    Fill(ClearOps(dev, h) + [Write(REG_ADDRESS, 0)], ws)
  }

  /** `xbox_nand_write_block` with the page and spare already loaded as words. */
  function WriteBlockSpec(dev: Device, h: seq<Access>, lba: bv32, ws: seq<bv32>): (r: (bv32, seq<Access>)) {
    var e := EraseFirst(dev, h, lba);
    if e.0 != 0 then e
    else Program(dev, SendWords(dev, e.1, ws), lba)
  }

  /** The words the bytes of a page and its spare area are sent as. */
  function PageWords(page: seq<bv8>, spare: seq<bv8>): (ws: seq<bv32>)
    requires |page| == PAGE_BYTES && |spare| == SPARE_BYTES
    ensures |ws| == PAGE_WORDS + SPARE_WORDS
  {
    LeWords(page) + LeWords(spare)
  }

  /** The bytes of `s` with `b` written over them from `at` on, the rest as they were. */
  function Overlay(s: seq<bv8>, at: nat, b: seq<bv8>): (r: seq<bv8>)
    requires at + |b| <= |s|
    ensures |r| == |s|
  {
    s[..at] + b + s[at + |b|..]
  }

  /** Overlaying `b` and then `c` right after it is overlaying `b + c`. */
  lemma OverlaySnoc(s: seq<bv8>, at: nat, b: seq<bv8>, c: seq<bv8>)
    requires at + |b| + |c| <= |s|
    ensures Overlay(Overlay(s, at, b), at + |b|, c) == Overlay(s, at, b + c)
  {
    var t := Overlay(s, at, b);
    assert t[..at + |b|] == s[..at] + b;
    assert t[at + |b| + |c|..] == s[at + |b| + |c|..];
  }

  /** An overlay holds `b` where it was written and the old bytes everywhere else. */
  lemma OverlayAt(s: seq<bv8>, at: nat, b: seq<bv8>)
    requires at + |b| <= |s|
    ensures Overlay(s, at, b)[at..at + |b|] == b
    ensures forall j :: 0 <= j < |s| && !(at <= j < at + |b|) ==> Overlay(s, at, b)[j] == s[j]
  {
  }

  // ---------------------------------------------------------------------------------
  // What the traces mean
  // ---------------------------------------------------------------------------------

  /** The values written to the data register, in order. */
  function DataWrites(ops: seq<Access>): (ws: seq<bv32>)
    ensures |ws| <= |ops|
    decreases |ops|
  {
    if ops == [] then []
    else
      var last := ops[|ops| - 1];
      DataWrites(ops[..|ops| - 1]) + (if last.Write? && last.reg == REG_DATA then [last.value] else [])
  }

  /** Whether the configuration register is written anywhere in `ops`. */
  predicate WritesConfig(ops: seq<Access>)
    decreases |ops|
  {
    ops != [] && (WritesConfig(ops[..|ops| - 1]) || (ops[|ops| - 1].Write? && ops[|ops| - 1].reg == REG_CONFIG))
  }

  /** An access that writes neither the data register nor the configuration register. */
  predicate Quiet(x: Access) {
    !(x.Write? && (x.reg == REG_DATA || x.reg == REG_CONFIG))
  }

  /** The wait polls only the status register; it returns 0 at the first poll that sees bit 0
      clear, and 1 after exactly `t + 1` polls that all saw it set. */
  lemma {:induction false} WaitPolls(dev: Device, h: seq<Access>, t: nat)
    ensures var (late, h') := Wait(dev, h, t);
      && (forall i :: |h| <= i < |h'| ==> h'[i] == Read(REG_STATUS))
      && (forall i :: |h| < i < |h'| ==> Busy(Status16(dev(h'[..i]))))
      && (late <==> Busy(Status16(dev(h'))))
      && (late ==> |h'| == |h| + t + 1)
    decreases t
  {
    var h1 := h + [Read(REG_STATUS)];
    if Busy(Status16(dev(h1))) && t > 0 {
      WaitPolls(dev, h1, t - 1);
      var h' := Wait(dev, h1, t - 1).1;
      assert h'[..|h1|] == h1;
      forall i | |h| < i < |h'|
        ensures Busy(Status16(dev(h'[..i])))
      {
        if i == |h1| {
          assert h'[..i] == h1;
        }
      }
    }
  }

  /** A quiet access changes neither the data writes nor whether the configuration was written. */
  lemma SnocQuiet(a: seq<Access>, x: Access)
    requires Quiet(x)
    ensures DataWrites(a + [x]) == DataWrites(a)
    ensures WritesConfig(a + [x]) == WritesConfig(a)
  {
    assert (a + [x])[..|a|] == a;
  }

  /** A write of the data register adds its value to the data writes. */
  lemma SnocData(a: seq<Access>, w: bv32)
    ensures DataWrites(a + [Write(REG_DATA, w)]) == DataWrites(a) + [w]
    ensures WritesConfig(a + [Write(REG_DATA, w)]) == WritesConfig(a)
  {
    assert (a + [Write(REG_DATA, w)])[..|a|] == a;
  }

  /** A write of the configuration register is remembered. */
  lemma SnocConfig(a: seq<Access>, v: bv32)
    ensures DataWrites(a + [Write(REG_CONFIG, v)]) == DataWrites(a)
    ensures WritesConfig(a + [Write(REG_CONFIG, v)])
  {
    assert (a + [Write(REG_CONFIG, v)])[..|a|] == a;
  }

  /** A wait only reads. */
  lemma {:induction false} WaitWritesNothing(dev: Device, h: seq<Access>, t: nat)
    ensures DataWrites(Wait(dev, h, t).1) == DataWrites(h)
    ensures WritesConfig(Wait(dev, h, t).1) == WritesConfig(h)
    decreases t
  {
    var h1 := h + [Read(REG_STATUS)];
    SnocQuiet(h, Read(REG_STATUS));
    if Busy(Status16(dev(h1))) && t > 0 {
      WaitWritesNothing(dev, h1, t - 1);
    }
  }

  /** The end of an operation only reads. */
  lemma FinishWritesNothing(dev: Device, h: seq<Access>)
    ensures DataWrites(Finish(dev, h).1) == DataWrites(h)
    ensures WritesConfig(Finish(dev, h).1) == WritesConfig(h)
  {
    WaitWritesNothing(dev, h, READY_TIMEOUT);
    SnocQuiet(Wait(dev, h, READY_TIMEOUT).1, Read(REG_STATUS));
  }

  lemma ClearWritesNothing(dev: Device, h: seq<Access>)
    ensures DataWrites(ClearOps(dev, h)) == DataWrites(h)
    ensures WritesConfig(ClearOps(dev, h)) == WritesConfig(h)
  {
    var h1 := h + [Read(REG_STATUS)];
    SnocQuiet(h, Read(REG_STATUS));
    SnocQuiet(h1, Write(REG_STATUS, dev(h1)));
  }

  /** Filling sends exactly the given words to the data register, and never the configuration. */
  lemma {:induction false} FillWrites(h: seq<Access>, ws: seq<bv32>)
    ensures DataWrites(Fill(h, ws)) == DataWrites(h) + ws
    ensures WritesConfig(Fill(h, ws)) == WritesConfig(h)
    decreases |ws|
  {
    if ws != [] {
      var w := ws[|ws| - 1];
      var pre := ws[..|ws| - 1];
      var f := Fill(h, pre);
      FillWrites(h, pre);
      SnocData(f, w);
      SnocQuiet(f + [Write(REG_DATA, w)], Write(REG_COMMAND, 0x01));
      assert ws == pre + [w];
      assert DataWrites(h) + pre + [w] == DataWrites(h) + ws;
    }
  }

  /** Sending a page's words adds exactly those words to the data register's writes. */
  lemma SendWordsWrites(dev: Device, h: seq<Access>, ws: seq<bv32>)
    ensures DataWrites(SendWords(dev, h, ws)) == DataWrites(h) + ws
    ensures WritesConfig(SendWords(dev, h, ws)) == WritesConfig(h)
  {
    ClearWritesNothing(dev, h);
    SnocQuiet(ClearOps(dev, h), Write(REG_ADDRESS, 0));
    FillWrites(ClearOps(dev, h) + [Write(REG_ADDRESS, 0)], ws);
  }

  /** Programming writes neither the data register nor the configuration. */
  lemma ProgramWritesNothing(dev: Device, h: seq<Access>, lba: bv32)
    ensures DataWrites(Program(dev, h, lba).1) == DataWrites(h)
    ensures WritesConfig(Program(dev, h, lba).1) == WritesConfig(h)
  {
    var f1 := Finish(dev, h);
    FinishWritesNothing(dev, h);
    if f1.0 == 0 {
      var a := f1.1 + [Write(REG_ADDRESS, RowAddress(lba))];
      SnocQuiet(f1.1, Write(REG_ADDRESS, RowAddress(lba)));
      FinishWritesNothing(dev, a);
      var f2 := Finish(dev, a);
      if f2.0 == 0 {
        var t1 := f2.1 + [Write(REG_COMMAND, 0x55)];
        var t2 := t1 + [Write(REG_COMMAND, 0xAA)];
        SnocQuiet(f2.1, Write(REG_COMMAND, 0x55));
        SnocQuiet(t1, Write(REG_COMMAND, 0xAA));
        SnocQuiet(t2, Write(REG_COMMAND, 0x04));
        FinishWritesNothing(dev, t2 + [Write(REG_COMMAND, 0x04)]);
      }
    }
  }

  /** An erase writes the configuration register and never the data register. */
  lemma EraseWrites(dev: Device, h: seq<Access>, lba: bv32)
    ensures DataWrites(EraseSpec(dev, h, lba).1) == DataWrites(h)
    ensures WritesConfig(EraseSpec(dev, h, lba).1)
  {
    var c := ClearOps(dev, h) + [Read(REG_CONFIG)];
    var t0 := c + [Write(REG_CONFIG, dev(c) | CONFIG_ERASE_BIT)];
    var t1 := t0 + [Write(REG_ADDRESS, RowAddress(lba))];
    var t2 := t1 + [Write(REG_COMMAND, 0xAA)];
    var t3 := t2 + [Write(REG_COMMAND, 0x55)];
    ClearWritesNothing(dev, h);
    SnocQuiet(ClearOps(dev, h), Read(REG_CONFIG));
    SnocConfig(c, dev(c) | CONFIG_ERASE_BIT);
    SnocQuiet(t0, Write(REG_ADDRESS, RowAddress(lba)));
    SnocQuiet(t1, Write(REG_COMMAND, 0xAA));
    SnocQuiet(t2, Write(REG_COMMAND, 0x55));
    SnocQuiet(t3, Write(REG_COMMAND, 0x05));
    FinishWritesNothing(dev, t3 + [Write(REG_COMMAND, 0x05)]);
  }

  /** Erasing sets the erase bit of the configuration register and keeps its other bits. */
  lemma EraseConfigBits(dev: Device, h: seq<Access>, lba: bv32)
    ensures var h1 := ClearOps(dev, h) + [Read(REG_CONFIG)];
      var w := EraseSpec(dev, h, lba).1[|h1|];
      && w.Write? && w.reg == REG_CONFIG
      && w.value & CONFIG_ERASE_BIT != 0
      && w.value & !CONFIG_ERASE_BIT == dev(h1) & !CONFIG_ERASE_BIT
  {
    var h1 := ClearOps(dev, h) + [Read(REG_CONFIG)];
    var h2 := h1 + [Write(REG_CONFIG, dev(h1) | CONFIG_ERASE_BIT)] + [Write(REG_ADDRESS, RowAddress(lba))]
                 + [Write(REG_COMMAND, 0xAA)] + [Write(REG_COMMAND, 0x55)] + [Write(REG_COMMAND, 0x05)];
    var f := Finish(dev, h2).1;
    assert f[..|h2|] == h2 by {
      var w := Wait(dev, h2, READY_TIMEOUT).1;
      assert w[..|h2|] == h2;
    }
    assert f[|h1|] == h2[|h1|];
  }

  /** A write erases first exactly when the page starts an erase block: the configuration
      register is written iff `lba % 0x20 == 0`. A failed erase is returned unchanged and
      nothing is written to the data register after it. */
  lemma WriteErasesOnBoundary(dev: Device, h: seq<Access>, lba: bv32, ws: seq<bv32>)
    requires !WritesConfig(h)
    ensures var r := WriteBlockSpec(dev, h, lba, ws);
      && (WritesConfig(r.1) <==> lba % 0x20 == 0)
      && (lba % 0x20 == 0 && EraseSpec(dev, h, lba).0 != 0 ==>
            r == EraseSpec(dev, h, lba) && DataWrites(r.1) == DataWrites(h))
  {
    var e := EraseFirst(dev, h, lba);
    if lba % 0x20 == 0 {
      EraseWrites(dev, h, lba);
    }
    if e.0 == 0 {
      SendWordsWrites(dev, e.1, ws);
      ProgramWritesNothing(dev, SendWords(dev, e.1, ws), lba);
    }
  }

  /** Once the erase (if any) succeeds, the data register receives exactly the page's and the
      spare area's words, in order; stored back with the little-endian layout a read uses, they
      are the bytes that were given. */
  lemma WriteSendsPage(dev: Device, h: seq<Access>, lba: bv32, page: seq<bv8>, spare: seq<bv8>)
    requires |page| == PAGE_BYTES && |spare| == SPARE_BYTES
    requires EraseFirst(dev, h, lba).0 == 0
    ensures var ws := PageWords(page, spare);
      && DataWrites(WriteBlockSpec(dev, h, lba, ws).1) == DataWrites(h) + ws
      && LeStream(ws) == page + spare
  {
    var ws := PageWords(page, spare);
    var e := EraseFirst(dev, h, lba);
    if lba % 0x20 == 0 {
      EraseWrites(dev, h, lba);
    }
    SendWordsWrites(dev, e.1, ws);
    ProgramWritesNothing(dev, SendWords(dev, e.1, ws), lba);
    PageWordsStream(page, spare);
  }

  /** The words of a page and its spare area, stored back little-endian, are their bytes. */
  lemma PageWordsStream(page: seq<bv8>, spare: seq<bv8>)
    requires |page| == PAGE_BYTES && |spare| == SPARE_BYTES
    ensures LeStream(PageWords(page, spare)) == page + spare
  {
    LeWordsAppend(page, spare);
    LeStreamOfWords(page + spare);
  }

  /** A drain alternates 0x00 to the command register with a read of the data register, and
      word `j` is the controller's answer to the `j`-th data read. */
  lemma {:induction false} DrainShape(dev: Device, h: seq<Access>, k: nat)
    ensures var r := Drain(dev, h, k);
      && |r.0| == |h| + 2 * k && r.0[..|h|] == h
      && (forall j :: 0 <= j < k ==>
            r.0[|h| + 2 * j] == Write(REG_COMMAND, 0) && r.0[|h| + 2 * j + 1] == Read(REG_DATA)
            && r.1[j] == dev(r.0[..|h| + 2 * j + 2]))
    decreases k
  {
    if k > 0 {
      DrainShape(dev, h, k - 1);
      var prev := Drain(dev, h, k - 1);
      var r := Drain(dev, h, k);
      assert r.0 == prev.0 + [Write(REG_COMMAND, 0)] + [Read(REG_DATA)];
      assert r.1 == prev.1 + [dev(r.0)];
      assert r.0[..|prev.0|] == prev.0;
      forall j | 0 <= j < k
        ensures r.0[|h| + 2 * j] == Write(REG_COMMAND, 0) && r.0[|h| + 2 * j + 1] == Read(REG_DATA)
        ensures r.1[j] == dev(r.0[..|h| + 2 * j + 2])
      {
        if j < k - 1 {
          assert r.0[..|h| + 2 * j + 2] == prev.0[..|h| + 2 * j + 2];
          assert r.1[j] == prev.1[j];
        } else {
          assert r.0[..|h| + 2 * j + 2] == r.0;
        }
      }
    }
  }

  /** A read returns 0 exactly when the wait after the read command saw the flash ready; it
      then drains one page of 128 words and 4 spare words. On a timeout it reads no data and
      returns `0x8000 | status` from one last status read. */
  lemma ReadBlockResult(dev: Device, h: seq<Access>, lba: bv32)
    ensures var p := ReadBlockSpec(dev, h, lba);
      var w := Wait(dev, ClearOps(dev, h) + [Write(REG_ADDRESS, RowAddress(lba))] + [Write(REG_COMMAND, 0x03)], READY_TIMEOUT);
      && (p.rc == 0 <==> !w.0)
      && (p.rc != 0 ==> p.rc == Failed(Status16(dev(p.ops))) && p.ops == w.1 + [Read(REG_STATUS)])
      && (p.rc == 0 ==>
            (&& |p.data| == PAGE_WORDS && |p.spare| == SPARE_WORDS
             && |p.ops| == |w.1| + 1 + 2 * (PAGE_WORDS + SPARE_WORDS)
             && p.ops[..|w.1| + 1] == w.1 + [Write(REG_ADDRESS, 0)]))
  {
    var pre := ClearOps(dev, h) + [Write(REG_ADDRESS, RowAddress(lba))] + [Write(REG_COMMAND, 0x03)];
    var w := Wait(dev, pre, READY_TIMEOUT);
    if !w.0 {
      var start := w.1 + [Write(REG_ADDRESS, 0)];
      DrainShape(dev, start, PAGE_WORDS);
      var h3 := Drain(dev, start, PAGE_WORDS).0;
      DrainShape(dev, h3, SPARE_WORDS);
      var h4 := Drain(dev, h3, SPARE_WORDS).0;
      assert h4[..|start|] == h3[..|start|];
    }
  }

  // ---------------------------------------------------------------------------------
  // The driver
  // ---------------------------------------------------------------------------------

  /** Stores `v` little-endian at `a[at .. at+4]`, as `*(uint32_t *)p = v` does. */
  method StoreWord(a: array<bv8>, at: nat, v: bv32)
    requires at + 4 <= a.Length
    modifies a
    ensures a[..] == Overlay(old(a[..]), at, LeBytes(v))
  {
    var b := LeBytes(v);
    a[at] := b[0];
    a[at + 1] := b[1];
    a[at + 2] := b[2];
    a[at + 3] := b[3];
  }

  class Nand {
    /** The controller on the other side of the SPI link. */
    const dev: Device
    /** Every register access made so far. */
    var ops: seq<Access>
    /** The static cache of `xbox_get_flash_config`; 0 means not read yet. */
    var flashConfig: bv32

    constructor(dev: Device)
      ensures this.dev == dev && ops == [] && flashConfig == 0
    {
      this.dev := dev;
      ops := [];
      flashConfig := 0;
    }

    /** `spiex_read_reg`: one read frame; the controller answers with the register's value. */
    method ReadReg(reg: bv8) returns (v: bv32)
      modifies this
      ensures ops == old(ops) + [Read(reg)] && v == dev(ops) && flashConfig == old(flashConfig)
    {
      ops := ops + [Read(reg)];
      v := dev(ops);
    }

    /** `spiex_write_reg`: one write frame. */
    method WriteReg(reg: bv8, val: bv32)
      modifies this
      ensures ops == old(ops) + [Write(reg, val)] && flashConfig == old(flashConfig)
    {
      ops := ops + [Write(reg, val)];
    }

    /** `xbox_get_flash_config`: register 0 is read only while the cache holds 0; after a
        nonzero read the cached value is returned with no access. */
    method GetFlashConfig() returns (c: bv32)
      modifies this
      ensures old(flashConfig) != 0 ==> c == old(flashConfig) && ops == old(ops) && flashConfig == c
      ensures old(flashConfig) == 0 ==> ops == old(ops) + [Read(REG_CONFIG)] && c == dev(ops) && flashConfig == c
    {
      if flashConfig == 0 {
        flashConfig := ReadReg(REG_CONFIG);
      }
      c := flashConfig;
    }

    /** `xbox_nand_get_status`: the low 16 bits of the status register. */
    method GetStatus() returns (s: bv16)
      modifies this
      ensures ops == old(ops) + [Read(REG_STATUS)] && s == Status16(dev(ops)) && flashConfig == old(flashConfig)
    {
      var v := ReadReg(REG_STATUS);
      s := (v & 0xFFFF) as bv16;
    }

    /** `xbox_nand_clear_status`: the status register is written back with the value just read. */
    method ClearStatus()
      modifies this
      ensures ops == ClearOps(dev, old(ops)) && flashConfig == old(flashConfig)
      ensures ops[|ops| - 1] == Write(REG_STATUS, dev(ops[..|ops| - 1]))
    {
      var v := ReadReg(REG_STATUS);
      WriteReg(REG_STATUS, v);
    }

    /** `xbox_nand_wait_ready`: polls the status until bit 0 clears (0) or `timeout + 1` polls
        have all seen it set (1). */
    method WaitReady(timeout: nat) returns (r: bv32)
      requires timeout < 0x1_0000
      modifies this
      ensures (r == 1, ops) == Wait(dev, old(ops), timeout) && (r == 0 || r == 1)
      ensures flashConfig == old(flashConfig)
    {
      var t := timeout;
      while true
        invariant Wait(dev, old(ops), timeout) == Wait(dev, ops, t)
        invariant flashConfig == old(flashConfig)
        decreases t
      {
        var s := GetStatus();
        if s & 1 == 0 {
          return 0;
        }
        if t == 0 {
          return 1;
        }
        t := t - 1;
      }
    }

    /** The check every operation ends with: a timed-out wait returns `0x8000 | status`. */
    method Settle() returns (rc: bv32)
      modifies this
      ensures (rc, ops) == Finish(dev, old(ops)) && flashConfig == old(flashConfig)
    {
      var late := WaitReady(READY_TIMEOUT);
      if late != 0 {
        var s := GetStatus();
        return 0x8000 | (s as bv32);
      }
      rc := 0;
    }

    /** Reads `k` words into `a` from byte `at` on, each after a 0x00 to the command register. */
    method DrainInto(a: array<bv8>, at: nat, k: nat) returns (ghost vs: seq<bv32>)
      requires at + 4 * k <= a.Length
      modifies this, a
      ensures (ops, vs) == Drain(dev, old(ops), k) && flashConfig == old(flashConfig)
      ensures a[..] == Overlay(old(a[..]), at, LeStream(vs))
    {
      var i := 0;
      vs := [];
      assert old(a[..]) == Overlay(old(a[..]), at, []);
      while i < k
        invariant i <= k && |vs| == i
        invariant ops == Drain(dev, old(ops), i).0 && vs == Drain(dev, old(ops), i).1
        invariant flashConfig == old(flashConfig)
        invariant a[..] == Overlay(old(a[..]), at, LeStream(vs))
      {
        ghost var h := ops;
        WriteReg(REG_COMMAND, 0);
        var v := ReadReg(REG_DATA);
        assert ops == h + [Write(REG_COMMAND, 0)] + [Read(REG_DATA)] && v == dev(ops);
        StoreWord(a, at + 4 * i, v);
        OverlaySnoc(old(a[..]), at, LeStream(vs), LeBytes(v));
        assert LeStream(vs + [v]) == LeStream(vs) + LeBytes(v) by {
          assert (vs + [v])[..|vs|] == vs;
        }
        vs := vs + [v];
        i := i + 1;
      }
    }

    /** `xbox_nand_read_block`: the page goes to `buffer[..0x200]` and the spare area to
        `spare[..0x10]`, as the words the data register streamed, stored little-endian. */
    method ReadBlock(lba: bv32, buffer: array<bv8>, spare: array<bv8>) returns (r: bv32)
      requires buffer.Length >= PAGE_BYTES && spare.Length >= SPARE_BYTES && buffer != spare
      modifies this, buffer, spare
      ensures var p := ReadBlockSpec(dev, old(ops), lba);
        && r == p.rc && ops == p.ops && flashConfig == old(flashConfig)
        && (r == 0 ==> (&& buffer[..] == Overlay(old(buffer[..]), 0, LeStream(p.data))
                        && spare[..] == Overlay(old(spare[..]), 0, LeStream(p.spare))))
        && (r != 0 ==> buffer[..] == old(buffer[..]) && spare[..] == old(spare[..]))
    {
      ClearStatus();
      WriteReg(REG_ADDRESS, lba << 9);
      WriteReg(REG_COMMAND, 0x03);
      r := Settle();
      if r != 0 {
        return;
      }
      WriteReg(REG_ADDRESS, 0);
      ghost var data := DrainInto(buffer, 0, PAGE_WORDS);
      ghost var rest := DrainInto(spare, 0, SPARE_WORDS);
    }

    /** `xbox_nand_erase_block`. */
    method EraseBlock(lba: bv32) returns (r: bv32)
      modifies this
      ensures (r, ops) == EraseSpec(dev, old(ops), lba) && flashConfig == old(flashConfig)
    {
      ClearStatus();
      var config := ReadReg(REG_CONFIG);
      WriteReg(REG_CONFIG, config | 0x08);
      WriteReg(REG_ADDRESS, lba << 9);
      WriteReg(REG_COMMAND, 0xAA);
      WriteReg(REG_COMMAND, 0x55);
      WriteReg(REG_COMMAND, 0x05);
      r := Settle();
    }

    /** Sends the `k` words loaded from `a[at ..]`, each followed by 0x01 to the command register. */
    method FillFrom(a: array<bv8>, at: nat, k: nat)
      requires at + 4 * k <= a.Length
      modifies this
      ensures ops == Fill(old(ops), LeWords(a[at..at + 4 * k])) && flashConfig == old(flashConfig)
    {
      ghost var src := a[at..at + 4 * k];
      ghost var ws: seq<bv32> := [];
      var i := 0;
      assert src[..0] == [];
      while i < k
        invariant i <= k
        invariant ws == LeWords(src[..4 * i])
        invariant ops == Fill(old(ops), ws) && flashConfig == old(flashConfig)
      {
        var w := LeWord(a[at + 4 * i..at + 4 * i + 4]);
        assert a[at + 4 * i..at + 4 * i + 4] == src[4 * i..4 * i + 4];
        ghost var h := ops;
        WriteReg(REG_DATA, w);
        WriteReg(REG_COMMAND, 0x01);
        assert ops == h + [Write(REG_DATA, w)] + [Write(REG_COMMAND, 0x01)];
        LeWordsPrefix(src, i);
        FillSnoc(old(ops), ws, w);
        ws := ws + [w];
        i := i + 1;
      }
      assert src[..4 * k] == src;
    }

    /** Clears the status, resets the address and sends the page and spare words. */
    method SendPage(buffer: array<bv8>, spare: array<bv8>)
      requires buffer.Length >= PAGE_BYTES && spare.Length >= SPARE_BYTES
      modifies this
      ensures ops == SendWords(dev, old(ops), PageWords(buffer[..PAGE_BYTES], spare[..SPARE_BYTES]))
      ensures flashConfig == old(flashConfig)
    {
      ClearStatus();
      WriteReg(REG_ADDRESS, 0);
      ghost var start := ops;
      FillFrom(buffer, 0, PAGE_WORDS);
      FillFrom(spare, 0, SPARE_WORDS);
      assert buffer[0..PAGE_BYTES] == buffer[..PAGE_BYTES];
      assert spare[0..SPARE_BYTES] == spare[..SPARE_BYTES];
      FillConcat(start, LeWords(buffer[..PAGE_BYTES]), LeWords(spare[..SPARE_BYTES]));
    }

    /** Waits, gives the row address, waits, sends the program sequence and waits. */
    method ProgramPage(lba: bv32) returns (r: bv32)
      modifies this
      ensures (r, ops) == Program(dev, old(ops), lba) && flashConfig == old(flashConfig)
    {
      r := Settle();
      if r != 0 {
        return;
      }
      WriteReg(REG_ADDRESS, lba << 9);
      r := Settle();
      if r != 0 {
        return;
      }
      WriteReg(REG_COMMAND, 0x55);
      WriteReg(REG_COMMAND, 0xAA);
      WriteReg(REG_COMMAND, 0x04);
      r := Settle();
    }

    /** `xbox_nand_write_block`: erase first on an erase-block boundary, then send the page and
        spare words, and start programming at the page's row address. */
    method WriteBlock(lba: bv32, buffer: array<bv8>, spare: array<bv8>) returns (r: bv32)
      requires buffer.Length >= PAGE_BYTES && spare.Length >= SPARE_BYTES
      modifies this
      ensures (r, ops) == WriteBlockSpec(dev, old(ops), lba, PageWords(buffer[..PAGE_BYTES], spare[..SPARE_BYTES]))
      ensures flashConfig == old(flashConfig)
    {
      r := EraseFirstBlock(lba);
      if r != 0 {
        return;
      }
      SendPage(buffer, spare);
      r := ProgramPage(lba);
    }

    /** The erase that starts a write on an erase-block boundary; elsewhere nothing. */
    method EraseFirstBlock(lba: bv32) returns (r: bv32)
      modifies this
      ensures (r, ops) == EraseFirst(dev, old(ops), lba) && flashConfig == old(flashConfig)
    {
      if lba % 0x20 == 0 {
        r := EraseBlock(lba);
      } else {
        r := 0;
      }
    }
  }

  /** The words of a buffer's first `i + 1` words are those of its first `i`, and one more. */
  lemma LeWordsPrefix(src: seq<bv8>, i: nat)
    requires 4 * i + 4 <= |src|
    ensures LeWords(src[..4 * (i + 1)]) == LeWords(src[..4 * i]) + [LeWord(src[4 * i..4 * i + 4])]
  {
    assert src[..4 * (i + 1)] == src[..4 * i] + src[4 * i..4 * i + 4];
    LeWordsSnoc(src[..4 * i], src[4 * i..4 * i + 4]);
  }

  lemma FillSnoc(h: seq<Access>, ws: seq<bv32>, w: bv32)
    ensures Fill(h, ws + [w]) == Fill(h, ws) + [Write(REG_DATA, w)] + [Write(REG_COMMAND, 0x01)]
  {
    assert (ws + [w])[..|ws|] == ws;
  }

  /** Filling two runs of words one after the other is filling their concatenation. */
  lemma {:induction false} FillConcat(h: seq<Access>, a: seq<bv32>, b: seq<bv32>)
    ensures Fill(Fill(h, a), b) == Fill(h, a + b)
    decreases |b|
  {
    if b == [] {
      assert a + b == a;
    } else {
      var b' := b[..|b| - 1];
      FillConcat(h, a, b');
      assert (a + b)[..|a + b| - 1] == a + b';
    }
  }
}
