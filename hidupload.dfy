// The HID block uploader of the original command line tool (commandline/main.c):
// little-endian report fields, the rounding of the upload range to the
// device's pages, and the loop that sends one 128-byte block per feature
// report.  The USB device is a mock whose replies are fixed in advance and
// which records every request; sleeps are recorded as events.

module HidUpload {
  import opened Common
  import CmdlineHex

  /** sizeof of the report union: report id, three address bytes, 128 data bytes. */
  const REPORT_SIZE: nat := 132
  /** sizeof(deviceInfo_t): report id, two page-size bytes, four flash-size bytes. */
  const INFO_SIZE: nat := 7
  const BLOCK_SIZE: nat := 128
  /** deviceData_t.address holds three bytes. */
  const ADDRESS_BYTES: nat := 3
  const FIRSTWRITE_DELAY: nat := 500000
  const POSTWRITE_DELAY: nat := 8000
  const INFO_REPORT: byte := 1
  const DATA_REPORT: byte := 2
  /** The bytes from dataBuffer on that a block may read: the buffer itself,
      then whatever lies behind it (the end rounds up by at most 65534 and the
      last block reads 128 bytes). */
  const MEM_SPAN: nat := CmdlineHex.BUFFER_SIZE + 65536 + 128

  // ---------------------------------------------------------------------
  // Report fields

  /** A C int holding the low 32 bits of v in two's complement. */
  function Int32(v: int): (r: int)
    ensures -0x8000_0000 <= r < 0x8000_0000
    ensures (r - v) % 0x1_0000_0000 == 0
  {
    var w := v % 0x1_0000_0000;
    if w < 0x8000_0000 then w else w - 0x1_0000_0000
  }

  lemma Int32OfInt32Range(v: int)
    requires -0x8000_0000 <= v < 0x8000_0000
    ensures Int32(v) == v
  {
    if v < 0 {
      ModUnique(v, 0x1_0000_0000, -1, v + 0x1_0000_0000);
    } else {
      ModUnique(v, 0x1_0000_0000, 0, v);
    }
  }

  /** getUsbInt: n bytes from offset, least significant first.  The or-ing of
      the shifted bytes adds them, since their bit ranges are disjoint; the
      fourth byte's shift lands in the sign bit of the 32-bit int. */
  method GetUsbInt(buffer: array<byte>, offset: nat, n: nat) returns (value: int)
    requires offset + n <= buffer.Length && n <= 4
    ensures value == Int32(LE(buffer[offset..offset + n]))
  {
    var sum: nat := 0;
    var scale: nat := 1;
    var i := 0;
    while i < n
      invariant 0 <= i <= n
      invariant scale == Pow256(i)
      invariant sum == LE(buffer[offset..offset + i])
    {
      assert buffer[offset..offset + i + 1][..i] == buffer[offset..offset + i];
      sum := sum + buffer[offset + i] * scale;
      scale := scale * 256;
      i := i + 1;
    }
    value := Int32(sum);
  }

  /** setUsbInt: the n low bytes of value from offset, least significant
      first; `>>= 8` on an int is the floor division by 256. */
  method SetUsbInt(buffer: array<byte>, offset: nat, value: int, n: nat)
    requires offset + n <= buffer.Length
    modifies buffer
    ensures buffer[..] == old(buffer[..offset]) + LEBytes(value, n) + old(buffer[offset + n..])
  {
    var v := value;
    var i := 0;
    while i < n
      invariant 0 <= i <= n
      invariant buffer[..offset] == old(buffer[..offset])
      invariant buffer[offset + n..] == old(buffer[offset + n..])
      invariant buffer[offset..offset + i] + LEBytes(v, n - i) == LEBytes(value, n)
    {
      buffer[offset + i] := v % 256;
      assert buffer[offset..offset + i + 1] == buffer[offset..offset + i] + [v % 256];
      v := v / 256;
      i := i + 1;
    }
    assert buffer[..] == buffer[..offset] + buffer[offset..offset + n] + buffer[offset + n..];
  }

  /** Reading back what setUsbInt wrote gives the value modulo 256^n; with
      four bytes, the same 32-bit int. */
  lemma UsbIntRoundTrip(v: int, n: nat)
    ensures n <= 3 ==> LE(LEBytes(v, n)) == v % Pow256(n) && Int32(LE(LEBytes(v, n))) == v % Pow256(n)
    ensures n == 4 ==> Int32(LE(LEBytes(v, n))) == Int32(v)
  {
    LEOfLEBytes(v, n);
    if n <= 3 {
      assert Pow256(n) <= Pow256(3) == 0x100_0000 by {
        if n < 3 { assert Pow256(n) <= 0x1_0000; }
      }
      Int32OfInt32Range(v % Pow256(n));
    } else if n == 4 {
      assert Pow256(4) == 0x1_0000_0000;
      var w := v % 0x1_0000_0000;
      ModUnique(w, 0x1_0000_0000, 0, w);
    }
  }

  // ---------------------------------------------------------------------
  // Rounding the range to whole blocks

  /** The mask uploadData derives from the page size. */
  function Mask(pageSize: int): (m: int)
    ensures m >= 127
  {
    if pageSize < 128 then 127 else pageSize - 1
  }

  function RoundDown(x: nat, mask: nat): nat { ClearBits(x, mask) }

  function RoundUp(x: nat, mask: nat): nat { ClearBits(x + mask, mask) }

  /** The rounded start never exceeds the start and the rounded end is at
      least the end and at most mask beyond it. */
  lemma RoundingBounds(x: nat, mask: nat)
    ensures RoundDown(x, mask) <= x
    ensures x <= RoundUp(x, mask) <= x + mask
  {
    ClearBitsSplit(x, mask);
    ClearBitsSplit(x + mask, mask);
    AndBound(x + mask, mask);
  }

  /** When mask + 1 is a power of two, both rounded values are multiples of it,
      and each lies within one page of the value it rounds. */
  lemma RoundingAligned(x: nat, k: nat)
    ensures RoundDown(x, Pow2(k) - 1) % Pow2(k) == 0
    ensures RoundUp(x, Pow2(k) - 1) % Pow2(k) == 0
    ensures x - RoundDown(x, Pow2(k) - 1) < Pow2(k)
    ensures RoundUp(x, Pow2(k) - 1) - x < Pow2(k)
  {
    PageRemainder(x, k);
    PageRemainder(x + Pow2(k) - 1, k);
  }

  /** A page size below 128 or a power of two of at least 128 gives a mask
      one below a power of two, itself a multiple of the block size. */
  lemma MaskOfPageSize(pageSize: int, k: nat)
    requires pageSize < 128 || (k >= 7 && pageSize == Pow2(k))
    ensures pageSize < 128 ==> Mask(pageSize) + 1 == Pow2(7)
    ensures pageSize >= 128 ==> Mask(pageSize) + 1 == Pow2(k)
    ensures Pow2(if pageSize < 128 then 7 else k) % BLOCK_SIZE == 0
  {
    assert Pow2(7) == 128;
    if pageSize >= 128 {
      Pow2Split(7, k - 7);
      ModUnique(Pow2(k), 128, Pow2(k - 7), 0);
    }
  }

  // ---------------------------------------------------------------------
  // The device

  /** What the mock device answers: the results of usbOpenDevice and
      usbGetReport, the info report it returns, and the result of each
      usbSetReport in order (0 past the end of the sequence). */
  datatype HidSpec = HidSpec(openError: int, reportError: int, infoReply: seq<byte>, setErrors: seq<int>)

  function SetResult(d: HidSpec, k: nat): int
  {
    if k < |d.setErrors| then d.setErrors[k] else 0
  }

  datatype Event =
    | OpenDevice
    | GetFeature(reportId: byte)
    | SetFeature(report: seq<byte>)
    | Sleep(us: nat)
    | CloseDevice

  /** The union after usbGetReport copied the reply over its first bytes. */
  function Received(u: seq<byte>, reply: seq<byte>): (r: seq<byte>)
    requires |u| == REPORT_SIZE
    ensures |r| == REPORT_SIZE
  {
    var n := Min(|reply|, REPORT_SIZE);
    reply[..n] + u[n..]
  }

  class HidDevice {
    const spec: HidSpec
    var log: seq<Event>
    var sets: nat

    constructor (spec: HidSpec)
      ensures this.spec == spec && log == [] && sets == 0
    {
      this.spec := spec;
      log := [];
      sets := 0;
    }

    method Open() returns (err: int)
      modifies this
      ensures err == spec.openError
      ensures log == old(log) + [OpenDevice] && sets == old(sets)
    {
      err := spec.openError;
      log := log + [OpenDevice];
    }

    /** A feature report read into the union, at most its size. */
    method GetReport(reportId: byte, buffer: array<byte>) returns (err: int, len: int)
      requires buffer.Length == REPORT_SIZE
      modifies this, buffer
      ensures err == spec.reportError
      ensures err == 0 ==> len == Min(|spec.infoReply|, REPORT_SIZE) && buffer[..] == Received(old(buffer[..]), spec.infoReply)
      ensures err != 0 ==> buffer[..] == old(buffer[..])
      ensures log == old(log) + [GetFeature(reportId)] && sets == old(sets)
    {
      err := spec.reportError;
      len := REPORT_SIZE;
      log := log + [GetFeature(reportId)];
      if err == 0 {
        var u := Received(buffer[..], spec.infoReply);
        forall i | 0 <= i < REPORT_SIZE {
          buffer[i] := u[i];
        }
        len := Min(|spec.infoReply|, REPORT_SIZE);
      }
    }

    /** A feature report made of the first n bytes of the union. */
    method SetReport(buffer: array<byte>, n: nat) returns (err: int)
      requires n <= buffer.Length
      modifies this
      ensures err == SetResult(spec, old(sets))
      ensures log == old(log) + [SetFeature(buffer[..n])] && sets == old(sets) + 1
    {
      err := SetResult(spec, sets);
      log := log + [SetFeature(buffer[..n])];
      sets := sets + 1;
    }

    method Sleep(us: nat)
      modifies this
      ensures log == old(log) + [Event.Sleep(us)] && sets == old(sets)
    {
      log := log + [Event.Sleep(us)];
    }

    method Close()
      modifies this
      ensures log == old(log) + [CloseDevice] && sets == old(sets)
    {
      log := log + [CloseDevice];
    }
  }

  // ---------------------------------------------------------------------
  // What uploadData sends

  datatype Outcome = Outcome(err: int, events: seq<Event>)

  /** The blocks sent from address a below end, with the union u as it was and
      whether this is the first write; `last` is the union afterwards. */
  datatype Sent = Sent(err: int, events: seq<Event>, last: seq<byte>)

  /** The data report for the block at a. */
  function BlockReport(mem: seq<byte>, a: nat): (r: seq<byte>)
    requires a + BLOCK_SIZE <= |mem|
    ensures |r| == REPORT_SIZE
  {
    [DATA_REPORT] + LEBytes(a, ADDRESS_BYTES) + mem[a..a + BLOCK_SIZE]
  }

  function PageSize(u: seq<byte>): int
    requires |u| >= INFO_SIZE
  {
    LE(u[1..3])
  }

  function DeviceSize(u: seq<byte>): int
    requires |u| >= INFO_SIZE
  {
    Int32(LE(u[3..7]))
  }

  function Blocks(d: HidSpec, mem: seq<byte>, a: nat, end: int, k: nat, first: bool, u: seq<byte>): (r: Sent)
    requires end + BLOCK_SIZE <= |mem|
    ensures |u| == REPORT_SIZE ==> |r.last| == REPORT_SIZE
    decreases end - a
  {
    if a >= end then Sent(0, [], u)
    else
      var rep := BlockReport(mem, a);
      var err := SetResult(d, k);
      if err != 0 then Sent(err, [SetFeature(rep)], rep)
      else
        var rest := Blocks(d, mem, a + BLOCK_SIZE, end, k + 1, false, rep);
        Sent(rest.err, [SetFeature(rep)] + Pause(first) + rest.events, rest.last)
  }

  /** The waits after a block was accepted: the first one also covers the
      erase of the program memory. */
  function Pause(first: bool): seq<Event>
  {
    (if first then [Event.Sleep(FIRSTWRITE_DELAY)] else []) + [Event.Sleep(POSTWRITE_DELAY)]
  }

  /** One step of Blocks, for a union whose contents no longer matter. */
  lemma BlocksStep(d: HidSpec, mem: seq<byte>, a: nat, end: int, k: nat, first: bool, u: seq<byte>)
    requires end + BLOCK_SIZE <= |mem| && a < end
    ensures var r := Blocks(d, mem, a, end, k, first, u);
      var rep := BlockReport(mem, a);
      var rest := Blocks(d, mem, a + BLOCK_SIZE, end, k + 1, false, rep);
      if SetResult(d, k) != 0 then r == Sent(SetResult(d, k), [SetFeature(rep)], rep)
      else r.err == rest.err && r.last == rest.last && r.events == [SetFeature(rep)] + Pause(first) + rest.events
  {
  }

  /** After the blocks (or none): the leave-boot-loader report made of the
      union's info bytes, whose result is ignored, then the device is closed. */
  function Finish(leave: bool, u: seq<byte>): seq<Event>
    requires |u| >= INFO_SIZE
  {
    (if leave then [SetFeature([INFO_REPORT] + u[1..INFO_SIZE])] else []) + [CloseDevice]
  }

  /** The part of uploadData that runs when there is data: the info report,
      its checks, and the blocks of the rounded range.  `last` is the union
      afterwards. */
  function Transfer(d: HidSpec, mem: seq<byte>, startAddr: nat, endAddr: int, junk: seq<byte>, k: nat): (t: Sent)
    requires startAddr < endAddr <= CmdlineHex.BUFFER_SIZE
    requires |mem| == MEM_SPAN && |junk| == REPORT_SIZE
    ensures |t.last| == REPORT_SIZE
  {
    var info := ReadInfo(d, junk, endAddr);
    if info.err != 0 then Sent(info.err, [GetFeature(INFO_REPORT)], info.union)
    else
      var sent := RangeSent(d, mem, startAddr, endAddr, info.union, k);
      Sent(sent.err, [GetFeature(INFO_REPORT)] + sent.events, sent.last)
  }

  datatype Info = Info(err: int, union: seq<byte>)

  /** The info request and its checks: the request itself may fail, the
      reply must fill deviceInfo_t, and the data must fit the flash. */
  function ReadInfo(d: HidSpec, junk: seq<byte>, endAddr: int): (i: Info)
    requires |junk| == REPORT_SIZE
    ensures |i.union| == REPORT_SIZE
  {
    if d.reportError != 0 then Info(d.reportError, junk)
    else
      var u := Received(junk, d.infoReply);
      if Min(|d.infoReply|, REPORT_SIZE) < INFO_SIZE then Info(-1, u)
      else if endAddr > DeviceSize(u) then Info(-1, u)
      else Info(0, u)
  }

  /** The blocks of the range rounded to the page size the info report u gives. */
  function RangeSent(d: HidSpec, mem: seq<byte>, startAddr: nat, endAddr: nat, u: seq<byte>, k: nat): (t: Sent)
    requires endAddr <= CmdlineHex.BUFFER_SIZE
    requires |mem| == MEM_SPAN && |u| == REPORT_SIZE
    ensures |t.last| == REPORT_SIZE
  {
    var mask := Mask(PageSize(u));
    Spans(u, mask, endAddr);
    Blocks(d, mem, RoundDown(startAddr, mask), RoundUp(endAddr, mask), k, true, u)
  }

  /** uploadData on device d with the memory from dataBuffer on; junk is the
      union's uninitialised contents and k the number of set requests the
      device has already answered.  A failed open leaves nothing to close. */
  function Upload(d: HidSpec, mem: seq<byte>, startAddr: int, endAddr: int, leave: bool, junk: seq<byte>, k: nat): Outcome
    requires 0 <= startAddr && endAddr <= CmdlineHex.BUFFER_SIZE
    requires |mem| == MEM_SPAN && |junk| == REPORT_SIZE
  {
    if d.openError != 0 then Outcome(d.openError, [OpenDevice])
    else if endAddr <= startAddr then Outcome(0, [OpenDevice] + Finish(leave, junk))
    else
      var t := Transfer(d, mem, startAddr, endAddr, junk, k);
      if t.err != 0 then Outcome(t.err, [OpenDevice] + t.events + [CloseDevice])
      else Outcome(0, [OpenDevice] + t.events + Finish(leave, t.last))
  }

  /** The rounded end leaves room for a block inside the memory span. */
  lemma Spans(u: seq<byte>, mask: int, endAddr: nat)
    requires |u| >= INFO_SIZE && mask == Mask(PageSize(u)) && endAddr <= CmdlineHex.BUFFER_SIZE
    ensures RoundUp(endAddr, mask) + BLOCK_SIZE <= MEM_SPAN
  {
    LEBound(u[1..3]);
    RoundingBounds(endAddr, mask);
  }

  // ---------------------------------------------------------------------
  // The uploader

  /** memcpy of the block at a, its address and the report id into the union. */
  method FillBlock(buffer: array<byte>, mem: seq<byte>, a: nat)
    requires buffer.Length == REPORT_SIZE && a + BLOCK_SIZE <= |mem|
    modifies buffer
    ensures buffer[..] == BlockReport(mem, a)
  {
    buffer[0] := DATA_REPORT;
    forall i | 4 <= i < REPORT_SIZE {
      buffer[i] := mem[a + i - 4];
    }
    assert buffer[..1] == [DATA_REPORT];
    assert buffer[4..] == mem[a..a + BLOCK_SIZE];
    SetUsbInt(buffer, 1, a, ADDRESS_BYTES);
  }

  /** One pass of the loop of uploadData: the block at a is sent and, when the
      device accepted it, the uploader waits. */
  method SendBlock(dev: HidDevice, buffer: array<byte>, mem: seq<byte>, a: nat, first: bool) returns (err: int)
    requires buffer.Length == REPORT_SIZE && a + BLOCK_SIZE <= |mem|
    modifies dev, buffer
    ensures buffer[..] == BlockReport(mem, a)
    ensures err == SetResult(dev.spec, old(dev.sets)) && dev.sets == old(dev.sets) + 1
    ensures dev.log == old(dev.log) + [SetFeature(BlockReport(mem, a))] + (if err == 0 then Pause(first) else [])
  {
    FillBlock(buffer, mem, a);
    err := dev.SetReport(buffer, REPORT_SIZE);
    assert buffer[..REPORT_SIZE] == buffer[..];
    if err == 0 {
      if first {
        dev.Sleep(FIRSTWRITE_DELAY);
      }
      dev.Sleep(POSTWRITE_DELAY);
    }
  }

  lemma LogRegroup(before: seq<Event>, step: seq<Event>, rest: seq<Event>, all: seq<Event>)
    requires all == step + rest
    ensures (before + step) + rest == before + all
  {
  }

  lemma Regroup(a: seq<Event>, b: seq<Event>, c: seq<Event>, d: seq<Event>)
    ensures ((a + b) + c) + d == a + ((b + c) + d)
  {
  }

  /** A block the device accepted: what is left of the blocks after it
      completes the same log, error and final union. */
  lemma BlocksAdvance(d: HidSpec, mem: seq<byte>, a: nat, e: int, k: nat, first: bool, u: seq<byte>,
                      before: seq<Event>, whole: seq<Event>)
    requires e + BLOCK_SIZE <= |mem| && a < e && SetResult(d, k) == 0
    requires before + Blocks(d, mem, a, e, k, first, u).events == whole
    ensures var r := Blocks(d, mem, a, e, k, first, u);
      var rep := BlockReport(mem, a);
      var rest := Blocks(d, mem, a + BLOCK_SIZE, e, k + 1, false, rep);
      rest.err == r.err && rest.last == r.last &&
      before + [SetFeature(rep)] + Pause(first) + rest.events == whole
  {
    BlocksStep(d, mem, a, e, k, first, u);
    var rep := BlockReport(mem, a);
    var rest := Blocks(d, mem, a + BLOCK_SIZE, e, k + 1, false, rep);
    LogRegroup(before, [SetFeature(rep)] + Pause(first), rest.events, Blocks(d, mem, a, e, k, first, u).events);
  }

  /** The while loop of uploadData: one report per block from s below e. */
  method SendBlocks(dev: HidDevice, buffer: array<byte>, mem: seq<byte>, s: nat, e: int) returns (err: int)
    requires buffer.Length == REPORT_SIZE && e + BLOCK_SIZE <= |mem|
    modifies dev, buffer
    ensures var sent := Blocks(dev.spec, mem, s, e, old(dev.sets), true, old(buffer[..]));
      err == sent.err && dev.log == old(dev.log) + sent.events && buffer[..] == sent.last
  {
    ghost var u := buffer[..];
    ghost var target := Blocks(dev.spec, mem, s, e, dev.sets, true, u);
    ghost var whole := dev.log + target.events;
    var a := s;
    var first := true;
    err := 0;
    while a < e
      invariant a >= s && err == 0 && buffer[..] == u
      invariant var r := Blocks(dev.spec, mem, a, e, dev.sets, first, u);
        r.err == target.err && r.last == target.last && dev.log + r.events == whole
      decreases e - a
    {
      ghost var before := dev.log;
      ghost var k := dev.sets;
      BlocksStep(dev.spec, mem, a, e, k, first, u);
      if SetResult(dev.spec, k) == 0 {
        BlocksAdvance(dev.spec, mem, a, e, k, first, u, before, whole);
      }
      err := SendBlock(dev, buffer, mem, a, first);
      u := BlockReport(mem, a);
      if err != 0 {
        return;
      }
      a := a + BLOCK_SIZE;
      first := false;
    }
  }

  /** The info request and its checks, then the blocks. */
  method TransferData(dev: HidDevice, buffer: array<byte>, mem: seq<byte>, startAddr: nat, endAddr: int) returns (err: int)
    requires startAddr < endAddr <= CmdlineHex.BUFFER_SIZE
    requires |mem| == MEM_SPAN && buffer.Length == REPORT_SIZE
    modifies dev, buffer
    ensures var t := Transfer(dev.spec, mem, startAddr, endAddr, old(buffer[..]), old(dev.sets));
      err == t.err && dev.log == old(dev.log) + t.events && buffer[..] == t.last
  {
    var pageSize;
    err, pageSize := CheckInfo(dev, buffer, endAddr);
    if err != 0 {
      return;
    }
    ghost var sent := RangeSent(dev.spec, mem, startAddr, endAddr, buffer[..], dev.sets);
    err := SendRange(dev, buffer, mem, startAddr, endAddr, pageSize);
    LogRegroup(old(dev.log), [GetFeature(INFO_REPORT)], sent.events, [GetFeature(INFO_REPORT)] + sent.events);
  }

  /** usbGetReport of the info report, its length check, the page size and
      the device size it holds, and the check that the data fits. */
  method CheckInfo(dev: HidDevice, buffer: array<byte>, endAddr: int) returns (err: int, pageSize: int)
    requires buffer.Length == REPORT_SIZE
    modifies dev, buffer
    ensures var i := ReadInfo(dev.spec, old(buffer[..]), endAddr);
      err == i.err && buffer[..] == i.union && (err == 0 ==> pageSize == PageSize(buffer[..]))
    ensures dev.log == old(dev.log) + [GetFeature(INFO_REPORT)] && dev.sets == old(dev.sets)
  {
    var len;
    pageSize := 0;
    err, len := dev.GetReport(INFO_REPORT, buffer);
    if err != 0 {
      return;
    }
    if len < INFO_SIZE {
      err := -1;
      return;
    }
    pageSize := GetUsbInt(buffer, 1, 2);
    var deviceSize := GetUsbInt(buffer, 3, 4);
    LEBound(buffer[1..3]);
    Int32OfInt32Range(LE(buffer[1..3]));
    if endAddr > deviceSize {
      err := -1;
    }
  }

  /** The rounding of uploadData and its loop, for the page size read before. */
  method SendRange(dev: HidDevice, buffer: array<byte>, mem: seq<byte>, startAddr: nat, endAddr: nat, pageSize: int) returns (err: int)
    requires endAddr <= CmdlineHex.BUFFER_SIZE && |mem| == MEM_SPAN
    requires buffer.Length == REPORT_SIZE && pageSize == PageSize(buffer[..])
    modifies dev, buffer
    ensures var t := RangeSent(dev.spec, mem, startAddr, endAddr, old(buffer[..]), old(dev.sets));
      err == t.err && dev.log == old(dev.log) + t.events && buffer[..] == t.last
  {
    var mask := if pageSize < 128 then 127 else pageSize - 1;
    var s := ClearBits(startAddr, mask);
    var e := ClearBits(endAddr + mask, mask);
    Spans(buffer[..], mask, endAddr);
    err := SendBlocks(dev, buffer, mem, s, e);
  }

  /** The end of uploadData: leave the boot loader if asked, ignoring the
      result, and close the device. */
  method LeaveAndClose(dev: HidDevice, buffer: array<byte>, leave: bool)
    requires buffer.Length == REPORT_SIZE
    modifies dev, buffer
    ensures dev.log == old(dev.log) + Finish(leave, old(buffer[..]))
  {
    if leave {
      ghost var u := buffer[..];
      buffer[0] := INFO_REPORT;
      assert buffer[..INFO_SIZE] == [INFO_REPORT] + u[1..INFO_SIZE];
      var _ := dev.SetReport(buffer, INFO_SIZE);
    }
    dev.Close();
  }

  /** uploadData(dataBuffer, startAddr, endAddr) with leaveBootLoader = leave. */
  method UploadData(dev: HidDevice, mem: seq<byte>, startAddr: int, endAddr: int, leave: bool, junk: seq<byte>) returns (err: int)
    requires 0 <= startAddr && endAddr <= CmdlineHex.BUFFER_SIZE
    requires |mem| == MEM_SPAN && |junk| == REPORT_SIZE
    modifies dev
    ensures var o := Upload(dev.spec, mem, startAddr, endAddr, leave, junk, old(dev.sets));
      err == o.err && dev.log == old(dev.log) + o.events
  {
    var buffer := new byte[REPORT_SIZE](i requires 0 <= i < REPORT_SIZE => junk[i]);
    assert buffer[..] == junk;
    err := dev.Open();
    if err != 0 {
      return;
    }
    ghost var log0 := old(dev.log);
    ghost var done: seq<Event> := [];
    if endAddr > startAddr {
      ghost var t := Transfer(dev.spec, mem, startAddr, endAddr, junk, dev.sets);
      err := TransferData(dev, buffer, mem, startAddr, endAddr);
      done := t.events;
      if err != 0 {
        dev.Close();
        Regroup(log0, [OpenDevice], done, [CloseDevice]);
        return;
      }
    }
    ghost var u := buffer[..];
    LeaveAndClose(dev, buffer, leave);
    Regroup(log0, [OpenDevice], done, Finish(leave, u));
  }

  // ---------------------------------------------------------------------
  // What the device receives

  /** The number of blocks from a below end, one per 128 bytes. */
  function BlockCount(a: int, end: int): nat
    decreases end - a
  {
    if a >= end then 0 else 1 + BlockCount(a + BLOCK_SIZE, end)
  }

  /** The loop runs ceil((end - a) / 128) times, exactly (end - a) / 128 when
      the range is a whole number of blocks. */
  lemma {:induction false} BlockCountIs(a: int, end: int)
    ensures a >= end ==> BlockCount(a, end) == 0
    ensures a < end ==> BlockCount(a, end) == CeilDiv(end - a, BLOCK_SIZE)
    ensures a < end && (end - a) % BLOCK_SIZE == 0 ==> BlockCount(a, end) == (end - a) / BLOCK_SIZE
    decreases end - a
  {
    if a < end {
      BlockCountIs(a + BLOCK_SIZE, end);
      var c := BlockCount(a, end);
      assert c * BLOCK_SIZE >= end - a && (c - 1) * BLOCK_SIZE < end - a;
      CeilDivUnique(end - a, BLOCK_SIZE, c);
      if (end - a) % BLOCK_SIZE == 0 {
        CeilDivUnique(end - a, BLOCK_SIZE, (end - a) / BLOCK_SIZE);
      }
    }
  }

  /** Block j of the loop lies in the range exactly when j is below the count. */
  lemma {:induction false} BlockIndex(a: int, end: int, j: nat)
    ensures j < BlockCount(a, end) <==> a + BLOCK_SIZE * j < end
    decreases j
  {
    if j > 0 && a < end {
      BlockIndex(a + BLOCK_SIZE, end, j - 1);
    }
  }

  /** The data reports among the requests, in order. */
  function DataReports(evs: seq<Event>): (rs: seq<seq<byte>>)
    ensures |rs| <= |evs|
  {
    if |evs| == 0 then []
    else (if IsData(evs[0]) then [evs[0].report] else []) + DataReports(evs[1..])
  }

  predicate IsData(e: Event)
  {
    e.SetFeature? && |e.report| > 0 && e.report[0] == DATA_REPORT
  }

  lemma {:induction false} NoDataReports(evs: seq<Event>)
    requires forall i :: 0 <= i < |evs| ==> !IsData(evs[i])
    ensures DataReports(evs) == []
    decreases |evs|
  {
    if |evs| > 0 {
      NoDataReports(evs[1..]);
    }
  }

  lemma {:induction false} DataReportsConcat(x: seq<Event>, y: seq<Event>)
    ensures DataReports(x + y) == DataReports(x) + DataReports(y)
    decreases |x|
  {
    if |x| > 0 {
      assert (x + y)[0] == x[0];
      assert (x + y)[1..] == x[1..] + y;
      DataReportsConcat(x[1..], y);
      var h := if IsData(x[0]) then [x[0].report] else [];
      assert DataReports(x + y) == h + (DataReports(x[1..]) + DataReports(y));
      assert h + (DataReports(x[1..]) + DataReports(y)) == (h + DataReports(x[1..])) + DataReports(y);
    } else {
      assert x + y == y;
    }
  }

  /** Every set request from the k-th on, for n requests, is accepted. */
  predicate Accepts(d: HidSpec, k: nat, n: nat)
  {
    forall i :: k <= i < k + n ==> SetResult(d, i) == 0
  }

  /** The reports of one accepted block: its data report and the waits. */
  lemma AcceptedStep(rep: seq<byte>, first: bool, rest: seq<Event>)
    requires |rep| > 0 && rep[0] == DATA_REPORT
    ensures DataReports([SetFeature(rep)] + Pause(first) + rest) == [rep] + DataReports(rest)
  {
    DataReportsConcat([SetFeature(rep)] + Pause(first), rest);
    DataReportsConcat([SetFeature(rep)], Pause(first));
    assert DataReports([SetFeature(rep)]) == [rep] by {
      assert [SetFeature(rep)][1..] == [];
    }
    NoDataReports(Pause(first));
  }

  /** When the device accepts every block, the loop sends one data report per
      block, the j-th for the block at a + 128·j, and succeeds. */
  lemma {:induction false} BlocksAccepted(d: HidSpec, mem: seq<byte>, a: nat, end: int, k: nat, first: bool, u: seq<byte>)
    requires end + BLOCK_SIZE <= |mem| && Accepts(d, k, BlockCount(a, end))
    ensures var r := Blocks(d, mem, a, end, k, first, u);
      var rs := DataReports(r.events);
      r.err == 0 && |rs| == BlockCount(a, end) &&
      forall j :: 0 <= j < |rs| ==> a + BLOCK_SIZE * j < end && rs[j] == BlockReport(mem, a + BLOCK_SIZE * j)
    decreases end - a
  {
    if a < end {
      var rep := BlockReport(mem, a);
      var rest := Blocks(d, mem, a + BLOCK_SIZE, end, k + 1, false, rep);
      BlocksAccepted(d, mem, a + BLOCK_SIZE, end, k + 1, false, rep);
      BlocksStep(d, mem, a, end, k, first, u);
      AcceptedStep(rep, first, rest.events);
      ReportsShift(mem, a, end, DataReports(rest.events));
    }
  }

  /** Putting the block at a in front of the reports of the blocks from a + 128. */
  lemma ReportsShift(mem: seq<byte>, a: nat, end: int, tail: seq<seq<byte>>)
    requires a < end && end + BLOCK_SIZE <= |mem|
    requires forall j :: 0 <= j < |tail| ==> a + BLOCK_SIZE + BLOCK_SIZE * j < end && tail[j] == BlockReport(mem, a + BLOCK_SIZE + BLOCK_SIZE * j)
    ensures var rs := [BlockReport(mem, a)] + tail;
      forall j :: 0 <= j < |rs| ==> a + BLOCK_SIZE * j < end && rs[j] == BlockReport(mem, a + BLOCK_SIZE * j)
  {
    var rs := [BlockReport(mem, a)] + tail;
    forall j | 0 <= j < |rs|
      ensures a + BLOCK_SIZE * j < end && rs[j] == BlockReport(mem, a + BLOCK_SIZE * j)
    {
      if j > 0 {
        assert a + BLOCK_SIZE * j == a + BLOCK_SIZE + BLOCK_SIZE * (j - 1);
        assert rs[j] == tail[j - 1];
      }
    }
  }

  /** A refused block ends the loop: no block after it is sent, and its
      error is the result. */
  lemma {:induction false} BlocksStopAtError(d: HidSpec, mem: seq<byte>, a: nat, end: int, k: nat, first: bool, u: seq<byte>, j: nat)
    requires end + BLOCK_SIZE <= |mem| && j < BlockCount(a, end)
    requires Accepts(d, k, j) && SetResult(d, k + j) != 0
    ensures var r := Blocks(d, mem, a, end, k, first, u);
      r.err == SetResult(d, k + j) && |DataReports(r.events)| == j + 1
    decreases j
  {
    var rep := BlockReport(mem, a);
    BlocksStep(d, mem, a, end, k, first, u);
    if j == 0 {
      assert SetResult(d, k) != 0;
      assert [SetFeature(rep)][1..] == [];
    } else {
      var rest := Blocks(d, mem, a + BLOCK_SIZE, end, k + 1, false, rep);
      BlocksStopAtError(d, mem, a + BLOCK_SIZE, end, k + 1, false, rep, j - 1);
      AcceptedStep(rep, first, rest.events);
    }
  }

  /** The request that was refused is the last one: the uploader does not
      wait after it. */
  lemma {:induction false} RefusedBlockIsLast(d: HidSpec, mem: seq<byte>, a: nat, end: int, k: nat, first: bool, u: seq<byte>, j: nat)
    requires end + BLOCK_SIZE <= |mem| && a + BLOCK_SIZE * j < end
    requires Accepts(d, k, j) && SetResult(d, k + j) != 0
    ensures var evs := Blocks(d, mem, a, end, k, first, u).events;
      |evs| > 0 && evs[|evs| - 1] == SetFeature(BlockReport(mem, a + BLOCK_SIZE * j))
    decreases j
  {
    var rep := BlockReport(mem, a);
    var evs := Blocks(d, mem, a, end, k, first, u).events;
    BlocksStep(d, mem, a, end, k, first, u);
    if j == 0 {
      assert evs == [SetFeature(rep)];
    } else {
      var rest := Blocks(d, mem, a + BLOCK_SIZE, end, k + 1, false, rep);
      var b := a + BLOCK_SIZE * j;
      assert b == (a + BLOCK_SIZE) + BLOCK_SIZE * (j - 1);
      RefusedBlockIsLast(d, mem, a + BLOCK_SIZE, end, k + 1, false, rep, j - 1);
      LastOfLog([SetFeature(rep)] + Pause(first), rest.events, evs, SetFeature(BlockReport(mem, b)));
    }
  }

  lemma LastOfLog(x: seq<Event>, y: seq<Event>, all: seq<Event>, last: Event)
    requires all == x + y && |y| > 0 && y[|y| - 1] == last
    ensures |all| > 0 && all[|all| - 1] == last
  {
  }

  /** The layout of a data report: id 2, the address in three bytes (the
      address modulo 2^24), then the 128 bytes of the block. */
  lemma BlockReportLayout(mem: seq<byte>, a: nat)
    requires a + BLOCK_SIZE <= |mem|
    ensures var r := BlockReport(mem, a);
      r[0] == DATA_REPORT && LE(r[1..4]) == a % Pow256(3) && r[4..] == mem[a..a + BLOCK_SIZE]
    ensures a < Pow256(3) ==> LE(BlockReport(mem, a)[1..4]) == a
  {
    var r := BlockReport(mem, a);
    assert r[1..4] == LEBytes(a, ADDRESS_BYTES);
    UsbIntRoundTrip(a, ADDRESS_BYTES);
    if a < Pow256(3) {
      ModUnique(a, Pow256(3), 0, a);
    }
  }

  /** A too short info report, or data beyond the device's flash, fails the
      upload with -1 before any block: the only requests are the open, the
      info request and the close. */
  lemma InfoRejected(d: HidSpec, mem: seq<byte>, startAddr: int, endAddr: int, leave: bool, junk: seq<byte>, k: nat)
    requires 0 <= startAddr < endAddr <= CmdlineHex.BUFFER_SIZE
    requires |mem| == MEM_SPAN && |junk| == REPORT_SIZE
    requires d.openError == 0 && d.reportError == 0
    requires Min(|d.infoReply|, REPORT_SIZE) < INFO_SIZE || endAddr > DeviceSize(Received(junk, d.infoReply))
    ensures Upload(d, mem, startAddr, endAddr, leave, junk, k) == Outcome(-1, [OpenDevice, GetFeature(INFO_REPORT), CloseDevice])
    ensures DataReports(Upload(d, mem, startAddr, endAddr, leave, junk, k).events) == []
  {
    NoDataReports([OpenDevice, GetFeature(INFO_REPORT), CloseDevice]);
  }

  /** A rounded range over pages whose size is below 128 or a power of two
      is a whole number of blocks, starting on a block boundary. */
  lemma AlignedBlocks(startAddr: nat, endAddr: nat, pageSize: int, k: nat)
    requires startAddr < endAddr
    requires pageSize < 128 || (k >= 7 && pageSize == Pow2(k))
    ensures var mask := Mask(pageSize);
      var s, e := RoundDown(startAddr, mask), RoundUp(endAddr, mask);
      s % BLOCK_SIZE == 0 && s < e && BlockCount(s, e) == (e - s) / BLOCK_SIZE
  {
    var kk := if pageSize < 128 then 7 else k;
    MaskOfPageSize(pageSize, k);
    var mask := Mask(pageSize);
    assert mask == Pow2(kk) - 1;
    var s, e := RoundDown(startAddr, mask), RoundUp(endAddr, mask);
    RoundingAligned(startAddr, kk);
    RoundingAligned(endAddr, kk);
    RoundingBounds(startAddr, mask);
    RoundingBounds(endAddr, mask);
    MultipleOfBlock(s, Pow2(kk));
    MultipleOfBlock(e, Pow2(kk));
    ModUnique(e - s, BLOCK_SIZE, e / BLOCK_SIZE - s / BLOCK_SIZE, 0);
    BlockCountIs(s, e);
  }

  lemma MultipleOfBlock(x: nat, p: nat)
    requires p > 0 && x % p == 0 && p % BLOCK_SIZE == 0
    ensures x % BLOCK_SIZE == 0
  {
    var q, r := x / p, p / BLOCK_SIZE;
    assert x == (BLOCK_SIZE * r) * q;
    assert x == BLOCK_SIZE * (r * q);
    ModUnique(x, BLOCK_SIZE, r * q, 0);
  }

  /** One of the reports rs carries the byte of mem at addr. */
  predicate CarriedBy(rs: seq<seq<byte>>, addr: int, mem: seq<byte>)
  {
    exists j :: 0 <= j < |rs| && Carries(rs[j], addr, mem)
  }

  /** Data report r carries the byte of mem at addr. */
  predicate Carries(r: seq<byte>, addr: int, mem: seq<byte>)
  {
    |r| == REPORT_SIZE && 0 <= addr < |mem| &&
    LE(r[1..4]) <= addr < LE(r[1..4]) + BLOCK_SIZE && r[4 + addr - LE(r[1..4])] == mem[addr]
  }

  /** When every request succeeds, the upload succeeds, its data reports are
      the blocks of the rounded range in ascending order, and every byte of
      [startAddr, endAddr) travels in one of them at its own address. */
  lemma UploadSends(d: HidSpec, mem: seq<byte>, startAddr: int, endAddr: int, leave: bool, junk: seq<byte>, k: nat)
    requires 0 <= startAddr < endAddr <= CmdlineHex.BUFFER_SIZE
    requires |mem| == MEM_SPAN && |junk| == REPORT_SIZE
    requires d.openError == 0 && d.reportError == 0 && Min(|d.infoReply|, REPORT_SIZE) >= INFO_SIZE
    requires endAddr <= DeviceSize(Received(junk, d.infoReply))
    requires forall i :: 0 <= i < |d.setErrors| ==> d.setErrors[i] == 0
    ensures var o := Upload(d, mem, startAddr, endAddr, leave, junk, k);
      var mask := Mask(PageSize(Received(junk, d.infoReply)));
      var s, e := RoundDown(startAddr, mask), RoundUp(endAddr, mask);
      var rs := DataReports(o.events);
      o.err == 0 && |rs| == BlockCount(s, e) && e + BLOCK_SIZE <= |mem| &&
      (forall j :: 0 <= j < |rs| ==> s + BLOCK_SIZE * j < e && rs[j] == BlockReport(mem, s + BLOCK_SIZE * j)) &&
      (forall addr :: startAddr <= addr < endAddr ==> CarriedBy(rs, addr, mem))
  {
    var u := Received(junk, d.infoReply);
    var mask := Mask(PageSize(u));
    var s, e := RoundDown(startAddr, mask), RoundUp(endAddr, mask);
    Spans(u, mask, endAddr);
    RoundingBounds(startAddr, mask);
    RoundingBounds(endAddr, mask);
    assert Accepts(d, k, BlockCount(s, e));
    BlocksAccepted(d, mem, s, e, k, true, u);
    var sent := Blocks(d, mem, s, e, k, true, u);
    var t := Transfer(d, mem, startAddr, endAddr, junk, k);
    assert t == Sent(sent.err, [GetFeature(INFO_REPORT)] + sent.events, sent.last);
    var o := Upload(d, mem, startAddr, endAddr, leave, junk, k);
    assert o.events == [OpenDevice, GetFeature(INFO_REPORT)] + sent.events + Finish(leave, t.last);
    UploadReports([OpenDevice, GetFeature(INFO_REPORT)], sent.events, leave, t.last);
    BlocksCover(mem, s, e, DataReports(sent.events), startAddr, endAddr);
  }

  /** The blocks from s below e carry every byte of a range inside [s, e). */
  lemma BlocksCover(mem: seq<byte>, s: nat, e: int, rs: seq<seq<byte>>, startAddr: int, endAddr: int)
    requires s <= startAddr && endAddr <= e && e + BLOCK_SIZE <= |mem| <= MEM_SPAN
    requires |rs| == BlockCount(s, e)
    requires forall j :: 0 <= j < |rs| ==> s + BLOCK_SIZE * j < e && rs[j] == BlockReport(mem, s + BLOCK_SIZE * j)
    ensures forall addr :: startAddr <= addr < endAddr ==> CarriedBy(rs, addr, mem)
  {
    assert Pow256(3) == 0x100_0000;
    forall addr | startAddr <= addr < endAddr
      ensures CarriedBy(rs, addr, mem)
    {
      var j := (addr - s) / BLOCK_SIZE;
      BlockIndex(s, e, j);
      BlockCarries(mem, s + BLOCK_SIZE * j, addr);
    }
  }

  lemma BlockCarries(mem: seq<byte>, b: nat, addr: int)
    requires b + BLOCK_SIZE <= |mem| && b < Pow256(3) && b <= addr < b + BLOCK_SIZE
    ensures Carries(BlockReport(mem, b), addr, mem)
  {
    BlockReportLayout(mem, b);
    var r := BlockReport(mem, b);
    assert r[4 + addr - b] == r[4..][addr - b];
  }

  /** Around the blocks, neither the open and info requests nor the leave
      report are data reports. */
  lemma UploadReports(pre: seq<Event>, sent: seq<Event>, leave: bool, u: seq<byte>)
    requires pre == [OpenDevice, GetFeature(INFO_REPORT)] && |u| >= INFO_SIZE
    ensures DataReports(pre + sent + Finish(leave, u)) == DataReports(sent)
  {
    DataReportsConcat(pre + sent, Finish(leave, u));
    DataReportsConcat(pre, sent);
    NoDataReports(pre);
    NoDataReports(Finish(leave, u));
  }
}
