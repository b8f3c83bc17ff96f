// The uploader of the mnflash tool (mnflash/lib/uploader.c): reading the
// bootloader's info reply, erasing the flash and waiting for it, writing the
// firmware blob page by page (each page padded with 0xFF), writing one extra
// blank page below the bootloader when the firmware does not reach it, and
// starting the application.  The USB device is a recording mock: its mode,
// its info reply and the results of its write requests are fixed inputs, and
// every request and every sleep becomes an event in its log.

module MnflashUploader {
  import opened Common
  import LibSession
  import FirmwareBlob

  /** `bootloader_requests` (mnflash/uploader.h). */
  const BOOTLOADER_INFO: byte := 0
  const BOOTLOADER_WRITE_PAGE: byte := 1
  const BOOTLOADER_ERASE: byte := 2
  const BOOTLOADER_EXECUTE: byte := 3
  /** The size of the buffer the info reply is read into. */
  const DEV_BUF_LEN: nat := 8
  /** The value of erased flash, and of every byte of a page past the firmware's end. */
  const BLANK: byte := 0xFF
  /** The range of the `uint16_t page_now` counter. */
  const UINT16_RANGE: nat := 0x1_0000

  /** `dev->mode`. */
  datatype Mode = ModeNone | ModeNormal | ModeProgramming

  /**
   * What the device sees.  A write carries the fields in the order they go
   * on the wire (request, wValue, wIndex, data): the tool's write helpers
   * take the index before the value and swap them back for libusb.  A
   * request without data (`write_once`) is a write of no bytes.
   */
  datatype Event =
    | Read(request: byte, value: int, index: int, length: nat)
    | Write(request: byte, value: int, index: int, data: seq<byte>)
    | Sleep(us: int)

  /** A run of 0xFF bytes. */
  function Blank(n: nat): (r: seq<byte>)
    ensures |r| == n && forall i :: 0 <= i < n ==> r[i] == BLANK
  {
    seq(n, _ => BLANK)
  }

  /** The reply bytes as they stand in the 8-byte buffer: the read helper
      zeroes the buffer before every attempt, so bytes not received are 0. */
  function Received(reply: seq<byte>): (buffer: seq<byte>)
    requires |reply| <= DEV_BUF_LEN
    ensures |buffer| == DEV_BUF_LEN
    ensures forall i :: 0 <= i < DEV_BUF_LEN ==> buffer[i] == if i < |reply| then reply[i] else 0
  {
    reply + seq(DEV_BUF_LEN - |reply|, _ => 0)
  }

  /** An open `mnflash_usb_t`: its mode, its answers, and what it has been asked. */
  class MnUsb {
    const mode: Mode
    /** What a read of the info request returns: a negative error or the reply's length. */
    const readLen: int
    const reply: seq<byte>
    /** The result of the k-th write request (0 past the end). */
    const results: seq<int>
    var log: seq<Event>
    var calls: nat

    ghost predicate Valid()
    {
      |reply| <= DEV_BUF_LEN && (readLen >= 0 ==> readLen == |reply|)
    }

    constructor (mode: Mode, readLen: int, reply: seq<byte>, results: seq<int>)
      requires |reply| <= DEV_BUF_LEN && (readLen >= 0 ==> readLen == |reply|)
      ensures Valid()
      ensures this.mode == mode && this.readLen == readLen && this.reply == reply && this.results == results
      ensures log == [] && calls == 0
    {
      this.mode := mode;
      this.readLen := readLen;
      this.reply := reply;
      this.results := results;
      log := [];
      calls := 0;
    }

    /** `mnflash_usb_custom_read` into a buffer of DEV_BUF_LEN bytes (its retries are not modelled). */
    method CustomRead(request: byte, index: int, value: int, buffer: array<byte>) returns (res: int)
      requires Valid() && buffer.Length == DEV_BUF_LEN
      modifies this, buffer
      ensures res == readLen
      ensures res >= 0 ==> buffer[..] == Received(reply)
      ensures log == old(log) + [Read(request, value, index, DEV_BUF_LEN)] && calls == old(calls)
    {
      res := readLen;
      var received := Received(reply);
      forall i | 0 <= i < DEV_BUF_LEN {
        buffer[i] := received[i];
      }
      log := log + [Read(request, value, index, DEV_BUF_LEN)];
    }

    /** `mnflash_usb_custom_write` of a whole buffer (its retries are not modelled). */
    method CustomWrite(request: byte, index: int, value: int, buffer: array<byte>) returns (res: int)
      modifies this
      ensures res == LibSession.ResultAt(results, old(calls))
      ensures log == old(log) + [Write(request, value, index, buffer[..])] && calls == old(calls) + 1
    {
      res := LibSession.ResultAt(results, calls);
      log := log + [Write(request, value, index, buffer[..])];
      calls := calls + 1;
    }

    /** `mnflash_usb_custom_write_once` with no data. */
    method WriteOnce(request: byte, index: int, value: int) returns (res: int)
      modifies this
      ensures res == LibSession.ResultAt(results, old(calls))
      ensures log == old(log) + [Write(request, value, index, [])] && calls == old(calls) + 1
    {
      res := LibSession.ResultAt(results, calls);
      log := log + [Write(request, value, index, [])];
      calls := calls + 1;
    }

    /** `usleep`: the wait is recorded where the requests are. */
    method USleep(us: int)
      modifies this
      ensures log == old(log) + [Sleep(us)] && calls == old(calls)
    {
      log := log + [Sleep(us)];
    }
  }

  // ---------------------------------------------------------------------
  // The info reply

  /** `mnflash_device_info_t` without its device pointer. */
  datatype DeviceInfo = DeviceInfo(progmemSize: word, pageSize: byte, writeSleep: byte, device: byte, wiring: byte)

  /** `mnflash_get_device_info`: NULL unless the device is in programming
      mode and answers with at least four bytes. */
  function InfoOf(mode: Mode, readLen: int, reply: seq<byte>): (r: Option<DeviceInfo>)
    requires |reply| <= DEV_BUF_LEN && (readLen >= 0 ==> readLen == |reply|)
    ensures r.None? <==> mode != ModeProgramming || readLen < 4
    ensures r.Some? ==> r.value.progmemSize / 256 == reply[0] && r.value.progmemSize % 256 == reply[1]
    ensures r.Some? ==> r.value.pageSize == reply[2] && r.value.writeSleep == reply[3]
    ensures r.Some? && readLen == 4 ==> r.value.device == 255 && r.value.wiring == 255
    ensures r.Some? && readLen >= 6 ==> r.value.device == reply[4] && r.value.wiring == reply[5]
    ensures r.Some? && readLen == 5 ==> r.value.device == reply[4] && r.value.wiring == 0
  {
    if mode != ModeProgramming || readLen < 4 then None
    else
      var b := Received(reply);
      Some(DeviceInfo(b[1] + b[0] as int * 256, b[2], b[3], if readLen > 4 then b[4] else 255, if readLen > 4 then b[5] else 255))
  }

  method GetDeviceInfo(dev: MnUsb) returns (r: Option<DeviceInfo>)
    requires dev.Valid()
    modifies dev
    ensures r == InfoOf(dev.mode, dev.readLen, dev.reply)
    ensures dev.log == old(dev.log) + (if dev.mode == ModeProgramming then [Read(BOOTLOADER_INFO, 0, 0, DEV_BUF_LEN)] else [])
    ensures dev.calls == old(dev.calls)
  {
    if dev.mode != ModeProgramming {
      return None;
    }
    var buffer := new byte[DEV_BUF_LEN];
    var readlen := dev.CustomRead(BOOTLOADER_INFO, 0, 0, buffer);
    if readlen < 4 {
      return None;
    }
    var progmem: word := buffer[1] + buffer[0] as int * 256;
    var device: byte := 255;
    var wiring: byte := 255;
    if readlen > 4 {
      device := buffer[4];
      wiring := buffer[5];
    }
    r := Some(DeviceInfo(progmem, buffer[2], buffer[3], device, wiring));
  }

  // ---------------------------------------------------------------------
  // The upload, as the events it causes

  /** What a run of requests amounts to: the C return value, the events, and how many writes were issued. */
  datatype Outcome = Outcome(result: int, events: seq<Event>, calls: nat)

  /** The wait after the erase request, in microseconds. */
  function EraseWait(info: DeviceInfo): int
    requires info.pageSize > 0
  {
    info.writeSleep * (info.progmemSize / info.pageSize + 1) * 1000
  }

  /** `mnflash_erase`: a wait, the erase request, and on success the wait for the erase. */
  function Erase(info: DeviceInfo, results: seq<int>, k: nat): (o: Outcome)
    requires info.pageSize > 0
  {
    var asked := [Sleep(2000 * info.writeSleep), Write(BOOTLOADER_ERASE, 0, 0, [])];
    if LibSession.ResultAt(results, k) < 0 then Outcome(0, asked, 1)
    else Outcome(1, asked + [Sleep(EraseWait(info))], 1)
  }

  /** `mnflash_execute`, whose result the upload ignores. */
  function Execute(info: DeviceInfo): seq<Event>
  {
    [Sleep(2000 * info.writeSleep), Write(BOOTLOADER_EXECUTE, 0, 0, [])]
  }

  /** The number of firmware bytes in the page at `pageNow`. */
  function PageBytes(pageNow: nat, pageSize: nat, end: nat): (n: nat)
    requires pageNow < end
    ensures n == Min(pageSize, end - pageNow)
  {
    if pageNow + pageSize < end then pageSize else end - pageNow
  }

  /** The page buffer at `pageNow`: the firmware bytes, then 0xFF. */
  function PageImage(data: seq<byte>, pageNow: nat, pageSize: nat, end: nat): (page: seq<byte>)
    requires pageNow < end <= |data|
    ensures |page| == pageSize
    ensures forall j :: 0 <= j < pageSize ==> page[j] == if pageNow + j < end then data[pageNow + j] else BLANK
  {
    var n := PageBytes(pageNow, pageSize, end);
    data[pageNow..pageNow + n] + Blank(pageSize - n)
  }

  /** The values `page_now` takes in the loop, counted without a bound. */
  function Addresses(pageNow: nat, pageSize: nat, end: nat): seq<nat>
    requires pageSize > 0
    decreases end - pageNow
  {
    if pageNow < end then [pageNow] + Addresses(pageNow + pageSize, pageSize, end) else []
  }

  /** `page_now` once the loop has ended. */
  function LoopEnd(pageNow: nat, pageSize: nat, end: nat): nat
    requires pageSize > 0
    decreases end - pageNow
  {
    if pageNow < end then LoopEnd(pageNow + pageSize, pageSize, end) else pageNow
  }

  /** One pass of the loop body: a wait, then the page, whatever its result. */
  function PageWrite(info: DeviceInfo, data: seq<byte>, pageNow: nat, end: nat): seq<Event>
    requires pageNow < end <= |data|
  {
    [Sleep(1000 * info.writeSleep), Write(BOOTLOADER_WRITE_PAGE, info.pageSize, pageNow, PageImage(data, pageNow, info.pageSize, end))]
  }

  /** The loop from `pageNow` on. */
  function Pages(info: DeviceInfo, data: seq<byte>, pageNow: nat, end: nat): seq<Event>
    requires info.pageSize > 0 && (pageNow < end ==> end <= |data|)
    decreases end - pageNow
  {
    if pageNow < end then PageWrite(info, data, pageNow, end) + Pages(info, data, pageNow + info.pageSize, end) else []
  }

  /** Where the extra page goes: the last page boundary at or below the program size. */
  function TopPage(info: DeviceInfo): nat
    requires info.pageSize > 0
  {
    info.progmemSize / info.pageSize * info.pageSize
  }

  /** Lines 201-232: the extra blank page if the loop stopped below the top
      page, then the start of the application. */
  function Finish(info: DeviceInfo, last: nat, results: seq<int>, k: nat): (o: Outcome)
    requires info.pageSize > 0
  {
    if last / info.pageSize < info.progmemSize / info.pageSize then
      var extra := [Sleep(2000 * info.writeSleep), Write(BOOTLOADER_WRITE_PAGE, info.pageSize, TopPage(info), Blank(info.pageSize))];
      if LibSession.ResultAt(results, k) != info.pageSize then Outcome(0, extra, 1)
      else Outcome(1, extra + Execute(info), 2)
    else Outcome(1, Execute(info), 1)
  }

  /** The firmware's bytes (none when it has no data). */
  function DataOf(fw: FirmwareBlob.BlobState): seq<byte>
  {
    if fw.data.Some? then fw.data.value else []
  }

  /** The blob holds the bytes the loop copies. */
  predicate Holds(fw: FirmwareBlob.BlobState)
  {
    fw.start < fw.end ==> fw.end <= |DataOf(fw)|
  }

  /** Lines 162-232, after a successful erase: the pages, then `Finish`. */
  function Programmed(info: DeviceInfo, data: seq<byte>, start: nat, end: nat, results: seq<int>, k: nat): (o: Outcome)
    requires info.pageSize > 0 && (start < end ==> end <= |data|)
  {
    var w := |Addresses(start, info.pageSize, end)|;
    var f := Finish(info, LoopEnd(start, info.pageSize, end), results, k + w);
    Outcome(f.result, Pages(info, data, start, end) + f.events, w + f.calls)
  }

  /** `mnflash_upload` with `page_now` counted without a bound. */
  function Uploaded(info: DeviceInfo, fw: FirmwareBlob.BlobState, results: seq<int>, k: nat): (o: Outcome)
    requires info.pageSize > 0 && Holds(fw)
  {
    if fw.start % info.pageSize != 0 || fw.end >= info.progmemSize then Outcome(0, [], 0)
    else
      var e := Erase(info, results, k);
      if e.result == 0 then e
      else
        var p := Programmed(info, DataOf(fw), fw.start, fw.end, results, k + 1);
        Outcome(p.result, e.events + p.events, 1 + p.calls)
  }

  // ---------------------------------------------------------------------
  // The upload, as the C functions do it

  /** `mnflash_erase`. */
  method EraseDevice(dev: MnUsb, info: DeviceInfo) returns (ok: bool)
    requires info.pageSize > 0
    modifies dev
    ensures var e := Erase(info, dev.results, old(dev.calls));
      (ok <==> e.result == 1) && dev.log == old(dev.log) + e.events && dev.calls == old(dev.calls) + e.calls
  {
    dev.USleep(2000 * info.writeSleep);
    var res := dev.WriteOnce(BOOTLOADER_ERASE, 0, 0);
    if res < 0 {
      return false;
    }
    dev.USleep(info.writeSleep * (info.progmemSize / info.pageSize + 1) * 1000);
    ok := true;
  }

  /** `mnflash_execute`. */
  method ExecuteApplication(dev: MnUsb, info: DeviceInfo) returns (ok: bool)
    modifies dev
    ensures ok <==> LibSession.ResultAt(dev.results, old(dev.calls)) >= 0
    ensures dev.log == old(dev.log) + Execute(info) && dev.calls == old(dev.calls) + 1
  {
    dev.USleep(2000 * info.writeSleep);
    var written := dev.WriteOnce(BOOTLOADER_EXECUTE, 0, 0);
    ok := written >= 0;
  }

  /** The loop body: fill the page buffer, wait, write the page; a short write only warns. */
  method WritePage(dev: MnUsb, buffer: array<byte>, info: DeviceInfo, data: seq<byte>, pageNow: nat, end: nat)
    requires pageNow < end <= |data| && buffer.Length == info.pageSize
    modifies dev, buffer
    ensures dev.log == old(dev.log) + PageWrite(info, data, pageNow, end) && dev.calls == old(dev.calls) + 1
  {
    var pageBytes: nat;
    if pageNow + info.pageSize < end {
      pageBytes := info.pageSize;
    } else {
      pageBytes := end - pageNow;
    }
    forall i | 0 <= i < buffer.Length {
      buffer[i] := BLANK;
    }
    forall i | 0 <= i < pageBytes {
      buffer[i] := data[pageNow + i];
    }
    assert buffer[..] == PageImage(data, pageNow, info.pageSize, end);
    dev.USleep(1000 * info.writeSleep);
    var writelen := dev.CustomWrite(BOOTLOADER_WRITE_PAGE, pageNow, info.pageSize, buffer);
    if writelen != info.pageSize {
      // a bad write is reported and the loop goes on
    }
  }

  /** Lines 201-232: the extra page and the start of the application. */
  method FinishUpload(dev: MnUsb, buffer: array<byte>, info: DeviceInfo, pageNow: nat) returns (r: int)
    requires buffer.Length == info.pageSize > 0
    modifies dev, buffer
    ensures var f := Finish(info, pageNow, dev.results, old(dev.calls));
      r == f.result && dev.log == old(dev.log) + f.events && dev.calls == old(dev.calls) + f.calls
  {
    if pageNow / info.pageSize < info.progmemSize / info.pageSize {
      var top := info.progmemSize / info.pageSize * info.pageSize;
      forall i | 0 <= i < buffer.Length {
        buffer[i] := BLANK;
      }
      assert buffer[..] == Blank(info.pageSize);
      dev.USleep(2000 * info.writeSleep);
      var writelen := dev.CustomWrite(BOOTLOADER_WRITE_PAGE, top, info.pageSize, buffer);
      if writelen != info.pageSize {
        return 0;
      }
    }
    var _ := ExecuteApplication(dev, info);
    r := 1;
  }

  lemma PagesUnfold(info: DeviceInfo, data: seq<byte>, pageNow: nat, end: nat)
    requires info.pageSize > 0 && pageNow < end <= |data|
    ensures Pages(info, data, pageNow, end) == PageWrite(info, data, pageNow, end) + Pages(info, data, pageNow + info.pageSize, end)
  {
  }

  lemma AddressesUnfold(pageNow: nat, pageSize: nat, end: nat)
    requires pageSize > 0 && pageNow < end
    ensures |Addresses(pageNow, pageSize, end)| == 1 + |Addresses(pageNow + pageSize, pageSize, end)|
    ensures LoopEnd(pageNow, pageSize, end) == LoopEnd(pageNow + pageSize, pageSize, end)
  {
  }

  /** One pass of the loop, with the events so far. */
  method WriteStep(dev: MnUsb, buffer: array<byte>, info: DeviceInfo, data: seq<byte>, pageNow: nat, end: nat,
                   ghost base: seq<Event>, ghost done: seq<Event>) returns (ghost done': seq<Event>)
    requires pageNow < end <= |data| && buffer.Length == info.pageSize > 0 && dev.log == base + done
    modifies dev, buffer
    ensures dev.log == base + done' && dev.calls == old(dev.calls) + 1
    ensures done + Pages(info, data, pageNow, end) == done' + Pages(info, data, pageNow + info.pageSize, end)
  {
    WritePage(dev, buffer, info, data, pageNow, end);
    PagesUnfold(info, data, pageNow, end);
    EventsAssoc(done, PageWrite(info, data, pageNow, end), Pages(info, data, pageNow + info.pageSize, end));
    EventsAssoc(base, done, PageWrite(info, data, pageNow, end));
    done' := done + PageWrite(info, data, pageNow, end);
  }

  lemma EventsAssoc(a: seq<Event>, b: seq<Event>, c: seq<Event>)
    ensures a + b + c == a + (b + c)
  {
  }

  /** Lines 162-199: the page loop. */
  method WritePages(dev: MnUsb, buffer: array<byte>, info: DeviceInfo, data: seq<byte>, start: nat, end: nat) returns (pageNow: nat)
    requires buffer.Length == info.pageSize > 0 && (start < end ==> end <= |data|)
    modifies dev, buffer
    ensures pageNow == LoopEnd(start, info.pageSize, end)
    ensures dev.log == old(dev.log) + Pages(info, data, start, end)
    ensures dev.calls == old(dev.calls) + |Addresses(start, info.pageSize, end)|
  {
    ghost var done: seq<Event> := [];
    ghost var count: nat := 0;
    ghost var all := Pages(info, data, start, end);
    ghost var total := |Addresses(start, info.pageSize, end)|;
    ghost var last := LoopEnd(start, info.pageSize, end);
    pageNow := start;
    while pageNow < end
      invariant dev.log == old(dev.log) + done && dev.calls == old(dev.calls) + count
      invariant all == done + Pages(info, data, pageNow, end)
      invariant total == count + |Addresses(pageNow, info.pageSize, end)|
      invariant last == LoopEnd(pageNow, info.pageSize, end)
      decreases end - pageNow
    {
      done := WriteStep(dev, buffer, info, data, pageNow, end, old(dev.log), done);
      AddressesUnfold(pageNow, info.pageSize, end);
      count := count + 1;
      pageNow := pageNow + info.pageSize;
    }
  }

  /** The page loop and what follows it. */
  method Program(dev: MnUsb, buffer: array<byte>, info: DeviceInfo, data: seq<byte>, start: nat, end: nat) returns (r: int)
    requires buffer.Length == info.pageSize > 0 && (start < end ==> end <= |data|)
    modifies dev, buffer
    ensures var o := Programmed(info, data, start, end, dev.results, old(dev.calls));
      r == o.result && dev.log == old(dev.log) + o.events && dev.calls == old(dev.calls) + o.calls
  {
    var pageNow := WritePages(dev, buffer, info, data, start, end);
    ghost var before := dev.log;
    r := FinishUpload(dev, buffer, info, pageNow);
    EventsAssoc(old(dev.log), Pages(info, data, start, end), dev.log[|before|..]);
  }

  /** `mnflash_upload`; the blob's bytes are read where the loop copies them. */
  method Upload(dev: MnUsb, info: DeviceInfo, fw: FirmwareBlob.BlobState) returns (r: int)
    requires info.pageSize > 0 && Holds(fw)
    modifies dev
    ensures var o := Uploaded(info, fw, dev.results, old(dev.calls));
      r == o.result && dev.log == old(dev.log) + o.events && dev.calls == old(dev.calls) + o.calls
  {
    if fw.start % info.pageSize != 0 {
      return 0;
    }
    if fw.end >= info.progmemSize {
      return 0;
    }
    var buffer := new byte[info.pageSize];
    var erased := EraseDevice(dev, info);
    if !erased {
      return 0;
    }
    ghost var after := dev.log;
    r := Program(dev, buffer, info, DataOf(fw), fw.start, fw.end);
    EventsAssoc(old(dev.log), after[|old(dev.log)|..], dev.log[|after|..]);
  }

  // ---------------------------------------------------------------------
  // Properties

  /** The loop's passes counted by repeated addition: where it stops, and that its last page reaches `end`. */
  lemma {:induction false} AddressesSpan(pageNow: nat, pageSize: nat, end: nat)
    requires pageSize > 0
    ensures var n := |Addresses(pageNow, pageSize, end)|;
      LoopEnd(pageNow, pageSize, end) == pageNow + Times(n, pageSize) &&
      (pageNow < end ==> n > 0 && Times(n, pageSize) >= end - pageNow && Times(n - 1, pageSize) < end - pageNow) &&
      (pageNow >= end ==> n == 0)
    decreases end - pageNow
  {
    if pageNow < end {
      AddressesSpan(pageNow + pageSize, pageSize, end);
    }
  }

  /** The i-th pass writes at `pageNow` plus i pages, below `end`. */
  lemma {:induction false} AddressAt(pageNow: nat, pageSize: nat, end: nat, i: nat)
    requires pageSize > 0 && i < |Addresses(pageNow, pageSize, end)|
    ensures Addresses(pageNow, pageSize, end)[i] == pageNow + Times(i, pageSize) < end
    decreases i
  {
    if i > 0 {
      AddressAt(pageNow + pageSize, pageSize, end, i - 1);
    }
  }

  lemma {:induction false} PagesLength(info: DeviceInfo, data: seq<byte>, pageNow: nat, end: nat)
    requires info.pageSize > 0 && (pageNow < end ==> end <= |data|)
    ensures |Pages(info, data, pageNow, end)| == 2 * |Addresses(pageNow, info.pageSize, end)|
    decreases end - pageNow
  {
    if pageNow < end {
      PagesLength(info, data, pageNow + info.pageSize, end);
    }
  }

  /** Pass i of the loop is a wait and then the page at the i-th address. */
  lemma {:induction false} PagesAt(info: DeviceInfo, data: seq<byte>, pageNow: nat, end: nat, i: nat)
    requires info.pageSize > 0 && (pageNow < end ==> end <= |data|)
    requires i < |Addresses(pageNow, info.pageSize, end)|
    ensures var a := Addresses(pageNow, info.pageSize, end)[i];
      var ps := Pages(info, data, pageNow, end);
      2 * i + 1 < |ps| && a < end <= |data| && ps[2 * i] == Sleep(1000 * info.writeSleep) &&
      ps[2 * i + 1] == Write(BOOTLOADER_WRITE_PAGE, info.pageSize, a, PageImage(data, a, info.pageSize, end))
    decreases i
  {
    PagesLength(info, data, pageNow, end);
    AddressAt(pageNow, info.pageSize, end, i);
    if i > 0 {
      PagesAt(info, data, pageNow + info.pageSize, end, i - 1);
    }
  }

  /** The number of pages written is the firmware's length in pages, rounded up, and `page_now` ends one page behind the last. */
  lemma PageCount(pageNow: nat, pageSize: nat, end: nat)
    requires pageSize > 0
    ensures |Addresses(pageNow, pageSize, end)| == if pageNow < end then CeilDiv(end - pageNow, pageSize) else 0
    ensures LoopEnd(pageNow, pageSize, end) == pageNow + |Addresses(pageNow, pageSize, end)| * pageSize
  {
    var n := |Addresses(pageNow, pageSize, end)|;
    AddressesSpan(pageNow, pageSize, end);
    TimesIsProduct(n, pageSize);
    if pageNow < end {
      TimesIsProduct(n - 1, pageSize);
      CeilDivUnique(end - pageNow, pageSize, n);
    }
  }

  /**
   * Every page write: the i-th is preceded by a wait of write_sleep ms, goes
   * to start + i·page_size below `end`, carries exactly page_size bytes, and
   * holds the firmware's bytes up to `end` and 0xFF after it.
   */
  lemma PageWritesLaidOut(info: DeviceInfo, data: seq<byte>, start: nat, end: nat, i: nat)
    requires info.pageSize > 0 && start < end <= |data| && i < CeilDiv(end - start, info.pageSize)
    ensures var ps := Pages(info, data, start, end);
      var a := start + i * info.pageSize;
      |ps| == 2 * CeilDiv(end - start, info.pageSize) && a < end &&
      ps[2 * i] == Sleep(1000 * info.writeSleep) &&
      ps[2 * i + 1].Write? && ps[2 * i + 1].request == BOOTLOADER_WRITE_PAGE &&
      ps[2 * i + 1].value == info.pageSize && ps[2 * i + 1].index == a &&
      var page := ps[2 * i + 1].data;
      |page| == info.pageSize &&
      forall j :: 0 <= j < |page| ==> page[j] == if a + j < end then data[a + j] else BLANK
  {
    PageCount(start, info.pageSize, end);
    PagesLength(info, data, start, end);
    AddressAt(start, info.pageSize, end, i);
    TimesIsProduct(i, info.pageSize);
    PagesAt(info, data, start, end, i);
  }

  /** With an aligned start the loop ends on a page boundary at or after `end`:
      `page_now / page_size` is the number of the first page not written. */
  lemma LoopEndPage(start: nat, pageSize: nat, end: nat)
    requires pageSize > 0 && start % pageSize == 0
    ensures var last := LoopEnd(start, pageSize, end);
      last % pageSize == 0 && last / pageSize == start / pageSize + |Addresses(start, pageSize, end)| && last >= end
  {
    PageCount(start, pageSize, end);
    AddressesSpan(start, pageSize, end);
    AlignedAdd(start, |Addresses(start, pageSize, end)|, pageSize);
  }

  lemma AlignedAdd(start: nat, n: nat, s: nat)
    requires s > 0 && start % s == 0
    ensures (start + n * s) % s == 0 && (start + n * s) / s == start / s + n
  {
    var q := start / s;
    assert start + n * s == s * (q + n);
    ModUnique(start + n * s, s, q + n, 0);
  }

  /** Every page the loop writes ends at or before where the loop stops. */
  lemma PageBelowLoopEnd(start: nat, pageSize: nat, end: nat, i: nat)
    requires pageSize > 0 && i < |Addresses(start, pageSize, end)|
    ensures Addresses(start, pageSize, end)[i] + pageSize <= LoopEnd(start, pageSize, end)
  {
    var n := |Addresses(start, pageSize, end)|;
    PageCount(start, pageSize, end);
    AddressAt(start, pageSize, end, i);
    TimesIsProduct(i, pageSize);
    MulMono(i + 1, n, pageSize);
  }

  /** The extra page's address is a page boundary within the program memory,
      at or above every boundary whose page number is below the page count. */
  lemma TopPageBound(info: DeviceInfo, last: nat)
    requires info.pageSize > 0 && last % info.pageSize == 0 && last / info.pageSize < info.progmemSize / info.pageSize
    ensures TopPage(info) % info.pageSize == 0 && last < TopPage(info) <= info.progmemSize
  {
    var t := info.progmemSize / info.pageSize;
    ModUnique(TopPage(info), info.pageSize, t, 0);
    assert last == last / info.pageSize * info.pageSize;
    MulMono(last / info.pageSize + 1, t, info.pageSize);
  }

  /**
   * The extra page: after the loop `page_now / page_size` is the number of
   * the first page not written.  When that is below the page count of the
   * program memory, the extra page goes to the last page boundary within it,
   * which lies after `end` and after every page the loop wrote.
   */
  lemma ExtraPagePlace(info: DeviceInfo, start: nat, end: nat)
    requires info.pageSize > 0 && start % info.pageSize == 0
    ensures var last := LoopEnd(start, info.pageSize, end);
      var a := Addresses(start, info.pageSize, end);
      last / info.pageSize == start / info.pageSize + |a| && last >= end &&
      (last / info.pageSize < info.progmemSize / info.pageSize ==>
        TopPage(info) % info.pageSize == 0 && end < TopPage(info) <= info.progmemSize &&
        forall i :: 0 <= i < |a| ==> a[i] + info.pageSize <= TopPage(info))
  {
    var last := LoopEnd(start, info.pageSize, end);
    LoopEndPage(start, info.pageSize, end);
    if last / info.pageSize < info.progmemSize / info.pageSize {
      TopPageBound(info, last);
      forall i | 0 <= i < |Addresses(start, info.pageSize, end)|
        ensures Addresses(start, info.pageSize, end)[i] + info.pageSize <= TopPage(info)
      {
        PageBelowLoopEnd(start, info.pageSize, end, i);
      }
    }
  }

  /** The results of the data-page writes do not matter: only the erase and the extra page can fail the upload. */
  lemma PageResultsIgnored(info: DeviceInfo, fw: FirmwareBlob.BlobState, r1: seq<int>, r2: seq<int>, k: nat)
    requires info.pageSize > 0 && Holds(fw)
    requires LibSession.ResultAt(r1, k) == LibSession.ResultAt(r2, k)
    requires var w := |Addresses(fw.start, info.pageSize, fw.end)|;
      LibSession.ResultAt(r1, k + 1 + w) == LibSession.ResultAt(r2, k + 1 + w)
    ensures Uploaded(info, fw, r1, k) == Uploaded(info, fw, r2, k)
  {
  }

  /**
   * When the upload succeeds, and what is sent before it fails: nothing at
   * all for an unaligned start or a firmware reaching the program size, the
   * erase request alone when the erase fails, and otherwise the erase, every
   * data page and at most the extra page.
   */
  lemma UploadVerdict(info: DeviceInfo, fw: FirmwareBlob.BlobState, results: seq<int>, k: nat)
    requires info.pageSize > 0 && Holds(fw)
    ensures var o := Uploaded(info, fw, results, k);
      var ps := info.pageSize;
      var w := |Addresses(fw.start, ps, fw.end)|;
      var extra := LoopEnd(fw.start, ps, fw.end) / ps < info.progmemSize / ps;
      var accepted := fw.start % ps == 0 && fw.end < info.progmemSize;
      var erased := accepted && LibSession.ResultAt(results, k) >= 0;
      (o.result == 0 || o.result == 1) &&
      (o.events == [] <==> !accepted) &&
      (accepted && !erased ==> o.events == [Sleep(2000 * info.writeSleep), Write(BOOTLOADER_ERASE, 0, 0, [])]) &&
      (o.result == 1 <==> erased && (extra ==> LibSession.ResultAt(results, k + 1 + w) == ps)) &&
      (erased ==> o.events[..3] == [Sleep(2000 * info.writeSleep), Write(BOOTLOADER_ERASE, 0, 0, []), Sleep(EraseWait(info))]) &&
      (o.result == 1 ==> o.events[|o.events| - 2..] == Execute(info)) &&
      o.calls == (if !accepted then 0 else if !erased then 1 else 1 + w + (if extra then 1 else 0) + (if o.result == 1 then 1 else 0))
  {
  }

  /** The erase wait is write_sleep milliseconds for every page of the program memory and one more. */
  lemma EraseWaitMs(info: DeviceInfo)
    requires info.pageSize > 0
    ensures EraseWait(info) == 1000 * (info.writeSleep * (info.progmemSize / info.pageSize + 1))
    ensures EraseWait(info) >= 1000 * info.writeSleep
  {
    MulMono(1, info.progmemSize / info.pageSize + 1, info.writeSleep);
  }

  // ---------------------------------------------------------------------
  // The 16-bit page counter

  /** `page_now += info->page_size` on the `uint16_t` counter, as written. */
  function Uint16Next(pageNow: nat, pageSize: nat): (r: nat)
    ensures r < UINT16_RANGE
    ensures pageNow + pageSize < UINT16_RANGE ==> r == pageNow + pageSize
  {
    (pageNow + pageSize) % UINT16_RANGE
  }

  /**
   * The counter wraps: device 65535 bytes of program memory, 64-byte pages,
   * a firmware from 0 up to 65534.  Both guards pass, the loop reaches
   * 65472, and the next step brings `page_now` back to 0, still below
   * `end`.  The loop's only state is `page_now`, so from there it rewrites
   * the same pages without end; the model counts `page_now` without a bound.
   */
  lemma PageNowWraps()
    ensures var a := Addresses(0, 64, 65534);
      0 % 64 == 0 && 65534 < 65535 &&
      |a| == 1024 && a[1023] == 65472 && Uint16Next(a[1023], 64) == 0 == a[0]
  {
    PageCount(0, 64, 65534);
    assert CeilDiv(65534, 64) == 1024;
    AddressAt(0, 64, 65534, 1023);
    TimesIsProduct(1023, 64);
    AddressAt(0, 64, 65534, 0);
  }

  /** Where the counter cannot pass 65535 the program as written and the model step alike. */
  lemma Uint16StepAgrees(start: nat, pageSize: nat, end: nat, i: nat)
    requires pageSize > 0 && end + pageSize <= UINT16_RANGE && i < |Addresses(start, pageSize, end)|
    ensures var a := Addresses(start, pageSize, end);
      Uint16Next(a[i], pageSize) == a[i] + pageSize &&
      (i + 1 < |a| ==> a[i + 1] == Uint16Next(a[i], pageSize))
  {
    AddressAt(start, pageSize, end, i);
    if i + 1 < |Addresses(start, pageSize, end)| {
      AddressAt(start, pageSize, end, i + 1);
    }
  }
}
