// The host library of the command-line uploader
// (commandline/library/micronucleus_lib.c): finding the bootloader on the
// USB buses and decoding its info reply, erasing the application, writing the
// program page by page with the reset vector moved behind the bootloader, and
// starting the application.  libusb is a recording mock: every control
// transfer, close and delay becomes an event in the open handle's log, and
// the device's answers are fixed inputs.

module LibSession {
  import opened Common

  /** The identity of the bootloader on the bus. */
  const VENDOR_ID: word := 0x16D0
  const PRODUCT_ID: word := 0x0753

  /** Vendor requests of the protocol. */
  const REQUEST_INFO: byte := 0
  const REQUEST_PAGE: byte := 1
  const REQUEST_ERASE: byte := 2
  const REQUEST_DATA: byte := 3
  const REQUEST_RUN: byte := 4

  /** libusb results that an erase turns into 1: the device re-enumerated while erasing. */
  const RECOVERABLE: set<int> := {-5, -32, -34, -71, -84}

  /** The 32-bit `unsigned int` arithmetic of the host. */
  const UINT_RANGE: int := 0x1_0000_0000

  function USub(a: int, b: int): (r: int)
    ensures 0 <= r < UINT_RANGE
  {
    (a - b) % UINT_RANGE
  }

  // ---------------------------------------------------------------------
  // The mock USB layer

  datatype Descriptor = Descriptor(idVendor: word, idProduct: word, bcdDevice: word)

  /** A negative libusb error code. */
  type UsbError = x: int | x < 0 witness -1

  /** How the device answers the info request: a libusb error, or the bytes it sends. */
  datatype InfoAnswer = Refused(code: UsbError) | Answer(bytes: seq<byte>)

  /** A device on a bus: its descriptor, whether it can be opened, its info
      answer, and the results of the later out requests in order. */
  datatype UsbDevice = UsbDevice(descriptor: Descriptor, opens: bool, info: InfoAnswer, results: seq<int>)

  datatype Event =
    | In(request: byte, length: nat)
    | Out(request: byte, value: int, index: int, data: seq<byte>)
    | Delay(ms: int)
    | Close

  /** The result of the k-th out request: 0 past the given results. */
  function ResultAt(results: seq<int>, k: nat): int
  {
    if k < |results| then results[k] else 0
  }

  /** An open libusb handle of a device: what it has been asked, and how many out requests. */
  class UsbHandle {
    const info: InfoAnswer
    const results: seq<int>
    var log: seq<Event>
    var outs: nat

    constructor (d: UsbDevice)
      ensures info == d.info && results == d.results && log == [] && outs == 0
    {
      info := d.info;
      results := d.results;
      log := [];
      outs := 0;
    }

    /** An IN transfer of at most `length` bytes: the result is the count received. */
    method ControlIn(request: byte, length: nat) returns (res: int, buffer: seq<byte>)
      modifies this
      ensures res == InfoResult(info, length)
      ensures res >= 0 ==> buffer == info.bytes[..res]
      ensures log == old(log) + [In(request, length)] && outs == old(outs)
    {
      res := InfoResult(info, length);
      buffer := [];
      if res >= 0 {
        buffer := info.bytes[..res];
      }
      log := log + [In(request, length)];
    }

    method ControlOut(request: byte, value: int, index: int, data: seq<byte>) returns (res: int)
      modifies this
      ensures res == ResultAt(results, old(outs))
      ensures log == old(log) + [Out(request, value, index, data)] && outs == old(outs) + 1
    {
      res := ResultAt(results, outs);
      log := log + [Out(request, value, index, data)];
      outs := outs + 1;
    }

    /** `delay`: the wait is recorded where the transfers are. */
    method Wait(ms: int)
      modifies this
      ensures log == old(log) + [Delay(ms)] && outs == old(outs)
    {
      log := log + [Delay(ms)];
    }

    method CloseHandle()
      modifies this
      ensures log == old(log) + [Close] && outs == old(outs)
    {
      log := log + [Close];
    }
  }

  function InfoResult(info: InfoAnswer, length: nat): (res: int)
    ensures res < 0 <==> info.Refused?
    ensures info.Answer? ==> res <= |info.bytes|
  {
    match info
    case Refused(code) => code
    case Answer(bytes) => Min(|bytes|, length)
  }

  // ---------------------------------------------------------------------
  // Connecting

  /** What the device handle records about the bootloader. */
  datatype DeviceInfo = DeviceInfo(major: byte, minor: byte, flashSize: int, pageSize: int, pages: int,
                                   bootloaderStart: int, writeSleep: int, eraseSleep: int,
                                   signature1: byte, signature2: byte)

  /** Why `micronucleus_connect` gives no device (`NULL`), or stops the program. */
  datatype Failure =
    | NoDevice
    | UnknownVersion(major: byte, minor: byte)
    | OpenFailed
    | InfoFailed(res: int)
    /** `assert(res >= 6)` (or 4) fails and aborts the program. */
    | ShortInfo(res: int)
    /** A page size of 0 divides by zero. */
    | ZeroPageSize

  predicate IsMicronucleus(d: Descriptor)
  {
    d.idVendor == VENDOR_ID && d.idProduct == PRODUCT_ID
  }

  function Major(d: Descriptor): byte { d.bcdDevice / 256 % 256 }
  function Minor(d: Descriptor): byte { d.bcdDevice % 256 }

  /** Protocol 2 sends six info bytes, protocol 1 four. */
  function InfoSize(major: int): nat { if major >= 2 then 6 else 4 }

  /** The geometry and timing an info reply describes. */
  function DecodeInfo(major: byte, minor: byte, reply: seq<byte>, fastMode: bool): Result<DeviceInfo, Failure>
    requires |reply| >= InfoSize(major)
  {
    var flash: int := reply[0] as int * 256 + reply[1];
    var page: int := reply[2];
    if page == 0 then Err(ZeroPageSize)
    else
      var pages: int := if flash / page * page < flash then flash / page + 1 else flash / page;
      var write: int := if major >= 2 && !fastMode then reply[3] % 128 + 2 else reply[3] % 128;
      var erase := if major >= 2 && reply[3] >= 128 then write * pages / 4 else write * pages;
      if major >= 2 then Ok(DeviceInfo(major, minor, flash, page, pages, pages * page, write, erase, reply[4], reply[5]))
      else Ok(DeviceInfo(major, minor, flash, page, pages, pages * page, write, erase, 0, 0))
  }

  /** What opening one matching device gives. */
  function Probe(d: UsbDevice, fastMode: bool, maxMajor: int): Result<DeviceInfo, Failure>
  {
    var major := Major(d.descriptor);
    var size := InfoSize(major);
    var res := InfoResult(d.info, size);
    if major > maxMajor then Err(UnknownVersion(major, Minor(d.descriptor)))
    else if !d.opens then Err(OpenFailed)
    else if res < 0 then Err(InfoFailed(res))
    else if res < size then Err(ShortInfo(res))
    else DecodeInfo(major, Minor(d.descriptor), d.info.bytes[..res], fastMode)
  }

  datatype Found = Found(device: UsbDevice, info: DeviceInfo)

  /** The scan over the devices in bus order: every match is probed, the last one
      is kept, and the first failing probe ends the scan. */
  function Scan(ds: seq<UsbDevice>, fastMode: bool, maxMajor: int, found: Option<Found>): Result<Option<Found>, Failure>
    decreases |ds|
  {
    if |ds| == 0 then Ok(found)
    else if !IsMicronucleus(ds[0].descriptor) then Scan(ds[1..], fastMode, maxMajor, found)
    else
      match Probe(ds[0], fastMode, maxMajor)
      case Err(e) => Err(e)
      case Ok(i) => Scan(ds[1..], fastMode, maxMajor, Some(Found(ds[0], i)))
  }

  function Flat(buses: seq<seq<UsbDevice>>): seq<UsbDevice>
    decreases |buses|
  {
    if |buses| == 0 then [] else buses[0] + Flat(buses[1..])
  }

  /** `micronucleus_connect` on the buses as libusb lists them. */
  function Connect(buses: seq<seq<UsbDevice>>, fastMode: bool, maxMajor: int): Result<Found, Failure>
  {
    match Scan(Flat(buses), fastMode, maxMajor, None)
    case Err(e) => Err(e)
    case Ok(None) => Err(NoDevice)
    case Ok(Some(f)) => Ok(f)
  }

  function Continue(r: Result<Option<Found>, Failure>, ds: seq<UsbDevice>, fastMode: bool, maxMajor: int): Result<Option<Found>, Failure>
  {
    if r.Err? then r else Scan(ds, fastMode, maxMajor, r.value)
  }

  lemma {:induction false} ScanConcat(a: seq<UsbDevice>, b: seq<UsbDevice>, fastMode: bool, maxMajor: int, found: Option<Found>)
    ensures Scan(a + b, fastMode, maxMajor, found) == Continue(Scan(a, fastMode, maxMajor, found), b, fastMode, maxMajor)
    decreases |a|
  {
    if |a| == 0 {
      assert a + b == b;
    } else {
      assert (a + b)[0] == a[0];
      assert (a + b)[1..] == a[1..] + b;
      if IsMicronucleus(a[0].descriptor) {
        var p := Probe(a[0], fastMode, maxMajor);
        if p.Ok? {
          ScanConcat(a[1..], b, fastMode, maxMajor, Some(Found(a[0], p.value)));
        }
      } else {
        ScanConcat(a[1..], b, fastMode, maxMajor, found);
      }
    }
  }

  /** `micronucleus*`: the fields `micronucleus_connect` fills in, and the open handle. */
  class Nucleus {
    var device: UsbHandle?
    var major: byte
    var minor: byte
    var flashSize: int
    var pageSize: int
    var pages: int
    var bootloaderStart: int
    var writeSleep: int
    var eraseSleep: int
    var signature1: byte
    var signature2: byte

    /** `malloc`: the fields are set by the caller. */
    constructor ()
      ensures device == null
    {
      device := null;
    }

    function Info(): DeviceInfo
      reads this
    {
      DeviceInfo(major, minor, flashSize, pageSize, pages, bootloaderStart, writeSleep, eraseSleep, signature1, signature2)
    }

    /** Lines 82-87 (and their copy for protocol 1): the flash geometry. */
    method SetGeometry(reply: seq<byte>) returns (ok: bool)
      requires |reply| >= 4
      modifies this
      ensures ok <==> reply[2] != 0
      ensures flashSize == reply[0] as int * 256 + reply[1] && pageSize == reply[2]
      ensures ok ==> pages == (if flashSize / pageSize * pageSize < flashSize then flashSize / pageSize + 1 else flashSize / pageSize)
      ensures ok ==> bootloaderStart == pages * pageSize
      ensures device == old(device) && major == old(major) && minor == old(minor)
    {
      flashSize := reply[0] as int * 256 + reply[1];
      pageSize := reply[2];
      if pageSize == 0 {
        return false;
      }
      pages := flashSize / pageSize;
      if pages * pageSize < flashSize {
        pages := pages + 1;
      }
      bootloaderStart := pages * pageSize;
      ok := true;
    }

    /** Lines 89-105 and 124-128: the write and erase waits and the signature. */
    method SetTiming(reply: seq<byte>, fastMode: bool)
      requires |reply| >= InfoSize(major)
      modifies this
      ensures device == old(device) && major == old(major) && minor == old(minor)
      ensures flashSize == old(flashSize) && pageSize == old(pageSize) && pages == old(pages)
      ensures bootloaderStart == old(bootloaderStart)
      ensures writeSleep == if major >= 2 && !fastMode then reply[3] % 128 + 2 else reply[3] % 128
      ensures eraseSleep == if major >= 2 && reply[3] >= 128 then writeSleep * pages / 4 else writeSleep * pages
      ensures (signature1, signature2) == if major >= 2 then (reply[4], reply[5]) else (0, 0)
    {
      if major >= 2 {
        if !fastMode {
          writeSleep := reply[3] % 128 + 2;
        } else {
          writeSleep := reply[3] % 128;
        }
        if reply[3] >= 128 {
          eraseSleep := writeSleep * pages / 4;
        } else {
          eraseSleep := writeSleep * pages;
        }
        signature1 := reply[4];
        signature2 := reply[5];
      } else {
        writeSleep := reply[3] % 128;
        eraseSleep := writeSleep * pages;
        signature1 := 0;
        signature2 := 0;
      }
    }
 
    /** `micronucleus_eraseFlash`: the erase request, the wait for the erase,
        and the result; on -34 the handle is closed and dropped. */
    method EraseFlash() returns (r: int)
      requires device != null
      modifies this, device
      ensures var res := ResultAt(old(device.results), old(device.outs));
        r == EraseResult(res) &&
        old(device).log == old(device.log) + [Out(REQUEST_ERASE, 0, 0, []), Delay(eraseSleep)] + (if res == -34 then [Close] else []) &&
        device == (if res == -34 then null else old(device)) && old(device).outs == old(device.outs) + 1
      ensures Info() == old(Info())
    {
      var res := device.ControlOut(REQUEST_ERASE, 0, 0, []);
      device.Wait(eraseSleep);
      if res == -5 || res == -32 || res == -34 || res == -71 || res == -84 {
        if res == -34 {
          device.CloseHandle();
          device := null;
        }
        return 1;
      }
      return res;
    }

    /** `micronucleus_startApp`. */
    method StartApp() returns (r: int)
      requires device != null
      modifies device
      ensures r == StartResult(ResultAt(device.results, old(device.outs)))
      ensures device.log == old(device.log) + [Out(REQUEST_RUN, 0, 0, [])] && device.outs == old(device.outs) + 1
    {
      var res := device.ControlOut(REQUEST_RUN, 0, 0, []);
      if res != 0 {
        return -1;
      }
      return 0;
    }

    /** `micronucleus_writeFlash` with the program buffer and its size; the progress callback is left out. */
    method WriteFlashPages(programSize: nat, program: seq<byte>) returns (r: int)
      requires device != null && WriteReady(Info()) && ProgramReadable(Info(), program, programSize)
      modifies device
      ensures var w := WriteFlash(Info(), program, programSize, device.results, old(device.outs));
        r == w.result && device.log == old(device.log) + w.events
    {
      ghost var n := Info();
      var pageLength: nat := pageSize;
      var buffer := new byte[pageLength];
      var address: nat := 0;
      var userReset := 0;
      ghost var done: seq<Event> := [];
      ghost var total := WriteFlash(n, program, programSize, device.results, device.outs);
      while address < flashSize
        invariant Info() == n && address % pageSize == 0 && ValidLength(n, pageLength)
        invariant device.log == old(device.log) + done
        invariant total == Prefixed(done, Pages(n, program, programSize, address, pageLength, userReset, device.results, device.outs))
        decreases flashSize - address
      {
        var stop, reset;
        ghost var events;
        stop, reset, pageLength, events := WriteNext(buffer, address, pageLength, userReset, programSize, program, n, done);
        EventsAssoc(old(device.log), done, events);
        if stop {
          return -1;
        }
        done := done + events;
        userReset := reset;
        address := address + pageSize;
      }
      return 0;
    }

    /** One iteration of the page loop: the length workaround of lines 185-188, then the page. */
    method WriteNext(buffer: array<byte>, address: nat, length: nat, userReset: int, programSize: nat, program: seq<byte>,
                     ghost n: DeviceInfo, ghost done: seq<Event>)
      returns (stop: bool, reset: int, pageLength: nat, ghost events: seq<Event>)
      requires device != null && n == Info() && WriteReady(n) && ProgramReadable(n, program, programSize)
      requires buffer.Length == pageSize && address % pageSize == 0 && address < flashSize && ValidLength(n, length)
      modifies buffer, device
      ensures device.log == old(device.log) + events && ValidLength(n, pageLength) && (address + pageSize) % pageSize == 0
      ensures Prefixed(done, Pages(n, program, programSize, address, length, userReset, device.results, old(device.outs))) ==
        if stop then Written(-1, done + events)
        else Prefixed(done + events, Pages(n, program, programSize, address + pageSize, pageLength, reset, device.results, device.outs))
    {
      pageLength := length;
      if major == 1 && minor <= 2 && address / pageSize == pages - 1 {
        pageLength := flashSize % pageSize;
      }
      assert pageLength == PageLength(n, address, length);
      ghost var k := device.outs;
      ghost var s := PageOut(n, program, programSize, address, pageLength, userReset, device.results, k);
      PagesStep(n, program, programSize, address, length, userReset, device.results, k, done);
      stop, reset := WritePage(buffer, address, pageLength, userReset, programSize, program, n, k);
      events := s.events;
    }

    /** One pass of the page loop, lines 190-306. */
    method WritePage(buffer: array<byte>, address: nat, length: nat, userReset: int, programSize: nat, program: seq<byte>,
                     ghost n: DeviceInfo, ghost k: nat)
      returns (stop: bool, reset: int)
      requires device != null && n == Info() && k == device.outs && WriteReady(n) && ProgramReadable(n, program, programSize)
      requires buffer.Length == pageSize && address % pageSize == 0 && address < flashSize && ValidLength(n, length)
      modifies buffer, device
      ensures var s := PageOut(n, program, programSize, address, length, userReset, device.results, k);
        stop == s.stop && (!stop ==> reset == s.userReset) &&
        device.log == old(device.log) + s.events && device.outs == k + s.calls
    {
      PageInProgram(n, program, programSize, address, length);
      ghost var filled := Filled(program, programSize, address, length);
      var contains := FillPage(buffer, address, length, program, programSize);
      var found;
      found, reset := PatchPage(buffer, address, length, userReset, n, filled);
      if !found {
        return true, reset;
      }
      if address >= USub(bootloaderStart, pageSize) {
        contains := true;
      }
      if contains {
        var ok := SendBuffer(buffer, length, address, n);
        if !ok {
          return true, reset;
        }
        device.Wait(writeSleep);
      }
      stop := false;
    }

    /** Lines 202-259: on protocol 2, read the user reset vector from page 0 and
        patch in the jump to the bootloader, and the moved vector on the last page. */
    method PatchPage(buffer: array<byte>, address: nat, length: nat, userReset: int, ghost n: DeviceInfo, ghost filled: seq<byte>)
      returns (found: bool, reset: int)
      requires n == Info() && WriteReady(n) && address % pageSize == 0 && address < flashSize && ValidLength(n, length)
      requires buffer.Length == pageSize && |filled| == length && buffer[..length] == filled
      modifies buffer
      ensures var r := ResetAfter(n, filled, address, userReset);
        found == r.Some? && (found ==> reset == r.value && buffer[..length] == Patched(n, filled, address, reset))
    {
      reset := userReset;
      if major >= 2 {
        ghost var first := filled;
        if address == 0 {
          found, reset := PatchFirstPage(buffer, n, filled);
          if !found {
            return;
          }
          first := PatchFirst(filled, n);
        }
        if address >= USub(bootloaderStart, pageSize) {
          LastPageOffset(n, address);
          PatchLastPage(buffer, address, reset, n, first);
        }
      }
      found := true;
    }

    /** Lines 202-236: the reset vector of page 0, and the jump to the bootloader in its place. */
    method PatchFirstPage(buffer: array<byte>, ghost n: DeviceInfo, ghost filled: seq<byte>) returns (found: bool, reset: int)
      requires n == Info() && buffer.Length >= 4 && buffer[..] == filled
      modifies buffer
      ensures found == ResetVector(filled).Some?
      ensures found ==> reset == ResetVector(filled).value && buffer[..] == PatchFirst(filled, n)
    {
      var word0 := buffer[1] as int * 0x100 + buffer[0];
      var word1 := buffer[3] as int * 0x100 + buffer[2];
      assert buffer[0] == filled[0] && buffer[1] == filled[1] && buffer[2] == filled[2] && buffer[3] == filled[3];
      if word0 == 0x940c {
        reset := word1;
      } else if word0 / 0x1000 == 0xC {
        reset := word0 % 0x1000 + 1;
      } else {
        return false, 0;
      }
      PutJump(buffer, 0, bootloaderStart > 0x2000, bootloaderStart, bootloaderStart / 2 - 1);
      found := true;
    }

    /** Lines 240-258: the jump to the user's reset target before the bootloader. */
    method PatchLastPage(buffer: array<byte>, address: nat, reset: int, ghost n: DeviceInfo, ghost first: seq<byte>)
      requires n == Info() && WriteReady(n) && n.major >= 2 && address % pageSize == 0 && address < flashSize && InLastPage(n, address)
      requires address <= UserResetAddress(n) && UserResetAddress(n) - address + 4 == n.pageSize
      requires buffer.Length == pageSize && buffer[..] == first
      modifies buffer
      ensures buffer[..] == PatchLast(first, n, address, reset)
    {
      var ura := pages * pageSize - 4;
      PutJump(buffer, ura - address, ura > 0x2000, reset, reset - ura / 2 - 1);
    }

    /** The copy loop, lines 193-200. */
    method FillPage(buffer: array<byte>, address: nat, length: nat, program: seq<byte>, programSize: nat) returns (contains: bool)
      requires length <= buffer.Length
      requires length == 0 || Min(address + length, programSize + 1) <= |program|
      modifies buffer
      ensures buffer[..length] == Filled(program, programSize, address, length)
      ensures contains == HasData(programSize, address, length)
    {
      contains := false;
      var pageAddress := 0;
      while pageAddress < length
        invariant pageAddress <= length
        invariant buffer[..pageAddress] == Filled(program, programSize, address, length)[..pageAddress]
        invariant contains == (pageAddress > 0 && address <= programSize)
      {
        if address + pageAddress > programSize {
          buffer[pageAddress] := 0xFF;
        } else {
          contains := true;
          buffer[pageAddress] := program[address + pageAddress];
        }
        pageAddress := pageAddress + 1;
      }
    }

    /** The byte stores of a `jmp` or an `rjmp`. */
    method PutJump(buffer: array<byte>, off: nat, far: bool, target: int, offset: int)
      requires off + 4 <= buffer.Length
      modifies buffer
      ensures buffer[..] == Jump(old(buffer[..]), off, far, target, offset)
    {
      if far {
        buffer[off] := 0x0c;
        buffer[off + 1] := 0x94;
        buffer[off + 2] := target % 256;
        buffer[off + 3] := target / 256 % 256;
      } else {
        var data := 0xC000 + offset % 0x1000;
        buffer[off] := data % 256;
        buffer[off + 1] := data / 256;
      }
    }

    /** Lines 269-293 on the first `length` bytes of the page buffer. */
    method SendBuffer(buffer: array<byte>, length: nat, address: nat, ghost n: DeviceInfo) returns (ok: bool)
      requires device != null && n == Info() && length <= buffer.Length && (major >= 2 ==> length % 4 == 0)
      modifies device
      ensures var s := SendPage(n, old(buffer[..length]), address, device.results, old(device.outs));
        ok == s.ok && device.log == old(device.log) + s.events && device.outs == old(device.outs) + s.calls
    {
      if major == 1 {
        var res := device.ControlOut(REQUEST_PAGE, length, address, buffer[..length]);
        return true;
      } else if major >= 2 {
        var res := device.ControlOut(REQUEST_PAGE, length, address, []);
        if res != 0 {
          return false;
        }
        ok := SendData(buffer, length);
        return;
      }
      ok := true;
    }

    /** One data request: the words at byte i and i + 2, low byte first. */
    method SendWord(buffer: array<byte>, i: nat, ghost page: seq<byte>, ghost e: Event) returns (res: int)
      requires device != null && i + 4 <= |page| <= buffer.Length && page == buffer[..|page|]
      requires e == Out(REQUEST_DATA, page[i + 1] as int * 256 + page[i], page[i + 3] as int * 256 + page[i + 2], [])
      modifies device
      ensures res == ResultAt(device.results, old(device.outs))
      ensures device.log == old(device.log) + [e] && device.outs == old(device.outs) + 1
    {
      var w1 := buffer[i + 1] as int * 256 + buffer[i];
      var w2 := buffer[i + 3] as int * 256 + buffer[i + 2];
      assert buffer[i] == page[i] && buffer[i + 1] == page[i + 1] && buffer[i + 2] == page[i + 2] && buffer[i + 3] == page[i + 3];
      res := device.ControlOut(REQUEST_DATA, w1, w2, []);
    }

    /** The data requests of lines 279-290, four bytes per request. */
    method SendData(buffer: array<byte>, length: nat) returns (ok: bool)
      requires device != null && length <= buffer.Length && length % 4 == 0
      modifies device
      ensures var s := SendWords(old(buffer[..length]), 0, device.results, old(device.outs));
        ok == s.ok && device.log == old(device.log) + s.events && device.outs == old(device.outs) + s.calls
    {
      ghost var page := buffer[..length];
      ghost var total := SendWords(page, 0, device.results, device.outs);
      ghost var sent: seq<Event> := [];
      var i := 0;
      while i < length
        invariant i <= length && i % 4 == 0
        invariant device.log == old(device.log) + sent && device.outs == old(device.outs) + |sent|
        invariant total == PrefixedSent(sent, SendWords(page, i, device.results, device.outs))
        decreases length - i
      {
        ghost var e := Out(REQUEST_DATA, page[i + 1] as int * 256 + page[i], page[i + 3] as int * 256 + page[i + 2], []);
        SendWordsStep(page, i, device.results, device.outs, sent, e);
        var res := SendWord(buffer, i, page, e);
        sent := sent + [e];
        if res != 0 {
          return false;
        }
        i := i + 4;
      }
      assert SendWords(page, i, device.results, device.outs) == Sent(true, [], 0);
      ok := true;
    }
 }

  /** The body of the device loop for a matching device: allocate, check the
      version, open, ask for the info and decode it. */
  method ProbeDevice(d: UsbDevice, fastMode: bool, maxMajor: int) returns (r: Result<Nucleus, Failure>)
    ensures var p := Probe(d, fastMode, maxMajor);
      (r.Ok? <==> p.Ok?) && (r.Err? ==> r.error == p.error)
    ensures r.Ok? ==> fresh(r.value) && fresh(r.value.device) && r.value.device != null
    ensures r.Ok? ==> r.value.Info() == Probe(d, fastMode, maxMajor).value
    ensures r.Ok? ==> r.value.device.info == d.info && r.value.device.results == d.results && r.value.device.outs == 0
    ensures r.Ok? ==> r.value.device.log == [In(REQUEST_INFO, InfoSize(Major(d.descriptor)))]
  {
    var n := new Nucleus();
    n.major := d.descriptor.bcdDevice / 256 % 256;
    n.minor := d.descriptor.bcdDevice % 256;
    if n.major > maxMajor {
      return Err(UnknownVersion(n.major, n.minor));
    }
    if !d.opens {
      return Err(OpenFailed);
    }
    n.device := new UsbHandle(d);
    var size := InfoSize(n.major);
    var res, buffer := n.device.ControlIn(REQUEST_INFO, size);
    if res < 0 {
      return Err(InfoFailed(res));
    }
    if res < size {
      return Err(ShortInfo(res));
    }
    var ok := n.SetGeometry(buffer);
    if !ok {
      return Err(ZeroPageSize);
    }
    n.SetTiming(buffer, fastMode);
    r := Ok(n);
  }

  /** `micronucleus_connect`: every device of every bus, in order. */
  method ConnectDevice(buses: seq<seq<UsbDevice>>, fastMode: bool, maxMajor: int) returns (r: Result<Nucleus, Failure>)
    ensures var c := Connect(buses, fastMode, maxMajor);
      (r.Ok? <==> c.Ok?) && (r.Err? ==> r.error == c.error)
    ensures r.Ok? ==> fresh(r.value) && fresh(r.value.device) && r.value.device != null
    ensures r.Ok? ==> var f := Connect(buses, fastMode, maxMajor).value;
      r.value.Info() == f.info && r.value.device.info == f.device.info && r.value.device.results == f.device.results &&
      r.value.device.outs == 0 && r.value.device.log == [In(REQUEST_INFO, InfoSize(f.info.major))]
  {
    var nucleus: Nucleus? := null;
    ghost var found: Option<Found> := None;
    var b := 0;
    while b < |buses|
      invariant b <= |buses|
      invariant Scan(Flat(buses), fastMode, maxMajor, None) == Scan(Flat(buses[b..]), fastMode, maxMajor, found)
      invariant nucleus == null <==> found.None?
      invariant nucleus != null ==> fresh(nucleus) && fresh(nucleus.device) && nucleus.device != null
      invariant nucleus != null ==> Linked(nucleus, found.value)
    {
      var d := 0;
      assert buses[b..] == [buses[b]] + buses[b + 1..];
      ghost var restOfBuses := Flat(buses[b + 1..]);
      assert Flat(buses[b..]) == buses[b] + restOfBuses;
      assert buses[b][0..] == buses[b];
      while d < |buses[b]|
        invariant d <= |buses[b]|
        invariant Scan(Flat(buses), fastMode, maxMajor, None) == Scan(buses[b][d..] + restOfBuses, fastMode, maxMajor, found)
        invariant nucleus == null <==> found.None?
        invariant nucleus != null ==> fresh(nucleus) && fresh(nucleus.device) && nucleus.device != null
        invariant nucleus != null ==> Linked(nucleus, found.value)
      {
        var dev := buses[b][d];
        assert buses[b][d..] + restOfBuses == [dev] + (buses[b][d + 1..] + restOfBuses);
        if IsMicronucleus(dev.descriptor) {
          var p := ProbeDevice(dev, fastMode, maxMajor);
          if p.Err? {
            return Err(p.error);
          }
          nucleus := p.value;
          found := Some(Found(dev, p.value.Info()));
        }
        d := d + 1;
      }
      assert buses[b][d..] + restOfBuses == restOfBuses;
      b := b + 1;
    }
    assert Flat(buses[b..]) == [];
    if nucleus == null {
      return Err(NoDevice);
    }
    r := Ok(nucleus);
  }

  /** The object and its handle hold what was found. */
  ghost predicate Linked(n: Nucleus, f: Found)
    reads n, n.device
  {
    n.device != null && n.Info() == f.info && n.device.info == f.device.info && n.device.results == f.device.results &&
    n.device.outs == 0 && n.device.log == [In(REQUEST_INFO, InfoSize(f.info.major))]
  }

  // ---------------------------------------------------------------------
  // What the info reply means

  /** The geometry `micronucleus_connect` leaves in the handle; the bootloader
      starts `pages` pages in (the product as repeated addition, `TimesIsProduct`). */
  predicate Geometry(n: DeviceInfo)
  {
    0 < n.pageSize < 256 && 0 <= n.flashSize < 65536 &&
    n.pages == CeilDiv(n.flashSize, n.pageSize) && n.bootloaderStart == Times(n.pages, n.pageSize)
  }

  /**
   * The flash size is the big-endian first two bytes, the page count is the
   * flash size divided by the page size and rounded up, and the bootloader
   * starts at the first page boundary at or above the flash size; only a page
   * size of 0 is rejected.
   */
  lemma InfoGeometry(major: byte, minor: byte, reply: seq<byte>, fastMode: bool)
    requires |reply| >= InfoSize(major)
    ensures var r := DecodeInfo(major, minor, reply, fastMode);
      (r.Err? <==> reply[2] == 0) && (r.Err? ==> r.error == ZeroPageSize) &&
      (r.Ok? ==> r.value.flashSize / 256 == reply[0] && r.value.flashSize % 256 == reply[1] &&
                 r.value.pageSize == reply[2] && Geometry(r.value) &&
                 r.value.flashSize <= r.value.bootloaderStart < r.value.flashSize + r.value.pageSize)
  {
    if reply[2] != 0 {
      var flash: int := reply[0] as int * 256 + reply[1];
      PageCount(flash, reply[2]);
      TimesIsProduct(CeilDiv(flash, reply[2]), reply[2]);
    }
  }

  /** Lines 84-85: the quotient, plus one when it leaves a remainder, is the rounded-up quotient. */
  lemma PageCount(flash: nat, page: nat)
    requires page > 0
    ensures (if flash / page * page < flash then flash / page + 1 else flash / page) == CeilDiv(flash, page)
  {
    var q := flash / page;
    var pages := if q * page < flash then q + 1 else q;
    assert q * page <= flash < (q + 1) * page;
    assert pages * page >= flash && (pages == 0 || (pages - 1) * page < flash);
    CeilDivUnique(flash, page, pages);
  }

  /**
   * The write wait is the low seven bits of byte 3, plus 2 ms on protocol 2
   * unless in fast mode; the erase wait is that times the page count, a
   * quarter of it on protocol 2 when bit 7 of byte 3 is set.
   */
  lemma InfoTiming(major: byte, minor: byte, reply: seq<byte>, fastMode: bool)
    requires |reply| >= InfoSize(major) && reply[2] != 0
    ensures var i := DecodeInfo(major, minor, reply, fastMode).value;
      var bit7 := reply[3] >= 128;
      var low := i.writeSleep - (if major >= 2 && !fastMode then 2 else 0);
      0 <= low < 128 && reply[3] == low + (if bit7 then 128 else 0) &&
      i.eraseSleep == (if major >= 2 && bit7 then i.writeSleep * i.pages / 4 else i.writeSleep * i.pages) &&
      (major >= 2 ==> i.signature1 == reply[4] && i.signature2 == reply[5]) &&
      (major < 2 ==> i.signature1 == 0 && i.signature2 == 0)
  {
  }

  /** A device that connects holds the geometry of its info reply. */
  lemma {:induction false} ScanGeometry(ds: seq<UsbDevice>, fastMode: bool, maxMajor: int, found: Option<Found>)
    requires found.Some? ==> Geometry(found.value.info)
    ensures var r := Scan(ds, fastMode, maxMajor, found);
      r.Ok? && r.value.Some? ==> Geometry(r.value.value.info)
    decreases |ds|
  {
    if |ds| > 0 {
      var d := ds[0];
      if IsMicronucleus(d.descriptor) {
        var p := Probe(d, fastMode, maxMajor);
        if p.Ok? {
          var major := Major(d.descriptor);
          InfoGeometry(major, Minor(d.descriptor), d.info.bytes[..InfoResult(d.info, InfoSize(major))], fastMode);
          ScanGeometry(ds[1..], fastMode, maxMajor, Some(Found(d, p.value)));
        }
      } else {
        ScanGeometry(ds[1..], fastMode, maxMajor, found);
      }
    }
  }

  /** The first matching device that fails ends the search, whatever comes after it. */
  lemma FailureStops(a: seq<UsbDevice>, d: UsbDevice, b: seq<UsbDevice>, fastMode: bool, maxMajor: int)
    requires IsMicronucleus(d.descriptor) && Probe(d, fastMode, maxMajor).Err?
    requires forall i :: 0 <= i < |a| ==> !IsMicronucleus(a[i].descriptor)
    ensures Scan(a + [d] + b, fastMode, maxMajor, None) == Err(Probe(d, fastMode, maxMajor).error)
  {
    ScanConcat(a, [d] + b, fastMode, maxMajor, None);
    NoMatches(a, fastMode, maxMajor, None);
    assert a + [d] + b == a + ([d] + b);
  }

  lemma {:induction false} NoMatches(a: seq<UsbDevice>, fastMode: bool, maxMajor: int, found: Option<Found>)
    requires forall i :: 0 <= i < |a| ==> !IsMicronucleus(a[i].descriptor)
    ensures Scan(a, fastMode, maxMajor, found) == Ok(found)
    decreases |a|
  {
    if |a| > 0 {
      NoMatches(a[1..], fastMode, maxMajor, found);
    }
  }

  /** Of several matching devices that all answer, the last one is taken. */
  lemma LastMatchWins(a: seq<UsbDevice>, d: UsbDevice, b: seq<UsbDevice>, fastMode: bool, maxMajor: int)
    requires IsMicronucleus(d.descriptor) && Probe(d, fastMode, maxMajor).Ok?
    requires Scan(a, fastMode, maxMajor, None).Ok?
    requires forall i :: 0 <= i < |b| ==> !IsMicronucleus(b[i].descriptor)
    ensures Scan(a + [d] + b, fastMode, maxMajor, None) == Ok(Some(Found(d, Probe(d, fastMode, maxMajor).value)))
  {
    ScanConcat(a, [d] + b, fastMode, maxMajor, None);
    assert a + [d] + b == a + ([d] + b);
    var i := Probe(d, fastMode, maxMajor).value;
    ScanMatch(d, b, fastMode, maxMajor, Scan(a, fastMode, maxMajor, None).value, i);
    NoMatches(b, fastMode, maxMajor, Some(Found(d, i)));
  }

  lemma ScanMatch(d: UsbDevice, b: seq<UsbDevice>, fastMode: bool, maxMajor: int, found: Option<Found>, i: DeviceInfo)
    requires IsMicronucleus(d.descriptor) && Probe(d, fastMode, maxMajor) == Ok(i)
    ensures Scan([d] + b, fastMode, maxMajor, found) == Scan(b, fastMode, maxMajor, Some(Found(d, i)))
  {
    assert ([d] + b)[0] == d && ([d] + b)[1..] == b;
  }

  // ---------------------------------------------------------------------
  // Erasing and starting

  /** The erase result: the five errors of a device lost while erasing become 1. */
  function EraseResult(res: int): (r: int)
    ensures res in RECOVERABLE ==> r == 1
    ensures res !in RECOVERABLE ==> r == res
  {
    if res == -5 || res == -32 || res == -34 || res == -71 || res == -84 then 1 else res
  }

  /** `micronucleus_startApp`: any nonzero transfer result is -1. */
  function StartResult(res: int): (r: int)
    ensures r == 0 <==> res == 0
    ensures r != 0 ==> r == -1
  {
    if res != 0 then -1 else 0
  }

  // ---------------------------------------------------------------------
  // Writing the flash

  /** The program buffer holds every byte the copy loop reads: up to and
      including `program_size`, or the whole span of the pages. */
  predicate ProgramReadable(n: DeviceInfo, program: seq<byte>, programSize: nat)
  {
    programSize < |program| || n.bootloaderStart <= |program|
  }

  /** What `micronucleus_writeFlash` needs of the handle: the geometry of
      `micronucleus_connect`, and on protocol 2 pages of whole word pairs. */
  predicate WriteReady(n: DeviceInfo)
  {
    Geometry(n) && (n.major >= 2 ==> n.pageSize % 4 == 0)
  }

  /** The copy loop: bytes up to and including `program_size` come from the
      program, the others are 0xFF. */
  function Filled(program: seq<byte>, programSize: nat, address: nat, length: nat): (page: seq<byte>)
    requires length == 0 || Min(address + length, programSize + 1) <= |program|
    ensures |page| == length
  {
    seq(length, j requires 0 <= j < length => if address + j > programSize then 0xFF else program[address + j])
  }

  /** `pagecontainsdata` after the copy loop. */
  predicate HasData(programSize: nat, address: nat, length: nat)
  {
    length > 0 && address <= programSize
  }

  /** The user program's reset target: the operand of a `jmp`, or one past the offset of an `rjmp`. */
  function ResetVector(page: seq<byte>): Option<int>
    requires |page| >= 4
  {
    var word0 := page[1] as int * 0x100 + page[0];
    var word1 := page[3] as int * 0x100 + page[2];
    if word0 == 0x940c then Some(word1)
    else if word0 / 0x1000 == 0xC then Some(word0 % 0x1000 + 1)
    else None
  }

  /** A `jmp` to `target` (4 bytes) when `far`, else an `rjmp` with the low 12 bits of `offset` (2 bytes), at `off`. */
  function Jump(page: seq<byte>, off: nat, far: bool, target: int, offset: int): (r: seq<byte>)
    requires off + 4 <= |page|
    ensures |r| == |page|
  {
    if far then page[off := 0x0c][off + 1 := 0x94][off + 2 := target % 256][off + 3 := target / 256 % 256]
    else
      var data := 0xC000 + offset % 0x1000;
      page[off := data % 256][off + 1 := data / 256]
  }

  /** Lines 224-236: page 0 jumps to the bootloader. */
  function PatchFirst(page: seq<byte>, n: DeviceInfo): seq<byte>
    requires |page| >= 4
  {
    Jump(page, 0, n.bootloaderStart > 0x2000, n.bootloaderStart, n.bootloaderStart / 2 - 1)
  }

  /** Where the user reset vector moves: the last four bytes before the bootloader. */
  function UserResetAddress(n: DeviceInfo): int
  {
    n.pages * n.pageSize - 4
  }

  /** Lines 240-258: the last page gets a jump to the user's reset target. */
  function PatchLast(page: seq<byte>, n: DeviceInfo, address: nat, userReset: int): seq<byte>
    requires address <= UserResetAddress(n) && UserResetAddress(n) - address + 4 <= |page|
  {
    var ura := UserResetAddress(n);
    Jump(page, ura - address, ura > 0x2000, userReset, userReset - ura / 2 - 1)
  }

  /** `address >= bootloader_start - page_size`, in unsigned arithmetic. */
  predicate InLastPage(n: DeviceInfo, address: nat)
  {
    address >= USub(n.bootloaderStart, n.pageSize)
  }

  /** A run of transfers: whether all were accepted, what was sent, and how many out requests. */
  datatype Sent = Sent(ok: bool, events: seq<Event>, calls: nat)

  /** The data requests of a protocol-2 page from byte i on: two little-endian words each. */
  function SendWords(page: seq<byte>, i: nat, results: seq<int>, k: nat): (s: Sent)
    requires i <= |page| && (|page| - i) % 4 == 0
    ensures s.calls == |s.events|
    decreases |page| - i
  {
    if i == |page| then Sent(true, [], 0)
    else
      var e := Out(REQUEST_DATA, page[i + 1] as int * 256 + page[i], page[i + 3] as int * 256 + page[i + 2], []);
      if ResultAt(results, k) != 0 then Sent(false, [e], 1)
      else
        var rest := SendWords(page, i + 4, results, k + 1);
        Sent(rest.ok, [e] + rest.events, rest.calls + 1)
  }

  /** Lines 269-293: protocol 1 sends the page in one transfer and ignores the
      result, protocol 2 sends a setup request and then the data requests. */
  function SendPage(n: DeviceInfo, page: seq<byte>, address: nat, results: seq<int>, k: nat): (s: Sent)
    requires n.major >= 2 ==> |page| % 4 == 0
    ensures s.calls == |s.events|
  {
    if n.major == 1 then Sent(true, [Out(REQUEST_PAGE, |page|, address, page)], 1)
    else if n.major >= 2 then
      var e := Out(REQUEST_PAGE, |page|, address, []);
      if ResultAt(results, k) != 0 then Sent(false, [e], 1)
      else
        var w := SendWords(page, 0, results, k + 1);
        Sent(w.ok, [e] + w.events, w.calls + 1)
    else Sent(true, [], 0)
  }

  /** One page: whether the write stops with -1, what was sent, and the user reset target after it. */
  datatype Step = Step(stop: bool, events: seq<Event>, calls: nat, userReset: int)

  /** The page as it is sent: copied, then on protocol 2 patched. */
  function Patched(n: DeviceInfo, filled: seq<byte>, address: nat, userReset: int): seq<byte>
    requires WriteReady(n) && address % n.pageSize == 0 && address < n.flashSize
    requires n.major >= 2 ==> |filled| == n.pageSize
  {
    if n.major < 2 then filled
    else
      var first := if address == 0 then PatchFirst(filled, n) else filled;
      if InLastPage(n, address) then
        LastPageOffset(n, address);
        PatchLast(first, n, address, userReset)
      else first
  }

  /** The user reset target once page `address` is copied: read from page 0 on protocol 2. */
  function ResetAfter(n: DeviceInfo, filled: seq<byte>, address: nat, userReset: int): Option<int>
    requires n.major >= 2 && address == 0 ==> |filled| >= 4
  {
    if n.major >= 2 && address == 0 then ResetVector(filled) else Some(userReset)
  }

  function ValidLength(n: DeviceInfo, length: nat): bool
  {
    length == n.pageSize || (n.major == 1 && length < n.pageSize)
  }

  /** Lines 190-306 for the page at `address`, sent with the k-th out request on. */
  function PageOut(n: DeviceInfo, program: seq<byte>, programSize: nat, address: nat, length: nat,
                   userReset: int, results: seq<int>, k: nat): (s: Step)
    requires WriteReady(n) && ProgramReadable(n, program, programSize)
    requires address % n.pageSize == 0 && address < n.flashSize && ValidLength(n, length)
    ensures s.calls <= |s.events|
  {
    PageInProgram(n, program, programSize, address, length);
    var filled := Filled(program, programSize, address, length);
    var reset := ResetAfter(n, filled, address, userReset);
    if reset.None? then Step(true, [], 0, userReset)
    else
      var page := Patched(n, filled, address, reset.value);
      if !(HasData(programSize, address, length) || InLastPage(n, address)) then Step(false, [], 0, reset.value)
      else
        var sent := SendPage(n, page, address, results, k);
        if !sent.ok then Step(true, sent.events, sent.calls, reset.value)
        else Step(false, sent.events + [Delay(n.writeSleep)], sent.calls, reset.value)
  }

  /** Lines 185-188: protocol 1.0 to 1.2 send only the flash size's remainder in the last page. */
  function PageLength(n: DeviceInfo, address: nat, length: nat): nat
    requires n.pageSize > 0
  {
    if n.major == 1 && n.minor <= 2 && address / n.pageSize == n.pages - 1 then n.flashSize % n.pageSize else length
  }

  /** The result of the write and everything it sent. */
  datatype Written = Written(result: int, events: seq<Event>)

  /** The page loop from `address` on, the page length and reset target as the earlier pages left them. */
  function Pages(n: DeviceInfo, program: seq<byte>, programSize: nat, address: nat, length: nat,
                 userReset: int, results: seq<int>, k: nat): Written
    requires WriteReady(n) && ProgramReadable(n, program, programSize)
    requires address % n.pageSize == 0 && ValidLength(n, length)
    decreases n.flashSize - address
  {
    if address >= n.flashSize then Written(0, [])
    else
      var len := PageLength(n, address, length);
      LengthStaysValid(n, address, length);
      NextPage(address, n.pageSize);
      var s := PageOut(n, program, programSize, address, len, userReset, results, k);
      if s.stop then Written(-1, s.events)
      else
        var rest := Pages(n, program, programSize, address + n.pageSize, len, s.userReset, results, k + s.calls);
        Written(rest.result, s.events + rest.events)
  }

  /** `micronucleus_writeFlash`; the reset target starts unset and is read on page 0. */
  function WriteFlash(n: DeviceInfo, program: seq<byte>, programSize: nat, results: seq<int>, k: nat): Written
    requires WriteReady(n) && ProgramReadable(n, program, programSize)
  {
    Pages(n, program, programSize, 0, n.pageSize, 0, results, k)
  }

  lemma LengthStaysValid(n: DeviceInfo, address: nat, length: nat)
    requires n.pageSize > 0 && ValidLength(n, length)
    ensures ValidLength(n, PageLength(n, address, length))
  {
  }

  lemma DivExact(a: nat, s: nat)
    requires s > 0 && a % s == 0
    ensures a == a / s * s
  {
  }

  lemma NextPage(address: nat, page: nat)
    requires page > 0 && address % page == 0
    ensures (address + page) % page == 0
  {
    var m := address / page;
    assert address + page == page * (m + 1) + 0;
    ModUnique(address + page, page, m + 1, 0);
  }

  lemma PageInProgram(n: DeviceInfo, program: seq<byte>, programSize: nat, address: nat, length: nat)
    requires WriteReady(n) && ProgramReadable(n, program, programSize)
    requires address % n.pageSize == 0 && address < n.flashSize && length <= n.pageSize
    ensures length == 0 || Min(address + length, programSize + 1) <= |program|
  {
    var p, s := n.pages, n.pageSize;
    TimesIsProduct(p, s);
    var m := address / s;
    DivExact(address, s);
    PageBelow(m, p, s);
  }

  /** A page that starts below the end of the last page ends within it. */
  lemma PageBelow(m: nat, p: nat, s: nat)
    requires s > 0 && m * s < p * s
    ensures m * s + s <= p * s
  {
    if m >= p {
      MulMono(p, m, s);
    }
    MulMono(m + 1, p, s);
  }

  /** The only page at or past `bootloader_start - page_size` is the last one, and it holds the moved vector. */
  lemma LastPageOffset(n: DeviceInfo, address: nat)
    requires WriteReady(n) && n.major >= 2 && address % n.pageSize == 0 && address < n.flashSize && InLastPage(n, address)
    ensures address == (n.pages - 1) * n.pageSize
    ensures address <= UserResetAddress(n) && UserResetAddress(n) - address + 4 == n.pageSize
  {
    var p, s := n.pages, n.pageSize;
    TimesIsProduct(p, s);
    assert p >= 1;
    MulStep(p, s);
    var m := address / s;
    DivExact(address, s);
    OnlyPage(m, p, s);
  }

  /** A page index whose start lies in the last page span is the last page. */
  lemma OnlyPage(m: nat, p: nat, s: nat)
    requires s > 0 && p >= 1 && (p - 1) * s <= m * s < p * s
    ensures m == p - 1
  {
    if m >= p {
      MulMono(p, m, s);
    }
    if m < p - 1 {
      MulMono(m + 1, p - 1, s);
    }
  }

  function Prefixed(events: seq<Event>, w: Written): Written
  {
    Written(w.result, events + w.events)
  }

  lemma PrefixedTwice(a: seq<Event>, b: seq<Event>, w: Written)
    ensures Prefixed(a, Written(w.result, b + w.events)) == Prefixed(a + b, w)
  {
    assert a + (b + w.events) == (a + b) + w.events;
  }

  lemma EventsAssoc(a: seq<Event>, b: seq<Event>, c: seq<Event>)
    ensures (a + b) + c == a + (b + c)
  {
  }

  lemma PagesStep(n: DeviceInfo, program: seq<byte>, programSize: nat, address: nat, length: nat,
                  userReset: int, results: seq<int>, k: nat, done: seq<Event>)
    requires WriteReady(n) && ProgramReadable(n, program, programSize)
    requires address % n.pageSize == 0 && address < n.flashSize && ValidLength(n, length)
    ensures var len := PageLength(n, address, length);
      ValidLength(n, len) && (address + n.pageSize) % n.pageSize == 0 &&
      var s := PageOut(n, program, programSize, address, len, userReset, results, k);
      Prefixed(done, Pages(n, program, programSize, address, length, userReset, results, k)) ==
        if s.stop then Written(-1, done + s.events)
        else Prefixed(done + s.events, Pages(n, program, programSize, address + n.pageSize, len, s.userReset, results, k + s.calls))
  {
    LengthStaysValid(n, address, length);
    NextPage(address, n.pageSize);
    var len := PageLength(n, address, length);
    var s := PageOut(n, program, programSize, address, len, userReset, results, k);
    PagesUnfold(n, program, programSize, address, length, userReset, results, k);
    if !s.stop {
      var rest := Pages(n, program, programSize, address + n.pageSize, len, s.userReset, results, k + s.calls);
      PrefixedTwice(done, s.events, rest);
    }
  }

  lemma PagesUnfold(n: DeviceInfo, program: seq<byte>, programSize: nat, address: nat, length: nat,
                    userReset: int, results: seq<int>, k: nat)
    requires WriteReady(n) && ProgramReadable(n, program, programSize)
    requires address % n.pageSize == 0 && address < n.flashSize && ValidLength(n, length)
    ensures var len := PageLength(n, address, length);
      ValidLength(n, len) && (address + n.pageSize) % n.pageSize == 0 &&
      var s := PageOut(n, program, programSize, address, len, userReset, results, k);
      Pages(n, program, programSize, address, length, userReset, results, k) ==
        if s.stop then Written(-1, s.events)
        else var rest := Pages(n, program, programSize, address + n.pageSize, len, s.userReset, results, k + s.calls);
          Written(rest.result, s.events + rest.events)
  {
    LengthStaysValid(n, address, length);
    NextPage(address, n.pageSize);
  }

  lemma SendWordsStep(page: seq<byte>, i: nat, results: seq<int>, k: nat, sent: seq<Event>, e: Event)
    requires i < |page| && (|page| - i) % 4 == 0
    requires e == Out(REQUEST_DATA, page[i + 1] as int * 256 + page[i], page[i + 3] as int * 256 + page[i + 2], [])
    ensures ResultAt(results, k) != 0 ==> PrefixedSent(sent, SendWords(page, i, results, k)) == Sent(false, sent + [e], |sent| + 1)
    ensures ResultAt(results, k) == 0 ==>
      PrefixedSent(sent, SendWords(page, i, results, k)) == PrefixedSent(sent + [e], SendWords(page, i + 4, results, k + 1))
  {
    var rest := SendWords(page, i + 4, results, k + 1);
    assert (sent + [e]) + rest.events == sent + ([e] + rest.events);
  }

  function PrefixedSent(events: seq<Event>, s: Sent): Sent
  {
    Sent(s.ok, events + s.events, |events| + s.calls)
  }

  // ---------------------------------------------------------------------
  // What the write sends

  /** The program bytes up to and including `program_size`, then 0xFF, for the first `end` addresses. */
  function Image(program: seq<byte>, programSize: nat, end: nat): (img: seq<byte>)
    requires Min(end, programSize + 1) <= |program|
    ensures |img| == end
  {
    var m := Min(end, programSize + 1);
    program[..m] + seq(end - m, _ => 0xFF)
  }

  /** Each page is the slice of the image at its address. */
  lemma FilledIsImage(program: seq<byte>, programSize: nat, address: nat, length: nat)
    requires Min(address + length, programSize + 1) <= |program|
    ensures Filled(program, programSize, address, length) == Image(program, programSize, address + length)[address..]
  {
    var img := Image(program, programSize, address + length);
    var m := Min(address + length, programSize + 1);
    forall j | 0 <= j < length
      ensures Filled(program, programSize, address, length)[j] == img[address + j]
    {
      if address + j < m {
        assert img[address + j] == program[..m][address + j];
      } else {
        assert img[address + j] == seq(address + length - m, _ => 0xFF)[address + j - m];
      }
    }
  }

  /** Two consecutive pages together are the page that spans both. */
  lemma FilledTiles(program: seq<byte>, programSize: nat, address: nat, a: nat, b: nat)
    requires Min(address + a + b, programSize + 1) <= |program|
    ensures Filled(program, programSize, address, a) + Filled(program, programSize, address + a, b) ==
            Filled(program, programSize, address, a + b)
  {
    var whole := Filled(program, programSize, address, a + b);
    var joined := Filled(program, programSize, address, a) + Filled(program, programSize, address + a, b);
    forall j | 0 <= j < a + b
      ensures joined[j] == whole[j]
    {
      if j >= a {
        assert joined[j] == Filled(program, programSize, address + a, b)[j - a];
      }
    }
  }

  /** Reading the vector back from a `jmp` or an `rjmp` at `off` gives the
      16-bit operand of the `jmp`, or one past the 12-bit offset of the `rjmp`;
      no other byte changes. */
  lemma JumpReadsBack(page: seq<byte>, off: nat, far: bool, target: int, offset: int)
    requires off + 4 <= |page|
    ensures var r := Jump(page, off, far, target, offset);
      ResetVector(r[off..off + 4]) == Some(if far then target % 65536 else offset % 0x1000 + 1) &&
      forall j :: 0 <= j < |page| && !(off <= j < off + (if far then 4 else 2)) ==> r[j] == page[j]
  {
    var r := Jump(page, off, far, target, offset);
    var v := r[off..off + 4];
    assert v[0] == r[off] && v[1] == r[off + 1] && v[2] == r[off + 2] && v[3] == r[off + 3];
    if far {
      ModSplit(target, 256, 256);
    } else {
      var data := 0xC000 + offset % 0x1000;
      assert v[1] as int * 0x100 + v[0] == data;
    }
  }

  /** Protocol 2, page 0: the vector written in place of the user's jumps to
      the bootloader: a `jmp` to `bootloader_start`, or an `rjmp` to word
      `bootloader_start / 2` when it lies within 0x2000 bytes. */
  lemma FirstPageJumpsToBootloader(n: DeviceInfo, page: seq<byte>)
    requires |page| >= 4
    ensures var bs := n.bootloaderStart;
      var v := ResetVector(PatchFirst(page, n)[..4]);
      (bs > 0x2000 ==> v == Some(bs % 65536)) &&
      (2 <= bs <= 0x2000 ==> v == Some(bs / 2))
  {
    JumpReadsBack(page, 0, n.bootloaderStart > 0x2000, n.bootloaderStart, n.bootloaderStart / 2 - 1);
  }

  /** Protocol 2, last page: the moved vector at `pages * page_size - 4` leads
      to the user's reset target: the `jmp` operand is the target, and the
      `rjmp` at that word reaches it in the 12-bit relative range. */
  lemma LastPageJumpsToUser(n: DeviceInfo, page: seq<byte>, address: nat, userReset: int)
    requires WriteReady(n) && n.major >= 2 && address % n.pageSize == 0 && address < n.flashSize && InLastPage(n, address)
    requires |page| == n.pageSize
    ensures (LastPageOffset(n, address); var ura := UserResetAddress(n);
      var off := ura - address;
      var v := ResetVector(PatchLast(page, n, address, userReset)[off..off + 4]);
      v.Some? &&
      (ura > 0x2000 ==> v.value == userReset % 65536) &&
      (ura <= 0x2000 ==> (ura / 2 + v.value) % 0x1000 == userReset % 0x1000))
  {
    LastPageOffset(n, address);
    var ura := UserResetAddress(n);
    var offset := userReset - ura / 2 - 1;
    JumpReadsBack(page, ura - address, ura > 0x2000, userReset, offset);
    if ura <= 0x2000 {
      var k := offset % 0x1000;
      assert offset == 0x1000 * (offset / 0x1000) + k;
      ModUnique(ura / 2 + k + 1, 0x1000, (ura / 2 + k + 1) / 0x1000, (ura / 2 + k + 1) % 0x1000);
      var q := offset / 0x1000;
      assert ura / 2 + k + 1 == userReset - 0x1000 * q;
      ModShift(userReset, q);
    }
  }

  lemma ModShift(x: int, q: int)
    ensures (x - 0x1000 * q) % 0x1000 == x % 0x1000
  {
    ModUnique(x - 0x1000 * q, 0x1000, x / 0x1000 - q, x % 0x1000);
  }

  /** Protocol 2: a program whose first instruction is neither `jmp` nor
      `rjmp` is refused with -1 before anything is sent. */
  lemma NoBranchNoWrite(n: DeviceInfo, program: seq<byte>, programSize: nat, results: seq<int>, k: nat)
    requires WriteReady(n) && ProgramReadable(n, program, programSize) && n.major >= 2 && n.flashSize > 0
    requires (PageInProgram(n, program, programSize, 0, n.pageSize); ResetVector(Filled(program, programSize, 0, n.pageSize)).None?)
    ensures WriteFlash(n, program, programSize, results, k) == Written(-1, [])
  {
    PagesStep(n, program, programSize, 0, n.pageSize, 0, results, k, []);
  }

  /** A page is sent, and waited for, exactly when it holds program bytes or
      is the last page before the bootloader (once its reset vector is read). */
  lemma PageSentWhen(n: DeviceInfo, program: seq<byte>, programSize: nat, address: nat, length: nat,
                     userReset: int, results: seq<int>, k: nat)
    requires WriteReady(n) && ProgramReadable(n, program, programSize)
    requires address % n.pageSize == 0 && address < n.flashSize && ValidLength(n, length)
    ensures var s := PageOut(n, program, programSize, address, length, userReset, results, k);
      (PageInProgram(n, program, programSize, address, length);
      var filled := Filled(program, programSize, address, length);
      ResetAfter(n, filled, address, userReset).Some? ==>
        ((|s.events| > 0) <==> (HasData(programSize, address, length) || InLastPage(n, address))) &&
        (|s.events| > 0 && n.major >= 1 ==> s.events[0] == Out(REQUEST_PAGE, length, address, if n.major == 1 then Patched(n, filled, address, ResetAfter(n, filled, address, userReset).value) else [])))
  {
    PageInProgram(n, program, programSize, address, length);
  }

  /** The data requests of a fully accepted protocol-2 page: one per four
      bytes, each carrying the two little-endian words in order. */
  lemma {:induction false} WordsSent(page: seq<byte>, i: nat, results: seq<int>, k: nat)
    requires i <= |page| && (|page| - i) % 4 == 0
    requires forall j :: k <= j < k + (|page| - i) / 4 ==> ResultAt(results, j) == 0
    ensures var s := SendWords(page, i, results, k);
      s.ok && |s.events| == (|page| - i) / 4 &&
      forall j :: 0 <= j < |s.events| ==>
        s.events[j] == Out(REQUEST_DATA, LE16(page[i + 4 * j], page[i + 4 * j + 1]), LE16(page[i + 4 * j + 2], page[i + 4 * j + 3]), [])
    decreases |page| - i
  {
    if i < |page| {
      assert ResultAt(results, k) == 0;
      WordsSent(page, i + 4, results, k + 1);
      var s := SendWords(page, i, results, k);
      var rest := SendWords(page, i + 4, results, k + 1);
      assert s.events == [s.events[0]] + rest.events;
      forall j | 0 <= j < |s.events|
        ensures s.events[j] == Out(REQUEST_DATA, LE16(page[i + 4 * j], page[i + 4 * j + 1]), LE16(page[i + 4 * j + 2], page[i + 4 * j + 3]), [])
      {
        if j > 0 {
          assert s.events[j] == rest.events[j - 1];
          assert i + 4 + 4 * (j - 1) == i + 4 * j;
        }
      }
    }
  }

  /** A refused data request ends the page: at most one request per four bytes is sent. */
  lemma {:induction false} WordsBound(page: seq<byte>, i: nat, results: seq<int>, k: nat)
    requires i <= |page| && (|page| - i) % 4 == 0
    ensures var s := SendWords(page, i, results, k);
      s.calls <= (|page| - i) / 4 && (s.calls < (|page| - i) / 4 ==> !s.ok) &&
      (!s.ok ==> s.calls > 0 && ResultAt(results, k + s.calls - 1) != 0)
    decreases |page| - i
  {
    if i < |page| && ResultAt(results, k) == 0 {
      WordsBound(page, i + 4, results, k + 1);
    }
  }
}
