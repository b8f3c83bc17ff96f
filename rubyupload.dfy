// The Ruby host uploaders `Micronucleus` (ruby/micronucleus.rb) and
// `MicroBoot` (firmware/upload.rb), run against a recording transport: every
// control transfer, device open and close, and sleep becomes an event in
// `log`, and the device's answer to `get_info` is a fixed input.
module RubyUpload {
  import opened Common

  /** The two classes differ in padding and in the order of `finished`. */
  datatype Kind = Micronucleus | MicroBoot

  /** `Functions`: a function's request number is its index in the list. */
  datatype Function = GetInfo | WritePage | EraseApplication | RunProgram

  function RequestNumber(f: Function): (n: nat)
    ensures n < 4
    ensures f == GetInfo <==> n == 0
  {
    match f
    case GetInfo => 0
    case WritePage => 1
    case EraseApplication => 2
    case RunProgram => 3
  }

  lemma RequestNumbersDistinct(f: Function, g: Function)
    ensures RequestNumber(f) == RequestNumber(g) <==> f == g
  {
  }

  const REQUEST_TYPE_VENDOR: byte := 0x40
  const RECIPIENT_DEVICE: byte := 0x00
  const ENDPOINT_OUT: byte := 0x00
  const ENDPOINT_IN: byte := 0x80
  const TIMEOUT := 5000

  /** OR of two bytes whose set bits do not overlap, as those of the constants above do not. */
  function BitOr(a: byte, b: byte): (r: byte)
    requires b == 0 || (b == 0x80 && a < 0x80)
  {
    a + b
  }

  /** `usb_request_type`: vendor and device, with the IN bit when a reply is expected. */
  function RequestType(hasDataOut: bool, hasDataIn: bool): (t: byte)
    ensures t / 0x80 == (if hasDataIn then 1 else 0)
    ensures t % 0x80 == REQUEST_TYPE_VENDOR
  {
    var value := BitOr(REQUEST_TYPE_VENDOR, RECIPIENT_DEVICE);
    var value := if hasDataOut then BitOr(value, ENDPOINT_OUT) else value;
    if hasDataIn then BitOr(value, ENDPOINT_IN) else value
  }

  /** One libusb control transfer as `control_transfer` hands it over. */
  datatype Transfer = Transfer(bmRequestType: byte, bRequest: nat, wValue: int, wIndex: int,
                               dataOut: Option<seq<byte>>, dataIn: Option<nat>, timeout: nat)

  /** `control_transfer(function: f, ...)`, the defaults wIndex 0, wValue 0 and timeout 5000 merged under the options. */
  function MakeTransfer(f: Function, wValue: int, wIndex: int, dataOut: Option<seq<byte>>, dataIn: Option<nat>): (t: Transfer)
    ensures t.bRequest == RequestNumber(f) && t.timeout == TIMEOUT
    ensures t.wValue == wValue && t.wIndex == wIndex && t.dataOut == dataOut && t.dataIn == dataIn
    ensures t.bmRequestType == RequestType(dataOut.Some?, dataIn.Some?)
  {
    Transfer(RequestType(dataOut.Some?, dataIn.Some?), RequestNumber(f), wValue, wIndex, dataOut, dataIn, TIMEOUT)
  }

  function InfoRequest(): Transfer { MakeTransfer(GetInfo, 0, 0, None, Some(4)) }
  function EraseRequest(): Transfer { MakeTransfer(EraseApplication, 0, 0, None, None) }
  function RunRequest(): Transfer { MakeTransfer(RunProgram, 0, 0, None, None) }

  datatype Event = Open | Control(t: Transfer) | Sleep(ms: nat) | Close

  /** The `@info` hash; the write sleep is kept in milliseconds, as the device reports it. */
  datatype Info = Info(flashLength: nat, pageSize: nat, pages: nat, writeSleepMs: nat,
                       versionMajor: nat, versionMinor: nat)

  datatype Error = InfoRejected | ProgramTooLong

  /**
   * `result.unpack('S>CC')` and the fields derived from it. A reply of fewer
   * than three bytes leaves the page size nil and a page size of zero makes
   * the float ceiling raise: either way `info` raises. A missing fourth byte
   * reads as a write sleep of 0.
   */
  function DecodeInfo(reply: seq<byte>, bcdDevice: word): (r: Result<Info, Error>)
    ensures r.Ok? <==> |reply| >= 3 && reply[2] != 0
    ensures r.Ok? ==> r.value.flashLength == BE16(reply[0], reply[1]) && r.value.pageSize == reply[2]
    ensures r.Ok? ==> r.value.pages == CeilDiv(r.value.flashLength, r.value.pageSize)
    ensures r.Ok? ==> r.value.writeSleepMs == (if |reply| >= 4 then reply[3] else 0)
    ensures r.Ok? ==> r.value.versionMajor == HiByte(bcdDevice) && r.value.versionMinor == LoByte(bcdDevice)
  {
    if |reply| < 3 || reply[2] == 0 then Err(InfoRejected)
    else
      var flash := BE16(reply[0], reply[1]);
      Ok(Info(flash, reply[2], CeilDiv(flash, reply[2]), if |reply| >= 4 then reply[3] else 0,
              HiByte(bcdDevice), LoByte(bcdDevice)))
  }

  /** `bytes.each_slice(page)`, every slice padded with 0xFF up to the page size when `padded`. */
  function Chunks(data: seq<byte>, page: nat, padded: bool): seq<seq<byte>>
    requires page > 0
    decreases |data|
  {
    if |data| == 0 then []
    else
      var n := Min(page, |data|);
      [if padded then data[..n] + Fill(page - n) else data[..n]] + Chunks(data[n..], page, padded)
  }

  function Fill(n: nat): (r: seq<byte>)
    ensures |r| == n
  {
    seq(n, _ => 0xFF)
  }

  function Flatten(chunks: seq<seq<byte>>): seq<byte>
  {
    if |chunks| == 0 then [] else chunks[0] + Flatten(chunks[1..])
  }

  /** The `write_page` request and the sleep after it, slice by slice, from `address` on. */
  function WriteEvents(chunks: seq<seq<byte>>, address: int, sleepMs: nat): (r: seq<Event>)
    ensures |r| == 2 * |chunks|
    decreases |chunks|
  {
    if |chunks| == 0 then []
    else
      [Control(MakeTransfer(WritePage, |chunks[0]|, address, Some(chunks[0]), None)), Sleep(sleepMs)]
        + WriteEvents(chunks[1..], address + |chunks[0]|, sleepMs)
  }

  lemma WriteEventsStep(chunks: seq<seq<byte>>, address: int, sleepMs: nat)
    requires |chunks| > 0
    ensures WriteEvents(chunks, address, sleepMs) ==
      [Control(MakeTransfer(WritePage, |chunks[0]|, address, Some(chunks[0]), None)), Sleep(sleepMs)]
        + WriteEvents(chunks[1..], address + |chunks[0]|, sleepMs)
  {
  }

  /** One slice of `program=`: its request, its sleep, then the rest of the image. */
  lemma SliceStep(data: seq<byte>, page: nat, padded: bool, address: int, sleepMs: nat)
    requires page > 0 && |data| > 0
    ensures
      var slice := Piece(data, page, padded, 0);
      WriteEvents(Chunks(data, page, padded), address, sleepMs) ==
        [Control(MakeTransfer(WritePage, |slice|, address, Some(slice), None)), Sleep(sleepMs)]
          + WriteEvents(Chunks(data[Min(page, |data|)..], page, padded), address + |slice|, sleepMs)
  {
    ChunksStep(data, page, padded);
    WriteEventsStep(Chunks(data, page, padded), address, sleepMs);
  }

  function Sleeps(n: nat, ms: nat): (r: seq<Event>)
    ensures |r| == n
  {
    seq(n, _ => Sleep(ms))
  }

  /** The next slice `each_slice` yields, padded when `padded`. */
  method NextSlice(rest: seq<byte>, page: nat, padded: bool) returns (slice: seq<byte>)
    requires page > 0 && |rest| > 0
    ensures slice == Piece(rest, page, padded, 0)
  {
    slice := rest[..Min(page, |rest|)];
    if padded {
      slice := PadSlice(slice, page);
    }
  }

  /** `slice.push(0xFF) while slice.length < page_size` */
  method PadSlice(slice: seq<byte>, page: nat) returns (r: seq<byte>)
    requires |slice| <= page
    ensures r == slice + Fill(page - |slice|)
  {
    r := slice;
    while |r| < page
      invariant |slice| <= |r| <= page
      invariant r == slice + Fill(|r| - |slice|)
    {
      assert Fill(|r| - |slice|) + [0xFF] == Fill(|r| + 1 - |slice|);
      r := r + [0xFF];
    }
  }

  lemma Associate(a: seq<Event>, b: seq<Event>, c: seq<Event>)
    ensures a + (b + c) == (a + b) + c
  {
  }

  /** `io` opens the device the first time it is used. */
  function Opening(isOpen: bool): seq<Event>
  {
    if isOpen then [] else [Open]
  }

  /** What `info` sends: nothing once cached, otherwise the `get_info` request. */
  function InfoEvents(cached: bool, isOpen: bool): seq<Event>
  {
    if cached then [] else Opening(isOpen) + [Control(InfoRequest())]
  }

  /** What `erase!` sends once it has the info. */
  function EraseEvents(i: Info): seq<Event>
  {
    [Control(EraseRequest())] + Sleeps(i.pages, i.writeSleepMs)
  }

  /** The image split the way `program=` splits it: padded by `Micronucleus`, not by `MicroBoot`. */
  function ProgramChunks(kind: Kind, data: seq<byte>, i: Info): seq<seq<byte>>
    requires i.pageSize > 0
  {
    Chunks(data, i.pageSize, kind == Micronucleus)
  }

  class Uploader {
    const kind: Kind
    /** The device: its bcdDevice and what it answers to `get_info`. */
    const bcdDevice: word
    const infoReply: seq<byte>
    /** `@info` once it has been computed. */
    var info: Option<Info>
    /** Whether `@io` holds an open handle. */
    var isOpen: bool
    /** Everything sent to the device, and every wait, in order. */
    var log: seq<Event>

    /** The cache only ever holds the decoding of the device's reply. */
    ghost predicate Valid()
      reads this
    {
      info.Some? ==> DecodeInfo(infoReply, bcdDevice) == Ok(info.value)
    }

    constructor (kind: Kind, bcdDevice: word, infoReply: seq<byte>)
      ensures Valid()
      ensures this.kind == kind && this.bcdDevice == bcdDevice && this.infoReply == infoReply
      ensures info == None && !isOpen && log == []
    {
      this.kind := kind;
      this.bcdDevice := bcdDevice;
      this.infoReply := infoReply;
      info := None;
      isOpen := false;
      log := [];
    }

    /** `control_transfer` */
    method ControlTransfer(t: Transfer)
      modifies this
      ensures log == old(log) + Opening(old(isOpen)) + [Control(t)]
      ensures isOpen && info == old(info)
    {
      if !isOpen {
        log := log + [Open];
        isOpen := true;
      }
      log := log + [Control(t)];
    }

    /** `info`: one `get_info` request for the first call, the cached hash after that. */
    method GetInfo() returns (r: Result<Info, Error>)
      requires Valid()
      modifies this
      ensures Valid()
      ensures r == DecodeInfo(infoReply, bcdDevice)
      ensures log == old(log) + InfoEvents(old(info).Some?, old(isOpen))
      ensures isOpen == (old(isOpen) || old(info).None?)
      ensures info == (if r.Ok? then Some(r.value) else None)
    {
      if info.Some? {
        return Ok(info.value);
      }
      ControlTransfer(InfoRequest());
      r := DecodeInfo(infoReply, bcdDevice);
      if r.Ok? {
        info := Some(r.value);
      }
    }

    /** `info[:pages].times { sleep(info[:write_sleep]) }` */
    method SleepPages(pages: nat, ms: nat)
      modifies this
      ensures log == old(log) + Sleeps(pages, ms)
      ensures isOpen == old(isOpen) && info == old(info)
    {
      var k := 0;
      while k < pages
        invariant 0 <= k <= pages
        invariant log == old(log) + Sleeps(k, ms)
        invariant isOpen == old(isOpen) && info == old(info)
      {
        assert Sleeps(k, ms) + [Sleep(ms)] == Sleeps(k + 1, ms);
        log := log + [Sleep(ms)];
        k := k + 1;
      }
    }

    /** `erase!` */
    method Erase() returns (r: Result<(), Error>)
      requires Valid()
      modifies this
      ensures Valid()
      ensures r.Ok? <==> DecodeInfo(infoReply, bcdDevice).Ok?
      ensures log == old(log) + InfoEvents(old(info).Some?, old(isOpen))
        + (if r.Ok? then Opening(old(isOpen) || old(info).None?) + EraseEvents(DecodeInfo(infoReply, bcdDevice).value) else [])
      ensures isOpen == (old(isOpen) || old(info).None? || r.Ok?)
      ensures info == (if r.Ok? then Some(DecodeInfo(infoReply, bcdDevice).value) else None)
    {
      var i := GetInfo();
      if i.Err? {
        return Err(i.error);
      }
      ControlTransfer(EraseRequest());
      SleepPages(i.value.pages, i.value.writeSleepMs);
      return Ok(());
    }

    /** `program=`: refuses an image longer than the flash before erasing, then writes it slice by slice. */
    method Program(data: seq<byte>) returns (r: Result<(), Error>)
      requires Valid()
      modifies this
      ensures Valid()
      ensures DecodeInfo(infoReply, bcdDevice).Err? ==> r == Err(InfoRejected)
      ensures DecodeInfo(infoReply, bcdDevice).Ok? ==>
        r == (if |data| > DecodeInfo(infoReply, bcdDevice).value.flashLength then Err(ProgramTooLong) else Ok(()))
      ensures r.Err? ==> log == old(log) + InfoEvents(old(info).Some?, old(isOpen))
      ensures r.Ok? ==> info.Some? && info.value.pageSize > 0
      ensures r.Ok? ==> (log == old(log) + InfoEvents(old(info).Some?, old(isOpen))
        + Opening(old(isOpen) || old(info).None?) + EraseEvents(info.value)
        + WriteEvents(ProgramChunks(kind, data, info.value), 0, info.value.writeSleepMs))
    {
      var i := GetInfo();
      if i.Err? {
        return Err(i.error);
      }
      if |data| > i.value.flashLength {
        return Err(ProgramTooLong);
      }
      ghost var beforeErase := log;
      var e := Erase();
      assert log == beforeErase + Opening(old(isOpen) || old(info).None?) + EraseEvents(i.value);
      WriteSlices(data, i.value.pageSize, i.value.writeSleepMs, kind == Micronucleus);
      r := Ok(());
    }

    /** The `each_slice` loop of `program=`, with `address` counting the bytes sent. */
    method WriteSlices(data: seq<byte>, page: nat, ms: nat, padded: bool)
      requires page > 0 && isOpen
      modifies this
      ensures log == old(log) + WriteEvents(Chunks(data, page, padded), 0, ms)
      ensures isOpen && info == old(info)
    {
      ghost var target := log + WriteEvents(Chunks(data, page, padded), 0, ms);
      var address := 0;
      var rest := data;
      while |rest| > 0
        invariant log + WriteEvents(Chunks(rest, page, padded), address, ms) == target
        invariant isOpen && info == old(info)
        decreases |rest|
      {
        var slice := NextSlice(rest, page, padded);
        ghost var later := WriteEvents(Chunks(rest[Min(page, |rest|)..], page, padded), address + |slice|, ms);
        SliceStep(rest, page, padded, address, ms);
        ghost var before := log;
        SendSlice(slice, address, ms);
        Associate(before, [Control(MakeTransfer(WritePage, |slice|, address, Some(slice), None)), Sleep(ms)], later);
        address := address + |slice|;
        rest := rest[Min(page, |rest|)..];
      }
    }

    /** The block of `each_slice`: one `write_page` request, then one write sleep. */
    method SendSlice(slice: seq<byte>, address: int, ms: nat)
      requires isOpen
      modifies this
      ensures log == old(log) + [Control(MakeTransfer(WritePage, |slice|, address, Some(slice), None)), Sleep(ms)]
      ensures isOpen && info == old(info)
    {
      ControlTransfer(MakeTransfer(WritePage, |slice|, address, Some(slice), None));
      log := log + [Sleep(ms)];
    }

    /**
     * `finished`: the run request, as many write sleeps as there are pages,
     * then the handle is closed. `Micronucleus` fetches `info` first;
     * `MicroBoot` sends the run request before it looks at `info`.
     */
    method Finished() returns (r: Result<(), Error>)
      requires Valid()
      modifies this
      ensures Valid()
      ensures r.Ok? <==> DecodeInfo(infoReply, bcdDevice).Ok?
      ensures r.Ok? ==> !isOpen && info.Some?
      ensures r.Err? ==> isOpen == (kind == MicroBoot || old(isOpen) || old(info).None?)
      ensures kind == Micronucleus ==> (log == old(log) + InfoEvents(old(info).Some?, old(isOpen))
        + (if r.Ok? then Opening(old(isOpen) || old(info).None?) + [Control(RunRequest())]
                         + Sleeps(info.value.pages, info.value.writeSleepMs) + [Close]
           else []))
      ensures kind == MicroBoot ==> (log == old(log) + Opening(old(isOpen)) + [Control(RunRequest())]
        + InfoEvents(old(info).Some?, true)
        + (if r.Ok? then Sleeps(info.value.pages, info.value.writeSleepMs) + [Close] else []))
    {
      var i: Result<Info, Error>;
      ghost var before := log;
      if kind == Micronucleus {
        i := GetInfo();
        if i.Err? {
          return Err(i.error);
        }
        ControlTransfer(RunRequest());
      } else {
        ControlTransfer(RunRequest());
        i := GetInfo();
        if i.Err? {
          return Err(i.error);
        }
      }
      ghost var ready := log;
      SleepPages(i.value.pages, i.value.writeSleepMs);
      assert log == ready + Sleeps(i.value.pages, i.value.writeSleepMs);
      log := log + [Close];
      isOpen := false;
      r := Ok(());
    }
  }

  // ---------------------------------------------------------------------
  // What the slicing promises

  /** The slice that starts at `off`, padded or not. */
  function Piece(data: seq<byte>, page: nat, padded: bool, off: nat): seq<byte>
    requires off < |data|
  {
    var piece := data[off..Min(off + page, |data|)];
    if padded then piece + Fill(page - |piece|) else piece
  }

  /** One step of `each_slice`. */
  lemma ChunksStep(data: seq<byte>, page: nat, padded: bool)
    requires page > 0 && |data| > 0
    ensures Chunks(data, page, padded) == [Piece(data, page, padded, 0)] + Chunks(data[Min(page, |data|)..], page, padded)
  {
  }

  /** There are ceil(L/P) slices, padded or not. */
  lemma {:induction false} ChunkCount(data: seq<byte>, page: nat, padded: bool)
    requires page > 0
    ensures |Chunks(data, page, padded)| == CeilDiv(|data|, page)
    decreases |data|
  {
    var c := |Chunks(data, page, padded)|;
    if |data| == 0 {
      CeilDivUnique(0, page, 0);
    } else {
      var rest := data[Min(page, |data|)..];
      ChunksStep(data, page, padded);
      ChunkCount(rest, page, padded);
      assert c == CeilDiv(|rest|, page) + 1;
      MulStep(c, page);
      CeilDivUnique(|data|, page, c);
    }
  }

  /**
   * Slice k is the image's bytes from k·P on, at most P of them, and when
   * padded it is filled with 0xFF to exactly P.
   */
  lemma {:induction false} ChunkAt(data: seq<byte>, page: nat, padded: bool, k: nat)
    requires page > 0 && Times(k, page) < |data|
    ensures k < |Chunks(data, page, padded)|
    ensures Chunks(data, page, padded)[k] == Piece(data, page, padded, Times(k, page))
    decreases k
  {
    ChunksStep(data, page, padded);
    if k > 0 {
      ChunkAt(data[page..], page, padded, k - 1);
      PieceShift(data, page, padded, Times(k, page));
    }
  }

  lemma PieceShift(data: seq<byte>, page: nat, padded: bool, off: nat)
    requires page <= off < |data|
    ensures Piece(data[page..], page, padded, off - page) == Piece(data, page, padded, off)
  {
    var e := Min(off + page, |data|);
    var tail := data[page..];
    assert Min(off, |tail|) == e - page;
    assert tail[off - page..e - page] == data[off..e] by {
      forall i | 0 <= i < e - off ensures tail[off - page..e - page][i] == data[off..e][i] {
        assert tail[off - page + i] == data[off + i];
      }
    }
  }

  /** Once all slices are joined the image comes back, followed by the padding, if any. */
  lemma {:induction false} ChunksReassemble(data: seq<byte>, page: nat, padded: bool)
    requires page > 0
    ensures |Chunks(data, page, padded)| * page >= |data|
    ensures Flatten(Chunks(data, page, padded)) ==
      data + (if padded then Fill(|Chunks(data, page, padded)| * page - |data|) else [])
    decreases |data|
  {
    var cs := Chunks(data, page, padded);
    ChunkCount(data, page, padded);
    if |data| == 0 {
      assert data + [] == data;
      assert Fill(0) == [];
    } else {
      var n := Min(page, |data|);
      var tail := data[n..];
      var rest := Chunks(tail, page, padded);
      ChunksStep(data, page, padded);
      assert cs[0] == Piece(data, page, padded, 0) && cs[1..] == rest;
      ChunksReassemble(tail, page, padded);
      MulStep(|cs|, page);
      assert Flatten(cs) == cs[0] + Flatten(rest);
      if |data| <= page {
        assert tail == [] && rest == [];
        assert Flatten(rest) == [] + [];
      } else {
        assert Fill(page - n) == [];
        assert cs[0] == data[..n];
        assert data[..n] + tail == data;
      }
    }
  }

  /** The k-th request of a run of writes and the sleep after it. */
  lemma {:induction false} WriteEventAt(chunks: seq<seq<byte>>, address: int, ms: nat, k: nat)
    requires k < |chunks|
    ensures WriteEvents(chunks, address, ms)[2 * k] ==
      Control(MakeTransfer(WritePage, |chunks[k]|, address + |Flatten(chunks[..k])|, Some(chunks[k]), None))
    ensures WriteEvents(chunks, address, ms)[2 * k + 1] == Sleep(ms)
    decreases k
  {
    if k > 0 {
      WriteEventAt(chunks[1..], address + |chunks[0]|, ms, k - 1);
      assert chunks[1..][k - 1] == chunks[k];
      assert chunks[..k] == [chunks[0]] + chunks[1..][..k - 1];
      assert Flatten(chunks[..k]) == chunks[0] + Flatten(chunks[1..][..k - 1]);
    } else {
      assert chunks[..0] == [];
    }
  }

  /** Every slice before the one at `off` is a full page. */
  lemma {:induction false} FullPagesBefore(data: seq<byte>, page: nat, padded: bool, k: nat)
    requires page > 0 && Times(k, page) < |data|
    ensures k < |Chunks(data, page, padded)|
    ensures |Flatten(Chunks(data, page, padded)[..k])| == Times(k, page)
    decreases k
  {
    var cs := Chunks(data, page, padded);
    ChunkAt(data, page, padded, k);
    if k == 0 {
      assert cs[..0] == [];
    } else {
      var tail := data[page..];
      FullPagesBefore(tail, page, padded, k - 1);
      ChunksStep(data, page, padded);
      assert |cs[0]| == page;
      assert cs[..k] == [cs[0]] + Chunks(tail, page, padded)[..k - 1];
      assert Flatten(cs[..k]) == cs[0] + Flatten(Chunks(tail, page, padded)[..k - 1]);
    }
  }

  /**
   * The k-th `write_page` of `program=`: at address k·P, carrying the k-th
   * page of the image; `Micronucleus` pads every slice to P bytes and
   * announces P, `MicroBoot` sends the bare slice and announces its length.
   */
  lemma ProgramWriteAt(kind: Kind, data: seq<byte>, i: Info, k: nat)
    requires i.pageSize > 0 && k < CeilDiv(|data|, i.pageSize)
    ensures 2 * k + 1 < |WriteEvents(ProgramChunks(kind, data, i), 0, i.writeSleepMs)|
    ensures k * i.pageSize < |data|
    ensures
      var slice := Piece(data, i.pageSize, kind == Micronucleus, k * i.pageSize);
      && WriteEvents(ProgramChunks(kind, data, i), 0, i.writeSleepMs)[2 * k] ==
           Control(MakeTransfer(WritePage, |slice|, k * i.pageSize, Some(slice), None))
      && WriteEvents(ProgramChunks(kind, data, i), 0, i.writeSleepMs)[2 * k + 1] == Sleep(i.writeSleepMs)
      && (kind == Micronucleus ==> |slice| == i.pageSize)
      && (kind == MicroBoot ==> |slice| == Min(i.pageSize, |data| - k * i.pageSize))
  {
    var P := i.pageSize;
    var padded := kind == Micronucleus;
    ChunkCount(data, P, padded);
    MulMono(k, CeilDiv(|data|, P) - 1, P);
    TimesIsProduct(k, P);
    FullPagesBefore(data, P, padded, k);
    ChunkAt(data, P, padded, k);
    WriteEventAt(Chunks(data, P, padded), 0, i.writeSleepMs, k);
  }

  /** Without padding only the last slice may be short, and no slice is empty. */
  lemma UnpaddedSliceLength(data: seq<byte>, page: nat, k: nat)
    requires page > 0 && k < CeilDiv(|data|, page)
    ensures k < |Chunks(data, page, false)|
    ensures 0 < |Chunks(data, page, false)[k]| <= page
    ensures |Chunks(data, page, false)[k]| < page ==> k == |Chunks(data, page, false)| - 1
  {
    ChunkCount(data, page, false);
    var c := |Chunks(data, page, false)|;
    MulMono(k, c - 1, page);
    TimesIsProduct(k, page);
    ChunkAt(data, page, false, k);
    if |Chunks(data, page, false)[k]| < page && k < c - 1 {
      assert k * page + page > |data|;
      MulStep(k + 1, page);
      MulMono(k + 1, c - 1, page);
      assert false;
    }
  }
}
