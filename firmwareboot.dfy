// The micronucleus V1 bootloader firmware (firmware/bootloader.c): the host
// sends a page address and then the page's words through the driver's
// write callback; the bootloader keeps the user program's reset and USB
// interrupt vectors aside, puts jumps to itself in their place, and writes
// the kept vectors into the "tiny table" just below the bootloader.  Work
// that takes long is asked for through a bitmap of events that the main
// loop carries out and clears.  Registers are class fields, the kept vectors
// a fixed two-word array, and the flash is seen through the self-programming
// operations issued on it.

module FirmwareBoot {
  import opened Common
  import opened Spm
  import UsbDriver

  const RESET_VECTOR_OFFSET: nat := 0
  const APP_RESET_OFFSET: nat := 0

  /** What `usbFunctionSetup` returns to hand the data stage on to `usbFunctionWrite`. */
  const USB_NO_MSG: byte := 255

  // The events bitmap.
  const EVENT_ERASE_APPLICATION: byte := 1
  const EVENT_WRITE_PAGE: byte := 2
  const EVENT_EXECUTE: byte := 4

  /** The jump instruction (`jmp`) of devices whose vectors take two words. */
  const JMP: word := 0x940c

  /** The build constants of one bootloader. */
  datatype Config = Config(
    bootloaderAddress: nat,  // BOOTLOADER_ADDRESS, in bytes
    pageShift: nat,          // SPM_PAGESIZE is 2 to this power
    jmpVectors: bool,        // VECTOR_SIZE is 4 (two-word jmp vectors) rather than 2 (rjmp)
    usbIntrVectorNum: nat,   // USB_INTR_VECTOR_NUM
    flashShift: nat,         // FLASHEND / 2 + 1, the flash size in words, is 2 to this power
    appVusbOffset: nat,      // APP_VUSB_OFFSET
    canExit: bool,           // BOOTLOADER_CAN_EXIT
    writeSleep: byte,        // MICRONUCLEUS_WRITE_SLEEP
    chipId: byte,            // MICRONUCLEUS_CHIP_ID
    wiring: byte)            // MICRONUCLEUS_WIRING

  /** `SPM_PAGESIZE`: an even number of bytes, at most 256. */
  function PageSize(c: Config): (p: nat)
    requires PageShiftOk(c)
    ensures 2 <= p <= 256 && p % 2 == 0
  {
    PageBounds(c.pageShift);
    Pow2(c.pageShift)
  }

  function FlashWords(c: Config): (n: nat)
    ensures n >= 1
  {
    Pow2(c.flashShift)
  }

  /** `VECTOR_SIZE`, in bytes. */
  function VectorSize(c: Config): nat
  {
    if c.jmpVectors then 4 else 2
  }

  /** `VECTOR_WORDS`. */
  function VectorWords(c: Config): nat
  {
    if c.jmpVectors then 2 else 1
  }

  function AppUsbVectorOffset(c: Config): nat
  {
    APP_RESET_OFFSET + VectorSize(c)
  }

  function StoredOsccalOffset(c: Config): nat
  {
    AppUsbVectorOffset(c) + VectorSize(c)
  }

  /** The tiny table: the user program's reset and USB vectors and the stored calibration. */
  function TinyTableLen(c: Config): nat
  {
    StoredOsccalOffset(c) + 2
  }

  /** `BOOTLOADER_ENTRY`, just past the tiny table; nothing at or above it is ever buffered. */
  function BootloaderEntry(c: Config): nat
  {
    c.bootloaderAddress + TinyTableLen(c)
  }

  function BootloaderInterrupt(c: Config): nat
  {
    BootloaderEntry(c) + 2
  }

  /** `USB_INTR_VECTOR_NUM * VECTOR_WORDS`: the word address of the USB interrupt vector. */
  function UsbVectorWord(c: Config): nat
  {
    if c.jmpVectors then 2 * c.usbIntrVectorNum else c.usbIntrVectorNum
  }

  /** `USB_INTR_VECTOR_NUM * VECTOR_SIZE`: the byte address of the USB interrupt vector. */
  function UsbVector(c: Config): nat
  {
    if c.jmpVectors then 4 * c.usbIntrVectorNum else 2 * c.usbIntrVectorNum
  }

  /**
   * What the build checks or the hardware fixes: vectors of one or two
   * words, pages of whole words up to 256 bytes, the bootloader entry on a
   * page boundary, the vector table below the tiny table, and all of it in
   * the flash, which is at most 64 KiB.
   */
  predicate ConfigOk(c: Config)
  {
    && PageShiftOk(c)
    && FlashOk(c)
    && c.appVusbOffset <= 4
    && BootloaderEntry(c) % PageSize(c) == 0
    && VectorsBelow(c)
    && BootloaderInterrupt(c) < 2 * FlashWords(c)
  }

  /** Pages of whole words, at most 256 bytes. */
  predicate PageShiftOk(c: Config)
  {
    1 <= c.pageShift <= 8
  }

  /** A flash of at most 64 KiB, which the 16-bit addresses reach. */
  predicate FlashOk(c: Config)
  {
    FlashWords(c) <= 0x8000
  }

  /** `replyBuffer`: the 6 bytes of the device-info request. */
  function ReplyBuffer(c: Config): (reply: seq<byte>)
    requires ConfigOk(c)
    ensures |reply| == 6 && reply[0] as int * 256 + reply[1] as int == c.bootloaderAddress
    ensures reply[2] == PageSize(c) % 256 && reply[3..] == [c.writeSleep, c.chipId, c.wiring]
  {
    var ba := c.bootloaderAddress;
    FlashFits(c);
    AddressBytes(ba);
    [ba / 256 % 256, ba % 256, PageSize(c) % 256, c.writeSleep, c.chipId, c.wiring]
  }

  /** A 16-bit address in two bytes, the high one first. */
  lemma AddressBytes(a: nat)
    requires a < 0x1_0000
    ensures a / 256 % 256 == a / 256 && a / 256 * 256 + a % 256 == a
  {
  }

  lemma FlashFits(c: Config)
    requires ConfigOk(c)
    ensures FlashWords(c) <= 0x8000 && BootloaderInterrupt(c) < 0x1_0000
  {
  }

  // ---------------------------------------------------------------------
  // The events bitmap

  /** `fireEvent`: `events |= event`. */
  function FireEvent(events: byte, event: byte): byte
  {
    assert Pow2(8) == 256;
    OrBound(events, event, 8);
    Or(events, event)
  }

  /** `isEvent`: `events & event` is not zero. */
  predicate IsEvent(events: byte, event: byte)
  {
    And(events, event) != 0
  }

  predicate IsEventBit(event: byte)
  {
    event == EVENT_ERASE_APPLICATION || event == EVENT_WRITE_PAGE || event == EVENT_EXECUTE
  }

  /** The bit each event has. */
  function EventIndex(event: byte): (k: nat)
    requires IsEventBit(event)
    ensures Pow2(k) == event
  {
    if event == EVENT_ERASE_APPLICATION then 0 else if event == EVENT_WRITE_PAGE then 1 else 2
  }

  /** Firing an event sets it and leaves every other event as it was. */
  lemma EventsAccumulate(events: byte, event: byte, other: byte)
    requires IsEventBit(event) && IsEventBit(other)
    ensures IsEvent(FireEvent(events, event), other) <==> event == other || IsEvent(events, other)
  {
    var i, j := EventIndex(event), EventIndex(other);
    AndPow2(FireEvent(events, event), j);
    AndPow2(events, j);
    OrBit(events, event, j);
    PowBit(i, j);
  }

  /** After `clearEvents` no event is set. */
  lemma ClearedHasNone(event: byte)
    ensures !IsEvent(0, event)
  {
  }

  // ---------------------------------------------------------------------
  // Relative jumps and the vectors

  /**
   * `rjmp2addr`: the word address an `rjmp` at word `location` goes to.
   * With one-word vectors the offset is added as it is, in 16 bits.  With
   * two-word vectors a set bit 11 is a backward jump: `rjmp | 0xF000` read
   * as a signed 16-bit number is `rjmp % 0x1000 - 0x1000`, and `&
   * (FLASHEND / 2)` on the two's complement sum is its remainder by the
   * number of flash words.
   */
  function Rjmp2Addr(c: Config, rjmp: word, location: word): (a: word)
    requires FlashOk(c)
  {
    if !c.jmpVectors then (rjmp + location + 1) % 0x1_0000
    else if (rjmp / 0x800) % 2 == 1 then (rjmp % 0x1000 - 0x1000 + location + 1) % FlashWords(c)
    else (rjmp % 0x1000 + location + 1) % 0x1_0000
  }

  /** The two kept vectors: `vectorTemp[0]` and `vectorTemp[1]`. */
  predicate KeptOk(vectorTemp: seq<word>)
  {
    |vectorTemp| == 2
  }

  /**
   * The word `writeWordToPageBuffer` puts into the page buffer at
   * `address` in place of `data`: jumps to the bootloader in the reset and
   * USB vectors, the kept vectors in the tiny table (as `rjmp`s, or as
   * `jmp` and address), and the oscillator calibration after them.
   */
  function Patched(c: Config, osccal: byte, vectorTemp: seq<word>, address: word, data: word): word
    requires KeptOk(vectorTemp)
  {
    var ba := c.bootloaderAddress;
    if address == RESET_VECTOR_OFFSET * VectorSize(c) then
      Addr2Rjmp(BootloaderEntry(c) / 2, RESET_VECTOR_OFFSET * VectorWords(c))
    else if address == UsbVector(c) then
      Addr2Rjmp(BootloaderInterrupt(c) / 2, UsbVectorWord(c))
    else if !c.jmpVectors && address == ba + APP_RESET_OFFSET then
      Addr2Rjmp(vectorTemp[0], (ba + APP_RESET_OFFSET) / 2)
    else if !c.jmpVectors && address == ba + AppUsbVectorOffset(c) then
      Addr2Rjmp(vectorTemp[1], (ba + AppUsbVectorOffset(c)) / 2)
    else if c.jmpVectors && address == ba + APP_RESET_OFFSET then JMP
    else if c.jmpVectors && address == ba + APP_RESET_OFFSET + 2 then vectorTemp[0]
    else if c.jmpVectors && address == ba + AppUsbVectorOffset(c) then JMP
    else if c.jmpVectors && address == ba + AppUsbVectorOffset(c) + 2 then
      (vectorTemp[1] + AppUsbVectorOffset(c)) % 0x1_0000
    else if address == ba + StoredOsccalOffset(c) then osccal
    else data
  }

  // ---------------------------------------------------------------------
  // The registers and what each operation does to them

  /** `currentAddress`, `vectorTemp`, `events`, `idlePolls`, `didWriteSomething`, and the operations issued on the flash. */
  datatype Regs = Regs(
    currentAddress: word,
    vectorTemp: seq<word>,
    events: byte,
    idlePolls: word,
    didWriteSomething: bool,
    log: seq<SpmOp>)

  /** The fill of one word; the page buffer is cleared first when the fill starts at address 0. */
  function FillOps(c: Config, osccal: byte, vectorTemp: seq<word>, address: word, data: word): seq<SpmOp>
    requires KeptOk(vectorTemp)
  {
    (if address == 0 then [PageBufferClear] else []) + [PageFill(address, Patched(c, osccal, vectorTemp, address, data))]
  }

  /** `writeWordToPageBuffer`. */
  function AfterFill(c: Config, osccal: byte, r: Regs, data: word): Regs
    requires KeptOk(r.vectorTemp)
  {
    r.(log := r.log + FillOps(c, osccal, r.vectorTemp, r.currentAddress, data),
       currentAddress := (r.currentAddress + 2) % 0x1_0000)
  }

  /** `writeFlashPage`: the page of the last buffered word, `currentAddress - 2` in 16 bits. */
  function AfterPageWrite(r: Regs): Regs
  {
    r.(didWriteSomething := true, log := r.log + [PageWrite((r.currentAddress + 0xFFFE) % 0x1_0000)])
  }

  /** The `while` part of `fillFlashWithVectors`: 0xFFFF until the address is on a page boundary. */
  function PadFrom(c: Config, osccal: byte, r: Regs): Regs
    requires PageShiftOk(c) && KeptOk(r.vectorTemp) && r.currentAddress % 2 == 0
    decreases ToBoundary(PageSize(c), r.currentAddress)
  {
    if r.currentAddress % PageSize(c) == 0 then r
    else
      StepInPage(PageSize(c), r.currentAddress);
      PadFrom(c, osccal, AfterFill(c, osccal, r, 0xFFFF))
  }

  /** `fillFlashWithVectors`: at least one word of 0xFFFF, up to the page boundary, then the page write. */
  function AfterFillFlash(c: Config, osccal: byte, r: Regs): Regs
    requires PageShiftOk(c) && KeptOk(r.vectorTemp) && r.currentAddress % 2 == 0
  {
    Step2Even(r.currentAddress);
    AfterPageWrite(PadFrom(c, osccal, AfterFill(c, osccal, r, 0xFFFF)))
  }

  lemma Step2Even(a: word)
    requires a % 2 == 0
    ensures (a + 2) % 0x1_0000 % 2 == 0
  {
  }

  /** The number of pages below the bootloader entry. */
  function ErasePages(c: Config): nat
    requires PageShiftOk(c)
  {
    var e, p := BootloaderEntry(c), PageSize(c);
    NatQuotient(e, p);
    e / p
  }

  lemma NatQuotient(e: nat, p: nat)
    requires p > 0
    ensures e / p >= 0
  {
  }

  /** The pages below the entry end exactly at it. */
  lemma EntryPages(c: Config)
    requires ConfigOk(c)
    ensures Times(ErasePages(c), PageSize(c)) == BootloaderEntry(c)
  {
    var e, p := BootloaderEntry(c), PageSize(c);
    DivExact(e, p);
    TimesIsProduct(e / p, p);
  }

  lemma DivExact(v: nat, m: nat)
    requires m > 0 && v % m == 0
    ensures v == v / m * m
  {
  }

  /** `eraseApplication`: every page below the entry from the top down, then page 0 rewritten with the vectors. */
  function AfterErase(c: Config, osccal: byte, r: Regs): Regs
    requires PageShiftOk(c) && KeptOk(r.vectorTemp)
  {
    AfterFillFlash(c, osccal, r.(currentAddress := 0, log := r.log + ErasedDown(ErasePages(c), 0, PageSize(c))))
  }

  /** `tiny85FlashWrites`: the rest of the page filled when the address is not on a boundary, else the page written. */
  function AfterFlashWrites(c: Config, osccal: byte, r: Regs): Regs
    requires PageShiftOk(c) && KeptOk(r.vectorTemp) && r.currentAddress % 2 == 0
  {
    if r.currentAddress % PageSize(c) != 0 then AfterFillFlash(c, osccal, r) else AfterPageWrite(r)
  }

  type Request = UsbDriver.Request

  /** What `usbFunctionSetup` returns: the reply length, and the bytes `usbMsgPtr` is set to. */
  datatype SetupReply = SetupReply(len: byte, msg: seq<byte>)

  /** `usbFunctionSetup`. */
  function AfterSetup(c: Config, r: Regs, q: Request): (Regs, SetupReply)
    requires ConfigOk(c)
  {
    var r1 := r.(idlePolls := 0);
    if q.bRequest == 0 then (r1, SetupReply(6, ReplyBuffer(c)))
    else if q.bRequest == 1 then (r1.(currentAddress := q.wIndex), SetupReply(USB_NO_MSG, []))
    else if q.bRequest == 2 then (r1.(events := FireEvent(r.events, EVENT_ERASE_APPLICATION)), SetupReply(0, []))
    else if c.canExit then (r1.(events := FireEvent(r.events, EVENT_EXECUTE)), SetupReply(0, []))
    else (r1, SetupReply(0, []))
  }

  /** The data stage as `usbFunctionWrite` reads it: little-endian words. */
  function Words(data: seq<byte>): (ws: seq<word>)
    requires |data| % 2 == 0
    ensures |ws| == |data| / 2
    ensures forall i :: 0 <= i < |ws| ==> ws[i] == LE16(data[2 * i], data[2 * i + 1])
  {
    seq(|data| / 2, i requires 0 <= i < |data| / 2 => LE16(data[2 * i], data[2 * i + 1]))
  }

  /** An absolute address in the second word of a `jmp` vector: neither 0 nor erased flash. */
  predicate IsAddress(w: word)
  {
    w != 0 && w != 0xFFFF
  }

  /** The addresses whose word `usbFunctionWrite` keeps aside: the reset and USB vectors. */
  predicate IsKeptVector(c: Config, a: word)
  {
    || a == RESET_VECTOR_OFFSET * VectorSize(c)
    || (c.jmpVectors && a == RESET_VECTOR_OFFSET * VectorSize(c) + 2)
    || a == UsbVector(c)
    || (c.jmpVectors && a == UsbVector(c) + 2)
  }

  /** The kept vectors after the word `w` for address `a` arrives. */
  function Kept(c: Config, vectorTemp: seq<word>, a: word, w: word): seq<word>
    requires FlashOk(c) && KeptOk(vectorTemp)
  {
    if a == RESET_VECTOR_OFFSET * VectorSize(c) then vectorTemp[0 := Rjmp2Addr(c, w, RESET_VECTOR_OFFSET)]
    else if c.jmpVectors && a == RESET_VECTOR_OFFSET * VectorSize(c) + 2 then
      if IsAddress(w) then vectorTemp[0 := w] else vectorTemp
    else if a == UsbVector(c) then vectorTemp[1 := Rjmp2Addr(c, (w + c.appVusbOffset) % 0x1_0000, c.usbIntrVectorNum)]
    else if c.jmpVectors && a == UsbVector(c) + 2 then
      if IsAddress(w) then vectorTemp[1 := w] else vectorTemp
    else vectorTemp
  }

  /**
   * One pass of the `usbFunctionWrite` loop: a vector kept aside, then,
   * unless the address has reached the bootloader entry (the second
   * result), the word buffered.
   */
  function Store(c: Config, osccal: byte, r: Regs, w: word): (Regs, bool)
    requires FlashOk(c) && KeptOk(r.vectorTemp)
  {
    var a := r.currentAddress;
    if !IsKeptVector(c, a) && a >= BootloaderEntry(c) then (r, true)
    else (AfterFill(c, osccal, r.(vectorTemp := Kept(c, r.vectorTemp, a, w)), w), false)
  }

  /** The `usbFunctionWrite` loop over the words, until they run out or one reaches the entry. */
  function WriteRun(c: Config, osccal: byte, r: Regs, ws: seq<word>): Regs
    requires FlashOk(c) && KeptOk(r.vectorTemp)
    decreases |ws|
  {
    if |ws| == 0 then r
    else
      var (r1, stop) := Store(c, osccal, r, ws[0]);
      if stop then r1 else WriteRun(c, osccal, r1, ws[1..])
  }

  /** `usbFunctionWrite`: the new registers, and whether the page is complete (the write event then fired). */
  function AfterWrite(c: Config, osccal: byte, r: Regs, data: seq<byte>): (Regs, bool)
    requires PageShiftOk(c) && FlashOk(c) && KeptOk(r.vectorTemp) && |data| % 2 == 0
  {
    var r1 := WriteRun(c, osccal, r, Words(data));
    var isLast := r1.currentAddress % PageSize(c) == 0;
    (if isLast then r1.(events := FireEvent(r1.events, EVENT_WRITE_PAGE)) else r1, isLast)
  }

  /** What the driver delivers in one poll: nothing, a class or vendor request, or a data packet of a write request. */
  datatype Traffic = Quiet | Setup(request: Request) | Data(bytes: seq<byte>)

  /** The data packets of a write request carry whole words, at least one. */
  predicate TrafficOk(t: Traffic)
  {
    t.Data? ==> |t.bytes| >= 2 && |t.bytes| % 2 == 0
  }

  /** What the bootloader answered the driver. */
  datatype Answer = NoAnswer | SetupAnswer(reply: SetupReply) | WriteAnswer(last: bool)

  /** The traffic of one poll. */
  function Serve(c: Config, osccal: byte, r: Regs, t: Traffic): (Regs, Answer)
    requires ConfigOk(c) && KeptOk(r.vectorTemp) && TrafficOk(t)
  {
    match t
    case Quiet => (r, NoAnswer)
    case Setup(q) => var (r1, a) := AfterSetup(c, r, q); (r1, SetupAnswer(a))
    case Data(bytes) => var (r1, last) := AfterWrite(c, osccal, r, bytes); (r1, WriteAnswer(last))
  }

  /** The events of one pass carried out: the erase, then the page write. */
  function RunEvents(c: Config, osccal: byte, r: Regs): Regs
    requires PageShiftOk(c) && KeptOk(r.vectorTemp)
    requires IsEvent(r.events, EVENT_WRITE_PAGE) ==> r.currentAddress % PageSize(c) == 0
  {
    var r1 := if IsEvent(r.events, EVENT_ERASE_APPLICATION) then AfterErase(c, osccal, r) else r;
    EraseEndsOnPage(c, osccal, r);
    if IsEvent(r1.events, EVENT_WRITE_PAGE) then
      PageAligned(PageSize(c), r1.currentAddress);
      AfterFlashWrites(c, osccal, r1)
    else r1
  }

  /** One pass of the `main` loop: its registers, whether it leaves, and the answer to the driver. */
  datatype Step = Step(regs: Regs, exit: bool, answer: Answer)

  /**
   * One pass of the `main` loop: the poll, the idle count, the events, and
   * then either the exit the host asked for or the events cleared and the
   * bootloader condition (`stay`) tested.
   */
  function Pass(c: Config, osccal: byte, r: Regs, t: Traffic, stay: bool): Step
    requires ConfigOk(c) && KeptOk(r.vectorTemp) && TrafficOk(t) && r.events == 0
  {
    var (r1, answer) := Serve(c, osccal, r, t);
    ServedEvents(c, osccal, r, t);
    var (r2, exit) := AfterPoll(c, osccal, r1, stay);
    Step(r2, exit, answer)
  }

  /** The rest of a pass of the `main` loop after `usbPoll`; true when it leaves. */
  function AfterPoll(c: Config, osccal: byte, r: Regs, stay: bool): (Regs, bool)
    requires PageShiftOk(c) && KeptOk(r.vectorTemp)
    requires IsEvent(r.events, EVENT_WRITE_PAGE) ==> r.currentAddress % PageSize(c) == 0
  {
    var r1 := RunEvents(c, osccal, r.(idlePolls := (r.idlePolls + 1) % 0x1_0000));
    if c.canExit && IsEvent(r1.events, EVENT_EXECUTE) then (r1, true)
    else (r1.(events := 0), !stay)
  }

  /** What one pass of the `main` loop sees: the driver's traffic in `usbPoll`, and whether `bootLoaderCondition` holds at its end. */
  datatype Poll = Poll(traffic: Traffic, stay: bool)

  /** Where the loop stands after some passes, and whether it left it. */
  datatype Outcome = Outcome(regs: Regs, passes: nat, exited: bool)

  /** The `do ... while` loop of `main` over successive passes, until it leaves or the passes run out. */
  function Loop(c: Config, osccal: byte, r: Regs, ps: seq<Poll>): Outcome
    requires ConfigOk(c) && KeptOk(r.vectorTemp) && r.events == 0
    requires forall i :: 0 <= i < |ps| ==> TrafficOk(ps[i].traffic)
    decreases |ps|
  {
    if |ps| == 0 then Outcome(r, 0, false)
    else
      var s := Pass(c, osccal, r, ps[0].traffic, ps[0].stay);
      PassKeeps(c, osccal, r, ps[0].traffic, ps[0].stay);
      if s.exit then Outcome(s.regs, 1, true)
      else var o := Loop(c, osccal, s.regs, ps[1..]); o.(passes := o.passes + 1)
  }

  /** An outcome seen `n` passes later. */
  function Later(o: Outcome, n: nat): Outcome
  {
    o.(passes := o.passes + n)
  }

  /** A pass keeps two kept vectors, and unless it leaves, ends with no event set. */
  lemma PassKeeps(c: Config, osccal: byte, r: Regs, t: Traffic, stay: bool)
    requires ConfigOk(c) && KeptOk(r.vectorTemp) && TrafficOk(t) && r.events == 0
    ensures var step := Pass(c, osccal, r, t, stay);
      KeptOk(step.regs.vectorTemp) && (!step.exit ==> step.regs.events == 0)
  {
    ServedEvents(c, osccal, r, t);
    var r1 := Serve(c, osccal, r, t).0;
    PassParts(c, osccal, r, t, stay);
    AfterPollExit(c, osccal, r1, stay);
    AfterPollKept(c, osccal, r1, stay);
  }

  /** A pass is the traffic, then the rest of the poll. */
  lemma PassParts(c: Config, osccal: byte, r: Regs, t: Traffic, stay: bool)
    requires ConfigOk(c) && KeptOk(r.vectorTemp) && TrafficOk(t) && r.events == 0
    ensures var r1 := Serve(c, osccal, r, t).0;
      KeptOk(r1.vectorTemp) && (IsEvent(r1.events, EVENT_WRITE_PAGE) ==> r1.currentAddress % PageSize(c) == 0)
    ensures var step := Pass(c, osccal, r, t, stay);
      (step.regs, step.exit) == AfterPoll(c, osccal, Serve(c, osccal, r, t).0, stay)
  {
    ServedEvents(c, osccal, r, t);
  }

  /** The rest of the poll keeps two kept vectors, and issues what the events issue. */
  lemma AfterPollKept(c: Config, osccal: byte, r: Regs, stay: bool)
    requires PageShiftOk(c) && KeptOk(r.vectorTemp)
    requires IsEvent(r.events, EVENT_WRITE_PAGE) ==> r.currentAddress % PageSize(c) == 0
    ensures var r0 := r.(idlePolls := (r.idlePolls + 1) % 0x1_0000);
      var r2 := AfterPoll(c, osccal, r, stay).0;
      KeptOk(r2.vectorTemp) && r2.log == RunEvents(c, osccal, r0).log
  {
    var r0 := r.(idlePolls := (r.idlePolls + 1) % 0x1_0000);
    RunEventsKept(c, osccal, r0);
  }

  lemma RunEventsKept(c: Config, osccal: byte, r: Regs)
    requires PageShiftOk(c) && KeptOk(r.vectorTemp)
    requires IsEvent(r.events, EVENT_WRITE_PAGE) ==> r.currentAddress % PageSize(c) == 0
    ensures KeptOk(RunEvents(c, osccal, r).vectorTemp)
  {
    EraseEndsOnPage(c, osccal, r);
    var r1 := if IsEvent(r.events, EVENT_ERASE_APPLICATION) then AfterErase(c, osccal, r) else r;
    if IsEvent(r1.events, EVENT_WRITE_PAGE) {
      PageAligned(PageSize(c), r1.currentAddress);
    }
  }

  // ---------------------------------------------------------------------
  // Arithmetic on page-aligned addresses

  lemma PageBounds(k: nat)
    requires 1 <= k <= 8
    ensures 2 <= Pow2(k) <= 256 && Pow2(k) % 2 == 0
  {
    PowMono(k, 8);
    assert Pow2(8) == 256;
    ModUnique(Pow2(k), 2, Pow2(k - 1), 0);
  }
  /** An even multiple of the page size is even. */
  lemma EvenMultiple(p: nat, q: int)
    requires p % 2 == 0
    ensures p * q == 2 * (p / 2 * q)
  {
    var h := p / 2;
    assert p == 2 * h;
  }

  /** An address on a boundary of pages of even size is even. */
  lemma PageAligned(p: nat, a: nat)
    requires p > 0 && p % 2 == 0 && a % p == 0
    ensures a % 2 == 0
  {
    var q := a / p;
    EvenMultiple(p, q);
    ModUnique(a, 2, p / 2 * q, 0);
  }

  /** The remainder of an even address by an even page size is even. */
  lemma EvenRemainder(p: nat, a: nat)
    requires p > 0 && p % 2 == 0 && a % 2 == 0
    ensures a % p % 2 == 0
  {
    var q, m := a / p, a % p;
    var t := p * q;
    assert a == t + m;
    EvenMultiple(p, q);
    var u, j := p / 2 * q, a / 2;
    assert t == 2 * u && a == 2 * j;
    assert m == 2 * (j - u);
    ModUnique(m, 2, j - u, 0);
  }

  /** How many bytes are left to the next boundary of pages of `p` bytes; 0 on a boundary. */
  function ToBoundary(p: nat, a: nat): nat
    requires p > 0
  {
    if a % p == 0 then 0 else p - a % p
  }

  /**
   * Two bytes on from an even address, in 16 bits, the address is even and
   * two bytes nearer the next boundary of pages of even size, or on it.
   */
  lemma StepInPage(p: nat, a: word)
    requires p > 0 && p % 2 == 0 && a % 2 == 0 && a % p != 0
    ensures (a + 2) % 0x1_0000 % 2 == 0 && ToBoundary(p, (a + 2) % 0x1_0000) < ToBoundary(p, a)
  {
    var b := (a + 2) % 0x1_0000;
    if a + 2 < 0x1_0000 {
      assert b == a + 2;
      ModUnique(a + 2, 2, a / 2 + 1, 0);
      StepBelowWrap(p, a);
    } else {
      assert a == 0xFFFE && b == 0;
      ModUnique(0, p, 0, 0);
    }
  }

  lemma StepBelowWrap(p: nat, a: nat)
    requires p > 0 && p % 2 == 0 && a % 2 == 0 && a % p != 0
    ensures ToBoundary(p, a + 2) < ToBoundary(p, a)
  {
    var q, m := a / p, a % p;
    EvenRemainder(p, a);
    if m + 2 < p {
      ModUnique(a + 2, p, q, m + 2);
    } else {
      assert m + 2 == p;
      ModUnique(a + 2, p, q + 1, 0);
    }
  }

  // ---------------------------------------------------------------------
  // The bootloader

  class Bootloader {
    const config: Config
    /** The value of the OSCCAL register while the bootloader runs. */
    const osccal: byte
    const vectorTemp: array<word>
    var currentAddress: word
    var events: byte
    var idlePolls: word
    var didWriteSomething: bool
    var log: seq<SpmOp>

    ghost predicate Valid()
      reads this
    {
      ConfigOk(config) && vectorTemp.Length == 2
    }

    function State(): Regs
      reads this, vectorTemp
    {
      Regs(currentAddress, vectorTemp[..], events, idlePolls, didWriteSomething, log)
    }

    /** The registers as static storage starts them. */
    constructor (config: Config, osccal: byte)
      requires ConfigOk(config)
      ensures Valid() && fresh(vectorTemp) && this.config == config && this.osccal == osccal
      ensures State() == Regs(0, [0, 0], 0, 0, false, [])
    {
      this.config := config;
      this.osccal := osccal;
      vectorTemp := new word[2](_ => 0);
      currentAddress, events, idlePolls, didWriteSomething, log := 0, 0, 0, false, [];
      new;
      assert vectorTemp[..] == [0, 0];
    }

    /** `writeWordToPageBuffer`. */
    method WriteWordToPageBuffer(data: word)
      requires Valid()
      modifies this
      ensures Valid() && State() == AfterFill(config, osccal, old(State()), data)
    {
      var d := Patched(config, osccal, vectorTemp[..], currentAddress, data);
      if currentAddress == 0 {
        log := log + [PageBufferClear];
      }
      log := log + [PageFill(currentAddress, d)];
      currentAddress := (currentAddress + 2) % 0x1_0000;
    }

    /** `writeFlashPage`. */
    method WriteFlashPage()
      requires Valid()
      modifies this
      ensures Valid() && State() == AfterPageWrite(old(State()))
    {
      didWriteSomething := true;
      log := log + [PageWrite((currentAddress + 0xFFFE) % 0x1_0000)];
    }

    /** `fillFlashWithVectors`: a `do`/`while` loop, here its first pass and then the loop. */
    method FillFlashWithVectors()
      requires Valid() && currentAddress % 2 == 0
      modifies this
      ensures Valid() && State() == AfterFillFlash(config, osccal, old(State()))
    {
      Step2Even(currentAddress);
      WriteWordToPageBuffer(0xFFFF);
      while currentAddress % PageSize(config) != 0
        invariant Valid() && currentAddress % 2 == 0
        invariant PadFrom(config, osccal, State()) == PadFrom(config, osccal, AfterFill(config, osccal, old(State()), 0xFFFF))
        decreases ToBoundary(PageSize(config), currentAddress)
      {
        StepInPage(PageSize(config), currentAddress);
        WriteWordToPageBuffer(0xFFFF);
      }
      WriteFlashPage();
    }

    /** `eraseApplication`: the pages below the entry from the top down, then the vectors. */
    method EraseApplication()
      requires Valid()
      modifies this
      ensures Valid() && State() == AfterErase(config, osccal, old(State()))
    {
      ErasePagesDown();
      FillFlashWithVectors();
    }

    /** The loop of `eraseApplication`: every page below the entry erased, from the top down. */
    method ErasePagesDown()
      requires Valid()
      modifies this
      ensures Valid()
      ensures State() == old(State()).(currentAddress := 0, log := old(log) + ErasedDown(ErasePages(config), 0, PageSize(config)))
    {
      var p := PageSize(config);
      FlashFits(config);
      currentAddress := BootloaderEntry(config);
      ghost var n := ErasePages(config);
      ghost var k := n;
      EntryPages(config);
      while currentAddress != 0
        invariant k <= n && currentAddress == Times(k, p)
        invariant log == old(log) + ErasedDown(n, k, p)
        invariant events == old(events) && idlePolls == old(idlePolls) && didWriteSomething == old(didWriteSomething)
        decreases k
      {
        k := k - 1;
        currentAddress := currentAddress - p;
        log := log + [PageErase(currentAddress)];
      }
    }

    /** `tiny85FlashWrites`. */
    method FlashWrites()
      requires Valid() && currentAddress % 2 == 0
      modifies this
      ensures Valid() && State() == AfterFlashWrites(config, osccal, old(State()))
    {
      if currentAddress % PageSize(config) != 0 {
        FillFlashWithVectors();
      } else {
        WriteFlashPage();
      }
    }

    /** `usbFunctionSetup`: the reply length, and the bytes `usbMsgPtr` is set to. */
    method FunctionSetup(q: Request) returns (len: byte, msg: seq<byte>)
      requires Valid()
      modifies this
      ensures Valid() && (State(), SetupReply(len, msg)) == AfterSetup(config, old(State()), q)
    {
      idlePolls := 0;
      msg := [];
      if q.bRequest == 0 {
        msg := ReplyBuffer(config);
        return 6, msg;
      } else if q.bRequest == 1 {
        currentAddress := q.wIndex;
        return USB_NO_MSG, msg;
      } else if q.bRequest == 2 {
        events := FireEvent(events, EVENT_ERASE_APPLICATION);
      } else if config.canExit {
        events := FireEvent(events, EVENT_EXECUTE);
      }
      len := 0;
    }

    /** One pass of the `usbFunctionWrite` loop; true when it breaks off at the bootloader entry. */
    method StoreWord(w: word) returns (stop: bool)
      requires Valid()
      modifies this, vectorTemp
      ensures Valid() && (State(), stop) == Store(config, osccal, old(State()), w)
    {
      if !IsKeptVector(config, currentAddress) && currentAddress >= BootloaderEntry(config) {
        return true;
      }
      KeepVector(w);
      WriteWordToPageBuffer(w);
      stop := false;
    }

    /** The vector a word sent for the reset or USB vector is kept aside as. */
    method KeepVector(w: word)
      requires Valid()
      modifies vectorTemp
      ensures vectorTemp[..] == Kept(config, old(vectorTemp[..]), currentAddress, w)
    {
      if currentAddress == RESET_VECTOR_OFFSET * VectorSize(config) {
        vectorTemp[0] := Rjmp2Addr(config, w, RESET_VECTOR_OFFSET);
      } else if config.jmpVectors && currentAddress == RESET_VECTOR_OFFSET * VectorSize(config) + 2 {
        if IsAddress(w) {
          vectorTemp[0] := w;
        }
      } else if currentAddress == UsbVector(config) {
        vectorTemp[1] := Rjmp2Addr(config, (w + config.appVusbOffset) % 0x1_0000, config.usbIntrVectorNum);
      } else if config.jmpVectors && currentAddress == UsbVector(config) + 2 {
        if IsAddress(w) {
          vectorTemp[1] := w;
        }
      }
    }

    /**
     * `usbFunctionWrite`: a `do`/`while` loop over the words, which with at
     * least one word is the `while` loop here.
     */
    method FunctionWrite(data: seq<byte>) returns (isLast: bool)
      requires Valid() && |data| >= 2 && |data| % 2 == 0
      modifies this, vectorTemp
      ensures Valid() && (State(), isLast) == AfterWrite(config, osccal, old(State()), data)
    {
      ghost var ws := Words(data);
      var i := 0;
      while i < |data| / 2
        invariant Valid() && 0 <= i <= |data| / 2
        invariant WriteRun(config, osccal, old(State()), ws) == WriteRun(config, osccal, State(), ws[i..])
      {
        var w := LE16(data[2 * i], data[2 * i + 1]);
        assert ws[i] == w;
        assert ws[i..][0] == w && ws[i..][1..] == ws[i + 1..];
        var stop := StoreWord(w);
        if stop {
          break;
        }
        i := i + 1;
      }
      isLast := currentAddress % PageSize(config) == 0;
      if isLast {
        events := FireEvent(events, EVENT_WRITE_PAGE);
      }
    }

    /** `usbPoll`, as far as it calls back into the bootloader. */
    method ServeTraffic(t: Traffic) returns (answer: Answer)
      requires Valid() && TrafficOk(t)
      modifies this, vectorTemp
      ensures Valid() && (State(), answer) == Serve(config, osccal, old(State()), t)
    {
      match t {
        case Quiet =>
          answer := NoAnswer;
        case Setup(q) =>
          var len, msg := FunctionSetup(q);
          answer := SetupAnswer(SetupReply(len, msg));
        case Data(bytes) =>
          var last := FunctionWrite(bytes);
          answer := WriteAnswer(last);
      }
    }

    /** One pass of the `main` loop; true when it leaves for the user program. */
    method MainPass(t: Traffic, stay: bool) returns (exit: bool, answer: Answer)
      requires Valid() && TrafficOk(t) && events == 0
      modifies this, vectorTemp
      ensures Valid() && Step(State(), exit, answer) == Pass(config, osccal, old(State()), t, stay)
    {
      ServedEvents(config, osccal, State(), t);
      answer := ServeTraffic(t);
      exit := EndPass(stay);
    }

    /** The main loop over the given passes; true when it leaves, with the passes it ran. */
    method MainLoop(ps: seq<Poll>) returns (exited: bool, passes: nat)
      requires Valid() && events == 0
      requires forall i :: 0 <= i < |ps| ==> TrafficOk(ps[i].traffic)
      modifies this, vectorTemp
      ensures Valid() && Outcome(State(), passes, exited) == Loop(config, osccal, old(State()), ps)
    {
      passes := 0;
      exited := false;
      while passes < |ps|
        invariant Valid() && passes <= |ps| && events == 0
        invariant Loop(config, osccal, old(State()), ps) == Later(Loop(config, osccal, State(), ps[passes..]), passes)
      {
        ghost var before := State();
        PassKeeps(config, osccal, before, ps[passes].traffic, ps[passes].stay);
        var exit, answer := MainPass(ps[passes].traffic, ps[passes].stay);
        assert ps[passes..][1..] == ps[passes + 1..];
        passes := passes + 1;
        if exit {
          exited := true;
          return;
        }
      }
    }

    /** The rest of a pass after `usbPoll`: the idle count, the events, the exit or the events cleared. */
    method EndPass(stay: bool) returns (exit: bool)
      requires Valid()
      requires IsEvent(events, EVENT_WRITE_PAGE) ==> currentAddress % PageSize(config) == 0
      modifies this
      ensures Valid() && (State(), exit) == AfterPoll(config, osccal, old(State()), stay)
    {
      idlePolls := (idlePolls + 1) % 0x1_0000;
      CarryOutEvents();
      if config.canExit && IsEvent(events, EVENT_EXECUTE) {
        return true;
      }
      events := 0;
      exit := !stay;
    }

    /** The erase and the page write the events of this pass ask for. */
    method CarryOutEvents()
      requires Valid()
      requires IsEvent(events, EVENT_WRITE_PAGE) ==> currentAddress % PageSize(config) == 0
      modifies this
      ensures Valid() && State() == RunEvents(config, osccal, old(State()))
    {
      EraseEndsOnPage(config, osccal, State());
      if IsEvent(events, EVENT_ERASE_APPLICATION) {
        EraseApplication();
      }
      if IsEvent(events, EVENT_WRITE_PAGE) {
        PageAligned(PageSize(config), currentAddress);
        FlashWrites();
      }
    }
  }

  // ---------------------------------------------------------------------
  // Properties

  /** The erase leaves the address on a page boundary and the events as they were. */
  lemma EraseEndsOnPage(c: Config, osccal: byte, r: Regs)
    requires PageShiftOk(c) && KeptOk(r.vectorTemp)
    ensures var e := AfterErase(c, osccal, r);
      e.currentAddress % PageSize(c) == 0 && e.events == r.events && KeptOk(e.vectorTemp)
  {
    var r0 := r.(currentAddress := 0, log := r.log + ErasedDown(ErasePages(c), 0, PageSize(c)));
    FillEndsOnPage(c, osccal, r0);
  }

  /** Filling to the page boundary ends on it, with the events and kept vectors as they were. */
  lemma FillEndsOnPage(c: Config, osccal: byte, r: Regs)
    requires PageShiftOk(c) && KeptOk(r.vectorTemp) && r.currentAddress % 2 == 0
    ensures var e := AfterFillFlash(c, osccal, r);
      e.currentAddress % PageSize(c) == 0 && e.events == r.events && e.vectorTemp == r.vectorTemp
  {
    Step2Even(r.currentAddress);
    PadEndsOnPage(c, osccal, AfterFill(c, osccal, r, 0xFFFF));
  }

  lemma {:induction false} PadEndsOnPage(c: Config, osccal: byte, r: Regs)
    requires PageShiftOk(c) && KeptOk(r.vectorTemp) && r.currentAddress % 2 == 0
    ensures var e := PadFrom(c, osccal, r);
      e.currentAddress % PageSize(c) == 0 && e.events == r.events && e.vectorTemp == r.vectorTemp
    decreases ToBoundary(PageSize(c), r.currentAddress)
  {
    if r.currentAddress % PageSize(c) != 0 {
      StepInPage(PageSize(c), r.currentAddress);
      PadEndsOnPage(c, osccal, AfterFill(c, osccal, r, 0xFFFF));
    }
  }

  /** After the traffic of a pass, the write event is set only on a page boundary. */
  lemma ServedEvents(c: Config, osccal: byte, r: Regs, t: Traffic)
    requires ConfigOk(c) && KeptOk(r.vectorTemp) && TrafficOk(t) && r.events == 0
    ensures var (r1, _) := Serve(c, osccal, r, t);
      KeptOk(r1.vectorTemp) &&
      (IsEvent(r1.events, EVENT_WRITE_PAGE) ==> r1.currentAddress % PageSize(c) == 0)
  {
    AndZero(0);
    match t {
      case Quiet =>
      case Setup(q) =>
        EventsAccumulate(0, EVENT_ERASE_APPLICATION, EVENT_WRITE_PAGE);
        EventsAccumulate(0, EVENT_EXECUTE, EVENT_WRITE_PAGE);
      case Data(bytes) =>
        WriteRunKeeps(c, osccal, r, Words(bytes));
    }
  }

  /** The write loop keeps two kept vectors and never touches the events. */
  lemma {:induction false} WriteRunKeeps(c: Config, osccal: byte, r: Regs, ws: seq<word>)
    requires FlashOk(c) && KeptOk(r.vectorTemp)
    ensures var e := WriteRun(c, osccal, r, ws);
      KeptOk(e.vectorTemp) && e.events == r.events && e.idlePolls == r.idlePolls
    decreases |ws|
  {
    if |ws| > 0 {
      var (r1, stop) := Store(c, osccal, r, ws[0]);
      if !stop {
        WriteRunKeeps(c, osccal, r1, ws[1..]);
      }
    }
  }

  // ---------------------------------------------------------------------
  // The jumps the bootloader writes

  /** Residues modulo 4096 survive a reduction modulo a multiple of 4096. */
  lemma ResidueKept(x: int, m: nat, y: int)
    requires m > 0 && m % 0x1000 == 0
    ensures (x % m - y) % 0x1000 == (x - y) % 0x1000
  {
    var k, q := m / 0x1000, x / m;
    assert x % m == x - m * q;
    assert m * q == 0x1000 * (k * q);
    SameResidue(x % m - y, x - y, k * q);
  }

  /**
   * Decoding a relative jump and encoding it again gives back its 12-bit
   * offset; for two-word vectors this needs the flash to be a multiple of
   * 4096 words, or the backward jump wraps at its end instead.
   */
  lemma RjmpRoundTrip(c: Config, w: word, location: word)
    requires FlashOk(c) && (!c.jmpVectors || FlashWords(c) % 0x1000 == 0)
    ensures Addr2Rjmp(Rjmp2Addr(c, w, location), location) == 0xC000 + w % 0x1000
  {
    if !c.jmpVectors {
      RoundTrip(w, w, location, 0x1_0000);
    } else if (w / 0x800) % 2 == 1 {
      RoundTrip(w % 0x1000 - 0x1000, w, location, FlashWords(c));
    } else {
      RoundTrip(w % 0x1000, w, location, 0x1_0000);
    }
  }

  /** Encoding the jump to `location + 1 + d`, reduced modulo a multiple of 4096, gives back `d` modulo 4096. */
  lemma RoundTrip(d: int, w: word, location: word, m: nat)
    requires m > 0 && m % 0x1000 == 0 && (d == w || d == w % 0x1000 || d == w % 0x1000 - 0x1000)
    ensures Addr2Rjmp((d + location + 1) % m, location) == 0xC000 + w % 0x1000
  {
    EncodeReduced(d + location + 1, m, location);
    assert d + location + 1 - location - 1 == d;
    if d == w % 0x1000 - 0x1000 {
      SameResidue(d, w % 0x1000, 1);
    } else if d == w % 0x1000 {
      ModUnique(d, 0x1000, 0, d);
    }
  }

  /** The jump placed at `location` to an address reduced modulo a multiple of 4096. */
  lemma EncodeReduced(x: int, m: nat, location: int)
    requires m > 0 && m % 0x1000 == 0
    ensures Addr2Rjmp(x % m, location) == 0xC000 + (x - location - 1) % 0x1000
  {
    ResidueKept(x, m, location + 1);
  }

  /** The reset and USB vectors are jumps to the bootloader entry and its interrupt handler. */
  lemma VectorsRedirected(c: Config, osccal: byte, vectorTemp: seq<word>, data: word)
    requires ConfigOk(c) && KeptOk(vectorTemp)
    ensures var reset := Patched(c, osccal, vectorTemp, 0, data);
      reset == Addr2Rjmp(BootloaderEntry(c) / 2, 0) &&
      (1 + (reset - 0xC000)) % 0x1000 == BootloaderEntry(c) / 2 % 0x1000
    ensures var usb := Patched(c, osccal, vectorTemp, UsbVector(c), data);
      usb == Addr2Rjmp(BootloaderInterrupt(c) / 2, UsbVectorWord(c)) &&
      (UsbVectorWord(c) + 1 + (usb - 0xC000)) % 0x1000 == BootloaderInterrupt(c) / 2 % 0x1000
  {
    FlashFits(c);
    RjmpTarget(BootloaderEntry(c) / 2, 0);
    RjmpTarget(BootloaderInterrupt(c) / 2, UsbVectorWord(c));
  }

  /**
   * The tiny table below the entry holds the kept vectors and the
   * calibration: as `rjmp`s for one-word vectors, as `jmp` and address for
   * two-word vectors.
   */
  lemma TinyTable(c: Config, osccal: byte, vectorTemp: seq<word>, data: word)
    requires ConfigOk(c) && KeptOk(vectorTemp)
    ensures var ba := c.bootloaderAddress;
      !c.jmpVectors ==>
        Patched(c, osccal, vectorTemp, ba, data) == Addr2Rjmp(vectorTemp[0], ba / 2) &&
        Patched(c, osccal, vectorTemp, ba + 2, data) == Addr2Rjmp(vectorTemp[1], (ba + 2) / 2)
    ensures var ba := c.bootloaderAddress;
      c.jmpVectors ==>
        Patched(c, osccal, vectorTemp, ba, data) == JMP &&
        Patched(c, osccal, vectorTemp, ba + 2, data) == vectorTemp[0] &&
        Patched(c, osccal, vectorTemp, ba + 4, data) == JMP &&
        Patched(c, osccal, vectorTemp, ba + 6, data) == (vectorTemp[1] as int + 4) % 0x1_0000
    ensures Patched(c, osccal, vectorTemp, c.bootloaderAddress + StoredOsccalOffset(c), data) == osccal
  {
    FlashFits(c);
  }

  /** Every other word is buffered as the host sent it. */
  lemma OtherWordsKept(c: Config, osccal: byte, vectorTemp: seq<word>, address: word, data: word)
    requires KeptOk(vectorTemp)
    requires address != 0 && address != UsbVector(c)
    requires !(c.bootloaderAddress <= address < BootloaderEntry(c))
    ensures Patched(c, osccal, vectorTemp, address, data) == data
  {
  }

  /**
   * With one-word vectors, the jump the tiny table gets for the user
   * program's reset vector goes where that vector went, and the one for its
   * USB vector where that vector went, moved on by the program's own
   * offset; with two-word vectors the absolute address is kept as it is.
   */
  lemma VectorsRelocated(c: Config, osccal: byte, r: Regs, w: word, data: word)
    requires ConfigOk(c) && KeptOk(r.vectorTemp)
    ensures r.currentAddress == 0 && !c.jmpVectors ==>
      var (r1, _) := Store(c, osccal, r, w);
      var t := Patched(c, osccal, r1.vectorTemp, c.bootloaderAddress, data);
      (c.bootloaderAddress / 2 + 1 + (t - 0xC000)) % 0x1000 == (1 + w) % 0x1000
    ensures r.currentAddress == UsbVector(c) && !c.jmpVectors ==>
      var (r1, _) := Store(c, osccal, r, w);
      var t := Patched(c, osccal, r1.vectorTemp, c.bootloaderAddress + 2, data);
      ((c.bootloaderAddress + 2) / 2 + 1 + (t - 0xC000)) % 0x1000 ==
        (c.usbIntrVectorNum + 1 + w + c.appVusbOffset) % 0x1000
    ensures r.currentAddress == 2 && c.jmpVectors && IsAddress(w) ==>
      var (r1, _) := Store(c, osccal, r, w);
      Patched(c, osccal, r1.vectorTemp, c.bootloaderAddress + 2, data) == w
  {
    FlashFits(c);
    if r.currentAddress == 0 && !c.jmpVectors {
      ResetRelocated(c, osccal, r, w, data);
    }
    if r.currentAddress == UsbVector(c) && !c.jmpVectors {
      UsbRelocated(c, osccal, r, w, data);
    }
  }

  lemma ResetRelocated(c: Config, osccal: byte, r: Regs, w: word, data: word)
    requires FlashOk(c) && KeptOk(r.vectorTemp) && VectorsBelow(c) && BootloaderEntry(c) < 0x1_0000
    requires r.currentAddress == 0 && !c.jmpVectors
    ensures var (r1, _) := Store(c, osccal, r, w);
      var t := Patched(c, osccal, r1.vectorTemp, c.bootloaderAddress, data);
      (c.bootloaderAddress / 2 + 1 + (t - 0xC000)) % 0x1000 == (1 + w) % 0x1000
  {
    var ba := c.bootloaderAddress;
    var v := (w + 1) % 0x1_0000;
    var (r1, _) := Store(c, osccal, r, w);
    assert r1.vectorTemp[0] == v;
    RjmpTarget(v, ba / 2);
    ResidueKept(w + 1, 0x1_0000, 0);
  }

  lemma UsbRelocated(c: Config, osccal: byte, r: Regs, w: word, data: word)
    requires FlashOk(c) && KeptOk(r.vectorTemp) && VectorsBelow(c) && BootloaderEntry(c) < 0x1_0000
    requires r.currentAddress == UsbVector(c) && !c.jmpVectors
    ensures var (r1, _) := Store(c, osccal, r, w);
      var t := Patched(c, osccal, r1.vectorTemp, c.bootloaderAddress + 2, data);
      ((c.bootloaderAddress + 2) / 2 + 1 + (t - 0xC000)) % 0x1000 ==
        (c.usbIntrVectorNum + 1 + w + c.appVusbOffset) % 0x1000
  {
    var ba := c.bootloaderAddress;
    var x := (w + c.appVusbOffset) % 0x1_0000 + c.usbIntrVectorNum + 1;
    var (r1, _) := Store(c, osccal, r, w);
    assert r1.vectorTemp[1] == x % 0x1_0000;
    RjmpTarget(x % 0x1_0000, (ba + 2) / 2);
    WrappedResidue(w + c.appVusbOffset, c.usbIntrVectorNum);
  }

  lemma WrappedResidue(v: int, n: int)
    ensures ((v % 0x1_0000 + n + 1) % 0x1_0000) % 0x1000 == (n + 1 + v) % 0x1000
  {
    ResidueKept(v % 0x1_0000 + n + 1, 0x1_0000, 0);
    ResidueKept(v, 0x1_0000, -(n + 1));
  }

  /** The reset and USB vectors lie below the tiny table. */
  predicate VectorsBelow(c: Config)
  {
    0 < c.usbIntrVectorNum && UsbVector(c) + VectorSize(c) <= c.bootloaderAddress
  }

  // ---------------------------------------------------------------------
  // Padding a page

  /** The fills of `n` words of 0xFFFF from `address` on, each patched as `writeWordToPageBuffer` patches it. */
  function PadOps(c: Config, osccal: byte, vectorTemp: seq<word>, address: word, n: nat): seq<SpmOp>
    requires KeptOk(vectorTemp)
    decreases n
  {
    if n == 0 then []
    else FillOps(c, osccal, vectorTemp, address, 0xFFFF) + PadOps(c, osccal, vectorTemp, (address + 2) % 0x1_0000, n - 1)
  }

  /** Padding only fills the page buffer: it neither erases nor writes a page. */
  lemma {:induction false} PadOpsOnlyFill(c: Config, osccal: byte, vectorTemp: seq<word>, address: word, n: nat)
    requires KeptOk(vectorTemp)
    ensures forall op :: op in PadOps(c, osccal, vectorTemp, address, n) ==> op.PageFill? || op.PageBufferClear?
    decreases n
  {
    if n > 0 {
      PadOpsOnlyFill(c, osccal, vectorTemp, (address + 2) % 0x1_0000, n - 1);
    }
  }

  /** The bytes from `a` to the end of its page, a whole page on a boundary. */
  function Gap(p: nat, a: nat): nat
    requires p > 0
  {
    p - a % p
  }

  /** A page divides the 64 KiB the 16-bit address wraps at. */
  lemma PageDividesRange(c: Config)
    requires PageShiftOk(c)
    ensures 0x1_0000 % PageSize(c) == 0
  {
    Pow2Split(c.pageShift, 16 - c.pageShift);
    Pow2Sixteen();
    ModUnique(0x1_0000, PageSize(c), Pow2(16 - c.pageShift), 0);
  }

  lemma Pow2Sixteen()
    ensures Pow2(16) == 0x1_0000
  {
    assert Pow2(4) == 16;
    assert Pow2(8) == 256;
    Pow2Split(8, 8);
  }

  /**
   * One word on, in 16 bits, the rest of the page is two bytes shorter,
   * and the boundary it ends at is the same.
   */
  lemma StepGap(p: nat, a: word)
    requires p > 0 && p % 2 == 0 && 0x1_0000 % p == 0 && a % 2 == 0
    ensures var b := (a + 2) % 0x1_0000;
      Gap(p, a) >= 2 && b % 2 == 0 && ToBoundary(p, b) == Gap(p, a) - 2 &&
      (b + ToBoundary(p, b)) % 0x1_0000 == (a + Gap(p, a)) % 0x1_0000
  {
    EvenRemainder(p, a);
    GapEven(p, a);
    var b := (a + 2) % 0x1_0000;
    if a + 2 < 0x1_0000 {
      assert b == a + 2;
      StepInside(p, a);
    } else {
      assert a == 0xFFFE && b == 0;
      StepWrap(p);
    }
  }

  lemma StepInside(p: nat, a: nat)
    requires p > 0 && a % p % 2 == 0 && p % 2 == 0
    ensures ToBoundary(p, a + 2) == Gap(p, a) - 2
  {
    var q, m := a / p, a % p;
    var pq := p * q;
    assert a == pq + m;
    if m + 2 < p {
      ModUnique(a + 2, p, q, m + 2);
    } else {
      var t := p * (q + 1);
      assert t == pq + p;
      ModUnique(a + 2, p, q + 1, 0);
    }
  }

  lemma StepWrap(p: nat)
    requires p > 0 && p % 2 == 0 && 0x1_0000 % p == 0
    ensures ToBoundary(p, 0) == 0 && Gap(p, 0xFFFE) == 2
  {
    ModUnique(0, p, 0, 0);
    var k := 0x1_0000 / p;
    DivExact(0x1_0000, p);
    var t := p * (k - 1);
    assert 0x1_0000 == t + p;
    ModUnique(0xFFFE, p, k - 1, p - 2);
  }

  /** The `while` part of the fill pads with `n` words of 0xFFFF to the boundary and changes nothing else. */
  lemma PadFromOps(c: Config, osccal: byte, r: Regs, n: nat)
    requires PageShiftOk(c) && KeptOk(r.vectorTemp) && r.currentAddress % 2 == 0
    requires 2 * n == ToBoundary(PageSize(c), r.currentAddress)
    ensures PadFrom(c, osccal, r) ==
      r.(currentAddress := (r.currentAddress + 2 * n) % 0x1_0000,
         log := r.log + PadOps(c, osccal, r.vectorTemp, r.currentAddress, n))
  {
    PadFromWords(c, osccal, r, n);
    PadWordsOps(c, osccal, r, n);
  }

  /** `n` fills of 0xFFFF, one after the other. */
  function PadWords(c: Config, osccal: byte, r: Regs, n: nat): Regs
    requires KeptOk(r.vectorTemp)
    decreases n
  {
    if n == 0 then r else PadWords(c, osccal, AfterFill(c, osccal, r, 0xFFFF), n - 1)
  }

  /** The `while` loop of the fill runs exactly the words to the boundary. */
  lemma {:induction false} PadFromWords(c: Config, osccal: byte, r: Regs, n: nat)
    requires PageShiftOk(c) && KeptOk(r.vectorTemp) && r.currentAddress % 2 == 0
    requires 2 * n == ToBoundary(PageSize(c), r.currentAddress)
    ensures PadFrom(c, osccal, r) == PadWords(c, osccal, r, n)
    decreases n
  {
    if n > 0 {
      var a, p := r.currentAddress, PageSize(c);
      PageDividesRange(c);
      StepGap(p, a);
      PadFromWords(c, osccal, AfterFill(c, osccal, r, 0xFFFF), n - 1);
    }
  }

  /** `n` fills advance the address by `2·n` in 16 bits and buffer the padding words. */
  lemma {:induction false} PadWordsOps(c: Config, osccal: byte, r: Regs, n: nat)
    requires KeptOk(r.vectorTemp)
    ensures PadWords(c, osccal, r, n) ==
      r.(currentAddress := (r.currentAddress + 2 * n) % 0x1_0000,
         log := r.log + PadOps(c, osccal, r.vectorTemp, r.currentAddress, n))
    decreases n
  {
    if n > 0 {
      var a := r.currentAddress;
      var b := (a as int + 2) % 0x1_0000;
      var fill := FillOps(c, osccal, r.vectorTemp, a, 0xFFFF);
      var r1 := AfterFill(c, osccal, r, 0xFFFF);
      assert r1 == r.(currentAddress := b, log := r.log + fill);
      PadWordsOps(c, osccal, r1, n - 1);
      var rest := PadOps(c, osccal, r.vectorTemp, b, n - 1);
      PadOpsStep(c, osccal, r.vectorTemp, a, n);
      assert r1.log + rest == r.log + (fill + rest);
      WrapStep(a, n);
    }
  }

  lemma PadOpsStep(c: Config, osccal: byte, vectorTemp: seq<word>, a: word, n: nat)
    requires KeptOk(vectorTemp) && n > 0
    ensures PadOps(c, osccal, vectorTemp, a, n) ==
      FillOps(c, osccal, vectorTemp, a, 0xFFFF) + PadOps(c, osccal, vectorTemp, (a as int + 2) % 0x1_0000, n - 1)
  {
  }

  /** Two bytes on and then 2·(n - 1) more, in 16 bits, is 2·n on. */
  lemma WrapStep(a: word, n: nat)
    requires n > 0
    ensures ((a as int + 2) % 0x1_0000 + 2 * (n - 1)) % 0x1_0000 == (a + 2 * n) % 0x1_0000
  {
    var b := a as int + 2;
    if b >= 0x1_0000 {
      ModUnique(b, 0x1_0000, 1, b - 0x1_0000);
      var x := b - 0x1_0000 + 2 * (n - 1);
      var k := x / 0x1_0000;
      ModUnique(a + 2 * n, 0x1_0000, k + 1, x % 0x1_0000);
    }
  }

  /**
   * `fillFlashWithVectors` pads with 0xFFFF from the current address to the
   * end of its page (a whole page when it starts on a boundary), then
   * writes that page once.
   */
  lemma FillPads(c: Config, osccal: byte, r: Regs)
    requires PageShiftOk(c) && KeptOk(r.vectorTemp) && r.currentAddress % 2 == 0
    ensures var a, p := r.currentAddress, PageSize(c);
      var e := (a + Gap(p, a)) % 0x1_0000;
      e % p == 0 && Gap(p, a) >= 2 &&
      AfterFillFlash(c, osccal, r) ==
        r.(currentAddress := e, didWriteSomething := true,
           log := r.log + PadOps(c, osccal, r.vectorTemp, a, Gap(p, a) / 2) + [PageWrite((e + 0xFFFE) % 0x1_0000)])
  {
    var a, p := r.currentAddress, PageSize(c);
    PageDividesRange(c);
    GapEven(p, a);
    BoundaryWraps(p, a);
    var n := Gap(p, a) / 2;
    FillFlashWords(c, osccal, r);
    PadWordsOps(c, osccal, r, n);
  }

  /** The fill is `Gap / 2` fills of 0xFFFF, then the page write. */
  lemma FillFlashWords(c: Config, osccal: byte, r: Regs)
    requires PageShiftOk(c) && KeptOk(r.vectorTemp) && r.currentAddress % 2 == 0
    ensures AfterFillFlash(c, osccal, r) ==
      AfterPageWrite(PadWords(c, osccal, r, Gap(PageSize(c), r.currentAddress) / 2))
  {
    var a, p := r.currentAddress, PageSize(c);
    PageDividesRange(c);
    PadArith(p, a);
    var r1 := AfterFill(c, osccal, r, 0xFFFF);
    var n := Gap(p, a) / 2;
    assert r1.currentAddress == (a as int + 2) % 0x1_0000;
    PadFromWords(c, osccal, r1, n - 1);
    assert PadWords(c, osccal, r, n) == PadWords(c, osccal, r1, n - 1);
  }

  /** The arithmetic of a fill: a whole number of words to the boundary, which the 16-bit address reaches. */
  lemma PadArith(p: nat, a: word)
    requires p > 0 && p % 2 == 0 && 0x1_0000 % p == 0 && a % 2 == 0
    ensures var b, g := (a as int + 2) % 0x1_0000, Gap(p, a);
      g >= 2 && g % 2 == 0 && b % 2 == 0 && ToBoundary(p, b) == 2 * (g / 2 - 1) &&
      (b + ToBoundary(p, b)) % 0x1_0000 == (a + g) % 0x1_0000 && (a + g) % 0x1_0000 % p == 0
  {
    StepGap(p, a);
    GapEven(p, a);
    BoundaryWraps(p, a);
  }

  /** The rest of a page from an even address is a whole number of words, at least one. */
  lemma GapEven(p: nat, a: nat)
    requires p > 0 && p % 2 == 0 && a % 2 == 0
    ensures Gap(p, a) >= 2 && Gap(p, a) % 2 == 0
  {
    EvenRemainder(p, a);
    var m := a % p;
    ModUnique(Gap(p, a), 2, p / 2 - m / 2, 0);
  }

  /** The boundary a fill ends at, reached in 16 bits, is still a page boundary. */
  lemma BoundaryWraps(p: nat, a: word)
    requires p > 0 && 0x1_0000 % p == 0
    ensures (a + Gap(p, a)) % 0x1_0000 % p == 0
  {
    var q, m := a / p, a % p;
    var pq := p * q;
    assert a == pq + m;
    var t := p * (q + 1);
    assert t == pq + p;
    assert a + Gap(p, a) == t;
    ModUnique(t, p, q + 1, 0);
    var j := 0x1_0000 / p;
    DivExact(0x1_0000, p);
    ModSplit(t, p, j);
    var y := t % 0x1_0000;
    assert y == p * ((q + 1) % j);
    ModUnique(y, p, (q + 1) % j, 0);
  }

  /**
   * `eraseApplication` erases the pages below the entry from the top down,
   * and then at once rewrites page 0, whose first word is again the jump to
   * the bootloader.
   */
  lemma EraseRewritesVectors(c: Config, osccal: byte, r: Regs)
    requires PageShiftOk(c) && KeptOk(r.vectorTemp)
    ensures var p, n := PageSize(c), ErasePages(c);
      var pad := PadOps(c, osccal, r.vectorTemp, 0, p / 2);
      AfterErase(c, osccal, r) ==
        r.(currentAddress := p, didWriteSomething := true,
           log := r.log + ErasedDown(n, 0, p) + pad + [PageWrite(p - 2)]) &&
      |pad| >= 2 && pad[0] == PageBufferClear &&
      pad[1] == PageFill(0, Addr2Rjmp(BootloaderEntry(c) / 2, 0))
  {
    EraseFill(c, osccal, r);
    PadStart(c, osccal, r.vectorTemp, PageSize(c) / 2);
  }

  /** The erase, then the padding of page 0 and its write. */
  lemma EraseFill(c: Config, osccal: byte, r: Regs)
    requires PageShiftOk(c) && KeptOk(r.vectorTemp)
    ensures var p := PageSize(c);
      AfterErase(c, osccal, r) ==
        r.(currentAddress := p, didWriteSomething := true,
           log := r.log + ErasedDown(ErasePages(c), 0, p) + PadOps(c, osccal, r.vectorTemp, 0, p / 2) + [PageWrite(p - 2)])
  {
    var erased := ErasedDown(ErasePages(c), 0, PageSize(c));
    var r0 := r.(currentAddress := 0, log := r.log + erased);
    assert AfterErase(c, osccal, r) == AfterFillFlash(c, osccal, r0);
    FillFromZero(c, osccal, r0);
  }

  /** From address 0 the fill pads the whole page and writes it. */
  lemma FillFromZero(c: Config, osccal: byte, r: Regs)
    requires PageShiftOk(c) && KeptOk(r.vectorTemp) && r.currentAddress == 0
    ensures var p := PageSize(c);
      AfterFillFlash(c, osccal, r) ==
        r.(currentAddress := p, didWriteSomething := true,
           log := r.log + PadOps(c, osccal, r.vectorTemp, 0, p / 2) + [PageWrite(p - 2)])
  {
    var p := PageSize(c);
    var n := p / 2;
    ZeroGap(p);
    FillFlashWords(c, osccal, r);
    PadWordsOps(c, osccal, r, n);
    var pad := PadOps(c, osccal, r.vectorTemp, 0, n);
    var w := PadWords(c, osccal, r, n);
    assert w == r.(currentAddress := p, log := r.log + pad);
    assert AfterFillFlash(c, osccal, r) == AfterPageWrite(w);
  }

  /** From address 0 the fill covers the whole page. */
  lemma ZeroGap(p: nat)
    requires 2 <= p <= 256 && p % 2 == 0
    ensures Gap(p, 0) == p && Gap(p, 0) / 2 == p / 2 && (0 + 2 * (p / 2)) % 0x1_0000 == p && (p + 0xFFFE) % 0x1_0000 == p - 2
  {
    ModUnique(0, p, 0, 0);
  }

  /** Padding from address 0 clears the page buffer and then buffers the jump to the bootloader. */
  lemma PadStart(c: Config, osccal: byte, vectorTemp: seq<word>, n: nat)
    requires KeptOk(vectorTemp) && n >= 1
    ensures var pad := PadOps(c, osccal, vectorTemp, 0, n);
      |pad| >= 2 && pad[0] == PageBufferClear && pad[1] == PageFill(0, Addr2Rjmp(BootloaderEntry(c) / 2, 0))
  {
    var fill := FillOps(c, osccal, vectorTemp, 0, 0xFFFF);
    assert fill == [PageBufferClear, PageFill(0, Addr2Rjmp(BootloaderEntry(c) / 2, 0))];
    assert PadOps(c, osccal, vectorTemp, 0, n) == fill + PadOps(c, osccal, vectorTemp, 2, n - 1);
  }

  // ---------------------------------------------------------------------
  // Writing a page

  /** `usbFunctionWrite` never puts a word into the page buffer at or above the bootloader entry. */
  lemma {:induction false} WriteRunBelow(c: Config, osccal: byte, r: Regs, ws: seq<word>)
    requires ConfigOk(c) && KeptOk(r.vectorTemp)
    ensures var e := WriteRun(c, osccal, r, ws);
      |r.log| <= |e.log| && e.log[..|r.log|] == r.log &&
      forall i :: |r.log| <= i < |e.log| && e.log[i].PageFill? ==> e.log[i].address < BootloaderEntry(c)
    decreases |ws|
  {
    if |ws| > 0 {
      var (r1, stop) := Store(c, osccal, r, ws[0]);
      if !stop {
        WriteRunBelow(c, osccal, r1, ws[1..]);
        var e := WriteRun(c, osccal, r1, ws[1..]);
        assert e.log[..|r.log|] == e.log[..|r1.log|][..|r.log|];
      }
    }
  }

  /** Words below the entry are all buffered, one address after the other. */
  lemma {:induction false} WriteRunAdvances(c: Config, osccal: byte, r: Regs, ws: seq<word>)
    requires FlashOk(c) && KeptOk(r.vectorTemp) && BootloaderEntry(c) < 0x1_0000
    requires r.currentAddress + 2 * |ws| <= BootloaderEntry(c)
    ensures WriteRun(c, osccal, r, ws).currentAddress == r.currentAddress + 2 * |ws|
    decreases |ws|
  {
    if |ws| > 0 {
      StoreBelow(c, osccal, r, ws[0]);
      var (r1, stop) := Store(c, osccal, r, ws[0]);
      WriteRunAdvances(c, osccal, r1, ws[1..]);
    }
  }

  /** A word below the entry is buffered, and the address moves on by one word. */
  lemma StoreBelow(c: Config, osccal: byte, r: Regs, w: word)
    requires FlashOk(c) && KeptOk(r.vectorTemp) && r.currentAddress + 2 <= BootloaderEntry(c) < 0x1_0000
    ensures var (r1, stop) := Store(c, osccal, r, w);
      !stop && r1.currentAddress == r.currentAddress + 2 && KeptOk(r1.vectorTemp)
  {
  }

  /**
   * `usbFunctionWrite` reports the page complete exactly when the address
   * has reached a page boundary, and only then sets the write event; the
   * other events stay as they were.
   */
  lemma WriteBoundary(c: Config, osccal: byte, r: Regs, data: seq<byte>, event: byte)
    requires PageShiftOk(c) && FlashOk(c) && KeptOk(r.vectorTemp) && |data| % 2 == 0 && IsEventBit(event)
    ensures var (w, isLast) := AfterWrite(c, osccal, r, data);
      (isLast <==> w.currentAddress % PageSize(c) == 0) &&
      (IsEvent(w.events, event) <==> IsEvent(r.events, event) || (isLast && event == EVENT_WRITE_PAGE))
  {
    WriteRunKeeps(c, osccal, r, Words(data));
    var r1 := WriteRun(c, osccal, r, Words(data));
    EventsAccumulate(r1.events, EVENT_WRITE_PAGE, event);
  }

  /**
   * What each request of `usbFunctionSetup` does: device info, a new page
   * address (the data stage then goes to `usbFunctionWrite`), the erase
   * event, and anything else the exit event when the bootloader can exit.
   */
  lemma SetupRequests(c: Config, r: Regs, q: Request, event: byte)
    requires ConfigOk(c) && IsEventBit(event)
    ensures var (r1, reply) := AfterSetup(c, r, q);
      r1.idlePolls == 0 && r1.vectorTemp == r.vectorTemp && r1.log == r.log &&
      (q.bRequest == 0 ==> reply == SetupReply(6, ReplyBuffer(c)) && r1.currentAddress == r.currentAddress) &&
      (q.bRequest == 1 ==> reply.len == USB_NO_MSG && r1.currentAddress == q.wIndex) &&
      (q.bRequest != 0 && q.bRequest != 1 ==> reply == SetupReply(0, []) && r1.currentAddress == r.currentAddress) &&
      (IsEvent(r1.events, event) <==>
        IsEvent(r.events, event) ||
        (q.bRequest == 2 && event == EVENT_ERASE_APPLICATION) ||
        (q.bRequest > 2 && c.canExit && event == EVENT_EXECUTE))
  {
    EventsAccumulate(r.events, EVENT_ERASE_APPLICATION, event);
    EventsAccumulate(r.events, EVENT_EXECUTE, event);
  }

  /**
   * A pass ends with no event set, unless it leaves for the user program
   * because the host asked it to; it leaves at the host's request exactly
   * when the bootloader can exit and the request arrived in this pass.
   */
  lemma PassClearsEvents(c: Config, osccal: byte, r: Regs, t: Traffic, stay: bool)
    requires ConfigOk(c) && KeptOk(r.vectorTemp) && TrafficOk(t) && r.events == 0
    ensures var step := Pass(c, osccal, r, t, stay);
      (step.regs.events == 0 || (step.exit && c.canExit)) &&
      (t.Setup? && t.request.bRequest > 2 && c.canExit ==> step.exit) &&
      (!t.Setup? ==> step.regs.events == 0 && step.exit == !stay)
  {
    ServedEvents(c, osccal, r, t);
    ServedExecute(c, osccal, r, t);
    var (r1, answer) := Serve(c, osccal, r, t);
    AfterPollExit(c, osccal, r1, stay);
  }

  /** Of the requests of a pass, only a request above 2 sets the execute event, and only where the bootloader can exit. */
  lemma ServedExecute(c: Config, osccal: byte, r: Regs, t: Traffic)
    requires ConfigOk(c) && KeptOk(r.vectorTemp) && TrafficOk(t) && r.events == 0
    ensures var (r1, _) := Serve(c, osccal, r, t);
      IsEvent(r1.events, EVENT_EXECUTE) <==> t.Setup? && t.request.bRequest > 2 && c.canExit
  {
    AndZero(0);
    match t {
      case Quiet =>
      case Setup(q) =>
        SetupRequests(c, r, q, EVENT_EXECUTE);
      case Data(bytes) =>
        WriteBoundary(c, osccal, r, bytes, EVENT_EXECUTE);
    }
  }

  /** After the events, the loop leaves on an execute event where it can exit; otherwise the events are cleared. */
  lemma AfterPollExit(c: Config, osccal: byte, r: Regs, stay: bool)
    requires PageShiftOk(c) && KeptOk(r.vectorTemp)
    requires IsEvent(r.events, EVENT_WRITE_PAGE) ==> r.currentAddress % PageSize(c) == 0
    ensures var (r2, exit) := AfterPoll(c, osccal, r, stay);
      if c.canExit && IsEvent(r.events, EVENT_EXECUTE) then exit else r2.events == 0 && exit == !stay
  {
    RunEventsKeepEvents(c, osccal, r.(idlePolls := (r.idlePolls + 1) % 0x1_0000));
  }

  /** The erase and the page write leave the events as they were. */
  lemma RunEventsKeepEvents(c: Config, osccal: byte, r: Regs)
    requires PageShiftOk(c) && KeptOk(r.vectorTemp)
    requires IsEvent(r.events, EVENT_WRITE_PAGE) ==> r.currentAddress % PageSize(c) == 0
    ensures RunEvents(c, osccal, r).events == r.events
  {
    EraseEndsOnPage(c, osccal, r);
    var r1 := if IsEvent(r.events, EVENT_ERASE_APPLICATION) then AfterErase(c, osccal, r) else r;
    if IsEvent(r1.events, EVENT_WRITE_PAGE) {
      PageAligned(PageSize(c), r1.currentAddress);
      if r1.currentAddress % PageSize(c) != 0 {
        FillEndsOnPage(c, osccal, r1);
      }
    }
  }

  // ---------------------------------------------------------------------
  // The main loop never buffers a word for the bootloader's own pages

  /** No fill among `ops` is at or above `bound`. */
  ghost predicate FillsUnder(ops: seq<SpmOp>, bound: nat)
  {
    forall i :: 0 <= i < |ops| && ops[i].PageFill? ==> ops[i].address < bound
  }

  lemma FillsUnderConcat(x: seq<SpmOp>, y: seq<SpmOp>, bound: nat)
    requires FillsUnder(x, bound) && FillsUnder(y, bound)
    ensures FillsUnder(x + y, bound)
  {
    forall i | 0 <= i < |x + y| && (x + y)[i].PageFill?
      ensures (x + y)[i].address < bound
    {
      if i < |x| {
        assert (x + y)[i] == x[i];
      } else {
        assert (x + y)[i] == y[i - |x|];
      }
    }
  }

  /** `after` extends `before`, and no fill it adds is at or above the bootloader entry. */
  ghost predicate FillsBelow(c: Config, before: seq<SpmOp>, after: seq<SpmOp>)
  {
    |before| <= |after| && after[..|before|] == before &&
    forall i :: |before| <= i < |after| && after[i].PageFill? ==> after[i].address < BootloaderEntry(c)
  }

  lemma FillsBelowChain(c: Config, a: seq<SpmOp>, b: seq<SpmOp>, d: seq<SpmOp>)
    requires FillsBelow(c, a, b) && FillsBelow(c, b, d)
    ensures FillsBelow(c, a, d)
  {
    assert d[..|a|] == d[..|b|][..|a|];
    forall i | |a| <= i < |b|
      ensures d[i] == b[i]
    {
      assert d[..|b|][i] == d[i];
    }
  }

  /** Appending operations with no fill at or above the entry. */
  lemma FillsBelowAppend(c: Config, log: seq<SpmOp>, ops: seq<SpmOp>)
    requires FillsUnder(ops, BootloaderEntry(c))
    ensures FillsBelow(c, log, log + ops)
  {
    assert (log + ops)[..|log|] == log;
    forall i | |log| <= i < |log + ops|
      ensures (log + ops)[i] == ops[i - |log|]
    {
    }
  }

  /** Padding `n` words from `a` buffers nothing at or above `a + 2n`, when that does not wrap. */
  lemma {:induction false} PadOpsBelow(c: Config, osccal: byte, vectorTemp: seq<word>, a: word, n: nat)
    requires KeptOk(vectorTemp) && a + 2 * n <= 0x1_0000
    ensures FillsUnder(PadOps(c, osccal, vectorTemp, a, n), a + 2 * n)
    decreases n
  {
    if n > 0 {
      var fill := FillOps(c, osccal, vectorTemp, a, 0xFFFF);
      var b := (a + 2) % 0x1_0000;
      var rest := PadOps(c, osccal, vectorTemp, b, n - 1);
      assert PadOps(c, osccal, vectorTemp, a, n) == fill + rest;
      if a == 0 {
        assert fill == [PageBufferClear, PageFill(a, Patched(c, osccal, vectorTemp, a, 0xFFFF))];
      } else {
        assert fill == [PageFill(a, Patched(c, osccal, vectorTemp, a, 0xFFFF))];
      }
      assert FillsUnder(fill, a + 2 * n);
      if n == 1 {
        assert rest == [];
      } else {
        assert b == a + 2;
        PadOpsBelow(c, osccal, vectorTemp, b, n - 1);
      }
      FillsUnderConcat(fill, rest, a + 2 * n);
    }
  }

  /** The erases issue no fill. */
  lemma {:induction false} ErasedNoFill(n: nat, k: nat, p: nat, bound: nat)
    requires k <= n
    ensures FillsUnder(ErasedDown(n, k, p), bound)
    decreases n - k
  {
    if k < n {
      ErasedNoFill(n, k + 1, p, bound);
      FillsUnderConcat(ErasedDown(n, k + 1, p), [PageErase(Times(k, p))], bound);
    }
  }

  /** The first page lies below the bootloader entry. */
  lemma EntryAbovePage(c: Config)
    requires ConfigOk(c)
    ensures PageSize(c) <= BootloaderEntry(c)
  {
    MultipleAbove(BootloaderEntry(c), PageSize(c));
  }

  lemma MultipleAbove(e: nat, p: nat)
    requires p > 0 && e > 0 && e % p == 0
    ensures p <= e
  {
    DivExact(e, p);
    NatQuotient(e, p);
    MulStep(e / p, p);
  }

  /** The operations `eraseApplication` issues: the erases, the fills of page 0, and its write. */
  function EraseOps(c: Config, osccal: byte, vectorTemp: seq<word>): seq<SpmOp>
    requires PageShiftOk(c) && KeptOk(vectorTemp)
  {
    var p := PageSize(c);
    ErasedDown(ErasePages(c), 0, p) + PadOps(c, osccal, vectorTemp, 0, p / 2) + [PageWrite(p - 2)]
  }

  lemma EraseLog(c: Config, osccal: byte, r: Regs)
    requires PageShiftOk(c) && KeptOk(r.vectorTemp)
    ensures AfterErase(c, osccal, r).log == r.log + EraseOps(c, osccal, r.vectorTemp)
  {
    var p := PageSize(c);
    EraseFill(c, osccal, r);
    var erased, pad := ErasedDown(ErasePages(c), 0, p), PadOps(c, osccal, r.vectorTemp, 0, p / 2);
    assert r.log + erased + pad + [PageWrite(p - 2)] == r.log + (erased + pad + [PageWrite(p - 2)]);
  }

  lemma EraseOpsBelow(c: Config, osccal: byte, vectorTemp: seq<word>)
    requires ConfigOk(c) && KeptOk(vectorTemp)
    ensures FillsUnder(EraseOps(c, osccal, vectorTemp), BootloaderEntry(c))
  {
    var p, e := PageSize(c), BootloaderEntry(c);
    var erased := ErasedDown(ErasePages(c), 0, p);
    var pad := PadOps(c, osccal, vectorTemp, 0, p / 2);
    ErasedNoFill(ErasePages(c), 0, p, e);
    EntryAbovePage(c);
    PadOpsBelow(c, osccal, vectorTemp, 0, p / 2);
    assert FillsUnder(pad, e);
    FillsUnderConcat(erased, pad, e);
    FillsUnderConcat(erased + pad, [PageWrite(p - 2)], e);
  }

  /** Erasing the application fills page 0 only, which lies below the entry. */
  lemma EraseFillsBelow(c: Config, osccal: byte, r: Regs)
    requires ConfigOk(c) && KeptOk(r.vectorTemp)
    ensures FillsBelow(c, r.log, AfterErase(c, osccal, r).log)
  {
    EraseLog(c, osccal, r);
    EraseOpsBelow(c, osccal, r.vectorTemp);
    FillsBelowAppend(c, r.log, EraseOps(c, osccal, r.vectorTemp));
  }

  /** The traffic of a pass buffers no word at or above the bootloader entry. */
  lemma ServeFillsBelow(c: Config, osccal: byte, r: Regs, t: Traffic)
    requires ConfigOk(c) && KeptOk(r.vectorTemp) && TrafficOk(t)
    ensures FillsBelow(c, r.log, Serve(c, osccal, r, t).0.log)
  {
    match t {
      case Quiet =>
        FillsBelowAppend(c, r.log, []);
        assert r.log + [] == r.log;
      case Setup(q) =>
        FillsBelowAppend(c, r.log, []);
        assert r.log + [] == r.log;
      case Data(bytes) =>
        WriteRunBelow(c, osccal, r, Words(bytes));
    }
  }

  /** Nor does the erase and page write of a pass. */
  lemma RunEventsFillsBelow(c: Config, osccal: byte, r: Regs)
    requires ConfigOk(c) && KeptOk(r.vectorTemp)
    requires IsEvent(r.events, EVENT_WRITE_PAGE) ==> r.currentAddress % PageSize(c) == 0
    ensures FillsBelow(c, r.log, RunEvents(c, osccal, r).log)
  {
    EraseEndsOnPage(c, osccal, r);
    var r1 := if IsEvent(r.events, EVENT_ERASE_APPLICATION) then AfterErase(c, osccal, r) else r;
    if IsEvent(r.events, EVENT_ERASE_APPLICATION) {
      EraseFillsBelow(c, osccal, r);
    } else {
      FillsBelowAppend(c, r.log, []);
      assert r.log + [] == r.log;
    }
    if IsEvent(r1.events, EVENT_WRITE_PAGE) {
      PageAligned(PageSize(c), r1.currentAddress);
      var w := [PageWrite((r1.currentAddress + 0xFFFE) % 0x1_0000)];
      assert FillsUnder(w, BootloaderEntry(c));
      FillsBelowAppend(c, r1.log, w);
      assert RunEvents(c, osccal, r).log == r1.log + w;
      FillsBelowChain(c, r.log, r1.log, r1.log + w);
    }
  }

  /** A pass of the main loop buffers no word at or above the bootloader entry. */
  lemma PassFillsBelow(c: Config, osccal: byte, r: Regs, t: Traffic, stay: bool)
    requires ConfigOk(c) && KeptOk(r.vectorTemp) && TrafficOk(t) && r.events == 0
    ensures FillsBelow(c, r.log, Pass(c, osccal, r, t, stay).regs.log)
  {
    ServedEvents(c, osccal, r, t);
    ServeFillsBelow(c, osccal, r, t);
    var r1 := Serve(c, osccal, r, t).0;
    var r0 := r1.(idlePolls := (r1.idlePolls + 1) % 0x1_0000);
    PassParts(c, osccal, r, t, stay);
    AfterPollKept(c, osccal, r1, stay);
    RunEventsFillsBelow(c, osccal, r0);
    FillsBelowChain(c, r.log, r1.log, RunEvents(c, osccal, r0).log);
  }

  /**
   * Whatever the host sends over any number of passes, the main loop never
   * buffers a word at or above the bootloader entry, and only adds to the
   * operations issued before it.
   */
  lemma {:induction false} LoopFillsBelow(c: Config, osccal: byte, r: Regs, ps: seq<Poll>)
    requires ConfigOk(c) && KeptOk(r.vectorTemp) && r.events == 0
    requires forall i :: 0 <= i < |ps| ==> TrafficOk(ps[i].traffic)
    ensures FillsBelow(c, r.log, Loop(c, osccal, r, ps).regs.log)
    decreases |ps|
  {
    if |ps| == 0 {
      FillsBelowAppend(c, r.log, []);
      assert r.log + [] == r.log;
    } else {
      var s := Pass(c, osccal, r, ps[0].traffic, ps[0].stay);
      PassKeeps(c, osccal, r, ps[0].traffic, ps[0].stay);
      PassFillsBelow(c, osccal, r, ps[0].traffic, ps[0].stay);
      if !s.exit {
        LoopFillsBelow(c, osccal, s.regs, ps[1..]);
        FillsBelowChain(c, r.log, s.regs.log, Loop(c, osccal, s.regs, ps[1..]).regs.log);
      }
    }
  }
}
