// The micronucleus V2 bootloader firmware (firmware/main.c): the commands a
// host sends through vendor requests, the current-address register that the
// page buffer is filled through, the reverse-order erase of the application,
// and the main loop that carries the commands out and times out to the user
// program.  The registers are the fields of a class; the flash is seen through
// the self-programming operations issued on it; the USB driver hands the
// vendor requests over (see UsbDriver), and waiting for the bus, the
// watchdog, the LED and the oscillator tuning are inputs or left out.

module FirmwareMain {
  import opened Common
  import opened Spm
  import LibSession
  import UsbDriver

  /** Bytes below the bootloader that hold the user program's reset vector. */
  const TINYVECTOR_RESET_OFFSET: nat := 4
  /** Bytes below the bootloader at which the oscillator calibration is kept. */
  const TINYVECTOR_OSCCAL_OFFSET: nat := 6

  // The commands of the protocol, and the internal one the firmware adds.
  const CMD_LOCAL_NOP: byte := 0
  const CMD_DEVICE_INFO: byte := 0
  const CMD_TRANSFER_PAGE: byte := 1
  const CMD_ERASE_APPLICATION: byte := 2
  const CMD_WRITE_DATA: byte := 3
  const CMD_EXIT: byte := 4
  const CMD_WRITE_PAGE: byte := 64

  /** The build constants of one bootloader. */
  datatype Config = Config(
    bootloaderAddress: nat,  // BOOTLOADER_ADDRESS, in bytes
    pageShift: nat,          // SPM_PAGESIZE is 2 to this power
    writeSleep: byte,        // MICRONUCLEUS_WRITE_SLEEP
    signature1: byte,        // SIGNATURE_1
    signature2: byte,        // SIGNATURE_2
    features: byte,          // FAST_EXIT_FEATURE_FLAG | ENTRYMODE
    saveOsccal: bool,        // OSCCAL_SAVE_CALIB
    autoExitMs: nat)         // AUTO_EXIT_MS

  function PageSize(c: Config): (p: nat)
    ensures p >= 1
  {
    Pow2(c.pageShift)
  }

  /**
   * What the build refuses or the 16-bit registers need: pages of whole
   * words up to 256 bytes, a page-aligned bootloader address below 64 KiB,
   * and room for the postscript under it.
   */
  predicate ConfigOk(c: Config)
  {
    && 1 <= c.pageShift <= 8
    && c.bootloaderAddress % PageSize(c) == 0
    && TINYVECTOR_OSCCAL_OFFSET < c.bootloaderAddress < 0x1_0000
  }

  function PostscriptSize(c: Config): nat
  {
    if c.saveOsccal then TINYVECTOR_OSCCAL_OFFSET else TINYVECTOR_RESET_OFFSET
  }

  /** `PROGMEM_SIZE`: the room for the user program. */
  function ProgmemSize(c: Config): (n: nat)
    requires ConfigOk(c)
    ensures n + PostscriptSize(c) == c.bootloaderAddress && n < 0x1_0000
  {
    c.bootloaderAddress - PostscriptSize(c)
  }

  /** `configurationReply`: the 8 bytes the device-info request returns. */
  function ConfigReply(c: Config): (reply: seq<byte>)
    requires ConfigOk(c)
    ensures |reply| == 8
  {
    [ProgmemSize(c) / 256, ProgmemSize(c) % 256, PageSize(c) % 256, c.writeSleep,
     c.signature1, c.signature2, c.features, 0]
  }

  // ---------------------------------------------------------------------
  // The registers and what each operation does to them

  /** `currentAddress`, `command`, `idlePolls` and the operations issued on the flash. */
  datatype Regs = Regs(currentAddress: nat, command: byte, idlePolls: nat, log: seq<SpmOp>)

  predicate RegsOk(r: Regs)
  {
    r.currentAddress < 0x1_0000 && r.idlePolls < 0x1_0000
  }

  /** `eraseApplication`. */
  function AfterErase(c: Config, r: Regs): Regs
    requires ConfigOk(c)
  {
    r.(currentAddress := 0,
       log := r.log + ErasedDown(c.bootloaderAddress / PageSize(c), 0, PageSize(c)))
  }

  /** The address `boot_page_write` gets: `currentAddress - 2` in 16 bits. */
  function LastWord(r: Regs): nat
  {
    (r.currentAddress + 0xFFFE) % 0x1_0000
  }

  /** `writeFlashPage`: the page of the last buffered word, unless that lies in the bootloader. */
  function AfterPageWrite(c: Config, r: Regs): Regs
  {
    if LastWord(r) < c.bootloaderAddress then r.(log := r.log + [PageWrite(LastWord(r))]) else r
  }

  /**
   * The word the bootloader insists on at `address`, whatever the host
   * sends: a jump to the bootloader in the reset vector, as an `rjmp` below
   * 8 KiB and as a two-word `jmp` above.
   */
  function FixedWord(c: Config, address: nat): Option<word>
    requires ConfigOk(c)
  {
    if c.bootloaderAddress < 8192 then
      if address == 0 then Some(0xC000 + c.bootloaderAddress / 2 - 1) else None
    else if address == 0 then Some(0x940c)
    else if address == 2 then Some(c.bootloaderAddress / 2)
    else None
  }

  /** The word `writeWordToPageBuffer` puts into the page buffer at `address`. */
  function Patched(c: Config, osccal: byte, address: nat, data: word): word
    requires ConfigOk(c)
  {
    if c.saveOsccal && address == c.bootloaderAddress - TINYVECTOR_OSCCAL_OFFSET then osccal
    else if FixedWord(c, address).Some? then FixedWord(c, address).value
    else data
  }

  /** `writeWordToPageBuffer`. */
  function AfterFill(c: Config, osccal: byte, r: Regs, data: word): Regs
    requires ConfigOk(c)
  {
    r.(log := r.log + [PageFill(r.currentAddress, Patched(c, osccal, r.currentAddress, data))],
       currentAddress := (r.currentAddress + 2) % 0x1_0000)
  }

  /** A class or vendor SETUP packet, as the driver hands it to `usbFunctionSetup`. */
  type Request = UsbDriver.Request

  /** The address a set-page-address request gives: the low byte masked to the page boundary. */
  function PageAddress(c: Config, wIndex: word): nat
    requires ConfigOk(c)
  {
    256 * (wIndex / 256) + ClearBits(wIndex % 256, PageSize(c) - 1)
  }

  /** `usbFunctionSetup`: the new registers and the reply for the driver to send. */
  function AfterSetup(c: Config, osccal: byte, r0: Regs, q: Request): (Regs, seq<byte>)
    requires ConfigOk(c)
  {
    var r := r0.(idlePolls := r0.idlePolls % 256);
    if q.bRequest == CMD_DEVICE_INFO then (r, ConfigReply(c))
    else if q.bRequest == CMD_TRANSFER_PAGE then
      if r.currentAddress != 0 then
        (r.(currentAddress := PageAddress(c, q.wIndex), log := r.log + [PageBufferClear]), [])
      else (r, [])
    else if q.bRequest == CMD_WRITE_DATA then
      var w := AfterFill(c, osccal, AfterFill(c, osccal, r, q.wValue), q.wIndex);
      if (w.currentAddress % 256) % PageSize(c) == 0 then (w.(command := CMD_WRITE_PAGE), []) else (w, [])
    else (r.(command := q.bRequest % 64), [])
  }

  /** What one pass of the main loop sees: whether the 5 ms wait ran out without
      USB traffic, the class or vendor request the driver handed on, if any, and
      whether a user program is present (its reset vector is not blank). */
  datatype Tick = Tick(waitExpired: bool, setup: Option<Request>, appPresent: bool)

  datatype Step = Step(regs: Regs, exit: bool, reply: seq<byte>)

  /** The erase and page-write part of the loop. */
  function RunCommand(c: Config, r: Regs): Regs
    requires ConfigOk(c)
  {
    var r1 := if r.command == CMD_ERASE_APPLICATION then AfterErase(c, r) else r;
    if r1.command == CMD_WRITE_PAGE then AfterPageWrite(c, r1) else r1
  }

  /** The rest of the loop after the commands: the request, the idle count, the time-out. */
  function Idle(c: Config, osccal: byte, r: Regs, t: Tick): Step
    requires ConfigOk(c)
  {
    var (r1, reply) := match t.setup
      case None => (r, [])
      case Some(q) => AfterSetup(c, osccal, r, q);
    var r2 := r1.(idlePolls := (r1.idlePolls + 1) % 0x1_0000);
    Step(r2, c.autoExitMs > 0 && r2.idlePolls == c.autoExitMs / 5 && t.appPresent, reply)
  }

  /** One pass of the `main` loop. */
  function Iteration(c: Config, osccal: byte, r: Regs, t: Tick): Step
    requires ConfigOk(c)
  {
    var r1 := RunCommand(c, r);
    if r1.command == CMD_EXIT && t.waitExpired then Step(r1, true, [])
    else Idle(c, osccal, if r1.command == CMD_EXIT then r1 else r1.(command := CMD_LOCAL_NOP), t)
  }

  /** Where the loop stands after some passes, and whether it left for the user program. */
  datatype Outcome = Outcome(regs: Regs, passes: nat, exited: bool)

  /** The loop over successive passes, until it exits or the passes run out. */
  function Loop(c: Config, osccal: byte, r: Regs, ts: seq<Tick>): Outcome
    requires ConfigOk(c)
    decreases |ts|
  {
    if |ts| == 0 then Outcome(r, 0, false)
    else
      var s := Iteration(c, osccal, r, ts[0]);
      if s.exit then Outcome(s.regs, 1, true)
      else var o := Loop(c, osccal, s.regs, ts[1..]); o.(passes := o.passes + 1)
  }

  // ---------------------------------------------------------------------
  // The firmware

  class Bootloader {
    const config: Config
    /** The value of the OSCCAL register while the bootloader runs. */
    const osccal: byte
    var currentAddress: nat
    var command: byte
    var idlePolls: nat
    var log: seq<SpmOp>

    ghost predicate Valid()
      reads this
    {
      ConfigOk(config) && currentAddress < 0x1_0000 && idlePolls < 0x1_0000
    }

    function State(): Regs
      reads this
    {
      Regs(currentAddress, command, idlePolls, log)
    }

    /** The registers as `main` sets them before the loop; the low byte of the idle counter is left as it was. */
    constructor (config: Config, osccal: byte, idleLow: byte)
      requires ConfigOk(config)
      ensures Valid() && this.config == config && this.osccal == osccal
      ensures State() == Regs(0, CMD_LOCAL_NOP, idleLow, [])
    {
      this.config := config;
      this.osccal := osccal;
      currentAddress := 0;
      command := CMD_LOCAL_NOP;
      idlePolls := idleLow;
      log := [];
    }

    /** `eraseApplication`: every page below the bootloader, from the top down. */
    method EraseApplication()
      requires Valid()
      modifies this
      ensures Valid() && State() == AfterErase(config, old(State()))
    {
      var p := PageSize(config);
      var ptr := config.bootloaderAddress;
      ghost var n := ptr / p;
      ghost var k := n;
      ModUnique(ptr, p, n, 0);
      TimesIsProduct(n, p);
      while ptr != 0
        invariant k <= n && ptr == Times(k, p)
        invariant log == old(log) + ErasedDown(n, k, p)
        invariant currentAddress == old(currentAddress) && command == old(command) && idlePolls == old(idlePolls)
        decreases k
      {
        k := k - 1;
        ptr := ptr - p;
        log := log + [PageErase(ptr)];
      }
      currentAddress := 0;
    }

    /** `writeFlashPage`. */
    method WriteFlashPage()
      requires Valid()
      modifies this
      ensures Valid() && State() == AfterPageWrite(config, old(State()))
    {
      var address := (currentAddress + 0xFFFE) % 0x1_0000;
      if address < config.bootloaderAddress {
        log := log + [PageWrite(address)];
      }
    }

    /** `writeWordToPageBuffer`. */
    method WriteWordToPageBuffer(data: word)
      requires Valid()
      modifies this
      ensures Valid() && State() == AfterFill(config, osccal, old(State()), data)
    {
      var d := data;
      if config.bootloaderAddress < 8192 {
        if currentAddress == 0 {
          d := 0xC000 + config.bootloaderAddress / 2 - 1;
        }
      } else {
        if currentAddress == 0 {
          d := 0x940c;
        } else if currentAddress == 2 {
          d := config.bootloaderAddress / 2;
        }
      }
      if config.saveOsccal && currentAddress == config.bootloaderAddress - TINYVECTOR_OSCCAL_OFFSET {
        d := osccal;
      }
      log := log + [PageFill(currentAddress, d)];
      currentAddress := (currentAddress + 2) % 0x1_0000;
    }

    /** `usbFunctionSetup`: the reply it points the driver at, of the length it returns. */
    method FunctionSetup(q: Request) returns (reply: seq<byte>)
      requires Valid()
      modifies this
      ensures Valid() && (State(), reply) == AfterSetup(config, osccal, old(State()), q)
    {
      idlePolls := idlePolls % 256;
      reply := [];
      if q.bRequest == CMD_DEVICE_INFO {
        reply := ConfigReply(config);
      } else if q.bRequest == CMD_TRANSFER_PAGE {
        if currentAddress != 0 {
          currentAddress := PageAddress(config, q.wIndex);
          PageAddressMasked(config, q.wIndex);
          log := log + [PageBufferClear];
        }
      } else if q.bRequest == CMD_WRITE_DATA {
        WriteWordToPageBuffer(q.wValue);
        WriteWordToPageBuffer(q.wIndex);
        if (currentAddress % 256) % PageSize(config) == 0 {
          command := CMD_WRITE_PAGE;
        }
      } else {
        command := q.bRequest % 64;
      }
    }

    /** One pass of the `main` loop; true when it leaves for the user program. */
    method Pass(t: Tick) returns (exit: bool, reply: seq<byte>)
      requires Valid()
      modifies this
      ensures Valid()
      ensures Step(State(), exit, reply) == Iteration(config, osccal, old(State()), t)
    {
      CarryOutCommand();
      if command == CMD_EXIT {
        if t.waitExpired {
          return true, [];
        }
      } else {
        command := CMD_LOCAL_NOP;
      }
      exit, reply := Serve(t);
    }

    /** The erase or page write the last request asked for. */
    method CarryOutCommand()
      requires Valid()
      modifies this
      ensures Valid() && State() == RunCommand(config, old(State()))
    {
      if command == CMD_ERASE_APPLICATION {
        EraseApplication();
      }
      if command == CMD_WRITE_PAGE {
        WriteFlashPage();
      }
    }

    /** The request of this pass, the idle count and the time-out. */
    method Serve(t: Tick) returns (exit: bool, reply: seq<byte>)
      requires Valid()
      modifies this
      ensures Valid()
      ensures Step(State(), exit, reply) == Idle(config, osccal, old(State()), t)
    {
      reply := [];
      if t.setup.Some? {
        reply := FunctionSetup(t.setup.value);
      }
      idlePolls := (idlePolls + 1) % 0x1_0000;
      exit := config.autoExitMs > 0 && idlePolls == config.autoExitMs / 5 && t.appPresent;
    }

    /** The `main` loop over the passes given, until it exits. */
    method MainLoop(ts: seq<Tick>) returns (exited: bool, passes: nat)
      requires Valid()
      modifies this
      ensures Valid()
      ensures Outcome(State(), passes, exited) == Loop(config, osccal, old(State()), ts)
    {
      passes := 0;
      exited := false;
      while passes < |ts|
        invariant Valid() && passes <= |ts|
        invariant Loop(config, osccal, old(State()), ts) == Later(Loop(config, osccal, State(), ts[passes..]), passes)
      {
        var exit, reply := Pass(ts[passes]);
        assert ts[passes..][1..] == ts[passes + 1..];
        passes := passes + 1;
        if exit {
          exited := true;
          return;
        }
      }
    }
  }

  /** An outcome seen `n` passes later. */
  function Later(o: Outcome, n: nat): Outcome
  {
    o.(passes := o.passes + n)
  }

  // ---------------------------------------------------------------------
  // Properties

  /**
   * The erase issues one erase per page below the bootloader, from the page
   * just below it down to page 0, and nothing else; it leaves the current
   * address at 0.
   */
  lemma EraseOrder(c: Config, r: Regs)
    requires ConfigOk(c)
    ensures var e := AfterErase(c, r);
      var n := c.bootloaderAddress / PageSize(c);
      e.currentAddress == 0 && e.command == r.command && e.idlePolls == r.idlePolls &&
      n * PageSize(c) == c.bootloaderAddress &&
      |e.log| == |r.log| + n && e.log[..|r.log|] == r.log &&
      forall i :: 0 <= i < n ==> e.log[|r.log|..][i] == PageErase((n - 1 - i) * PageSize(c))
  {
    var p := PageSize(c);
    var n := c.bootloaderAddress / p;
    ModUnique(c.bootloaderAddress, p, n, 0);
    ErasedDownPages(n, 0, p);
    var e := AfterErase(c, r);
    assert e.log[|r.log|..] == ErasedDown(n, 0, p);
    forall i | 0 <= i < n
      ensures ErasedDown(n, 0, p)[i] == PageErase((n - 1 - i) * p)
    {
      TimesIsProduct(n - 1 - i, p);
    }
  }

  /** Later erases are at lower addresses, all of them page-aligned and below the bootloader. */
  lemma EraseDescends(c: Config, r: Regs, i: nat, j: nat)
    requires ConfigOk(c) && i < j < c.bootloaderAddress / PageSize(c)
    ensures var es := AfterErase(c, r).log[|r.log|..];
      es[i].PageErase? && es[j].PageErase? &&
      es[j].address < es[i].address < c.bootloaderAddress && es[i].address % PageSize(c) == 0
  {
    EraseOrder(c, r);
    var p := PageSize(c);
    var n := c.bootloaderAddress / p;
    PageBelow(n, i, j, p);
  }

  /** Page `n - 1 - i` starts above page `n - 1 - j`, below page `n`, and at a multiple of the page size. */
  lemma PageBelow(n: nat, i: nat, j: nat, p: nat)
    requires p > 0 && i < j < n
    ensures (n - 1 - j) * p < (n - 1 - i) * p < n * p && ((n - 1 - i) * p) % p == 0
  {
    MulMono(n - j, n - 1 - i, p);
    MulMono(n - i, n, p);
    assert (n - j) * p == (n - 1 - j) * p + p;
    assert (n - i) * p == (n - 1 - i) * p + p;
    ModUnique((n - 1 - i) * p, p, n - 1 - i, 0);
  }

  /**
   * The reset vector always jumps into the bootloader: below 8 KiB as an
   * `rjmp` from word 0 that lands on the bootloader's first word; above, as
   * a `jmp` whose second word is that word address.  No word the host sends
   * for these addresses survives.
   */
  lemma ResetVectorFixed(c: Config, osccal: byte, d: word)
    requires ConfigOk(c)
    ensures c.bootloaderAddress < 8192 ==>
      Patched(c, osccal, 0, d) == Addr2Rjmp(c.bootloaderAddress / 2, 0) &&
      1 + (Patched(c, osccal, 0, d) - 0xC000) == c.bootloaderAddress / 2
    ensures c.bootloaderAddress >= 8192 ==>
      Patched(c, osccal, 0, d) == 0x940c && Patched(c, osccal, 2, d) == c.bootloaderAddress / 2
  {
    if c.bootloaderAddress < 8192 {
      RjmpTarget(c.bootloaderAddress / 2, 0);
      ModUnique(c.bootloaderAddress / 2 - 1, 0x1000, 0, c.bootloaderAddress / 2 - 1);
    }
  }

  /** Every other word is buffered as the host sent it, except the calibration word when it is kept. */
  lemma OtherWordsKept(c: Config, osccal: byte, address: nat, d: word)
    requires ConfigOk(c) && FixedWord(c, address).None?
    ensures Patched(c, osccal, address, d) ==
      if c.saveOsccal && address == c.bootloaderAddress - TINYVECTOR_OSCCAL_OFFSET then osccal else d
  {
  }

  /** A write-data request buffers its two words at the current address and the next, and moves on by 4. */
  lemma WriteDataAdvances(c: Config, osccal: byte, r: Regs, q: Request)
    requires ConfigOk(c) && RegsOk(r) && q.bRequest == CMD_WRITE_DATA
    ensures var (w, reply) := AfterSetup(c, osccal, r, q);
      var a := r.currentAddress; var b := (a + 2) % 0x1_0000;
      reply == [] && w.currentAddress == (a + 4) % 0x1_0000 &&
      w.log == r.log + [PageFill(a, Patched(c, osccal, a, q.wValue)), PageFill(b, Patched(c, osccal, b, q.wIndex))]
  {
    var a, m := r.currentAddress, 0x1_0000;
    var q := if a + 2 < m then 0 else 1;
    ModUnique(a + 2, m, q, a + 2 - m * q);
    ModUnique((a + 2) % m + 2, m, (a + 4) / m - q, (a + 4) % m);
  }

  /**
   * Page-size divisibility survives keeping the low byte: the page size
   * divides 256.
   */
  lemma LowByteRemainder(x: nat, c: Config)
    requires ConfigOk(c)
    ensures (x % 256) % PageSize(c) == x % PageSize(c)
  {
    var p := PageSize(c);
    var q := Pow2(8 - c.pageShift);
    Pow2Split(c.pageShift, 8 - c.pageShift);
    assert Pow2(8) == 256;
    ModSplit(x, p, q);
    ModUnique(x % 256, p, (x / p) % q, x % p);
  }

  /** The masked address is the requested one rounded down to its page. */
  lemma PageAddressMasked(c: Config, wIndex: word)
    requires ConfigOk(c)
    ensures PageAddress(c, wIndex) == wIndex - wIndex % PageSize(c)
    ensures PageAddress(c, wIndex) % PageSize(c) == 0 && PageAddress(c, wIndex) < 0x1_0000
  {
    LowByteRemainder(wIndex, c);
    MaskLowByte(wIndex, c.pageShift);
  }

  /** Clearing the low `k` bits of the low byte rounds the whole word down to a multiple of `2^k`. */
  lemma MaskLowByte(w: word, k: nat)
    requires (w % 256) % Pow2(k) == w % Pow2(k)
    ensures 256 * (w / 256) + ClearBits(w % 256, Pow2(k) - 1) == w - w % Pow2(k)
    ensures (w - w % Pow2(k)) % Pow2(k) == 0
  {
    PageRemainder(w % 256, k);
    RemainderRemoved(w, Pow2(k));
  }

  /**
   * A set-page-address request is ignored while the current address is 0
   * (the reset vector's page comes first); otherwise the address becomes the
   * requested one rounded down to its page, and the page buffer is cleared.
   */
  lemma SetPageAddress(c: Config, osccal: byte, r: Regs, q: Request)
    requires ConfigOk(c) && q.bRequest == CMD_TRANSFER_PAGE
    ensures var (s, reply) := AfterSetup(c, osccal, r, q);
      reply == [] && s.command == r.command &&
      (r.currentAddress == 0 ==> s.currentAddress == 0 && s.log == r.log) &&
      (r.currentAddress != 0 ==> s.currentAddress == q.wIndex - q.wIndex % PageSize(c) &&
                                 s.log == r.log + [PageBufferClear])
  {
    PageAddressMasked(c, q.wIndex);
  }

  /**
   * After a write-data request the page is to be written exactly when the
   * new address is at a page boundary; otherwise the command is untouched.
   */
  lemma WritePageFlag(c: Config, osccal: byte, r: Regs, q: Request)
    requires ConfigOk(c) && RegsOk(r) && q.bRequest == CMD_WRITE_DATA
    ensures var (w, _) := AfterSetup(c, osccal, r, q);
      (w.currentAddress % PageSize(c) == 0 ==> w.command == CMD_WRITE_PAGE) &&
      (w.currentAddress % PageSize(c) != 0 ==> w.command == r.command)
  {
    var (w, _) := AfterSetup(c, osccal, r, q);
    LowByteRemainder(w.currentAddress, c);
  }

  /** Any other request only sets the command, to its low six bits, and restarts the idle count. */
  lemma OtherRequests(c: Config, osccal: byte, r: Regs, q: Request)
    requires ConfigOk(c) && RegsOk(r) && q.bRequest !in {CMD_DEVICE_INFO, CMD_TRANSFER_PAGE, CMD_WRITE_DATA}
    ensures AfterSetup(c, osccal, r, q) == (r.(command := q.bRequest % 64, idlePolls := r.idlePolls % 256), [])
    ensures q.bRequest == CMD_ERASE_APPLICATION ==> AfterSetup(c, osccal, r, q).0.command == CMD_ERASE_APPLICATION
    ensures q.bRequest == CMD_EXIT ==> AfterSetup(c, osccal, r, q).0.command == CMD_EXIT
  {
  }

  /**
   * A page is written only at the address of the last buffered word, and
   * only below the bootloader; straight after an erase (address 0) nothing
   * is written.
   */
  lemma PageWriteGuard(c: Config, r: Regs)
    requires ConfigOk(c) && RegsOk(r)
    ensures 2 <= r.currentAddress < c.bootloaderAddress + 2 ==>
      AfterPageWrite(c, r) == r.(log := r.log + [PageWrite(r.currentAddress - 2)])
    ensures !(2 <= r.currentAddress < c.bootloaderAddress + 2) ==> AfterPageWrite(c, r) == r
  {
    EvenBootloader(c);
    if r.currentAddress < 2 {
      ModUnique(r.currentAddress + 0xFFFE, 0x1_0000, 0, r.currentAddress + 0xFFFE);
    } else {
      ModUnique(r.currentAddress + 0xFFFE, 0x1_0000, 1, r.currentAddress - 2);
    }
  }

  /**
   * The configuration reply, as the host library decodes it: the flash
   * size is the room for the user program, the page size and the write
   * timing are the bootloader's, and the bootloader starts at the first page
   * boundary at or above that room, which is the bootloader address.  A
   * page of 256 bytes is sent as 0, which the host refuses.
   */
  lemma HostReadsConfigReply(c: Config, minor: byte, fastMode: bool)
    requires ConfigOk(c)
    ensures var reply := ConfigReply(c);
      BE16(reply[0], reply[1]) == ProgmemSize(c) && reply[3] == c.writeSleep
    ensures var d := LibSession.DecodeInfo(2, minor, ConfigReply(c), fastMode);
      (PageSize(c) == 256 <==> d.Err?) &&
      (d.Ok? ==> d.value.flashSize == ProgmemSize(c) && d.value.pageSize == PageSize(c) &&
                 d.value.signature1 == c.signature1 && d.value.signature2 == c.signature2 &&
                 (PageSize(c) > PostscriptSize(c) ==> d.value.bootloaderStart == c.bootloaderAddress))
  {
    var reply := ConfigReply(c);
    PageByte(c);
    LibSession.InfoGeometry(2, minor, reply, fastMode);
    var d := LibSession.DecodeInfo(2, minor, reply, fastMode);
    if d.Ok? {
      LibSession.InfoTiming(2, minor, reply, fastMode);
      var v := d.value;
      assert v.flashSize == 256 * (v.flashSize / 256) + v.flashSize % 256;
      if PageSize(c) > PostscriptSize(c) {
        StartIsBootloader(c, v.pages, v.bootloaderStart);
      }
    }
  }

  /** The first page boundary at or above the room for the user program is the bootloader address. */
  lemma StartIsBootloader(c: Config, pages: nat, start: nat)
    requires ConfigOk(c) && PageSize(c) > PostscriptSize(c)
    requires start == Times(pages, PageSize(c)) && ProgmemSize(c) <= start < ProgmemSize(c) + PageSize(c)
    ensures start == c.bootloaderAddress
  {
    var p := PageSize(c);
    TimesIsProduct(pages, p);
    ModUnique(start, p, pages, 0);
    AlignedBetween(start, c.bootloaderAddress, p);
  }

  /** The page-size byte of the reply: the page size, or 0 for a page of 256 bytes. */
  lemma PageByte(c: Config)
    requires ConfigOk(c)
    ensures PageSize(c) <= 256
    ensures PageSize(c) % 256 == if PageSize(c) == 256 then 0 else PageSize(c)
  {
    assert Pow2(8) == 256 by {
      assert Pow2(1) == 2 && Pow2(2) == 4 && Pow2(4) == 16;
    }
    PowMono(c.pageShift, 8);
    if PageSize(c) < 256 {
      ModUnique(PageSize(c), 256, 0, PageSize(c));
    }
  }

  /** Pages hold whole words, so the bootloader starts at an even address. */
  lemma EvenBootloader(c: Config)
    requires ConfigOk(c)
    ensures c.bootloaderAddress % 2 == 0 && c.bootloaderAddress <= 0xFFFE
  {
    var h := Pow2(c.pageShift - 1);
    var n := c.bootloaderAddress / PageSize(c);
    ModUnique(c.bootloaderAddress, PageSize(c), n, 0);
    assert c.bootloaderAddress == 2 * (h * n);
    ModUnique(c.bootloaderAddress, 2, h * n, 0);
  }

  /** Two page-aligned numbers less than a page apart are equal. */
  lemma AlignedBetween(a: nat, b: nat, p: nat)
    requires p > 0 && a % p == 0 && b % p == 0 && b - p < a < b + p
    ensures a == b
  {
    if a >= b {
      ModUnique(a, p, b / p, a - b);
    } else {
      ModUnique(b, p, a / p, b - a);
    }
  }

  /**
   * After each pass any command but exit is back to nop, unless a request
   * of this pass set one; an exit command leaves the loop once a wait runs
   * out without traffic.
   */
  lemma CommandReset(c: Config, osccal: byte, r: Regs, t: Tick)
    requires ConfigOk(c) && RegsOk(r)
    ensures var s := Iteration(c, osccal, r, t);
      (r.command == CMD_EXIT && t.waitExpired ==> s.exit) &&
      (t.setup.None? && r.command != CMD_EXIT ==> s.regs.command == CMD_LOCAL_NOP) &&
      (t.setup.None? && r.command == CMD_EXIT ==> s.regs.command == CMD_EXIT)
  {
  }

  /**
   * The loop leaves for the user program exactly on an exit command after
   * a quiet wait, or when the idle count reaches the time-out and a program
   * is there; each pass without such an exit counts one idle poll.
   */
  lemma LoopExit(c: Config, osccal: byte, r: Regs, t: Tick)
    requires ConfigOk(c) && RegsOk(r)
    ensures var s := Iteration(c, osccal, r, t);
      var stays := RunCommand(c, r).command == CMD_EXIT && t.waitExpired;
      s.exit <==> stays || (c.autoExitMs > 0 && s.regs.idlePolls == c.autoExitMs / 5 && t.appPresent)
    ensures var s := Iteration(c, osccal, r, t);
      t.setup.None? && !(r.command == CMD_EXIT && t.waitExpired) ==> s.regs.idlePolls == (r.idlePolls + 1) % 0x1_0000
    ensures var s := Iteration(c, osccal, r, t);
      t.setup.Some? && !(r.command == CMD_EXIT && t.waitExpired) ==> s.regs.idlePolls == r.idlePolls % 256 + 1
  {
    var r1 := RunCommand(c, r);
    assert r1.command == r.command && r1.idlePolls == r.idlePolls;
    if t.setup.Some? && !(r.command == CMD_EXIT && t.waitExpired) {
      var r2 := if r1.command == CMD_EXIT then r1 else r1.(command := CMD_LOCAL_NOP);
      assert AfterSetup(c, osccal, r2, t.setup.value).0.idlePolls == r.idlePolls % 256;
    }
  }

  // ---------------------------------------------------------------------
  // The bootloader protects itself

  /**
   * An operation that cannot hurt the bootloader: erases and page writes
   * stay below it, and a word buffered where the reset jump goes is that
   * jump.
   */
  predicate OpSafe(c: Config, op: SpmOp)
    requires ConfigOk(c)
  {
    match op
    case PageErase(a) => a < c.bootloaderAddress
    case PageWrite(a) => a < c.bootloaderAddress
    case PageFill(a, d) => FixedWord(c, a).Some? ==> d == FixedWord(c, a).value
    case PageBufferClear => true
  }

  predicate Safe(c: Config, log: seq<SpmOp>)
    requires ConfigOk(c)
  {
    forall i :: 0 <= i < |log| ==> OpSafe(c, log[i])
  }

  lemma SafeAppend(c: Config, a: seq<SpmOp>, b: seq<SpmOp>)
    requires ConfigOk(c) && Safe(c, a) && Safe(c, b)
    ensures Safe(c, a + b)
  {
    forall i | 0 <= i < |a + b|
      ensures OpSafe(c, (a + b)[i])
    {
      if i >= |a| {
        assert (a + b)[i] == b[i - |a|];
      }
    }
  }

  lemma SafeFill(c: Config, osccal: byte, r: Regs, data: word)
    requires ConfigOk(c) && Safe(c, r.log)
    ensures Safe(c, AfterFill(c, osccal, r, data).log)
  {
    var a := r.currentAddress;
    assert c.saveOsccal && a == c.bootloaderAddress - TINYVECTOR_OSCCAL_OFFSET ==> FixedWord(c, a).None?;
    SafeAppend(c, r.log, [PageFill(a, Patched(c, osccal, a, data))]);
  }

  lemma SafeRequest(c: Config, osccal: byte, r: Regs, q: Request)
    requires ConfigOk(c) && Safe(c, r.log)
    ensures Safe(c, AfterSetup(c, osccal, r, q).0.log)
  {
    var r1 := r.(idlePolls := r.idlePolls % 256);
    if q.bRequest == CMD_TRANSFER_PAGE && r.currentAddress != 0 {
      SafeAppend(c, r.log, [PageBufferClear]);
    } else if q.bRequest == CMD_WRITE_DATA {
      SafeFill(c, osccal, r1, q.wValue);
      SafeFill(c, osccal, AfterFill(c, osccal, r1, q.wValue), q.wIndex);
    }
  }

  lemma SafeErase(c: Config, r: Regs)
    requires ConfigOk(c) && Safe(c, r.log)
    ensures Safe(c, AfterErase(c, r).log)
  {
    var p := PageSize(c);
    var n := c.bootloaderAddress / p;
    var e := ErasedDown(n, 0, p);
    ErasedDownPages(n, 0, p);
    ModUnique(c.bootloaderAddress, p, n, 0);
    TimesIsProduct(n, p);
    forall i | 0 <= i < |e|
      ensures OpSafe(c, e[i])
    {
      TimesMono(n - i, n, p);
    }
    SafeAppend(c, r.log, e);
  }

  lemma SafeCommand(c: Config, r: Regs)
    requires ConfigOk(c) && Safe(c, r.log)
    ensures Safe(c, RunCommand(c, r).log)
  {
    var r1 := if r.command == CMD_ERASE_APPLICATION then AfterErase(c, r) else r;
    if r.command == CMD_ERASE_APPLICATION {
      SafeErase(c, r);
    }
    if r1.command == CMD_WRITE_PAGE && LastWord(r1) < c.bootloaderAddress {
      SafeAppend(c, r1.log, [PageWrite(LastWord(r1))]);
    }
  }

  lemma SafePass(c: Config, osccal: byte, r: Regs, t: Tick)
    requires ConfigOk(c) && Safe(c, r.log)
    ensures Safe(c, Iteration(c, osccal, r, t).regs.log)
  {
    SafeCommand(c, r);
    var r1 := RunCommand(c, r);
    var r2 := if r1.command == CMD_EXIT then r1 else r1.(command := CMD_LOCAL_NOP);
    if t.setup.Some? {
      SafeRequest(c, osccal, r2, t.setup.value);
    }
  }

  /**
   * Whatever the host sends, the bootloader never erases or writes a page of
   * its own, and the reset vector it buffers always leads into it.
   */
  lemma {:induction false} LoopSafe(c: Config, osccal: byte, r: Regs, ts: seq<Tick>)
    requires ConfigOk(c) && Safe(c, r.log)
    ensures Safe(c, Loop(c, osccal, r, ts).regs.log)
    decreases |ts|
  {
    if |ts| > 0 {
      SafePass(c, osccal, r, ts[0]);
      LoopSafe(c, osccal, Iteration(c, osccal, r, ts[0]).regs, ts[1..]);
    }
  }
}
