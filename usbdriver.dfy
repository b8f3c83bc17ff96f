// The control-transfer part of the V-USB driver the firmware is built with
// (firmware/usbdrv/usbdrv.c): the SETUP packet handling, the standard
// requests the driver answers itself, and the splitting of a reply into
// transmit blocks of at most 8 bytes with toggling data PIDs.  The bit-level
// USB signalling and the CRC are done by the assembler interrupt routine and
// are not part of this model; which bytes go out, in which block and under
// which PID is.
//
// This copy of the driver sends the replies to SETUP IN packets from flash
// only (the note at the head of usbdrv.c): `usbDeviceRead` reads every
// byte through `USB_READ_FLASH`.  The replies to GET_STATUS,
// GET_CONFIGURATION and GET_INTERFACE are nevertheless set up by pointing
// `usbMsgPtr` at RAM (scratch bytes at the end of `usbTxBuf`, and
// `usbConfiguration`), so as written they are the bytes of program memory
// at those RAM addresses.  `Variant` selects that reading (AsWritten) or
// the RAM contents the request handling evidently means (Intended).

module UsbDriver {
  import opened Common

  // Packet identifiers (usbdrv.h).
  const USBPID_SETUP: byte := 0x2d
  const USBPID_DATA0: bv8 := 0xc3
  const USBPID_DATA1: bv8 := 0x4b
  const USBPID_NAK: byte := 0x5a

  /** `USB_NO_MSG`: the message length that means no message. */
  const USB_NO_MSG: byte := 255

  const USBRQ_TYPE_MASK: byte := 0x60
  const USBRQ_TYPE_STANDARD: byte := 0

  // The standard requests the driver answers.
  const USBRQ_GET_STATUS: byte := 0
  const USBRQ_SET_ADDRESS: byte := 5
  const USBRQ_GET_DESCRIPTOR: byte := 6
  const USBRQ_GET_CONFIGURATION: byte := 8
  const USBRQ_SET_CONFIGURATION: byte := 9
  const USBRQ_GET_INTERFACE: byte := 10

  const USBDESCR_DEVICE: byte := 1
  const USBDESCR_CONFIG: byte := 2
  const USBDESCR_STRING: byte := 3

  /** `usbRequest_t`: the 8 bytes of a SETUP packet, words little-endian. */
  datatype Request = Request(bmRequestType: byte, bRequest: byte, wValue: word, wIndex: word, wLength: word)

  function ParseRequest(data: seq<byte>): (rq: Request)
    requires |data| == 8
    ensures rq.bmRequestType == data[0] && rq.bRequest == data[1]
    ensures rq.wValue % 256 == data[2] && rq.wValue / 256 == data[3]
    ensures rq.wIndex % 256 == data[4] && rq.wIndex / 256 == data[5]
    ensures rq.wLength % 256 == data[6] && rq.wLength / 256 == data[7]
  {
    Request(data[0], data[1], LE16(data[2], data[3]), LE16(data[4], data[5]), LE16(data[6], data[7]))
  }

  /**
   * What the firmware image fixes: the descriptors compiled in (an empty
   * one is not configured, its `USB_CFG_DESCR_PROPS_*` being 0, and the
   * driver does not answer for it), the program memory `USB_READ_FLASH`
   * reads, and the RAM addresses of the scratch bytes `usbTxBuf + 9` and of
   * `usbConfiguration`.
   */
  datatype Image = Image(
    device: seq<byte>,
    configuration: seq<byte>,
    string0: seq<byte>,
    vendor: seq<byte>,
    product: seq<byte>,
    serialNumber: seq<byte>,
    flash: seq<byte>,
    scratchAt: nat,
    configurationAt: nat)

  /**
   * Each descriptor is shorter than 255 bytes, so its length is never read
   * as `USB_NO_MSG`; and the RAM addresses lie below the end of program
   * memory, as they do on every supported device.
   */
  predicate ImageOk(d: Image)
  {
    && |d.device| < 255 && |d.configuration| < 255 && |d.string0| < 255
    && |d.vendor| < 255 && |d.product| < 255 && |d.serialNumber| < 255
    && d.scratchAt + 2 <= |d.flash| && d.configurationAt < |d.flash|
  }

  /**
   * What `usbFunctionSetup` of the application answered: the length it
   * returned and the bytes it pointed `usbMsgPtr` at.  The driver reads
   * that many bytes from there, and this driver has no `usbFunctionRead`
   * for `USB_NO_MSG` to hand on to.
   */
  datatype AppReply = AppReply(len: byte, msg: seq<byte>)

  predicate AppReplyOk(a: AppReply)
  {
    a.len != USB_NO_MSG && a.len <= |a.msg|
  }

  /** One packet as the receive routine leaves it: its token and its data bytes. */
  datatype Packet = Packet(token: byte, data: seq<byte>)

  /**
   * The driver's variables: `usbTxBuf[0]` (the data PID of the next
   * block) and the payload of `usbTxBuf` after it, `usbTxLen`, `usbMsgLen`,
   * the bytes `usbMsgPtr` points into and how far it has advanced,
   * `usbConfiguration` and `usbNewDeviceAddr`.
   */
  datatype Usb = Usb(
    txPid: bv8,
    txLen: byte,
    txData: seq<byte>,
    msgLen: byte,
    msg: seq<byte>,
    msgPos: nat,
    configuration: byte,
    newDeviceAddr: byte)

  /** A pending message has as many bytes left as it claims. */
  predicate UsbOk(s: Usb)
  {
    s.msgPos <= |s.msg| && (s.msgLen != USB_NO_MSG ==> s.msgPos + s.msgLen <= |s.msg|)
  }

  /** `usbInit`. */
  function AfterInit(s: Usb): Usb
  {
    s.(txLen := USBPID_NAK, msgLen := USB_NO_MSG)
  }

  // ---------------------------------------------------------------------
  // The standard requests

  /** `GET_DESCRIPTOR` through the macro of that name: the length, and the table when it is configured. */
  function Present(descriptor: seq<byte>): (byte, Option<seq<byte>>)
  {
    // USB_PROP_LENGTH keeps 14 bits, and the length type keeps 8 of them.
    if |descriptor| != 0 then ((|descriptor| % 0x4000) % 256, Some(descriptor)) else (0, None)
  }

  /** `usbDriverDescriptor`: the descriptor the high byte of `wValue` names, the string the low byte names. */
  function Descriptor(d: Image, rq: Request): (byte, Option<seq<byte>>)
  {
    var kind := rq.wValue / 256;
    var index := rq.wValue % 256;
    if kind == USBDESCR_DEVICE then Present(d.device)
    else if kind == USBDESCR_CONFIG then Present(d.configuration)
    else if kind == USBDESCR_STRING then
      if index == 0 then Present(d.string0)
      else if index == 1 then Present(d.vendor)
      else if index == 2 then Present(d.product)
      else if index == 3 then Present(d.serialNumber)
      else (0, None)
    else (0, None)
  }

  /** Where `dataPtr` points when `usbMsgPtr` is set to it: the scratch bytes or `usbConfiguration`. */
  datatype Target = Scratch | ConfigurationByte

  /**
   * `usbMsgPtr = dataPtr`, and what reading from there then yields: as
   * written, program memory from the RAM address on; as intended, the RAM
   * bytes themselves (the scratch bytes are 0 as far as a reply of `len`
   * bytes reads them, `usbConfiguration` is the configuration).
   */
  function PointAt(v: Variant, d: Image, s: Usb, target: Target, len: byte): Usb
  {
    match v
    case AsWritten => s.(msg := d.flash, msgPos := if target == Scratch then d.scratchAt else d.configurationAt)
    case Intended => s.(msg := if target == ConfigurationByte then [s.configuration] else if len == 2 then [0, 0] else [0], msgPos := 0)
  }

  /**
   * `usbDriverSetup`: the reply length and the new state, the message
   * pointer set to the two scratch bytes at the end of the transmit buffer,
   * to `usbConfiguration`, or to a descriptor.
   */
  function DriverSetup(v: Variant, d: Image, s: Usb, rq: Request): (Usb, byte)
  {
    var value := rq.wValue % 256;
    if rq.bRequest == USBRQ_GET_DESCRIPTOR then
      var (len, table) := Descriptor(d, rq);
      (if table.Some? then s.(msg := table.value, msgPos := 0) else s, len)
    else
      var (s1, len) :=
        if rq.bRequest == USBRQ_GET_STATUS then (s, 2)
        else if rq.bRequest == USBRQ_SET_ADDRESS then (s.(newDeviceAddr := value), 0)
        else if rq.bRequest == USBRQ_GET_CONFIGURATION then (s, 1)
        else if rq.bRequest == USBRQ_SET_CONFIGURATION then (s.(configuration := value), 0)
        else if rq.bRequest == USBRQ_GET_INTERFACE then (s, 1)
        else (s, 0);
      (PointAt(v, d, s1, if rq.bRequest == USBRQ_GET_CONFIGURATION then ConfigurationByte else Scratch, len), len)
  }

  /** The reply length limited to `wLength`, compared on its low byte only when the high byte is 0. */
  function Clamp(len: byte, wLength: word): byte
  {
    if wLength / 256 == 0 && len > wLength % 256 then wLength % 256 else len
  }

  /** The type bits of `bmRequestType`: standard, class or vendor. */
  function RequestType(rq: Request): nat
  {
    And(rq.bmRequestType, USBRQ_TYPE_MASK)
  }

  /**
   * `usbProcessRx`: a SETUP packet of 8 bytes restarts the data toggle,
   * aborts a pending transmit and sets up the reply, from the driver for a
   * standard request and from the application otherwise.
   */
  function AfterRx(v: Variant, d: Image, s: Usb, p: Packet, app: AppReply): Usb
  {
    if p.token != USBPID_SETUP || |p.data| != 8 then s
    else
      var rq := ParseRequest(p.data);
      var s1 := s.(txPid := USBPID_DATA0, txLen := USBPID_NAK);
      var (s2, len) := if RequestType(rq) != USBRQ_TYPE_STANDARD then (s1.(msg := app.msg, msgPos := 0), app.len)
                       else DriverSetup(v, d, s1, rq);
      s2.(msgLen := Clamp(len, rq.wLength))
  }

  // ---------------------------------------------------------------------
  // Transmit blocks

  /** The data PID that follows `pid`: `usbTxBuf[0] ^= USBPID_DATA0 ^ USBPID_DATA1`. */
  function Toggle(pid: bv8): bv8
  {
    pid ^ (USBPID_DATA0 ^ USBPID_DATA1)
  }

  /**
   * `usbBuildTxBlock`: the next at most 8 bytes of the message, under the
   * other data PID; a block shorter than 8 bytes ends the message.  The
   * transmit length counts the PID and the two CRC bytes too.
   */
  function TxBlock(s: Usb): (t: Usb)
    requires UsbOk(s) && s.msgLen != USB_NO_MSG
    ensures UsbOk(t)
  {
    var want := Min(s.msgLen, 8);
    s.(txPid := Toggle(s.txPid),
       txData := s.msg[s.msgPos..s.msgPos + want],
       msgPos := s.msgPos + want,
       msgLen := if want + 4 < 12 then USB_NO_MSG else s.msgLen - want,
       txLen := want + 4)
  }

  /**
   * The driver part of the main loop's poll: a received packet is processed
   * and its buffer freed; when the transmitter is idle (bit 4 of
   * `usbTxLen`, set in a handshake token) and a message is pending, its
   * next block is built.
   */
  function AfterPoll(v: Variant, d: Image, s: Usb, rx: Option<Packet>, app: AppReply): Usb
    requires ImageOk(d) && UsbOk(s) && AppReplyOk(app)
  {
    var s1 := if rx.Some? then AfterRx(v, d, s, rx.value, app) else s;
    RxKeepsOk(v, d, s, rx, app);
    if And(s1.txLen, 0x10) != 0 && s1.msgLen != USB_NO_MSG then TxBlock(s1) else s1
  }

  lemma RxKeepsOk(v: Variant, d: Image, s: Usb, rx: Option<Packet>, app: AppReply)
    requires ImageOk(d) && UsbOk(s) && AppReplyOk(app)
    ensures UsbOk(if rx.Some? then AfterRx(v, d, s, rx.value, app) else s)
  {
    if rx.Some? && rx.value.token == USBPID_SETUP && |rx.value.data| == 8 {
      RxReply(v, d, s, rx.value, app);
    }
  }

  // ---------------------------------------------------------------------
  // The driver

  class Driver {
    const variant: Variant
    const image: Image
    var txPid: bv8
    var txLen: byte
    var txData: seq<byte>
    var msgLen: byte
    var msg: seq<byte>
    var msgPos: nat
    var configuration: byte
    var newDeviceAddr: byte

    function State(): Usb
      reads this
    {
      Usb(txPid, txLen, txData, msgLen, msg, msgPos, configuration, newDeviceAddr)
    }

    ghost predicate Valid()
      reads this
    {
      ImageOk(image) && UsbOk(State())
    }

    /** The driver's variables as static storage starts them, then `usbInit`. */
    constructor (variant: Variant, image: Image)
      requires ImageOk(image)
      ensures Valid() && this.variant == variant && this.image == image
      ensures State() == AfterInit(Usb(0, 0, [], 0, [], 0, 0, 0))
    {
      this.variant := variant;
      this.image := image;
      txPid, txData, msg, msgPos, configuration, newDeviceAddr := 0, [], [], 0, 0, 0;
      txLen := USBPID_NAK;
      msgLen := USB_NO_MSG;
    }

    /** `usbInit`. */
    method Init()
      requires Valid()
      modifies this
      ensures Valid() && State() == AfterInit(old(State()))
    {
      txLen := USBPID_NAK;
      msgLen := USB_NO_MSG;
    }

    /** `usbDriverDescriptor`. */
    method DriverDescriptor(rq: Request) returns (len: byte)
      modifies this
      ensures State() == (var (_, t) := Descriptor(image, rq);
                          if t.Some? then old(State()).(msg := t.value, msgPos := 0) else old(State()))
      ensures len == Descriptor(image, rq).0
    {
      len := 0;
      var kind := rq.wValue / 256;
      var table: seq<byte> := [];
      if kind == USBDESCR_DEVICE {
        table := image.device;
      } else if kind == USBDESCR_CONFIG {
        table := image.configuration;
      } else if kind == USBDESCR_STRING {
        var index := rq.wValue % 256;
        if index == 0 {
          table := image.string0;
        } else if index == 1 {
          table := image.vendor;
        } else if index == 2 {
          table := image.product;
        } else if index == 3 {
          table := image.serialNumber;
        }
      }
      if |table| != 0 {
        len := (|table| % 0x4000) % 256;
        msg, msgPos := table, 0;
      }
    }

    /** `usbDriverSetup`. */
    method DriverSetupRequest(rq: Request) returns (len: byte)
      modifies this
      ensures (State(), len) == DriverSetup(variant, image, old(State()), rq)
    {
      len := 0;
      var target := Scratch;
      var value := rq.wValue % 256;
      if rq.bRequest == USBRQ_GET_STATUS {
        len := 2;
      } else if rq.bRequest == USBRQ_SET_ADDRESS {
        newDeviceAddr := value;
      } else if rq.bRequest == USBRQ_GET_DESCRIPTOR {
        len := DriverDescriptor(rq);
        return;
      } else if rq.bRequest == USBRQ_GET_CONFIGURATION {
        target := ConfigurationByte;
        len := 1;
      } else if rq.bRequest == USBRQ_SET_CONFIGURATION {
        configuration := value;
      } else if rq.bRequest == USBRQ_GET_INTERFACE {
        len := 1;
      }
      if variant == AsWritten {
        msg := image.flash;
        msgPos := if target == Scratch then image.scratchAt else image.configurationAt;
      } else {
        msg := if target == ConfigurationByte then [configuration] else if len == 2 then [0, 0] else [0];
        msgPos := 0;
      }
    }

    /** `usbProcessRx`, with what the application's `usbFunctionSetup` answers for a class or vendor request. */
    method ProcessRx(p: Packet, app: AppReply)
      requires Valid() && AppReplyOk(app)
      modifies this
      ensures Valid() && State() == AfterRx(variant, image, old(State()), p, app)
    {
      if p.token == USBPID_SETUP {
        if |p.data| != 8 {
          return;
        }
        var rq := ParseRequest(p.data);
        var replyLen: byte;
        txPid := USBPID_DATA0;
        txLen := USBPID_NAK;
        var kind := And(rq.bmRequestType, USBRQ_TYPE_MASK);
        if kind != USBRQ_TYPE_STANDARD {
          replyLen := app.len;
          msg, msgPos := app.msg, 0;
        } else {
          replyLen := DriverSetupRequest(rq);
        }
        if rq.wLength / 256 == 0 && replyLen > rq.wLength % 256 {
          replyLen := rq.wLength % 256;
        }
        msgLen := replyLen;
        RxReply(variant, image, old(State()), p, app);
      }
    }

    /** `usbBuildTxBlock`, with `usbDeviceRead` copying the bytes and advancing the pointer. */
    method BuildTxBlock()
      requires Valid() && msgLen != USB_NO_MSG
      modifies this
      ensures Valid() && State() == TxBlock(old(State()))
    {
      var wantLen := msgLen;
      if wantLen > 8 {
        wantLen := 8;
      }
      msgLen := msgLen - wantLen;
      txPid := Toggle(txPid);
      txData := msg[msgPos..msgPos + wantLen];
      if wantLen > 0 {
        msgPos := msgPos + wantLen;
      }
      wantLen := wantLen + 4;
      if wantLen < 12 {
        msgLen := USB_NO_MSG;
      }
      txLen := wantLen;
    }

    /** The driver part of one pass of the firmware's main loop. */
    method Poll(rx: Option<Packet>, app: AppReply)
      requires Valid() && AppReplyOk(app)
      modifies this
      ensures Valid() && State() == AfterPoll(variant, image, old(State()), rx, app)
    {
      if rx.Some? {
        ProcessRx(rx.value, app);
      }
      if And(txLen, 0x10) != 0 {
        if msgLen != USB_NO_MSG {
          BuildTxBlock();
        }
      }
    }
  }

  // ---------------------------------------------------------------------
  // Properties

  /**
   * A SETUP packet of 8 bytes starts a reply of `min(len, wLength)` bytes,
   * `len` being what the application answered for a class or vendor request
   * and what the driver answered for a standard one, sent from the start of
   * the bytes it points at under DATA1 first (DATA0 is set, and each block
   * toggles first); a packet of another length or another token leaves the
   * driver as it was.
   */
  lemma RxReply(v: Variant, d: Image, s: Usb, p: Packet, app: AppReply)
    requires ImageOk(d) && UsbOk(s) && AppReplyOk(app)
    ensures var t := AfterRx(v, d, s, p, app);
      UsbOk(t) &&
      (p.token != USBPID_SETUP || |p.data| != 8 ==> t == s) &&
      (p.token == USBPID_SETUP && |p.data| == 8 ==>
        var rq := ParseRequest(p.data);
        t.txPid == USBPID_DATA0 && t.txLen == USBPID_NAK && t.msgLen != USB_NO_MSG &&
        t.msgLen as int == Min(if RequestType(rq) != USBRQ_TYPE_STANDARD then app.len else DriverSetup(v, d, s, rq).1, rq.wLength) &&
        (RequestType(rq) != USBRQ_TYPE_STANDARD ==>
          t.msg == app.msg && t.msgPos == 0 && t.configuration == s.configuration && t.newDeviceAddr == s.newDeviceAddr))
  {
    if p.token == USBPID_SETUP && |p.data| == 8 {
      var rq := ParseRequest(p.data);
      var s1 := s.(txPid := USBPID_DATA0, txLen := USBPID_NAK);
      if RequestType(rq) == USBRQ_TYPE_STANDARD {
        DriverReplyFits(v, d, s1, rq);
        assert DriverSetup(v, d, s1, rq).1 == DriverSetup(v, d, s, rq).1;
      }
    }
  }

  /** What the driver answers itself is there to be read, and never `USB_NO_MSG`. */
  lemma DriverReplyFits(v: Variant, d: Image, s: Usb, rq: Request)
    requires ImageOk(d) && UsbOk(s)
    ensures var (t, len) := DriverSetup(v, d, s, rq);
      len != USB_NO_MSG && t.msgPos + len <= |t.msg|
  {
    if rq.bRequest == USBRQ_GET_DESCRIPTOR {
      DescriptorFits(d, rq);
    }
  }

  /**
   * The bytes the driver's own standard requests reply with: as intended
   * two zero bytes of status, the configuration and a zero interface
   * number; as written the bytes of program memory at the RAM addresses
   * those should come from.  SET_ADDRESS and SET_CONFIGURATION take the low
   * byte of `wValue` and reply with nothing; apart from the message,
   * nothing else changes.
   */
  lemma StandardReplies(v: Variant, d: Image, s: Usb, rq: Request)
    requires ImageOk(d) && UsbOk(s)
    ensures var (t, len) := DriverSetup(v, d, s, rq); t.msgPos + len <= |t.msg|
    ensures var (t, len) := DriverSetup(v, d, s, rq);
      var reply := t.msg[t.msgPos..t.msgPos + len];
      (rq.bRequest == USBRQ_GET_STATUS ==>
        len == 2 && reply == if v == Intended then [0, 0] else d.flash[d.scratchAt..d.scratchAt + 2]) &&
      (rq.bRequest == USBRQ_GET_CONFIGURATION ==>
        len == 1 && reply == [if v == Intended then s.configuration else d.flash[d.configurationAt]]) &&
      (rq.bRequest == USBRQ_GET_INTERFACE ==>
        len == 1 && reply == [if v == Intended then 0 else d.flash[d.scratchAt]]) &&
      (rq.bRequest == USBRQ_SET_ADDRESS ==>
        len == 0 && t.newDeviceAddr == rq.wValue % 256 && t.configuration == s.configuration) &&
      (rq.bRequest == USBRQ_SET_CONFIGURATION ==>
        len == 0 && t.configuration == rq.wValue % 256 && t.newDeviceAddr == s.newDeviceAddr) &&
      (rq.bRequest != USBRQ_SET_ADDRESS && rq.bRequest != USBRQ_SET_CONFIGURATION ==>
        t.configuration == s.configuration && t.newDeviceAddr == s.newDeviceAddr) &&
      t.txPid == s.txPid && t.txLen == s.txLen && t.txData == s.txData && t.msgLen == s.msgLen
  {
    var value := rq.wValue % 256;
    DriverReplyFits(v, d, s, rq);
    if rq.bRequest == USBRQ_GET_DESCRIPTOR {
    } else if rq.bRequest == USBRQ_GET_STATUS {
      assert DriverSetup(v, d, s, rq) == (PointAt(v, d, s, Scratch, 2), 2);
    } else if rq.bRequest == USBRQ_SET_ADDRESS {
      assert DriverSetup(v, d, s, rq) == (PointAt(v, d, s.(newDeviceAddr := value), Scratch, 0), 0);
    } else if rq.bRequest == USBRQ_GET_CONFIGURATION {
      assert DriverSetup(v, d, s, rq) == (PointAt(v, d, s, ConfigurationByte, 1), 1);
      if v == AsWritten {
        OneByte(d.flash, d.configurationAt);
      }
    } else if rq.bRequest == USBRQ_SET_CONFIGURATION {
      assert DriverSetup(v, d, s, rq) == (PointAt(v, d, s.(configuration := value), Scratch, 0), 0);
    } else if rq.bRequest == USBRQ_GET_INTERFACE {
      assert DriverSetup(v, d, s, rq) == (PointAt(v, d, s, Scratch, 1), 1);
      if v == AsWritten {
        OneByte(d.flash, d.scratchAt);
      }
    } else {
      assert DriverSetup(v, d, s, rq) == (PointAt(v, d, s, Scratch, 0), 0);
    }
  }

  lemma OneByte(m: seq<byte>, i: nat)
    requires i < |m|
    ensures m[i..i + 1] == [m[i]]
  {
  }

  /**
   * As written, GET_CONFIGURATION does not read back what SET_CONFIGURATION
   * set whenever the program memory byte at the address of
   * `usbConfiguration` differs from the value set.
   */
  lemma ConfigurationNotReadBack(d: Image, s: Usb, setPacket: seq<byte>, getPacket: seq<byte>, app: AppReply)
    requires ImageOk(d)
    requires |setPacket| == 8 && |getPacket| == 8
    requires And(setPacket[0], USBRQ_TYPE_MASK) == USBRQ_TYPE_STANDARD && setPacket[1] == USBRQ_SET_CONFIGURATION
    requires And(getPacket[0], USBRQ_TYPE_MASK) == USBRQ_TYPE_STANDARD && getPacket[1] == USBRQ_GET_CONFIGURATION
    requires getPacket[6] >= 1 || getPacket[7] >= 1
    requires d.flash[d.configurationAt] != setPacket[2]
    ensures var t := AfterRx(AsWritten, d, AfterRx(AsWritten, d, s, Packet(USBPID_SETUP, setPacket), app), Packet(USBPID_SETUP, getPacket), app);
      t.configuration == setPacket[2] && t.msg[t.msgPos..t.msgPos + t.msgLen] != [setPacket[2]]
  {
    ConfigurationReadBack(AsWritten, d, s, setPacket, getPacket, app);
  }

  /** A descriptor reply has the length of its table, and 0 when there is none. */
  lemma DescriptorFits(d: Image, rq: Request)
    requires ImageOk(d)
    ensures var (len, table) := Descriptor(d, rq);
      len != USB_NO_MSG && (table.None? ==> len == 0) && (table.Some? ==> len == |table.value|)
  {
    var kind := rq.wValue / 256;
    var index := rq.wValue % 256;
    if kind == USBDESCR_DEVICE {
      PresentFits(d.device);
    } else if kind == USBDESCR_CONFIG {
      PresentFits(d.configuration);
    } else if kind == USBDESCR_STRING {
      if index == 0 {
        PresentFits(d.string0);
      } else if index == 1 {
        PresentFits(d.vendor);
      } else if index == 2 {
        PresentFits(d.product);
      } else if index == 3 {
        PresentFits(d.serialNumber);
      }
    }
  }

  lemma PresentFits(descriptor: seq<byte>)
    requires |descriptor| < 255
    ensures var (len, table) := Present(descriptor);
      (table.None? ==> len == 0) && (table.Some? ==> table.value == descriptor && len == |descriptor|)
  {
  }

  /** The clamp is the minimum of the reply length and `wLength`, since the reply length is below 256. */
  lemma ClampIsMin(len: byte, wLength: word)
    ensures Clamp(len, wLength) as int == Min(len, wLength)
  {
  }

  /**
   * After SET_CONFIGURATION with value c, GET_CONFIGURATION replies with a
   * single byte: c as intended, and as written the byte of program memory
   * at the RAM address of `usbConfiguration`.
   */
  lemma ConfigurationReadBack(v: Variant, d: Image, s: Usb, setPacket: seq<byte>, getPacket: seq<byte>, app: AppReply)
    requires ImageOk(d)
    requires |setPacket| == 8 && |getPacket| == 8
    requires And(setPacket[0], USBRQ_TYPE_MASK) == USBRQ_TYPE_STANDARD && setPacket[1] == USBRQ_SET_CONFIGURATION
    requires And(getPacket[0], USBRQ_TYPE_MASK) == USBRQ_TYPE_STANDARD && getPacket[1] == USBRQ_GET_CONFIGURATION
    requires getPacket[6] >= 1 || getPacket[7] >= 1
    ensures var t := AfterRx(v, d, AfterRx(v, d, s, Packet(USBPID_SETUP, setPacket), app), Packet(USBPID_SETUP, getPacket), app);
      t.configuration == setPacket[2] && t.msgLen == 1 &&
      t.msg[t.msgPos..t.msgPos + 1] == [if v == Intended then setPacket[2] else d.flash[d.configurationAt]]
  {
    var t1 := AfterRx(v, d, s, Packet(USBPID_SETUP, setPacket), app);
    assert t1.configuration == setPacket[2];
  }

  /** One block of the reply: its data PID and its bytes. */
  datatype Block = Block(pid: bv8, data: seq<byte>)

  /**
   * The blocks a reply goes out in when each is collected before the next
   * is built: `usbBuildTxBlock` repeated until it ends the message.
   */
  function Transmit(s: Usb): (bs: seq<Block>)
    requires UsbOk(s) && s.msgLen != USB_NO_MSG
    ensures |bs| >= 1
    decreases s.msgLen
  {
    var t := TxBlock(s);
    var b := Block(t.txPid, t.txData);
    if t.msgLen == USB_NO_MSG then [b] else [b] + Transmit(t)
  }

  /** The reference split: blocks of 8 bytes, each under the other PID, ended by one shorter than 8. */
  function Chunked(m: seq<byte>, pid: bv8): (bs: seq<Block>)
    decreases |m|
  {
    if |m| < 8 then [Block(Toggle(pid), m)] else [Block(Toggle(pid), m[..8])] + Chunked(m[8..], Toggle(pid))
  }

  /** The blocks built for a pending message are its bytes split as Chunked splits them. */
  lemma {:induction false} TransmitChunks(s: Usb)
    requires UsbOk(s) && s.msgLen != USB_NO_MSG
    ensures Transmit(s) == Chunked(s.msg[s.msgPos..s.msgPos + s.msgLen], s.txPid)
    decreases s.msgLen
  {
    var m := s.msg[s.msgPos..s.msgPos + s.msgLen];
    var t := TxBlock(s);
    if t.msgLen != USB_NO_MSG {
      TransmitChunks(t);
      assert t.msg[t.msgPos..t.msgPos + t.msgLen] == m[8..];
      assert t.txData == m[..8];
    }
  }

  /** Concatenated block data. */
  function Joined(bs: seq<Block>): seq<byte>
  {
    if |bs| == 0 then [] else bs[0].data + Joined(bs[1..])
  }

  /** The two data PIDs take turns under Toggle. */
  lemma PidsAlternate()
    ensures Toggle(USBPID_DATA0) == USBPID_DATA1 && Toggle(USBPID_DATA1) == USBPID_DATA0
  {
  }

  /**
   * The split of m has |m| / 8 + 1 blocks that together hold exactly m;
   * all but the last hold 8 bytes and the last holds |m| % 8, so a message
   * of whole blocks ends with an empty one.
   */
  lemma {:induction false} ChunkedData(m: seq<byte>, pid: bv8)
    ensures var bs := Chunked(m, pid);
      |bs| == |m| / 8 + 1 && Joined(bs) == m &&
      (forall i :: 0 <= i < |bs| - 1 ==> |bs[i].data| == 8) &&
      |bs[|bs| - 1].data| == |m| % 8
    decreases |m|
  {
    if |m| >= 8 {
      var bs := Chunked(m, pid);
      var rest := Chunked(m[8..], Toggle(pid));
      ChunkedData(m[8..], Toggle(pid));
      assert bs[1..] == rest;
      assert m == m[..8] + m[8..];
      forall i | 0 <= i < |bs| - 1
        ensures |bs[i].data| == 8
      {
        if i > 0 {
          assert bs[i] == rest[i - 1];
        }
      }
    }
  }

  /** The PID of block i of a reply whose toggle starts at `pid`. */
  function PidOf(i: nat, pid: bv8): bv8
  {
    if i % 2 == 0 then Toggle(pid) else pid
  }

  /** Toggling twice gives the PID back. */
  lemma ToggleTwice(pid: bv8)
    ensures Toggle(Toggle(pid)) == pid
  {
  }

  /** The blocks go out under the toggled PID and the PID itself in turn. */
  lemma {:induction false} ChunkedPids(m: seq<byte>, pid: bv8)
    ensures forall i :: 0 <= i < |Chunked(m, pid)| ==> Chunked(m, pid)[i].pid == PidOf(i, pid)
    decreases |m|
  {
    if |m| >= 8 {
      ToggleTwice(pid);
      var bs := Chunked(m, pid);
      var rest := Chunked(m[8..], Toggle(pid));
      ChunkedPids(m[8..], Toggle(pid));
      assert bs == [Block(Toggle(pid), m[..8])] + rest;
      forall i | 0 <= i < |bs|
        ensures bs[i].pid == PidOf(i, pid)
      {
        if i > 0 {
          assert bs[i] == rest[i - 1];
          assert (i % 2 == 0) == ((i - 1) % 2 == 1);
        }
      }
    }
  }

  /**
   * The reply to a SETUP packet goes out as its bytes split into blocks of
   * 8, under DATA1, DATA0, DATA1, ..., the last one shorter than 8.
   */
  lemma ReplyBlocks(v: Variant, d: Image, s: Usb, p: Packet, app: AppReply)
    requires ImageOk(d) && UsbOk(s) && AppReplyOk(app)
    requires p.token == USBPID_SETUP && |p.data| == 8
    ensures var t := AfterRx(v, d, s, p, app);
      UsbOk(t) && t.msgLen != USB_NO_MSG &&
      var bs := Transmit(t);
      |bs| == t.msgLen / 8 + 1 && Joined(bs) == t.msg[t.msgPos..t.msgPos + t.msgLen] &&
      (forall i :: 0 <= i < |bs| - 1 ==> |bs[i].data| == 8) &&
      |bs[|bs| - 1].data| == t.msgLen % 8 &&
      (forall i :: 0 <= i < |bs| ==> bs[i].pid == if i % 2 == 0 then USBPID_DATA1 else USBPID_DATA0)
  {
    RxReply(v, d, s, p, app);
    var t := AfterRx(v, d, s, p, app);
    var m := t.msg[t.msgPos..t.msgPos + t.msgLen];
    TransmitChunks(t);
    ChunkedData(m, t.txPid);
    ChunkedPids(m, t.txPid);
    PidsAlternate();
  }
}
