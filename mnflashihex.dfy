// The mnflash Intel HEX loader (mnflash/load-ihex.c): a strict line parser
// over all six record types of the Intel Hexadecimal Object File Format
// Specification, Rev. A, that fills a firmware blob.  The file is read in
// the pieces `fgets` returns into a 256-character buffer, and `hex2word` is
// modelled both as written (it never fails) and as intended.
module MnflashIhex {
  import opened Common
  import opened IntelHex
  import opened FirmwareBlob

  /**
   * `linebuf[i]` of the chomped line. Index `|l|` holds the terminating NUL
   * and the bytes after it are left over from earlier lines; both are read
   * here as a character that is no hexadecimal digit.
   */
  function CharAt(l: string, i: nat): char
  {
    if i < |l| then l[i] else 0 as char
  }

  /** `char2nibble` */
  function Char2Nibble(c: char): (n: int)
    ensures -1 <= n < 16
    ensures n == -1 <==> !IsHexDigit(c)
    ensures IsHexDigit(c) ==> n == DigitValue(c)
  {
    if '0' <= c <= '9' then c as int - '0' as int
    else if 'A' <= c <= 'F' then c as int - 'A' as int + 10
    else if 'a' <= c <= 'f' then c as int - 'a' as int + 10
    else -1
  }

  /** `hex2byte`: the return value 2 is `Some`, 0 is `None`. */
  function Hex2Byte(l: string, i: nat): (r: Option<byte>)
    ensures r.Some? <==> IsHexDigit(CharAt(l, i)) && IsHexDigit(CharAt(l, i + 1))
    ensures r.Some? ==> r.value == 16 * DigitValue(CharAt(l, i)) + DigitValue(CharAt(l, i + 1))
  {
    var n1 := Char2Nibble(CharAt(l, i));
    if n1 >= 0 then
      var n2 := Char2Nibble(CharAt(l, i + 1));
      if n2 >= 0 then Some(n1 * 16 + n2) else None
    else None
  }

  /** `hex2word` as evidently intended: two bytes, the first the high one; 0 when either is bad. */
  function Hex2Word(l: string, i: nat): (r: Option<word>)
    ensures r.Some? <==> Hex2Byte(l, i).Some? && Hex2Byte(l, i + 2).Some?
    ensures r.Some? ==> HiByte(r.value) == Hex2Byte(l, i).value && LoByte(r.value) == Hex2Byte(l, i + 2).value
  {
    match (Hex2Byte(l, i), Hex2Byte(l, i + 2))
    case (Some(b1), Some(b2)) => Some(BE16(b1, b2))
    case _ => None
  }

  /**
   * `hex2word` as written: `hex2byte` returns 0 or 2, so both `>= 0` tests
   * pass and it reports success every time; a byte that did not parse is
   * the uninitialized local, given here as `staleHi`/`staleLo`.
   */
  function Hex2WordAsWritten(l: string, i: nat, staleHi: byte, staleLo: byte): (r: (int, word))
    ensures r.0 == 1
    ensures Hex2Word(l, i).Some? ==> r.1 == Hex2Word(l, i).value
  {
    var b1 := match Hex2Byte(l, i) case Some(b) => b case None => staleHi;
    var b2 := match Hex2Byte(l, i + 2) case Some(b) => b case None => staleLo;
    (1, BE16(b1, b2))
  }

  /** A field that does not start with a digit is accepted by the code as written and refused as intended. */
  lemma Hex2WordAcceptsNonDigits(l: string, i: nat, staleHi: byte, staleLo: byte)
    requires !IsHexDigit(CharAt(l, i))
    ensures Hex2WordAsWritten(l, i, staleHi, staleLo).0 == 1
    ensures Hex2Word(l, i) == None
  {
  }

  /**
   * How the `hex2word` calls of a load are read: as written, where a byte
   * that does not parse leaves the uninitialized local `b1` or `b2` in the
   * word (`staleHi` and `staleLo`, the same at every call), or as intended.
   */
  datatype WordReading = WordReading(variant: Variant, staleHi: byte, staleLo: byte)

  /** A `hex2word` call and its `<= 0` test at the call site: None is the error branch. */
  function ReadWord(rd: WordReading, l: string, i: nat): (r: Option<word>)
    ensures Hex2Word(l, i).Some? ==> r == Hex2Word(l, i)
    ensures rd.variant == AsWritten ==> r.Some?
    ensures rd.variant == Intended && r.Some? ==> Hex2Word(l, i).Some?
  {
    if rd.variant == Intended then Hex2Word(l, i)
    else
      var (ret, w) := Hex2WordAsWritten(l, i, rd.staleHi, rd.staleLo);
      if ret <= 0 then None else Some(w)
  }

  /** The "chomp": one trailing `\n`, then one trailing `\r`. */
  function CChomp(line: string): (l: string)
    ensures |line| - 2 <= |l| <= |line| && l == line[..|l|]
  {
    var t := if |line| > 0 && line[|line| - 1] == '\n' then line[..|line| - 1] else line;
    if |t| > 0 && t[|t| - 1] == '\r' then t[..|t| - 1] else t
  }

  datatype LineError =
    | TooShort | BadMarker | BadLength | Corrupted | BadByte | ChecksumError
    | BadAddress | BadType | ResizeFailed | BadSegment(recordType: byte) | UnknownType(recordType: byte)

  /** The `n` bytes spelled at characters i, i + 2, ...; None when one of them does not parse. */
  function ReadBytes(l: string, i: nat, n: nat): (r: Option<seq<byte>>)
    ensures r.Some? ==> |r.value| == n
  {
    if n == 0 then Some([])
    else match (ReadBytes(l, i, n - 1), Hex2Byte(l, i + 2 * (n - 1)))
      case (Some(bs), Some(b)) => Some(bs + [b])
      case _ => None
  }

  /** `sum_lsb`: the low byte of the sum, complemented, plus one, as an 8-bit value. */
  function SumLsb(sum: int): (s: byte)
    ensures s == 0 <==> sum % 256 == 0
  {
    ((255 - sum % 256) + 1) % 256
  }

  datatype Header = Header(len: byte, address: word, recordType: byte)

  /**
   * The checks every line passes before its type is looked at. The byte
   * sum is only checked when the line is exactly as long as its length
   * field says (11 + 2L characters).
   */
  function ParseHeader(rd: WordReading, l: string): (r: Result<Header, LineError>)
    ensures r.Ok? ==> |l| >= 9 + r.value.len && l[0] == ':'
  {
    if |l| < 9 then Err(TooShort)
    else if l[0] != ':' then Err(BadMarker)
    else match Hex2Byte(l, 1)
      case None => Err(BadLength)
      case Some(len) =>
        if |l| < 9 + len then Err(Corrupted)
        else match CheckLine(l, len)
          case Some(e) => Err(e)
          case None =>
            match (ReadWord(rd, l, 3), Hex2Byte(l, 7))
            case (None, _) => Err(BadAddress)
            case (_, None) => Err(BadType)
            case (Some(a), Some(t)) => Ok(Header(len, a, t))
  }

  /** The checksum loop, run only at the exact length. */
  function CheckLine(l: string, len: nat): Option<LineError>
  {
    if |l| != 11 + len * 2 then None
    else match ReadBytes(l, 1, len + 5)
      case None => Some(BadByte)
      case Some(bs) => if SumLsb(Sum(bs)) != 0 then Some(ChecksumError) else None
  }

  predicate Sound(st: BlobState)
  {
    (st.data.Some? ==> |st.data.value| == st.dataSize) && (st.data.None? ==> st.dataSize == 0)
  }

  /** The data loop: byte i of the record goes to `addr + i` when its two digits parse. */
  function CopyData(d: seq<byte>, l: string, addr: nat, len: nat): seq<byte>
    requires addr + len <= |d|
  {
    seq(|d|, k requires 0 <= k < |d| => CopiedByte(d, l, addr, len, k))
  }

  function CopiedByte(d: seq<byte>, l: string, addr: nat, len: nat, k: nat): byte
    requires k < |d|
  {
    if addr <= k < addr + len && Hex2Byte(l, 9 + 2 * (k - addr)).Some? then Hex2Byte(l, 9 + 2 * (k - addr)).value else d[k]
  }

  /** Record type 0: lower `start`, grow the blob, copy the bytes, move `end`. */
  function LoadData(st: BlobState, l: string, addr: nat, len: nat): (r: Result<BlobState, LineError>)
    requires Sound(st)
    ensures r.Ok? ==> Sound(r.value)
  {
    var start := if st.data.None? || addr < st.start then addr else st.start;
    var grown := Resized(st.data, st.dataSize, addr + len);
    if grown.0.None? then Err(ResizeFailed)
    else Ok(BlobState(st.entry, start, addr + len, grown.1, Some(CopyData(grown.0.value, l, addr, len))))
  }

  /** `(segment << 16) + offset` in a 32-bit `int`, then widened to a 64-bit `size_t`. */
  function LinearEntry(segment: word, offset: word): (e: nat)
    ensures segment < 0x8000 ==> e == segment * 0x1_0000 + offset
  {
    var v := segment * 0x1_0000 + offset;
    if v >= 0x8000_0000 then v - 0x1_0000_0000 + 0x1_0000_0000_0000_0000 else v
  }

  /** The `switch` on the record type. */
  function ApplyRecord(rd: WordReading, st: BlobState, h: Header, l: string): (r: Result<BlobState, LineError>)
    requires Sound(st)
    ensures r.Ok? ==> Sound(r.value)
  {
    match h.recordType
    case 0 => LoadData(st, l, h.address, h.len)
    case 1 => Ok(if st.entry == 0 then st.(entry := h.address) else st)
    case 2 => if ReadWord(rd, l, 9).Some? then Ok(st) else Err(BadSegment(2))
    case 3 =>
      (match (ReadWord(rd, l, 9), ReadWord(rd, l, 13))
       case (Some(segment), Some(offset)) => Ok(st.(entry := segment * 16 + offset))
       case _ => Err(BadSegment(3)))
    case 4 => if ReadWord(rd, l, 9).Some? then Ok(st) else Err(BadSegment(4))
    case 5 =>
      (match (ReadWord(rd, l, 9), ReadWord(rd, l, 13))
       case (Some(segment), Some(offset)) => Ok(st.(entry := LinearEntry(segment, offset)))
       case _ => Err(BadSegment(5)))
    case _ => Err(UnknownType(h.recordType))
  }

  /** One pass of the `fgets` loop, on the piece `line` that `fgets` returned. */
  function StepLine(rd: WordReading, st: BlobState, line: string): (r: Result<BlobState, LineError>)
    requires Sound(st)
    ensures r.Ok? ==> Sound(r.value)
  {
    var l := CChomp(line);
    match ParseHeader(rd, l)
    case Err(e) => Err(e)
    case Ok(h) => ApplyRecord(rd, st, h, l)
  }

  /** The pieces in turn: the first failing one makes `ihex_load` return NULL. */
  function Load(rd: WordReading, lines: seq<string>, st: BlobState): Result<BlobState, LineError>
    requires Sound(st)
    decreases |lines|
  {
    if |lines| == 0 then Ok(st)
    else match StepLine(rd, st, lines[0])
      case Err(e) => Err(e)
      case Ok(st') => Load(rd, lines[1..], st')
  }

  // ---------------------------------------------------------------------
  // fgets

  /** `linebuf`: `fgets` stores at most 255 characters and the NUL. */
  const LINEBUF: nat := 256

  /**
   * The length of the piece `fgets(linebuf, 256, in)` takes from the front
   * of `text`, looked at from character n on: it stops after a newline,
   * after 255 characters, or at the end of the file.
   */
  function PieceLength(text: string, n: nat): (k: nat)
    requires 0 < n <= |text| && n < LINEBUF
    ensures n <= k <= |text| && k < LINEBUF
    decreases LINEBUF - n
  {
    if n == |text| || n == LINEBUF - 1 || text[n - 1] == '\n' then n else PieceLength(text, n + 1)
  }

  /** The successive results of `fgets` on the whole file. */
  function Pieces(text: string): (ps: seq<string>)
    ensures forall i :: 0 <= i < |ps| ==> 0 < |ps[i]| < LINEBUF
    decreases |text|
  {
    if |text| == 0 then []
    else
      var k := PieceLength(text, 1);
      [text[..k]] + Pieces(text[k..])
  }

  /** The pieces, put back together. */
  function Join(ps: seq<string>): string
  {
    if |ps| == 0 then "" else ps[0] + Join(ps[1..])
  }

  // ---------------------------------------------------------------------
  // The loader as the C code runs it

  /** `ihex_load` on the file's text; NULL becomes `null`.  The loop runs over
      the successive results of `fgets`. */
  method IhexLoad(rd: WordReading, text: string) returns (blob: Blob?)
    ensures blob == null <==> Load(rd, Pieces(text), EmptyBlob).Err?
    ensures blob != null ==> fresh(blob) && blob.State() == Load(rd, Pieces(text), EmptyBlob).value
  {
    blob := new Blob();
    var lines := Pieces(text);
    var i := 0;
    while i < |lines|
      invariant 0 <= i <= |lines|
      invariant blob.Valid()
      invariant Load(rd, lines[i..], blob.State()) == Load(rd, lines, EmptyBlob)
      invariant fresh(blob)
    {
      assert lines[i..][1..] == lines[i + 1..];
      var err := LoadLine(rd, blob, lines[i]);
      if err.Some? {
        return null;
      }
      i := i + 1;
    }
  }

  /** The body of the `fgets` loop, on the blob in place. */
  method LoadLine(rd: WordReading, blob: Blob, line: string) returns (err: Option<LineError>)
    requires blob.Valid()
    modifies blob
    ensures StepLine(rd, old(blob.State()), line) == if err.None? then Ok(blob.State()) else Err(err.value)
    ensures err.None? ==> blob.Valid()
  {
    var l := CChomp(line);
    var h := ReadHeader(rd, l);
    if h.Err? {
      return Some(h.error);
    }
    err := ApplyTo(rd, blob, h.value, l);
  }

  /** The checks from the length test to the type field. */
  method ReadHeader(rd: WordReading, l: string) returns (r: Result<Header, LineError>)
    ensures r == ParseHeader(rd, l)
  {
    if |l| < 9 {
      return Err(TooShort);
    }
    if l[0] != ':' {
      return Err(BadMarker);
    }
    var recLen := Hex2Byte(l, 1);
    if recLen.None? {
      return Err(BadLength);
    }
    var len: nat := recLen.value;
    if |l| < 9 + len {
      return Err(Corrupted);
    }
    if |l| == 11 + len * 2 {
      var e := SumLine(l, len);
      if e.Some? {
        return Err(e.value);
      }
    }
    var recAddress := ReadWord(rd, l, 3);
    if recAddress.None? {
      return Err(BadAddress);
    }
    var recType := Hex2Byte(l, 7);
    if recType.None? {
      return Err(BadType);
    }
    return Ok(Header(recLen.value, recAddress.value, recType.value));
  }

  /** The `switch` on the record type, on the blob in place. */
  method ApplyTo(rd: WordReading, blob: Blob, h: Header, l: string) returns (err: Option<LineError>)
    requires blob.Valid()
    modifies blob
    ensures ApplyRecord(rd, old(blob.State()), h, l) == if err.None? then Ok(blob.State()) else Err(err.value)
    ensures err.None? ==> blob.Valid()
  {
    // `addr_offset` is declared inside the loop body, so every line starts from 0
    var addrOffset: nat := 0;
    match h.recordType {
      case 0 =>
        var addr := addrOffset + h.address;
        if blob.data.None? || addr < blob.start {
          blob.start := addr;
        }
        blob.Resize(addr + h.len);
        if blob.data.None? {
          return Some(ResizeFailed);
        }
        CopyBytes(blob, l, addr, h.len);
        blob.end := addr + h.len;
      case 1 =>
        if blob.entry == 0 {
          blob.entry := h.address;
        }
      case 2 =>
        var segment := ReadWord(rd, l, 9);
        if segment.None? {
          return Some(BadSegment(2));
        }
        addrOffset := segment.value * 16;
      case 3 =>
        var segment := ReadWord(rd, l, 9);
        var offset := ReadWord(rd, l, 13);
        if segment.None? || offset.None? {
          return Some(BadSegment(3));
        }
        blob.entry := segment.value * 16 + offset.value;
      case 4 =>
        var segment := ReadWord(rd, l, 9);
        if segment.None? {
          return Some(BadSegment(4));
        }
        addrOffset := segment.value * 0x1_0000;
      case 5 =>
        var segment := ReadWord(rd, l, 9);
        var offset := ReadWord(rd, l, 13);
        if segment.None? || offset.None? {
          return Some(BadSegment(5));
        }
        blob.entry := LinearEntry(segment.value, offset.value);
      case _ =>
        return Some(UnknownType(h.recordType));
    }
    return None;
  }

  /** The checksum loop over characters 1, 3, ..., 2L + 9. */
  method SumLine(l: string, len: nat) returns (err: Option<LineError>)
    requires |l| == 11 + len * 2
    ensures err == CheckLine(l, len)
  {
    var sum := 0;
    var i := 1;
    ghost var k := 0;
    while i < len * 2 + 10
      invariant i == 1 + 2 * k && k <= len + 5
      invariant ReadBytes(l, 1, k).Some? && sum == Sum(ReadBytes(l, 1, k).value)
    {
      var b := Hex2Byte(l, i);
      if b.None? {
        ReadBytesFails(l, 1, k, len + 5);
        return Some(BadByte);
      }
      SumSnoc(ReadBytes(l, 1, k).value, b.value);
      sum := sum + b.value;
      i := i + 2;
      k := k + 1;
    }
    if SumLsb(sum) != 0 {
      return Some(ChecksumError);
    }
    return None;
  }

  /** The data loop of record type 0. */
  method CopyBytes(blob: Blob, l: string, addr: nat, len: nat)
    requires blob.data.Some? && addr + len <= |blob.data.value|
    modifies blob
    ensures blob.data == Some(CopyData(old(blob.data.value), l, addr, len))
    ensures blob.entry == old(blob.entry) && blob.start == old(blob.start) && blob.end == old(blob.end)
    ensures blob.dataSize == old(blob.dataSize)
  {
    ghost var d := blob.data.value;
    var i := 0;
    while i < len
      invariant 0 <= i <= len
      invariant blob.data.Some? && blob.data.value == CopyData(d, l, addr, i)
      invariant blob.entry == old(blob.entry) && blob.start == old(blob.start) && blob.end == old(blob.end)
      invariant blob.dataSize == old(blob.dataSize)
    {
      var b := Hex2Byte(l, i * 2 + 9);
      if b.Some? {
        blob.data := Some(blob.data.value[addr + i := b.value]);
      }
      i := i + 1;
    }
  }

  /** A byte that does not parse spoils every longer read. */
  lemma {:induction false} ReadBytesFails(l: string, i: nat, k: nat, n: nat)
    requires k < n && Hex2Byte(l, i + 2 * k).None?
    ensures ReadBytes(l, i, n).None?
    decreases n
  {
    if k < n - 1 {
      ReadBytesFails(l, i, k, n - 1);
    }
  }

  // ---------------------------------------------------------------------
  // Reading back the records the format writes

  /** The line a record becomes once chomped, with an optional extra digit after the checksum. */
  function RecordLine(address: word, recordType: byte, data: seq<byte>, cc: byte, extra: string): string
    requires |data| < 256
  {
    ":" + HexOf(RecordBytes(address, recordType, data, cc)) + extra
  }

  /** Two characters spelling `b` read back as `b`. */
  lemma Hex2ByteOfByteHex(l: string, i: nat, b: byte)
    requires i + 2 <= |l| && l[i..i + 2] == ByteHex(b)
    ensures Hex2Byte(l, i) == Some(b)
  {
    assert CharAt(l, i) == ByteHex(b)[0];
    assert CharAt(l, i + 1) == ByteHex(b)[1];
    ByteHexDigits(b);
  }

  /** Characters of `h` keep their place after the ':' , shifted by one. */
  lemma MarkedPair(h: string, extra: string, m: nat)
    requires m + 2 <= |h|
    ensures (":" + h + extra)[1 + m..3 + m] == h[m..m + 2]
  {
    var l := ":" + h + extra;
    assert l[1 + m] == h[m] && l[2 + m] == h[m + 1];
  }

  /** Byte j of the record sits at characters 1 + 2j and 2 + 2j. */
  lemma HexByteAt(bs: seq<byte>, extra: string, j: nat)
    requires j < |bs|
    ensures Hex2Byte(":" + HexOf(bs) + extra, 1 + 2 * j) == Some(bs[j])
  {
    HexOfAt(bs, j);
    MarkedPair(HexOf(bs), extra, 2 * j);
    Hex2ByteOfByteHex(":" + HexOf(bs) + extra, 1 + 2 * j, bs[j]);
  }

  lemma {:induction false} ReadBytesOfHex(bs: seq<byte>, extra: string, n: nat)
    requires n <= |bs|
    ensures ReadBytes(":" + HexOf(bs) + extra, 1, n) == Some(bs[..n])
  {
    if n > 0 {
      ReadBytesOfHex(bs, extra, n - 1);
      HexByteAt(bs, extra, n - 1);
      assert bs[..n - 1] + [bs[n - 1]] == bs[..n];
    }
  }

  /** The newline goes, and nothing else, since the line ends in a digit. */
  lemma ChompRecordLine(address: word, recordType: byte, data: seq<byte>, cc: byte, extra: string)
    requires |data| < 256 && (extra == "" || extra == "0")
    ensures CChomp(RecordLine(address, recordType, data, cc, extra) + "\n") == RecordLine(address, recordType, data, cc, extra)
  {
    var bs := RecordBytes(address, recordType, data, cc);
    var h := ":" + HexOf(bs);
    if extra == "" {
      HexOfAt(bs, |bs| - 1);
      ByteHexDigits(bs[|bs| - 1]);
      LastOfConcat(":", HexOf(bs));
      assert h[|h| - 1] == ByteHex(bs[|bs| - 1])[1];
      assert h + extra == h;
    } else {
      LastOfConcat(h, extra);
    }
    ChompNewline(h + extra);
  }

  lemma LastOfConcat(x: string, y: string)
    requires |y| > 0
    ensures (x + y)[|x + y| - 1] == y[|y| - 1]
  {
  }

  /** A line ending in anything but a carriage return loses just its newline. */
  lemma ChompNewline(l: string)
    requires |l| > 0 && l[|l| - 1] != '\r'
    ensures CChomp(l + "\n") == l
  {
    assert (l + "\n")[..|l|] == l;
  }

  /**
   * The header of a record line: at the exact length the checksum is
   * enforced, with one character more it is never looked at.
   */
  lemma HeaderOfRecord(rd: WordReading, address: word, recordType: byte, data: seq<byte>, cc: byte, extra: string)
    requires |data| < 256 && (extra == "" || extra == "0")
    ensures ParseHeader(rd, RecordLine(address, recordType, data, cc, extra)) ==
      if extra == "" && cc != IntelChecksum(address, recordType, data) then Err(ChecksumError)
      else Ok(Header(|data|, address, recordType))
  {
    var bs := RecordBytes(address, recordType, data, cc);
    var l := RecordLine(address, recordType, data, cc, extra);
    assert |l| == 11 + 2 * |data| + |extra|;
    HexByteAt(bs, extra, 0);
    HexByteAt(bs, extra, 1);
    HexByteAt(bs, extra, 2);
    HexByteAt(bs, extra, 3);
    WordSplit(address);
    assert Hex2Word(l, 3) == Some(address);
    assert CheckLine(l, |data|) == if extra == "" && cc != IntelChecksum(address, recordType, data) then Some(ChecksumError) else None by {
      if extra == "" {
        ReadBytesOfHex(bs, extra, |bs|);
        assert bs[..|bs|] == bs;
        ChecksumZeroesSum(address, recordType, data, cc);
      }
    }
  }

  /** Every data byte of the record lands at its address; nothing else moves. */
  lemma CopyOfRecord(d: seq<byte>, address: word, recordType: byte, data: seq<byte>, cc: byte, extra: string, addr: nat)
    requires |data| < 256 && addr + |data| <= |d|
    ensures var c := CopyData(d, RecordLine(address, recordType, data, cc, extra), addr, |data|);
      |c| == |d| && c[addr..addr + |data|] == data
      && forall k :: 0 <= k < |d| && !(addr <= k < addr + |data|) ==> c[k] == d[k]
  {
    var bs := RecordBytes(address, recordType, data, cc);
    var l := RecordLine(address, recordType, data, cc, extra);
    var c := CopyData(d, l, addr, |data|);
    forall i | 0 <= i < |data| ensures c[addr + i] == data[i] {
      HexByteAt(bs, extra, 4 + i);
      assert bs[4 + i] == data[i];
      assert CopiedByte(d, l, addr, |data|, addr + i) == data[i];
    }
    assert c[addr..addr + |data|] == data;
  }

  /** What one line does: the header as above, then the record's type. */
  lemma StepRecordLine(rd: WordReading, st: BlobState, address: word, recordType: byte, data: seq<byte>, cc: byte, extra: string)
    requires Sound(st) && |data| < 256 && (extra == "" || extra == "0")
    ensures StepLine(rd, st, RecordLine(address, recordType, data, cc, extra) + "\n") ==
      if extra == "" && cc != IntelChecksum(address, recordType, data) then Err(ChecksumError)
      else ApplyRecord(rd, st, Header(|data|, address, recordType), RecordLine(address, recordType, data, cc, extra))
  {
    ChompRecordLine(address, recordType, data, cc, extra);
    HeaderOfRecord(rd, address, recordType, data, cc, extra);
  }

  /** The line the format writes for a record, seen through `RecordLine`. */
  lemma EncodedStep(rd: WordReading, st: BlobState, address: word, recordType: byte, data: seq<byte>)
    requires Sound(st) && |data| < 256
    ensures StepLine(rd, st, EncodeRecord(address, recordType, data)) ==
      ApplyRecord(rd, st, Header(|data|, address, recordType), RecordLine(address, recordType, data, IntelChecksum(address, recordType, data), ""))
  {
    var good := IntelChecksum(address, recordType, data);
    RecordIsHexOfBytes(address, recordType, data, good);
    assert EncodeRecord(address, recordType, data) == RecordLine(address, recordType, data, good, "") + "\n";
    StepRecordLine(rd, st, address, recordType, data, good, "");
  }

  /** Data byte i of a record line sits at characters 9 + 2i and 10 + 2i. */
  lemma DataByteAt(address: word, recordType: byte, data: seq<byte>, cc: byte, extra: string, i: nat)
    requires |data| < 256 && i < |data|
    ensures Hex2Byte(RecordLine(address, recordType, data, cc, extra), 9 + 2 * i) == Some(data[i])
  {
    HexByteAt(RecordBytes(address, recordType, data, cc), extra, 4 + i);
  }

  /** A record whose checksum is not the format's is refused. */
  lemma ChecksumEnforced(rd: WordReading, st: BlobState, address: word, recordType: byte, data: seq<byte>, cc: byte)
    requires Sound(st) && |data| < 256 && cc != IntelChecksum(address, recordType, data)
    ensures StepLine(rd, st, Record(address, recordType, data, cc) + "\n") == Err(ChecksumError)
  {
    RecordIsHexOfBytes(address, recordType, data, cc);
    assert Record(address, recordType, data, cc) == RecordLine(address, recordType, data, cc, "");
    StepRecordLine(rd, st, address, recordType, data, cc, "");
  }

  /** Two lines that spell the same data bytes copy the same. */
  lemma SameDataSameLoad(st: BlobState, l1: string, l2: string, addr: nat, len: nat)
    requires Sound(st)
    requires forall i :: 0 <= i < len ==> Hex2Byte(l1, 9 + 2 * i) == Hex2Byte(l2, 9 + 2 * i)
    ensures LoadData(st, l1, addr, len) == LoadData(st, l2, addr, len)
  {
    var grown := Resized(st.data, st.dataSize, addr + len);
    if grown.0.Some? {
      ResizeCovers(st.data, st.dataSize, addr + len);
      var d := grown.0.value;
      forall k | 0 <= k < |d| ensures CopiedByte(d, l1, addr, len, k) == CopiedByte(d, l2, addr, len, k) {
        if addr <= k < addr + len {
          assert Hex2Byte(l1, 9 + 2 * (k - addr)) == Hex2Byte(l2, 9 + 2 * (k - addr));
        }
      }
      assert CopyData(d, l1, addr, len) == CopyData(d, l2, addr, len);
    }
  }

  /**
   * One character more and the checksum is no longer checked: any checksum
   * byte loads the same as the right one.
   */
  lemma ChecksumSkippedAtOtherLengths(rd: WordReading, st: BlobState, address: word, data: seq<byte>, cc: byte)
    requires Sound(st) && |data| < 256
    ensures StepLine(rd, st, Record(address, 0, data, cc) + "0\n") == StepLine(rd, st, EncodeRecord(address, 0, data))
  {
    var good := IntelChecksum(address, 0, data);
    var l1 := RecordLine(address, 0, data, cc, "0");
    var l2 := RecordLine(address, 0, data, good, "");
    assert StepLine(rd, st, Record(address, 0, data, cc) + "0\n") == LoadData(st, l1, address, |data|) by {
      RecordIsHexOfBytes(address, 0, data, cc);
      assert Record(address, 0, data, cc) + "0\n" == l1 + "\n";
      StepRecordLine(rd, st, address, 0, data, cc, "0");
    }
    EncodedStep(rd, st, address, 0, data);
    forall i | 0 <= i < |data| ensures Hex2Byte(l1, 9 + 2 * i) == Hex2Byte(l2, 9 + 2 * i) {
      DataByteAt(address, 0, data, cc, "0", i);
      DataByteAt(address, 0, data, good, "", i);
    }
    SameDataSameLoad(st, l1, l2, address, |data|);
  }

  /**
   * What a data record of `data` at `address` leaves behind: `start` drops
   * to its address when that is lower (or the blob was empty), `end` is its
   * address plus its length, its bytes are in place and every other byte
   * is the old one or, past the old size, erased flash (0xFF).
   */
  ghost predicate DataLoaded(st: BlobState, r: BlobState, address: nat, data: seq<byte>)
  {
    && r.entry == st.entry
    && r.start == (if st.data.None? || address < st.start then address else st.start)
    && r.end == address + |data|
    && r.data.Some? && |r.data.value| >= address + |data|
    && r.data.value[address..address + |data|] == data
    && forall k :: 0 <= k < |r.data.value| && !(address <= k < address + |data|) ==>
         r.data.value[k] == if st.data.Some? && k < |st.data.value| then st.data.value[k] else 0xFF
  }

  lemma LoadDataOfRecord(st: BlobState, address: word, data: seq<byte>, cc: byte)
    requires Sound(st) && |data| < 256
    requires Resized(st.data, st.dataSize, address + |data|).0.Some?
    ensures var r := LoadData(st, RecordLine(address, 0, data, cc, ""), address, |data|);
      r.Ok? && DataLoaded(st, r.value, address, data)
  {
    var grown := Resized(st.data, st.dataSize, address + |data|);
    ResizeCovers(st.data, st.dataSize, address + |data|);
    CopyOfRecord(grown.0.value, address, 0, data, cc, "", address);
  }

  /**
   * A data record written by the format, short enough for one `fgets`
   * piece, always loads its bytes at its address: since the offset of type
   * 2 and 4 records is never applied, no address goes past 0xFFFF + 0xFF,
   * far below the 4 MiB limit, and the resize cannot fail.  The rest of the
   * file then loads on top of that.
   */
  lemma DataRecordLoads(rd: WordReading, st: BlobState, address: word, data: seq<byte>, rest: string)
    requires Sound(st) && |data| <= MAX_PIECE_DATA
    ensures var r := StepLine(rd, st, EncodeRecord(address, 0, data));
      r.Ok? && DataLoaded(st, r.value, address, data) &&
      Load(rd, Pieces(EncodeRecord(address, 0, data) + rest), st) == Load(rd, Pieces(rest), r.value)
  {
    assert AllocFor(address + |data|) <= MAX_DATA_SIZE;
    ResizeCovers(st.data, st.dataSize, address + |data|);
    EncodedStep(rd, st, address, 0, data);
    LoadDataOfRecord(st, address, data, IntelChecksum(address, 0, data));
    RecordPiece(address, 0, data, rest);
    LoadFirst(rd, EncodeRecord(address, 0, data), Pieces(rest), st);
  }

  /** A record type past 5 makes the load fail. */
  lemma UnknownTypeRejected(rd: WordReading, st: BlobState, address: word, recordType: byte, data: seq<byte>)
    requires Sound(st) && |data| < 256 && recordType > 5
    ensures StepLine(rd, st, EncodeRecord(address, recordType, data)) == Err(UnknownType(recordType))
  {
    EncodedStep(rd, st, address, recordType, data);
  }

  /** The end-of-file record sets the entry point only if none was set before. */
  lemma EndRecordSetsEntryOnce(rd: WordReading, st: BlobState, address: word)
    requires Sound(st)
    ensures StepLine(rd, st, EncodeRecord(address, 1, [])) == Ok(if st.entry == 0 then st.(entry := address) else st)
  {
    EncodedStep(rd, st, address, 1, []);
  }

  /**
   * Extended segment (2) and extended linear (4) address records change
   * nothing: the offset they compute is a local of the loop body.
   */
  lemma ExtendedAddressIgnored(rd: WordReading, st: BlobState, recordType: byte, address: word, segment: seq<byte>)
    requires Sound(st) && (recordType == 2 || recordType == 4) && |segment| == 2
    ensures StepLine(rd, st, EncodeRecord(address, recordType, segment)) == Ok(st)
  {
    EncodedStep(rd, st, address, recordType, segment);
    var l := RecordLine(address, recordType, segment, IntelChecksum(address, recordType, segment), "");
    SegmentBytes(address, recordType, segment, IntelChecksum(address, recordType, segment));
    ExtendedApplied(rd, st, Header(|segment|, address, recordType), l);
  }

  lemma SegmentBytes(address: word, recordType: byte, segment: seq<byte>, cc: byte)
    requires |segment| == 2
    ensures Hex2Byte(RecordLine(address, recordType, segment, cc, ""), 9).Some?
    ensures Hex2Byte(RecordLine(address, recordType, segment, cc, ""), 11).Some?
  {
    DataByteAt(address, recordType, segment, cc, "", 0);
    DataByteAt(address, recordType, segment, cc, "", 1);
  }

  lemma ExtendedApplied(rd: WordReading, st: BlobState, h: Header, l: string)
    requires Sound(st) && (h.recordType == 2 || h.recordType == 4)
    requires Hex2Byte(l, 9).Some? && Hex2Byte(l, 11).Some?
    ensures ApplyRecord(rd, st, h, l) == Ok(st)
  {
  }

  /** So the data records after them load at their own addresses, as if they were absent. */
  lemma ExtendedAddressDoesNotShift(rd: WordReading, st: BlobState, recordType: byte, address: word, segment: seq<byte>, rest: string)
    requires Sound(st) && (recordType == 2 || recordType == 4) && |segment| == 2
    ensures Load(rd, Pieces(EncodeRecord(address, recordType, segment) + rest), st) == Load(rd, Pieces(rest), st)
  {
    ExtendedAddressIgnored(rd, st, recordType, address, segment);
    RecordPiece(address, recordType, segment, rest);
    LoadFirst(rd, EncodeRecord(address, recordType, segment), Pieces(rest), st);
  }

  /** Lines too short after the chomp, or not led by ':', abort the load. */
  lemma MalformedLineAborts(rd: WordReading, st: BlobState, line: string)
    requires Sound(st)
    ensures |CChomp(line)| < 9 ==> StepLine(rd, st, line) == Err(TooShort)
    ensures |CChomp(line)| >= 9 && CChomp(line)[0] != ':' ==> StepLine(rd, st, line) == Err(BadMarker)
  {
  }

  /** A piece that does not start with ':' aborts the load. */
  lemma UnmarkedPieceAborts(rd: WordReading, st: BlobState, line: string)
    requires Sound(st) && |line| > 0 && line[0] != ':'
    ensures StepLine(rd, st, line).Err?
  {
    MalformedLineAborts(rd, st, line);
  }

  /** The first piece of the pieces, then the others. */
  lemma LoadFirst(rd: WordReading, line: string, rest: seq<string>, st: BlobState)
    requires Sound(st)
    ensures var r := StepLine(rd, st, line);
      Load(rd, [line] + rest, st) == if r.Err? then Err(r.error) else Load(rd, rest, r.value)
  {
    assert ([line] + rest)[1..] == rest;
  }

  // ---------------------------------------------------------------------
  // The pieces `fgets` returns

  /** Joined again, the pieces are the file. */
  lemma {:induction false} PiecesJoin(text: string)
    ensures Join(Pieces(text)) == text
    decreases |text|
  {
    if |text| > 0 {
      var k := PieceLength(text, 1);
      PiecesJoin(text[k..]);
      var ps := Pieces(text);
      assert ps == [text[..k]] + Pieces(text[k..]);
      assert ps[1..] == Pieces(text[k..]);
      assert text[..k] + text[k..] == text;
    }
  }

  /** Every piece but the last ends in a newline or is 255 characters long. */
  lemma {:induction false} PiecesEnd(text: string)
    ensures forall i :: 0 <= i < |Pieces(text)| - 1 ==>
      |Pieces(text)[i]| == LINEBUF - 1 || Pieces(text)[i][|Pieces(text)[i]| - 1] == '\n'
    decreases |text|
  {
    if |text| > 0 {
      var k := PieceLength(text, 1);
      PieceLengthStops(text, 1);
      PiecesEnd(text[k..]);
      assert Pieces(text)[1..] == Pieces(text[k..]);
    }
  }

  /** Why a piece ends where it does. */
  lemma {:induction false} PieceLengthStops(text: string, n: nat)
    requires 0 < n <= |text| && n < LINEBUF
    ensures var k := PieceLength(text, n);
      k == |text| || k == LINEBUF - 1 || text[k - 1] == '\n'
    ensures forall j :: n - 1 <= j < PieceLength(text, n) - 1 ==> text[j] != '\n'
    decreases LINEBUF - n
  {
    if !(n == |text| || n == LINEBUF - 1 || text[n - 1] == '\n') {
      PieceLengthStops(text, n + 1);
    }
  }

  /** A piece runs exactly to the first newline when that is within 255 characters. */
  lemma {:induction false} PieceToNewline(text: string, n: nat, k: nat)
    requires 0 < n <= k <= |text| && k < LINEBUF && text[k - 1] == '\n'
    requires forall j :: n - 1 <= j < k - 1 ==> text[j] != '\n'
    ensures PieceLength(text, n) == k
    decreases k - n
  {
    if n < k {
      PieceToNewline(text, n + 1, k);
    }
  }

  /** Without a newline in its first 254 characters, a long text gives a piece of 255. */
  lemma {:induction false} PieceFull(text: string, n: nat)
    requires 0 < n < LINEBUF && |text| >= LINEBUF - 1
    requires forall j :: n - 1 <= j < LINEBUF - 2 ==> text[j] != '\n'
    ensures PieceLength(text, n) == LINEBUF - 1
    decreases LINEBUF - n
  {
    if n < LINEBUF - 1 {
      PieceFull(text, n + 1);
    }
  }

  /** A line of at most 255 characters that ends in its only newline is one piece. */
  lemma LinePiece(line: string, rest: string)
    requires 0 < |line| < LINEBUF && line[|line| - 1] == '\n'
    requires forall j :: 0 <= j < |line| - 1 ==> line[j] != '\n'
    ensures Pieces(line + rest) == [line] + Pieces(rest)
  {
    var text := line + rest;
    PieceToNewline(text, 1, |line|);
    assert text[..|line|] == line && text[|line|..] == rest;
  }

  /** The most data bytes a record line can hold and still fit one `fgets` piece: 12 + 2·121 = 254 characters. */
  const MAX_PIECE_DATA: nat := 121

  /** The characters of a spelled-out byte sequence are hexadecimal digits. */
  lemma {:induction false} HexOfDigits(bs: seq<byte>)
    ensures forall j :: 0 <= j < |HexOf(bs)| ==> IsHexDigit(HexOf(bs)[j])
  {
    forall j | 0 <= j < |HexOf(bs)| ensures IsHexDigit(HexOf(bs)[j]) {
      HexOfAt(bs, j / 2);
      ByteHexDigits(bs[j / 2]);
      assert HexOf(bs)[j] == HexOf(bs)[2 * (j / 2)..2 * (j / 2) + 2][j % 2];
    }
  }

  /** A record line: ':' , hexadecimal digits, and the newline at its end. */
  lemma EncodedChars(address: word, recordType: byte, data: seq<byte>)
    requires |data| < 256
    ensures var e := EncodeRecord(address, recordType, data);
      |e| == 12 + 2 * |data| && e[|e| - 1] == '\n' &&
      (forall j :: 0 <= j < |e| - 1 ==> e[j] != '\n') &&
      (forall j :: 1 <= j < |e| ==> e[j] != ':')
  {
    var cc := IntelChecksum(address, recordType, data);
    var bs := RecordBytes(address, recordType, data, cc);
    RecordIsHexOfBytes(address, recordType, data, cc);
    HexOfDigits(bs);
    var e := EncodeRecord(address, recordType, data);
    assert e == ":" + HexOf(bs) + "\n";
    forall j | 1 <= j < |e| - 1 ensures e[j] == HexOf(bs)[j - 1] {
    }
  }

  /** A record of at most 121 data bytes is read by one `fgets` call. */
  lemma RecordPiece(address: word, recordType: byte, data: seq<byte>, rest: string)
    requires |data| <= MAX_PIECE_DATA
    ensures Pieces(EncodeRecord(address, recordType, data) + rest) == [EncodeRecord(address, recordType, data)] + Pieces(rest)
  {
    EncodedChars(address, recordType, data);
    LinePiece(EncodeRecord(address, recordType, data), rest);
  }

  /**
   * A record of 122 data bytes or more does not fit the buffer: `fgets`
   * splits it, and the piece after the first 255 characters starts with a
   * digit or is the bare newline, so the load fails whatever comes before
   * and after.
   */
  lemma LongRecordRefused(rd: WordReading, st: BlobState, address: word, recordType: byte, data: seq<byte>, rest: string)
    requires Sound(st) && MAX_PIECE_DATA < |data| < 256
    ensures Load(rd, Pieces(EncodeRecord(address, recordType, data) + rest), st).Err?
  {
    var e := EncodeRecord(address, recordType, data);
    var text := e + rest;
    EncodedChars(address, recordType, data);
    assert forall j :: 0 <= j < LINEBUF - 2 ==> text[j] == e[j];
    PieceFull(text, 1);
    var p0 := text[..LINEBUF - 1];
    var tail := text[LINEBUF - 1..];
    assert tail[0] == e[LINEBUF - 1];
    var k1 := PieceLength(tail, 1);
    var p1 := tail[..k1];
    assert Pieces(text) == [p0] + ([p1] + Pieces(tail[k1..]));
    LoadFirst(rd, p0, [p1] + Pieces(tail[k1..]), st);
    var first := StepLine(rd, st, p0);
    if first.Ok? {
      UnmarkedPieceAborts(rd, first.value, p1);
      LoadFirst(rd, p1, Pieces(tail[k1..]), first.value);
    }
  }

  // ---------------------------------------------------------------------
  // hex2word as written and as intended

  /**
   * A header whose address field does not parse: as written the line is
   * taken, with the uninitialized bytes as its address; as intended it is
   * refused.
   */
  lemma UnparsedAddress(l: string, staleHi: byte, staleLo: byte)
    requires |l| >= 9 && l[0] == ':' && Hex2Byte(l, 1).Some? && |l| >= 9 + Hex2Byte(l, 1).value
    requires CheckLine(l, Hex2Byte(l, 1).value).None? && Hex2Byte(l, 7).Some?
    requires !IsHexDigit(l[3]) && !IsHexDigit(l[5])
    ensures ParseHeader(WordReading(AsWritten, staleHi, staleLo), l) ==
      Ok(Header(Hex2Byte(l, 1).value, BE16(staleHi, staleLo), Hex2Byte(l, 7).value))
    ensures ParseHeader(WordReading(Intended, staleHi, staleLo), l) == Err(BadAddress)
  {
    assert CharAt(l, 3) == l[3] && CharAt(l, 5) == l[5];
  }

  /**
   * The end-of-file record `:00ZZZZ01X`: ten characters, so no checksum
   * is checked; as written it loads and sets the entry point to the
   * uninitialized bytes, as intended the load fails.
   */
  lemma UnparsedAddressLoads(staleHi: byte, staleLo: byte)
    ensures Load(WordReading(AsWritten, staleHi, staleLo), Pieces(":00ZZZZ01X\n"), EmptyBlob) ==
      Ok(EmptyBlob.(entry := BE16(staleHi, staleLo)))
    ensures Load(WordReading(Intended, staleHi, staleLo), Pieces(":00ZZZZ01X\n"), EmptyBlob) == Err(BadAddress)
  {
    var line := ":00ZZZZ01X\n";
    var l := ":00ZZZZ01X";
    assert forall j :: 0 <= j < |line| - 1 ==> line[j] != '\n';
    LinePiece(line, "");
    assert line + "" == line;
    ChompNewline(l);
    assert l + "\n" == line;
    assert Hex2Byte(l, 1) == Some(0) && Hex2Byte(l, 7) == Some(1);
    UnparsedAddress(l, staleHi, staleLo);
    assert Pieces("") == [];
    LoadFirst(WordReading(AsWritten, staleHi, staleLo), line, [], EmptyBlob);
    LoadFirst(WordReading(Intended, staleHi, staleLo), line, [], EmptyBlob);
  }

  /** Where every address field parses, both readings load the same. */
  lemma ReadingsAgree(st: BlobState, line: string, staleHi: byte, staleLo: byte)
    requires Sound(st)
    requires Hex2Word(CChomp(line), 3).Some? && Hex2Word(CChomp(line), 9).Some? && Hex2Word(CChomp(line), 13).Some?
    ensures StepLine(WordReading(AsWritten, staleHi, staleLo), st, line) == StepLine(WordReading(Intended, staleHi, staleLo), st, line)
  {
    var l := CChomp(line);
    var w, i := WordReading(AsWritten, staleHi, staleLo), WordReading(Intended, staleHi, staleLo);
    assert ParseHeader(w, l) == ParseHeader(i, l);
    if ParseHeader(w, l).Ok? {
      ApplyAgrees(st, ParseHeader(w, l).value, l, w, i);
    }
  }

  lemma ApplyAgrees(st: BlobState, h: Header, l: string, rd1: WordReading, rd2: WordReading)
    requires Sound(st)
    requires Hex2Word(l, 9).Some? && Hex2Word(l, 13).Some?
    ensures ApplyRecord(rd1, st, h, l) == ApplyRecord(rd2, st, h, l)
  {
  }
}
