// The command-line tool's file readers (commandline/micronucleus.c, whose
// Intel HEX reader is repeated verbatim in commandline/main.c): a colon
// scanner and a fixed-width `strtol` reader over a `FILE *`, a record loop
// that stores data records into a 0xFF-filled buffer and only warns about
// a bad checksum, the raw reader, and the size checks made before erasing.
module CmdlineHex {
  import opened Common
  import opened IntelHex

  const EOF: int := -1
  /** `dataBuffer[65536 + 256]`: room for a 16-bit address plus one record. */
  const BUFFER_SIZE: nat := 65536 + 256

  // ---------------------------------------------------------------------
  // The stream, as the text still to be read

  /** What `getc` returns on what is left of the file. */
  function NextChar(s: string): int
  {
    if |s| > 0 then s[0] as int else EOF
  }

  /** What is left after `n` reads; at the end of the file reads consume nothing. */
  function Rest(s: string, n: nat): (t: string)
    ensures |t| == |s| - Min(n, |s|)
  {
    s[Min(n, |s|)..]
  }

  /** `parseUntilColon`: what follows the next ':', or None when the file ends first. */
  function AfterColon(s: string): (r: Option<string>)
    ensures r.None? <==> forall k :: 0 <= k < |s| ==> s[k] != ':'
    ensures r.Some? ==> |r.value| < |s| && s[|s| - |r.value| - 1] == ':' && r.value == s[|s| - |r.value|..]
  {
    if |s| == 0 then None
    else if s[0] == ':' then Some(s[1..])
    else
      var r := AfterColon(s[1..]);
      assert r.Some? ==> s[1..][|s[1..]| - |r.value|..] == s[|s| - |r.value|..];
      r
  }

  /**
   * `parseHex`: `n` reads collected in `temp` and read by `strtol(temp,
   * NULL, 16)`. Reads past the end add `(char) EOF`, which like the
   * terminating NUL stops `strtol`, so only the characters of the file count.
   */
  function ParseHexField(s: string, n: nat): int
  {
    LenientHex(s[..Min(n, |s|)])
  }

  // ---------------------------------------------------------------------
  // The record loop

  datatype Warning = ChecksumWarning(base: int, address: int)

  /** The buffer, `*startAddr`, `*endAddr` and the warnings printed so far. */
  datatype Image = Image(buffer: seq<byte>, start: int, end: int, warnings: seq<Warning>)

  /**
   * A data byte written below the buffer (an address field spelled with a
   * `-`) is undefined behaviour in C; the model stops there.
   */
  datatype ParseError = OutOfBuffer(base: int)

  /** The `n` two-digit fields of a record's data, in order. */
  function Fields(s: string, n: nat): (vs: seq<int>)
    ensures |vs| == n
  {
    seq(n, i requires 0 <= i < n => ParseHexField(Rest(s, 2 * i), 2))
  }

  /** `buffer[address++] = d`: the `int` is truncated to its low byte. */
  function Low(d: int): byte
  {
    d % 256
  }

  /** The buffer after the data loop wrote `vs` from `base` on. */
  function Stored(buffer: seq<byte>, base: int, vs: seq<int>): (r: seq<byte>)
    requires |vs| == 0 || (0 <= base && base + |vs| <= |buffer|)
    ensures |r| == |buffer|
  {
    seq(|buffer|, k requires 0 <= k < |buffer| => StoredAt(buffer, base, vs, k))
  }

  function StoredAt(buffer: seq<byte>, base: int, vs: seq<int>, k: nat): byte
    requires k < |buffer|
  {
    if base <= k < base + |vs| then Low(vs[k - base]) else buffer[k]
  }

  /** The three header fields read after the colon, and what follows them. */
  datatype Head = Head(lineLen: int, base: int, segment: int, rest: string)

  function ReadHead(s: string): (h: Head)
    ensures |h.rest| <= |s|
  {
    var lineLen := ParseHexField(s, 2);
    var s1 := Rest(s, 2);
    var base := ParseHexField(s1, 4);
    var s2 := Rest(s1, 4);
    Head(lineLen, base, ParseHexField(s2, 2), Rest(s2, 2))
  }

  /**
   * The rest of one pass of the `while` loop: a line whose type byte is not
   * 0 is left at once; otherwise the data is stored, the checksum byte is
   * added to the sum and a sum whose low byte is not 0 only adds a warning.
   */
  function RecordStep(s: string, img: Image): (r: Result<(Image, string), ParseError>)
    ensures r.Ok? ==> |r.value.1| <= |s| && |r.value.0.buffer| == |img.buffer|
  {
    var h := ReadHead(s);
    if h.segment != 0 then Ok((img, h.rest)) else DataStep(h, img)
  }

  /** A line of type 0, from its data on. */
  function DataStep(h: Head, img: Image): (r: Result<(Image, string), ParseError>)
    ensures r.Ok? ==> |r.value.1| <= |h.rest| && |r.value.0.buffer| == |img.buffer|
  {
    var n := Max(h.lineLen, 0);
    if n > 0 && (h.base < 0 || h.base + n > |img.buffer|) then Err(OutOfBuffer(h.base))
    else
      var vs := Fields(h.rest, n);
      var s4 := Rest(h.rest, 2 * n);
      var sum := h.lineLen + h.base / 256 + h.base + h.segment + Sum(vs) + ParseHexField(s4, 2);
      Ok((Image(Stored(img.buffer, h.base, vs),
                Lowered(img.start, h.base), Raised(img.end, h.base + n),
                img.warnings + if sum % 256 != 0 then [ChecksumWarning(h.base, h.base + n)] else []),
          Rest(s4, 2)))
  }

  /** `if (*startAddr > base) *startAddr = base;` */
  function Lowered(start: int, base: int): (r: int)
    ensures r == Min(start, base)
  {
    if start > base then base else start
  }

  /** `if (*endAddr < address) *endAddr = address;` */
  function Raised(end: int, address: int): (r: int)
    ensures r == Max(end, address)
  {
    if end < address then address else end
  }

  /** `parseIntelHex` after the file is open: records until no colon is left. */
  function ParseAll(s: string, img: Image): Result<Image, ParseError>
    decreases |s|
  {
    match AfterColon(s)
    case None => Ok(img)
    case Some(t) =>
      match RecordStep(t, img)
      case Err(e) => Err(e)
      case Ok((img', u)) => ParseAll(u, img')
  }

  // ---------------------------------------------------------------------
  // The raw reader and the checks in `main`

  /** A file is a sequence of bytes read as characters. */
  predicate IsBytes(s: string)
  {
    forall k :: 0 <= k < |s| ==> s[k] as int < 256
  }

  function Bytes(s: string): (bs: seq<byte>)
    requires IsBytes(s)
    ensures |bs| == |s|
  {
    seq(|s|, k requires 0 <= k < |s| => s[k] as int)
  }

  datatype FileType = IntelHexFile | RawFile

  datatype LoadError = ParseFailed(e: ParseError) | NoData | TooBig(excess: int)

  /** `memset(dataBuffer, 0xFF, sizeof(dataBuffer))` */
  function Erased(): (b: seq<byte>)
    ensures |b| == BUFFER_SIZE
  {
    seq(BUFFER_SIZE, _ => 0xFF)
  }

  /** `parseRaw`: the bytes in order from address 0. */
  function RawImage(s: string): Image
    requires IsBytes(s) && |s| <= BUFFER_SIZE
  {
    Image(Bytes(s) + Erased()[|s|..], 0, |s|, [])
  }

  /** The two checks `main` makes before it erases the device. */
  function SizeCheck(start: int, end: int, flashSize: int): Option<LoadError>
  {
    if start >= end then Some(NoData)
    else if end > flashSize then Some(TooBig(end - flashSize))
    else None
  }

  /** The reader the file type selects, on a freshly erased buffer. */
  function Parsed(s: string, fileType: FileType): Result<Image, ParseError>
    requires fileType == RawFile ==> IsBytes(s) && |s| <= BUFFER_SIZE
  {
    match fileType
    case IntelHexFile => ParseAll(s, Image(Erased(), 1, 0, []))
    case RawFile => Ok(RawImage(s))
  }

  /** Everything `main` does with the file before the erase. */
  function LoadImage(s: string, fileType: FileType, flashSize: int): Result<Image, LoadError>
    requires fileType == RawFile ==> IsBytes(s) && |s| <= BUFFER_SIZE
  {
    match Parsed(s, fileType)
    case Err(e) => Err(ParseFailed(e))
    case Ok(img) =>
      match SizeCheck(img.start, img.end, flashSize)
      case Some(e) => Err(e)
      case None => Ok(img)
  }

  // ---------------------------------------------------------------------
  // The C code on a stream and a buffer

  /** A `FILE *` opened for reading: its contents and its position. */
  class HexFile {
    const text: string
    var pos: nat

    ghost predicate Valid()
      reads this
    {
      pos <= |text|
    }

    function Remaining(): string
      reads this
      requires Valid()
    {
      text[pos..]
    }

    constructor (text: string)
      ensures this.text == text && pos == 0 && Valid()
    {
      this.text := text;
      pos := 0;
    }

    /** `getc` */
    method Getc() returns (c: int)
      requires Valid()
      modifies this
      ensures Valid() && c == NextChar(old(Remaining())) && Remaining() == Rest(old(Remaining()), 1)
    {
      if pos < |text| {
        c := text[pos] as int;
        pos := pos + 1;
      } else {
        c := EOF;
      }
    }

    /** `parseUntilColon` */
    method ParseUntilColon() returns (c: int)
      requires Valid()
      modifies this
      ensures Valid()
      ensures c == ':' as int <==> AfterColon(old(Remaining())).Some?
      ensures c == ':' as int ==> Remaining() == AfterColon(old(Remaining())).value
      ensures c != ':' as int ==> c == EOF
    {
      ghost var s := Remaining();
      c := Getc();
      while c != ':' as int && c != EOF
        invariant Valid()
        invariant c == EOF ==> AfterColon(s).None?
        invariant c != EOF && c != ':' as int ==> AfterColon(s) == AfterColon(Remaining())
        invariant c == ':' as int ==> AfterColon(s) == Some(Remaining())
        decreases |text| - pos + (if c == EOF then 0 else 1)
      {
        c := Getc();
      }
    }

    /** `parseHex` */
    method ParseHex(n: nat) returns (v: int)
      requires Valid() && n <= 8
      modifies this
      ensures Valid() && v == ParseHexField(old(Remaining()), n) && Remaining() == Rest(old(Remaining()), n)
    {
      ghost var s := Remaining();
      var temp := "";
      var i := 0;
      while i < n
        invariant 0 <= i <= n && Valid()
        invariant temp == s[..Min(i, |s|)] && Remaining() == Rest(s, i)
      {
        var c := Getc();
        if c != EOF {
          temp := temp + [c as char];
        }
        i := i + 1;
      }
      v := LenientHex(temp);
    }
  }

  /** `parseIntelHex` on an open file: the buffer is written in place. */
  method ParseIntelHex(file: HexFile, buffer: array<byte>, startAddr: int, endAddr: int)
    returns (err: Option<ParseError>, start: int, end: int, warnings: seq<Warning>)
    requires file.Valid() && buffer.Length == BUFFER_SIZE
    modifies file, buffer
    ensures file.Valid()
    ensures var r := ParseAll(old(file.Remaining()), Image(old(buffer[..]), startAddr, endAddr, []));
      (err.None? <==> r.Ok?)
      && (r.Ok? ==> buffer[..] == r.value.buffer && start == r.value.start && end == r.value.end && warnings == r.value.warnings)
      && (r.Err? ==> err == Some(r.error))
  {
    ghost var target := ParseAll(file.Remaining(), Image(buffer[..], startAddr, endAddr, []));
    start, end, warnings := startAddr, endAddr, [];
    while true
      invariant file.Valid()
      invariant ParseAll(file.Remaining(), Image(buffer[..], start, end, warnings)) == target
      decreases |file.text| - file.pos
    {
      ghost var s := file.Remaining();
      ghost var img := Image(buffer[..], start, end, warnings);
      var c := file.ParseUntilColon();
      if c != ':' as int {
        return None, start, end, warnings;
      }
      err, start, end, warnings := ParseRecord(file, buffer, start, end, warnings);
      if err.Some? {
        return;
      }
    }
  }

  /** The body of the `while` loop, after the colon. */
  method ParseRecord(file: HexFile, buffer: array<byte>, start0: int, end0: int, warnings0: seq<Warning>)
    returns (err: Option<ParseError>, start: int, end: int, warnings: seq<Warning>)
    requires file.Valid() && buffer.Length == BUFFER_SIZE
    modifies file, buffer
    ensures file.Valid() && file.pos >= old(file.pos)
    ensures var r := RecordStep(old(file.Remaining()), Image(old(buffer[..]), start0, end0, warnings0));
      (err.None? <==> r.Ok?)
      && (r.Ok? ==> file.Remaining() == r.value.1 && buffer[..] == r.value.0.buffer
                    && start == r.value.0.start && end == r.value.0.end && warnings == r.value.0.warnings)
      && (r.Err? ==> err == Some(r.error))
  {
    var lineLen, address, segment := ReadRecordHead(file);
    if segment != 0 {
      return None, start0, end0, warnings0;
    }
    err, start, end, warnings := DataRecord(file, buffer, Head(lineLen, address, segment, file.Remaining()), start0, end0, warnings0);
  }

  /** The three `parseHex` calls of the header. */
  method ReadRecordHead(file: HexFile) returns (lineLen: int, address: int, segment: int)
    requires file.Valid()
    modifies file
    ensures file.Valid() && file.pos >= old(file.pos)
    ensures ReadHead(old(file.Remaining())) == Head(lineLen, address, segment, file.Remaining())
    ensures -256 < lineLen < 256 && -65536 < address < 65536
  {
    ghost var s := file.Remaining();
    lineLen := file.ParseHex(2);
    address := file.ParseHex(4);
    segment := file.ParseHex(2);
    FieldBound(s, 2);
    FieldBound(Rest(s, 2), 4);
  }

  /** A line of type 0 from its data on: the data loop, the checksum, the address range. */
  method DataRecord(file: HexFile, buffer: array<byte>, h: Head, start0: int, end0: int, warnings0: seq<Warning>)
    returns (err: Option<ParseError>, start: int, end: int, warnings: seq<Warning>)
    requires file.Valid() && buffer.Length == BUFFER_SIZE && file.Remaining() == h.rest
    requires -256 < h.lineLen < 256 && -65536 < h.base < 65536
    modifies file, buffer
    ensures file.Valid() && file.pos >= old(file.pos)
    ensures var r := DataStep(h, Image(old(buffer[..]), start0, end0, warnings0));
      (err.None? <==> r.Ok?)
      && (r.Ok? ==> file.Remaining() == r.value.1 && buffer[..] == r.value.0.buffer
                    && start == r.value.0.start && end == r.value.0.end && warnings == r.value.0.warnings)
      && (r.Err? ==> err == Some(r.error))
  {
    var base := h.base;
    if h.lineLen > 0 && base < 0 {
      return Some(OutOfBuffer(base)), start0, end0, warnings0;
    }
    var sum := h.lineLen + base / 256 + base + h.segment;
    var address;
    address, sum := StoreData(file, buffer, base, h.lineLen, sum);
    var cc := file.ParseHex(2);
    sum := sum + cc;
    warnings := warnings0;
    if sum % 256 != 0 {
      warnings := warnings + [ChecksumWarning(base, address)];
    }
    start, end := Lowered(start0, base), Raised(end0, address);
    err := None;
  }

  /** The data loop: `lineLen` fields stored from `base` on and added to the sum. */
  method StoreData(file: HexFile, buffer: array<byte>, base: int, lineLen: int, sum0: int) returns (address: int, sum: int)
    requires file.Valid()
    requires lineLen <= 0 || (0 <= base && base + lineLen <= buffer.Length)
    modifies file, buffer
    ensures file.Valid()
    ensures var n := Max(lineLen, 0);
      && file.Remaining() == Rest(old(file.Remaining()), 2 * n)
      && buffer[..] == Stored(old(buffer[..]), base, Fields(old(file.Remaining()), n))
      && sum == sum0 + Sum(Fields(old(file.Remaining()), n))
      && address == base + n
  {
    ghost var s := file.Remaining();
    ghost var b := buffer[..];
    sum, address := sum0, base;
    var i := 0;
    while i < lineLen
      invariant file.Valid() && 0 <= i <= Max(lineLen, 0) && address == base + i
      invariant file.Remaining() == Rest(s, 2 * i)
      invariant buffer[..] == Stored(b, base, Fields(s, i))
      invariant sum == sum0 + Sum(Fields(s, i))
    {
      var d := file.ParseHex(2);
      StoreStep(s, b, base, i, d);
      buffer[address] := Low(d);
      address := address + 1;
      sum := sum + d;
      i := i + 1;
    }
    assert i == Max(lineLen, 0);
  }

  /** One pass of the data loop, on the specification side. */
  lemma StoreStep(s: string, b: seq<byte>, base: int, i: nat, d: int)
    requires 0 <= base && base + i < |b| && d == ParseHexField(Rest(s, 2 * i), 2)
    ensures Stored(b, base, Fields(s, i + 1)) == Stored(b, base, Fields(s, i))[base + i := Low(d)]
    ensures Sum(Fields(s, i + 1)) == Sum(Fields(s, i)) + d
    ensures Rest(Rest(s, 2 * i), 2) == Rest(s, 2 * (i + 1))
  {
    FieldsSnoc(s, i);
    StoredSnoc(b, base, Fields(s, i), d);
    SumSnoc(Fields(s, i), d);
  }

  /** The fields one at a time from the front, as the loop reads them. */
  lemma FieldsSnoc(s: string, i: nat)
    ensures Fields(s, i + 1) == Fields(s, i) + [ParseHexField(Rest(s, 2 * i), 2)]
  {
    var l, r := Fields(s, i + 1), Fields(s, i) + [ParseHexField(Rest(s, 2 * i), 2)];
    forall k | 0 <= k < i + 1 ensures l[k] == r[k] {
    }
  }


  /** `parseRaw` on an open file. */
  method ParseRaw(file: HexFile, buffer: array<byte>) returns (start: int, end: int)
    requires file.Valid() && IsBytes(file.Remaining()) && |file.Remaining()| <= buffer.Length
    modifies file, buffer
    ensures file.Valid()
    ensures start == 0 && end == |old(file.Remaining())|
    ensures buffer[..end] == Bytes(old(file.Remaining())) && buffer[end..] == old(buffer[end..])
  {
    ghost var s := file.Remaining();
    start, end := 0, 0;
    while true
      invariant file.Valid() && 0 <= end <= |s| && file.Remaining() == s[end..]
      invariant buffer[..end] == Bytes(s)[..end] && buffer[end..] == old(buffer[end..])
      decreases |file.text| - file.pos
    {
      var c := file.Getc();
      if c == EOF {
        assert end == |s|;
        return;
      }
      assert s[end] as int == c;
      buffer[end] := c;
      end := end + 1;
    }
  }

  /** `main` from the `memset` to the size checks. */
  method Load(file: HexFile, fileType: FileType, flashSize: int)
    returns (err: Option<LoadError>, buffer: array<byte>, start: int, end: int, warnings: seq<Warning>)
    requires file.Valid()
    requires fileType == RawFile ==> IsBytes(file.Remaining()) && |file.Remaining()| <= BUFFER_SIZE
    modifies file
    ensures fresh(buffer) && buffer.Length == BUFFER_SIZE
    ensures var r := LoadImage(old(file.Remaining()), fileType, flashSize);
      (err.None? <==> r.Ok?)
      && (r.Ok? ==> buffer[..] == r.value.buffer && start == r.value.start && end == r.value.end && warnings == r.value.warnings)
      && (r.Err? ==> err == Some(r.error))
  {
    buffer := new byte[BUFFER_SIZE](_ => 0xFF);
    assert buffer[..] == Erased();
    var e;
    e, start, end, warnings := ReadFile(file, fileType, buffer);
    if e.Some? {
      return Some(ParseFailed(e.value)), buffer, start, end, warnings;
    }
    if start >= end {
      return Some(NoData), buffer, start, end, warnings;
    }
    if end > flashSize {
      return Some(TooBig(end - flashSize)), buffer, start, end, warnings;
    }
    err := None;
  }

  /** The `if` on the file type, with `startAddress = 1, endAddress = 0`. */
  method ReadFile(file: HexFile, fileType: FileType, buffer: array<byte>)
    returns (err: Option<ParseError>, start: int, end: int, warnings: seq<Warning>)
    requires file.Valid() && buffer.Length == BUFFER_SIZE && buffer[..] == Erased()
    requires fileType == RawFile ==> IsBytes(file.Remaining()) && |file.Remaining()| <= BUFFER_SIZE
    modifies file, buffer
    ensures var r := Parsed(old(file.Remaining()), fileType);
      (err.None? <==> r.Ok?)
      && (r.Ok? ==> buffer[..] == r.value.buffer && start == r.value.start && end == r.value.end && warnings == r.value.warnings)
      && (r.Err? ==> err == Some(r.error))
  {
    start, end, warnings := 1, 0, [];
    if fileType == IntelHexFile {
      err, start, end, warnings := ParseIntelHex(file, buffer, start, end);
    } else {
      start, end := ParseRaw(file, buffer);
      assert buffer[..] == buffer[..end] + buffer[end..];
      err := None;
    }
  }

  // ---------------------------------------------------------------------
  // Small facts the loops use

  lemma RestRest(s: string, a: nat, b: nat)
    ensures Rest(Rest(s, a), b) == Rest(s, a + b)
  {
  }

  lemma StoredSnoc(buffer: seq<byte>, base: int, vs: seq<int>, d: int)
    requires 0 <= base && base + |vs| < |buffer|
    ensures Stored(buffer, base, vs + [d]) == Stored(buffer, base, vs)[base + |vs| := Low(d)]
  {
    var l := Stored(buffer, base, vs + [d]);
    var r := Stored(buffer, base, vs)[base + |vs| := Low(d)];
    forall k | 0 <= k < |buffer| ensures l[k] == r[k] {
      if base <= k < base + |vs| {
        assert (vs + [d])[k - base] == vs[k - base];
      }
    }
  }

  lemma {:induction false} DigitsValueBound(s: string)
    ensures DigitsValue(s) < Pow16(|s|)
  {
    if |s| > 0 {
      DigitsValueBound(s[..|s| - 1]);
    }
  }

  lemma {:induction false} Pow16Mono(a: nat, b: nat)
    requires a <= b
    ensures Pow16(a) <= Pow16(b)
    decreases b
  {
    if a < b {
      Pow16Mono(a, b - 1);
    }
  }

  lemma PrefixValueBound(s: string)
    ensures PrefixValue(s) < Pow16(|s|)
  {
    DigitsValueBound(s[..DigitRun(s)]);
    Pow16Mono(DigitRun(s), |s|);
  }

  /** strtol over at most `m` characters stays strictly within 16^m either way. */
  lemma {:induction false} LenientHexBound(s: string)
    ensures -(Pow16(|s|) as int) < LenientHex(s) < Pow16(|s|)
  {
    if |s| > 0 && IsSpace(s[0]) {
      LenientHexBound(s[1..]);
      Pow16Mono(|s| - 1, |s|);
    } else {
      var u := if |s| > 0 && (s[0] == '-' || s[0] == '+') then s[1..] else s;
      PrefixValueBound(u);
      Pow16Mono(|u|, |s|);
      if |u| >= 2 {
        PrefixValueBound(u[2..]);
        Pow16Mono(|u| - 2, |s|);
      }
    }
  }

  /** A field of `n` characters is below 16^n in magnitude. */
  lemma FieldBound(s: string, n: nat)
    ensures -(Pow16(n) as int) < ParseHexField(s, n) < Pow16(n)
  {
    LenientHexBound(s[..Min(n, |s|)]);
    Pow16Mono(Min(n, |s|), n);
  }

  // ---------------------------------------------------------------------
  // Reading the records the format writes

  /** `parseHex` on `n` digits reads exactly those digits, most significant first. */
  lemma FieldOfDigits(s: string, n: nat)
    requires 1 <= n <= |s| && AllHex(s[..n])
    ensures ParseHexField(s, n) == DigitsValue(s[..n]) && Rest(s, n) == s[n..]
  {
    LenientHexOfAllHex(s[..n]);
  }

  /** A field of `|w|` characters at the front reads `w` and leaves the rest. */
  lemma FieldRead(w: string, rest: string)
    ensures ParseHexField(w + rest, |w|) == LenientHex(w) && Rest(w + rest, |w|) == rest
  {
    assert (w + rest)[..|w|] == w;
  }

  lemma ByteHexValue(b: byte)
    ensures AllHex(ByteHex(b)) && DigitsValue(ByteHex(b)) == b
  {
    ByteHexDigits(b);
    TwoDigits(ByteHex(b));
  }

  /** Four digits written for a word read back as the word. */
  lemma WordHexValue(w: word)
    ensures LenientHex(ByteHex(HiByte(w)) + ByteHex(LoByte(w))) == w
  {
    var a, b := ByteHex(HiByte(w)), ByteHex(LoByte(w));
    ByteHexValue(HiByte(w));
    ByteHexValue(LoByte(w));
    assert AllHex(a + b) by {
      forall k | 0 <= k < |a + b| ensures IsHexDigit((a + b)[k]) {
        if k < 2 { assert (a + b)[k] == a[k]; } else { assert (a + b)[k] == b[k - 2]; }
      }
    }
    LenientHexOfAllHex(a + b);
    DigitsValueConcat(a, b);
    assert Pow16(2) == 256;
    WordSplit(w);
  }

  lemma {:induction false} AllHexOf(bs: seq<byte>)
    ensures AllHex(HexOf(bs))
  {
    if |bs| > 0 {
      AllHexOf(bs[1..]);
      ByteHexValue(bs[0]);
      var h := HexOf(bs);
      assert h == ByteHex(bs[0]) + HexOf(bs[1..]);
      forall k | 0 <= k < |h| ensures IsHexDigit(h[k]) {
        if k >= 2 { assert h[k] == HexOf(bs[1..])[k - 2]; }
      }
    }
  }

  /** `parseUntilColon` passes over text without a colon. */
  lemma {:induction false} AfterColonSkips(a: string, rest: string)
    requires forall k :: 0 <= k < |a| ==> a[k] != ':'
    ensures AfterColon(a + rest) == AfterColon(rest)
  {
    if |a| > 0 {
      assert (a + rest)[1..] == a[1..] + rest;
      AfterColonSkips(a[1..], rest);
    } else {
      assert a + rest == rest;
    }
  }

  lemma ParseAllSkips(a: string, rest: string, img: Image)
    requires forall k :: 0 <= k < |a| ==> a[k] != ':'
    ensures ParseAll(a + rest, img) == ParseAll(rest, img)
  {
    AfterColonSkips(a, rest);
  }

  /** The header fields by position: characters 0-1, 2-5 and 6-7. */
  lemma ReadHeadAt(u: string)
    requires |u| >= 8
    ensures ReadHead(u) == Head(LenientHex(u[..2]), LenientHex(u[2..6]), LenientHex(u[6..8]), u[8..])
  {
    assert Rest(u, 2) == u[2..];
    assert u[2..][..4] == u[2..6];
    assert Rest(u[2..], 4) == u[6..];
    assert u[6..][..2] == u[6..8];
    assert Rest(u[6..], 2) == u[8..];
  }

  lemma SliceOfConcat(x: string, y: string, i: nat, j: nat)
    requires i <= j <= |x|
    ensures (x + y)[i..j] == x[i..j]
  {
  }

  lemma SliceSplit(u: string, i: nat, j: nat, k: nat)
    requires i <= j <= k <= |u|
    ensures u[i..k] == u[i..j] + u[j..k]
  {
  }

  lemma DropHeader(h: seq<byte>, data: seq<byte>, cc: byte)
    requires |h| == 4
    ensures (h + data + [cc])[4..] == data + [cc]
  {
  }

  lemma DropOfConcat(x: string, y: string, z: string, j: nat)
    requires j == |x|
    ensures (x + y + z)[j..] == y + z
  {
  }

  lemma HexPairAt(bs: seq<byte>, rest: string, j: nat)
    requires j < |bs|
    ensures (HexOf(bs) + rest)[2 * j..2 * j + 2] == ByteHex(bs[j])
  {
    HexOfAt(bs, j);
    SliceOfConcat(HexOf(bs), rest, 2 * j, 2 * j + 2);
  }

  lemma HexDrop(bs: seq<byte>, rest: string, j: nat)
    requires j <= |bs|
    ensures (HexOf(bs) + rest)[2 * j..] == HexOf(bs[j..]) + rest
  {
    assert bs == bs[..j] + bs[j..];
    HexOfConcat(bs[..j], bs[j..]);
    DropOfConcat(HexOf(bs[..j]), HexOf(bs[j..]), rest, 2 * j);
  }

  /** A header whose three fields are spelled as bytes, whatever surrounds them. */
  lemma HeadOfFields(u: string, n: byte, address: word, t: byte)
    requires |u| >= 8 && u[..2] == ByteHex(n) && u[6..8] == ByteHex(t)
    requires u[2..4] == ByteHex(HiByte(address)) && u[4..6] == ByteHex(LoByte(address))
    ensures ReadHead(u) == Head(n, address, t, u[8..])
  {
    ReadHeadAt(u);
    SliceSplit(u, 2, 4, 6);
    LenientHexOfByte(n);
    WordHexValue(address);
    LenientHexOfByte(t);
  }

  /** The header of any spelled-out byte sequence: bytes 0, 1-2 and 3. */
  lemma HeadOfBytes(bs: seq<byte>, rest: string)
    requires |bs| >= 4
    ensures ReadHead(HexOf(bs) + rest) == Head(bs[0], BE16(bs[1], bs[2]), bs[3], HexOf(bs[4..]) + rest)
  {
    HexPairAt(bs, rest, 0);
    HexPairAt(bs, rest, 1);
    HexPairAt(bs, rest, 2);
    HexPairAt(bs, rest, 3);
    WordSplit(BE16(bs[1], bs[2]));
    HeadOfFields(HexOf(bs) + rest, bs[0], BE16(bs[1], bs[2]), bs[3]);
    HexDrop(bs, rest, 4);
  }

  /** What follows the colon of a record: its length, address and type, then the data digits. */
  lemma HeadOfRecord(address: word, recordType: byte, data: seq<byte>, cc: byte, rest: string)
    requires |data| < 256
    ensures ReadHead(HexOf(RecordBytes(address, recordType, data, cc)) + rest)
      == Head(|data|, address, recordType, HexOf(data + [cc]) + rest)
  {
    var bs := RecordBytes(address, recordType, data, cc);
    HeadOfBytes(bs, rest);
    WordSplit(address);
    DropHeader([|data|, HiByte(address), LoByte(address), recordType], data, cc);
  }

  /** The data fields of a record read back as its data bytes. */
  lemma FieldsOfHex(data: seq<byte>, rest: string)
    ensures Fields(HexOf(data) + rest, |data|) == data
    ensures Rest(HexOf(data) + rest, 2 * |data|) == rest
  {
    var u := HexOf(data) + rest;
    forall i | 0 <= i < |data| ensures Fields(u, |data|)[i] == data[i] {
      HexOfAt(data, i);
      assert Rest(u, 2 * i)[..2] == HexOf(data)[2 * i..2 * i + 2];
      LenientHexOfByte(data[i]);
    }
    assert u[2 * |data|..] == rest;
  }

  /** The sum the loop keeps, modulo 256, against the format's checksum. */
  lemma LoopSumIsChecksum(address: word, recordType: byte, data: seq<byte>, cc: byte)
    requires |data| < 256
    ensures (|data| + address / 256 + address + recordType + Sum(data) + cc) % 256 == 0
      <==> cc == IntelChecksum(address, recordType, data)
  {
    var s := |data| + HiByte(address) + LoByte(address) + recordType + Sum(data);
    assert address / 256 + address == HiByte(address) + LoByte(address) + 256 * HiByte(address);
    Complement(s + 256 * HiByte(address), cc);
    ShiftMod(s, HiByte(address));
  }

  lemma ShiftMod(x: int, k: int)
    ensures (x + 256 * k) % 256 == x % 256
  {
  }

  /** A data record placed in the image: the bytes at their addresses, the range widened. */
  function Placed(img: Image, address: word, data: seq<byte>): (r: Image)
    requires |img.buffer| == BUFFER_SIZE && |data| < 256
    ensures |r.buffer| == BUFFER_SIZE
  {
    Image(Stored(img.buffer, address, data), Lowered(img.start, address), Raised(img.end, address + |data|), img.warnings)
  }

  /** The image after a data record, warned or not. */
  function Checked(img: Image, address: word, data: seq<byte>, cc: byte): (r: Image)
    requires |img.buffer| == BUFFER_SIZE && |data| < 256
    ensures |r.buffer| == BUFFER_SIZE
  {
    var placed := Placed(img, address, data);
    if cc == IntelChecksum(address, 0, data) then placed
    else placed.(warnings := img.warnings + [ChecksumWarning(address, address + |data|)])
  }

  /** A record's text after the colon is one step of the loop. */
  lemma ParseAllColon(u: string, img: Image)
    ensures ParseAll(":" + u, img) == match RecordStep(u, img)
      case Err(e) => Err(e)
      case Ok((img', v)) => ParseAll(v, img')
  {
    assert (":" + u)[1..] == u;
  }

  /** One data step once its fields, checksum and what follows are known. */
  lemma DataStepOfFields(h: Head, img: Image, vs: seq<int>, cc: int, rest: string)
    requires h.lineLen == |vs| && 0 <= h.base && h.base + |vs| <= |img.buffer|
    requires Fields(h.rest, |vs|) == vs
    requires ParseHexField(Rest(h.rest, 2 * |vs|), 2) == cc && Rest(Rest(h.rest, 2 * |vs|), 2) == rest
    ensures DataStep(h, img) == Ok((Image(Stored(img.buffer, h.base, vs),
      Lowered(img.start, h.base), Raised(img.end, h.base + |vs|),
      img.warnings + if (|vs| + h.base / 256 + h.base + h.segment + Sum(vs) + cc) % 256 != 0
        then [ChecksumWarning(h.base, h.base + |vs|)] else []), rest))
  {
    assert Max(h.lineLen, 0) == |vs|;
    var s4 := Rest(h.rest, 2 * |vs|);
    var sum := h.lineLen + h.base / 256 + h.base + h.segment + Sum(vs) + ParseHexField(s4, 2);
    assert sum == |vs| + h.base / 256 + h.base + h.segment + Sum(vs) + cc;
  }

  /** The data part of a data record, from its digits to the end of its checksum. */
  lemma DataStepOfRecord(address: word, data: seq<byte>, cc: byte, t: string, rest: string, img: Image)
    requires |img.buffer| == BUFFER_SIZE && |data| < 256
    requires Fields(t, |data|) == data && Rest(t, 2 * |data|) == ByteHex(cc) + rest
    ensures DataStep(Head(|data|, address, 0, t), img) == Ok((Checked(img, address, data, cc), rest))
  {
    SumCheck(address, data, cc);
    CheckedIs(img, address, data, cc);
    ChecksumField(cc, rest);
    DataStepOfFields(Head(|data|, address, 0, t), img, data, cc, rest);
  }

  lemma RecordTail(data: seq<byte>, cc: byte, rest: string)
    ensures HexOf(data + [cc]) + rest == HexOf(data) + (ByteHex(cc) + rest)
  {
    HexOfConcat(data, [cc]);
    HexOfOne(cc);
  }

  lemma ChecksumField(cc: byte, rest: string)
    ensures ParseHexField(ByteHex(cc) + rest, 2) == cc && Rest(ByteHex(cc) + rest, 2) == rest
  {
    FieldRead(ByteHex(cc), rest);
    LenientHexOfByte(cc);
  }

  lemma CheckedIs(img: Image, address: word, data: seq<byte>, cc: byte)
    requires |img.buffer| == BUFFER_SIZE && |data| < 256
    ensures Checked(img, address, data, cc) == Image(Stored(img.buffer, address, data),
      Lowered(img.start, address), Raised(img.end, address + |data|),
      img.warnings + if cc != IntelChecksum(address, 0, data) then [ChecksumWarning(address, address + |data|)] else [])
  {
    if cc == IntelChecksum(address, 0, data) {
      assert img.warnings + [] == img.warnings;
    }
  }

  lemma SumCheck(address: word, data: seq<byte>, cc: byte)
    requires |data| < 256
    ensures ((|data| + address / 256 + address + 0 + Sum(data) + cc) % 256 != 0)
      == (cc != IntelChecksum(address, 0, data))
  {
    LoopSumIsChecksum(address, 0, data, cc);
  }

  /**
   * A data record is stored whatever its checksum: a wrong checksum only
   * adds the warning, with the record's first and past-the-end addresses.
   */
  lemma DataRecordStored(address: word, data: seq<byte>, cc: byte, rest: string, img: Image)
    requires |img.buffer| == BUFFER_SIZE && |data| < 256
    ensures ParseAll(Record(address, 0, data, cc) + rest, img) == ParseAll(rest, Checked(img, address, data, cc))
  {
    var bs := RecordBytes(address, 0, data, cc);
    RecordIsHexOfBytes(address, 0, data, cc);
    assert Record(address, 0, data, cc) + rest == ":" + (HexOf(bs) + rest);
    ParseAllColon(HexOf(bs) + rest, img);
    HeadOfRecord(address, 0, data, cc, rest);
    RecordTail(data, cc, rest);
    FieldsOfHex(data, ByteHex(cc) + rest);
    DataStepOfRecord(address, data, cc, HexOf(data + [cc]) + rest, rest, img);
  }

  /** So a file of well-formed data records places each one after the other. */
  lemma DataRecordLoads(address: word, data: seq<byte>, rest: string, img: Image)
    requires |img.buffer| == BUFFER_SIZE && |data| < 256
    ensures ParseAll(EncodeRecord(address, 0, data) + rest, img) == ParseAll(rest, Placed(img, address, data))
  {
    DataRecordStored(address, data, IntelChecksum(address, 0, data), "\n" + rest, img);
    assert EncodeRecord(address, 0, data) + rest == Record(address, 0, data, IntelChecksum(address, 0, data)) + ("\n" + rest);
    ParseAllSkips("\n", rest, Placed(img, address, data));
  }

  /** A record of any other type is dropped once its type byte is read, before any byte is stored. */
  lemma OtherTypeSkipped(address: word, recordType: byte, data: seq<byte>, cc: byte, rest: string, img: Image)
    requires |data| < 256 && recordType != 0
    ensures ParseAll(Record(address, recordType, data, cc) + "\n" + rest, img) == ParseAll(rest, img)
  {
    var bs := RecordBytes(address, recordType, data, cc);
    RecordIsHexOfBytes(address, recordType, data, cc);
    assert Record(address, recordType, data, cc) + "\n" + rest == ":" + (HexOf(bs) + ("\n" + rest));
    HeadOfRecord(address, recordType, data, cc, "\n" + rest);
    assert HexOf(data + [cc]) + ("\n" + rest) == (HexOf(data + [cc]) + "\n") + rest;
    AllHexOf(data + [cc]);
    ParseAllSkips(HexOf(data + [cc]) + "\n", rest, img);
  }


  // ---------------------------------------------------------------------
  // Files of well-formed data records

  /** A data record as a file states it: its load address and its bytes. */
  datatype Rec = Rec(address: word, data: seq<byte>)

  predicate Fits(rs: seq<Rec>)
  {
    forall i :: 0 <= i < |rs| ==> |rs[i].data| < 256
  }

  /** The records written one per line with the format's checksum. */
  function HexText(rs: seq<Rec>): string
    requires Fits(rs)
  {
    if |rs| == 0 then "" else EncodeRecord(rs[0].address, 0, rs[0].data) + HexText(rs[1..])
  }

  /** The records placed one after the other. */
  function ApplyAll(rs: seq<Rec>, img: Image): (r: Image)
    requires Fits(rs) && |img.buffer| == BUFFER_SIZE
    ensures |r.buffer| == BUFFER_SIZE
  {
    if |rs| == 0 then img else ApplyAll(rs[1..], Placed(img, rs[0].address, rs[0].data))
  }

  predicate Covers(r: Rec, k: int)
  {
    r.address <= k < r.address + |r.data|
  }

  /** Record i is the last one to cover address k. */
  predicate LastCover(rs: seq<Rec>, i: nat, k: int)
    requires i < |rs|
  {
    Covers(rs[i], k) && forall j :: i < j < |rs| ==> !Covers(rs[j], k)
  }

  /** A file of data records loads without error, each record placed in turn. */
  lemma {:induction false} HexTextLoads(rs: seq<Rec>, img: Image)
    requires Fits(rs) && |img.buffer| == BUFFER_SIZE
    ensures ParseAll(HexText(rs), img) == Ok(ApplyAll(rs, img))
  {
    if |rs| > 0 {
      assert Fits(rs[1..]) by {
        forall i | 0 <= i < |rs[1..]| ensures |rs[1..][i].data| < 256 {
          assert rs[1..][i] == rs[i + 1];
        }
      }
      DataRecordLoads(rs[0].address, rs[0].data, HexText(rs[1..]), img);
      HexTextLoads(rs[1..], Placed(img, rs[0].address, rs[0].data));
    }
  }

  /** Records written with the format's checksum print no warning. */
  lemma {:induction false} ApplyAllKeepsWarnings(rs: seq<Rec>, img: Image)
    requires Fits(rs) && |img.buffer| == BUFFER_SIZE
    ensures ApplyAll(rs, img).warnings == img.warnings
  {
    if |rs| > 0 {
      FitsTail(rs);
      ApplyAllKeepsWarnings(rs[1..], Placed(img, rs[0].address, rs[0].data));
    }
  }

  lemma FitsTail(rs: seq<Rec>)
    requires Fits(rs) && |rs| > 0
    ensures Fits(rs[1..]) && |rs[0].data| < 256
  {
    forall i | 0 <= i < |rs[1..]| ensures |rs[1..][i].data| < 256 {
      assert rs[1..][i] == rs[i + 1];
    }
  }

  /**
   * The start address is the lowest record address, or the initial one
   * when that is lower; the end address is the highest past-the-end
   * address, or the initial one when that is higher.
   */
  lemma {:induction false} ApplyAllRange(rs: seq<Rec>, img: Image)
    requires Fits(rs) && |img.buffer| == BUFFER_SIZE
    ensures var r := ApplyAll(rs, img);
      && r.start <= img.start && img.end <= r.end
      && (forall i :: 0 <= i < |rs| ==> r.start <= rs[i].address && rs[i].address + |rs[i].data| <= r.end)
      && (r.start == img.start || exists i :: 0 <= i < |rs| && r.start == rs[i].address)
      && (r.end == img.end || exists i :: 0 <= i < |rs| && r.end == rs[i].address + |rs[i].data|)
  {
    if |rs| > 0 {
      FitsTail(rs);
      var p := Placed(img, rs[0].address, rs[0].data);
      ApplyAllRange(rs[1..], p);
      var r := ApplyAll(rs, img);
      assert r == ApplyAll(rs[1..], p);
      forall i | 0 <= i < |rs|
        ensures r.start <= rs[i].address && rs[i].address + |rs[i].data| <= r.end
      {
        if i > 0 { assert rs[i] == rs[1..][i - 1]; }
      }
      if r.start != img.start {
        if r.start == p.start {
          assert r.start == rs[0].address;
        } else {
          var j :| 0 <= j < |rs[1..]| && r.start == rs[1..][j].address;
          assert rs[1..][j] == rs[j + 1];
        }
      }
      if r.end != img.end {
        if r.end == p.end {
          assert r.end == rs[0].address + |rs[0].data|;
        } else {
          var j :| 0 <= j < |rs[1..]| && r.end == rs[1..][j].address + |rs[1..][j].data|;
          assert rs[1..][j] == rs[j + 1];
        }
      }
    }
  }

  /** One placed record: its bytes where it covers, the old byte elsewhere. */
  lemma PlacedAt(img: Image, r: Rec, k: nat)
    requires |img.buffer| == BUFFER_SIZE && |r.data| < 256 && k < BUFFER_SIZE
    ensures Placed(img, r.address, r.data).buffer[k]
      == if Covers(r, k) then r.data[k - r.address] else img.buffer[k]
  {
  }

  /**
   * Every byte is the one the last record covering it gives, and a byte
   * no record covers keeps its initial value.
   */
  lemma {:induction false} ApplyAllByte(rs: seq<Rec>, img: Image, k: nat)
    requires Fits(rs) && |img.buffer| == BUFFER_SIZE && k < BUFFER_SIZE
    ensures (forall i :: 0 <= i < |rs| ==> !Covers(rs[i], k)) ==> ApplyAll(rs, img).buffer[k] == img.buffer[k]
    ensures forall i :: 0 <= i < |rs| && LastCover(rs, i, k) ==> ApplyAll(rs, img).buffer[k] == rs[i].data[k - rs[i].address]
  {
    if |rs| > 0 {
      FitsTail(rs);
      var p := Placed(img, rs[0].address, rs[0].data);
      ApplyAllByte(rs[1..], p, k);
      PlacedAt(img, rs[0], k);
      var r := ApplyAll(rs, img);
      assert r == ApplyAll(rs[1..], p);
      forall i | 0 <= i < |rs| && LastCover(rs, i, k)
        ensures r.buffer[k] == rs[i].data[k - rs[i].address]
      {
        if i == 0 {
          forall j | 0 <= j < |rs[1..]| ensures !Covers(rs[1..][j], k) {
            assert rs[1..][j] == rs[j + 1];
          }
        } else {
          assert rs[1..][i - 1] == rs[i];
          forall j | i - 1 < j < |rs[1..]| ensures !Covers(rs[1..][j], k) {
            assert rs[1..][j] == rs[j + 1];
          }
        }
      }
      if forall i :: 0 <= i < |rs| ==> !Covers(rs[i], k) {
        forall j | 0 <= j < |rs[1..]| ensures !Covers(rs[1..][j], k) {
          assert rs[1..][j] == rs[j + 1];
        }
      }
    }
  }
  // ---------------------------------------------------------------------
  // What `main` accepts

  /** A raw file holds its bytes from address 0 on, and the rest of the buffer stays erased. */
  lemma RawImageBytes(s: string, k: nat)
    requires IsBytes(s) && |s| <= BUFFER_SIZE && k < BUFFER_SIZE
    ensures RawImage(s).buffer[k] == if k < |s| then s[k] as int else 0xFF
    ensures RawImage(s).start == 0 && RawImage(s).end == |s| && RawImage(s).warnings == []
  {
    var b := RawImage(s).buffer;
    if k < |s| {
      assert b[k] == Bytes(s)[k];
    } else {
      assert b[k] == Erased()[|s|..][k - |s|];
    }
  }

  /** A raw file is accepted exactly when it is not empty and fits the flash. */
  lemma RawLoad(s: string, flashSize: int)
    requires IsBytes(s) && |s| <= BUFFER_SIZE
    ensures LoadImage(s, RawFile, flashSize)
      == if |s| == 0 then Err(NoData)
         else if |s| > flashSize then Err(TooBig(|s| - flashSize))
         else Ok(RawImage(s))
  {
  }

  /**
   * Whatever is loaded holds data and fits the flash: the start lies
   * below the end and the end within the size the device reports.
   */
  lemma LoadedFits(s: string, fileType: FileType, flashSize: int)
    requires fileType == RawFile ==> IsBytes(s) && |s| <= BUFFER_SIZE
    ensures LoadImage(s, fileType, flashSize).Ok? ==>
      var img := LoadImage(s, fileType, flashSize).value;
      img.start < img.end <= flashSize && Parsed(s, fileType) == Ok(img)
    ensures LoadImage(s, fileType, flashSize).Err? && Parsed(s, fileType).Ok? ==>
      var img := Parsed(s, fileType).value;
      img.start >= img.end || img.end > flashSize
  {
  }

  /** A hex file of data records is accepted when its records span data within the flash. */
  lemma HexLoad(rs: seq<Rec>, flashSize: int)
    requires Fits(rs)
    ensures var img := ApplyAll(rs, Image(Erased(), 1, 0, []));
      LoadImage(HexText(rs), IntelHexFile, flashSize)
        == if img.start >= img.end then Err(NoData)
           else if img.end > flashSize then Err(TooBig(img.end - flashSize))
           else Ok(img)
  {
    HexTextLoads(rs, Image(Erased(), 1, 0, []));
  }

  /** A hex file without a record leaves the start above the end: no data. */
  lemma EmptyHexRejected(s: string, flashSize: int)
    requires forall k :: 0 <= k < |s| ==> s[k] != ':'
    ensures LoadImage(s, IntelHexFile, flashSize) == Err(NoData)
  {
  }
}
