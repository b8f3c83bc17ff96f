// The Ruby `HexProgram` class (ruby/micronucleus.rb, upgrade/hexprogram.rb,
// firmware/upload.rb): an Intel HEX reader that fills a sparse address map
// whose missing addresses read as 0xFF, with a strict per-line checksum.
module RubyHex {
  import opened Common
  import opened IntelHex

  /**
   * The data field is `line[9...9 + 2L]` (end excluded) in
   * ruby/micronucleus.rb and upgrade/hexprogram.rb, but `line[9..9 + 2L]`
   * (end included) in firmware/upload.rb.
   */
  datatype Slicing = Exclusive | Inclusive

  /** Why `parse` raises: a nil slice read as a number, or a checksum mismatch. */
  datatype ParseError = Malformed | ChecksumMismatch(expected: int, found: int)

  /** Why `bytes` raises: no address was ever written, or the highest is below -1. */
  datatype ImageError = NoData | NegativeSize

  /** What one line does to the map. */
  datatype Outcome = Skipped | Data(address: int, values: seq<int>)

  // -----------------------------------------------------------------------
  // Ruby string primitives

  /** Ruby's `s[a..b]` (or `s[a...b]` when `exclusive`), None standing for nil. */
  function Slice(s: string, a: int, b: int, exclusive: bool): (r: Option<string>)
    ensures a >= 0 ==> (r.Some? <==> a <= |s|)
    ensures 0 <= a <= |s| && a <= b && (if exclusive then b else b + 1) <= |s| ==>
              r == Some(s[a..if exclusive then b else b + 1])
  {
    var n := |s|;
    var first := if a < 0 then a + n else a;
    if first < 0 || first > n then None
    else
      var last := if b < 0 then b + n else b;
      var stop := if exclusive then last else last + 1;
      Some(s[first..Max(first, Min(stop, n))])
  }

  /** Ruby's `chomp!` with no argument: one trailing "\r\n", "\n" or "\r" goes. */
  function Chomp(s: string): (r: string)
    ensures |s| - 2 <= |r| <= |s| && r == s[..|r|]
  {
    if |s| >= 2 && s[|s| - 2] == '\r' && s[|s| - 1] == '\n' then s[..|s| - 2]
    else if |s| >= 1 && (s[|s| - 1] == '\n' || s[|s| - 1] == '\r') then s[..|s| - 1]
    else s
  }

  /** `chars.each_slice(2).map { join }`: consecutive two-character pieces, the last maybe one. */
  function Pairs(s: string): (r: seq<string>)
    decreases |s|
  {
    if |s| == 0 then []
    else if |s| <= 2 then [s]
    else [s[..2]] + Pairs(s[2..])
  }

  /** `.map { to_i(16) }` over the pieces. */
  function PairValues(s: string): (r: seq<int>)
    decreases |s|
  {
    if |s| == 0 then []
    else if |s| <= 2 then [LenientHex(s)]
    else [LenientHex(s[..2])] + PairValues(s[2..])
  }

  /**
   * `(((sum % 256) ^ 0xFF) + 1) % 256`; on 0..255, XOR with 0xFF is 255 - x,
   * so this is the two's complement of the low byte of the sum.
   */
  function ChecksumOfSection(section: string): (c: int)
    ensures 0 <= c < 256
    ensures (Sum(PairValues(section)) + c) % 256 == 0
  {
    var low := Sum(PairValues(section)) % 256;
    ((255 - low) + 1) % 256
  }

  // -----------------------------------------------------------------------
  // One line

  /** The work done for one line of `each_line`, after `next unless line.start_with? ':'`. */
  function DecodeLine(line: string, slicing: Slicing): (r: Result<Outcome, ParseError>)
    ensures !(|line| > 0 && line[0] == ':') ==> r == Ok(Skipped)
  {
    if !(|line| > 0 && line[0] == ':') then Ok(Skipped)
    else DecodeChomped(Chomp(line), slicing)
  }

  /** The fields `parse` reads from a chomped line, the data slice perhaps nil. */
  datatype Fields = Fields(length: int, address: int, recordType: int, data: Option<string>, checksum: int, section: string)

  /** The slices of `parse`; None when one that is read as a number is nil. */
  function SplitFields(l: string, slicing: Slicing): Option<Fields>
  {
    match Slice(l, 1, 2, false)
    case None => None
    case Some(lengthField) =>
      var length := LenientHex(lengthField);
      match Slice(l, 3, 6, false)
      case None => None
      case Some(addressField) =>
        match Slice(l, 7, 8, false)
        case None => None
        case Some(typeField) =>
          var data := Slice(l, 9, 9 + length * 2, slicing == Exclusive);
          match Slice(l, 9 + length * 2, 10 + length * 2, false)
          case None => None
          case Some(checksumField) =>
            match Slice(l, 1, 9 + length * 2, true)
            case None => None
            case Some(section) =>
              Some(Fields(length, LenientHex(addressField), LenientHex(typeField), data, LenientHex(checksumField), section))
  }

  /** The checksum comparison, then the record type, then the data bytes. */
  function Interpret(f: Fields): Result<Outcome, ParseError>
  {
    var expected := ChecksumOfSection(f.section);
    if f.checksum != expected then Err(ChecksumMismatch(expected, f.checksum))
    else if f.recordType != 0 then Ok(Skipped)
    else
      match f.data
      case None => Err(Malformed)
      case Some(d) => Ok(Data(f.address, PairValues(d)))
  }

  function DecodeChomped(l: string, slicing: Slicing): Result<Outcome, ParseError>
  {
    match SplitFields(l, slicing)
    case None => Err(Malformed)
    case Some(f) => Interpret(f)
  }

  /** `@bytes[address + index] = byte` for every index. */
  function Store(cells: map<int, int>, address: int, values: seq<int>): (r: map<int, int>)
    ensures forall k :: k in r <==> k in cells || address <= k < address + |values|
    ensures forall k :: k in r ==> r[k] == if address <= k < address + |values| then values[k - address] else cells[k]
    decreases |values|
  {
    if |values| == 0 then cells
    else Store(cells, address, values[..|values| - 1])[address + |values| - 1 := values[|values| - 1]]
  }

  function Apply(cells: map<int, int>, o: Outcome): map<int, int>
  {
    match o
    case Skipped => cells
    case Data(address, values) => Store(cells, address, values)
  }

  /** `parse` over the lines of the input, stopping at the first raise. */
  function ParseLines(lines: seq<string>, slicing: Slicing, cells: map<int, int>): Result<map<int, int>, ParseError>
    decreases |lines|
  {
    if |lines| == 0 then Ok(cells)
    else
      match DecodeLine(lines[0], slicing)
      case Err(e) => Err(e)
      case Ok(o) => ParseLines(lines[1..], slicing, Apply(cells, o))
  }

  // -----------------------------------------------------------------------
  // Records as the Intel HEX format writes them

  lemma PairValuesCons2(p: string, s: string)
    requires |p| == 2
    ensures PairValues(p + s) == [LenientHex(p)] + PairValues(s)
  {
    var t := p + s;
    if |s| == 0 {
      assert t == p;
    } else {
      assert t[..2] == p && t[2..] == s;
    }
  }

  lemma PairValuesCons(b: byte, s: string)
    ensures PairValues(ByteHex(b) + s) == [b] + PairValues(s)
  {
    PairValuesCons2(ByteHex(b), s);
    LenientHexOfByte(b);
  }

  lemma PairValuesOf4(p1: string, p2: string, p3: string, p4: string, rest: string)
    requires |p1| == 2 && |p2| == 2 && |p3| == 2 && |p4| == 2
    ensures PairValues(p1 + p2 + p3 + p4 + rest) ==
              [LenientHex(p1), LenientHex(p2), LenientHex(p3), LenientHex(p4)] + PairValues(rest)
  {
    var t4 := p4 + rest;
    var t3 := p3 + t4;
    var t2 := p2 + t3;
    assert p1 + p2 + p3 + p4 + rest == p1 + t2;
    var r := PairValues(rest);
    assert PairValues(t4) == [LenientHex(p4)] + r by { PairValuesCons2(p4, rest); }
    assert PairValues(t3) == [LenientHex(p3), LenientHex(p4)] + r by { PairValuesCons2(p3, t4); }
    assert PairValues(t2) == [LenientHex(p2), LenientHex(p3), LenientHex(p4)] + r by { PairValuesCons2(p2, t3); }
    assert PairValues(p1 + t2) == [LenientHex(p1), LenientHex(p2), LenientHex(p3), LenientHex(p4)] + r by {
      PairValuesCons2(p1, t2);
    }
  }

  lemma {:induction false} PairValuesOfHex(data: seq<byte>)
    ensures PairValues(HexOf(data)) == data
  {
    if |data| > 0 {
      PairValuesCons(data[0], HexOf(data[1..]));
      PairValuesOfHex(data[1..]);
    }
  }

  /** With one digit left over, the last piece is that digit alone. */
  lemma {:induction false} PairValuesOfHexAndDigit(data: seq<byte>, ch: char)
    requires IsHexDigit(ch)
    ensures PairValues(HexOf(data) + [ch]) == data + [DigitValue(ch)]
  {
    if |data| == 0 {
      assert HexOf(data) + [ch] == [ch];
      PairValuesOfDigit(ch);
    } else {
      var tail := HexOf(data[1..]) + [ch];
      HexHeadSplit(data, [ch]);
      PairValuesCons(data[0], tail);
      PairValuesOfHexAndDigit(data[1..], ch);
      ConsSnoc(data, DigitValue(ch));
    }
  }

  lemma PairValuesOfDigit(ch: char)
    requires IsHexDigit(ch)
    ensures PairValues([ch]) == [DigitValue(ch)]
  {
    assert LenientHex([ch]) == DigitValue(ch) by {
      LenientHexOfAllHex([ch]);
      assert [ch][..0] == [];
    }
  }

  lemma HexHeadSplit(data: seq<byte>, x: string)
    requires |data| > 0
    ensures HexOf(data) + x == ByteHex(data[0]) + (HexOf(data[1..]) + x)
  {
    assert HexOf(data) == ByteHex(data[0]) + HexOf(data[1..]);
    AppendAssoc(ByteHex(data[0]), HexOf(data[1..]), x);
  }

  lemma ConsSnoc(xs: seq<int>, d: int)
    requires |xs| > 0
    ensures [xs[0]] + (xs[1..] + [d]) == xs + [d]
  {
  }

  lemma AddressField(hi: byte, lo: byte)
    ensures LenientHex(ByteHex(hi) + ByteHex(lo)) == hi * 256 + lo
  {
    var a, b := ByteHex(hi), ByteHex(lo);
    TwoDigits(a);
    TwoDigits(b);
    DigitsValueConcat(a, b);
    assert Pow16(|b|) == 256;
    LenientHexOfAllHex(a + b);
  }

  lemma ChompRecord(l: string, term: string)
    requires |l| > 0 && IsHexDigit(l[|l| - 1])
    requires term == "" || term == "\n" || term == "\r\n"
    ensures Chomp(l + term) == l
  {
    var s := l + term;
    if term == "\r\n" {
      assert s[..|s| - 2] == l;
    } else if term == "\n" {
      assert s[|s| - 2] == l[|l| - 1];
      assert s[..|s| - 1] == l;
    }
  }

  /** On a line of exactly 11 + 2L characters every slice is in range and the fields are positional. */
  lemma DecodeExactLength(l: string, slicing: Slicing, L: nat)
    requires |l| == 11 + 2 * L && LenientHex(l[1..3]) == L
    ensures SplitFields(l, slicing) ==
      Some(Fields(L, LenientHex(l[3..7]), LenientHex(l[7..9]),
                  Some(if slicing == Exclusive then l[9..9 + 2 * L] else l[9..10 + 2 * L]),
                  LenientHex(l[9 + 2 * L..11 + 2 * L]), l[1..9 + 2 * L]))
  {
    assert Slice(l, 1, 2, false) == Some(l[1..3]);
    assert Slice(l, 3, 6, false) == Some(l[3..7]);
    assert Slice(l, 7, 8, false) == Some(l[7..9]);
    assert Slice(l, 9 + 2 * L, 10 + 2 * L, false) == Some(l[9 + 2 * L..11 + 2 * L]);
    assert Slice(l, 1, 9 + 2 * L, true) == Some(l[1..9 + 2 * L]);
    assert Slice(l, 9, 9 + 2 * L, slicing == Exclusive) == Some(if slicing == Exclusive then l[9..9 + 2 * L] else l[9..10 + 2 * L]);
    assert LenientHex(Slice(l, 1, 2, false).value) == L;
    assert Slice(l, 9 + L * 2, 10 + L * 2, false) == Some(l[9 + 2 * L..11 + 2 * L]);
    var f := SplitFields(l, slicing).value;
    assert f.length == L;
    assert f.address == LenientHex(l[3..7]);
    assert f.recordType == LenientHex(l[7..9]);
    assert f.checksum == LenientHex(l[9 + 2 * L..11 + 2 * L]);
    assert f.section == l[1..9 + 2 * L];
  }

  /** The section before the checksum reads as the four header bytes, then the data. */
  lemma SectionValues(L: byte, hi: byte, lo: byte, recordType: byte, data: seq<byte>, section: string)
    requires section == ByteHex(L) + ByteHex(hi) + ByteHex(lo) + ByteHex(recordType) + HexOf(data)
    ensures PairValues(section) == [L as int, hi as int, lo as int, recordType as int] + data
  {
    PairValuesOf4(ByteHex(L), ByteHex(hi), ByteHex(lo), ByteHex(recordType), HexOf(data));
    PairValuesOfHex(data);
    LenientHexOfByte(L);
    LenientHexOfByte(hi);
    LenientHexOfByte(lo);
    LenientHexOfByte(recordType);
  }

  /** The section sums to the fields of the record, so its checksum is the format's. */
  lemma SectionChecksum(address: word, recordType: byte, data: seq<byte>, section: string)
    requires |data| < 256
    requires PairValues(section) == [|data|, HiByte(address) as int, LoByte(address) as int, recordType as int] + data
    ensures ChecksumOfSection(section) == IntelChecksum(address, recordType, data)
  {
    var L, hi, lo := |data|, HiByte(address), LoByte(address);
    var head: seq<int> := [L as int, hi as int, lo as int, recordType as int];
    SumConcat(head, data);
    Sum4(L, hi, lo, recordType);
    var total := Sum(PairValues(section));
    assert total == L + hi + lo + recordType + Sum(data);
  }

  /**
   * What a record line does, for any checksum byte: a mismatch raises with
   * the format's checksum as the expected value; a matching line of a type
   * other than 0 changes nothing; a matching data record stores its bytes,
   * and, with the inclusive slice of firmware/upload.rb, one more value:
   * the first hexadecimal digit of the checksum, at address + L.
   */
  lemma {:induction false} DecodeRecord(address: word, recordType: byte, data: seq<byte>, cc: byte,
                                        term: string, slicing: Slicing)
    requires |data| < 256
    requires term == "" || term == "\n" || term == "\r\n"
    ensures var expected := IntelChecksum(address, recordType, data);
      DecodeLine(Record(address, recordType, data, cc) + term, slicing) ==
        if cc != expected then Err(ChecksumMismatch(expected, cc))
        else if recordType != 0 then Ok(Skipped)
        else if slicing == Exclusive then Ok(Data(address, data))
        else Ok(Data(address, data + [cc / 16]))
  {
    var l := Record(address, recordType, data, cc);
    assert DecodeLine(l + term, slicing) == DecodeChomped(l, slicing) by {
      RecordLayout(address, recordType, data, cc);
      ByteHexDigits(cc);
      ChompRecord(l, term);
    }
    var f := RecordFields(address, recordType, data, cc, slicing);
    assert DecodeChomped(l, slicing) == Interpret(f);
  }

  /** The lines `Record` builds are ':' then the digit pairs, ending with the checksum's. */
  lemma RecordLayout(address: word, recordType: byte, data: seq<byte>, cc: byte)
    requires |data| < 256
    ensures var l := Record(address, recordType, data, cc);
      |l| == 11 + 2 * |data| && l[0] == ':' && l[|l| - 1] == ByteHex(cc)[1]
  {
    var p1, p2, p3, p4 := ByteHex(|data|), ByteHex(HiByte(address)), ByteHex(LoByte(address)), ByteHex(recordType);
    RecordSlices(Record(address, recordType, data, cc), p1, p2, p3, p4, HexOf(data), ByteHex(cc));
  }

  /** The fields `parse` reads from a record line, with their values. */
  lemma RecordFields(address: word, recordType: byte, data: seq<byte>, cc: byte, slicing: Slicing) returns (f: Fields)
    requires |data| < 256
    ensures SplitFields(Record(address, recordType, data, cc), slicing) == Some(f)
    ensures f.length == |data| && f.address == address && f.recordType == recordType && f.checksum == cc
    ensures ChecksumOfSection(f.section) == IntelChecksum(address, recordType, data)
    ensures f.data.Some? && PairValues(f.data.value) == if slicing == Exclusive then data else data + [cc / 16]
  {
    var L := |data|;
    var hi, lo := HiByte(address), LoByte(address);
    var p1, p2, p3, p4, body, p6 := ByteHex(L), ByteHex(hi), ByteHex(lo), ByteHex(recordType), HexOf(data), ByteHex(cc);
    var l := Record(address, recordType, data, cc);
    RecordSlices(l, p1, p2, p3, p4, body, p6);
    var section := l[1..9 + 2 * L];
    var dataSlice := if slicing == Exclusive then l[9..9 + 2 * L] else l[9..10 + 2 * L];
    f := Fields(L, address, recordType, Some(dataSlice), cc, section);
    assert SplitFields(l, slicing) == Some(f) by {
      assert LenientHex(l[1..3]) == L by { LenientHexOfByte(L); }
      assert LenientHex(l[3..7]) == address by {
        AddressField(hi, lo);
        WordSplit(address);
      }
      assert LenientHex(l[7..9]) == recordType by { LenientHexOfByte(recordType); }
      assert LenientHex(l[9 + 2 * L..11 + 2 * L]) == cc by { LenientHexOfByte(cc); }
      DecodeExactLength(l, slicing, L);
    }
    assert ChecksumOfSection(section) == IntelChecksum(address, recordType, data) by {
      SectionValues(L, hi, lo, recordType, data, section);
      SectionChecksum(address, recordType, data, section);
    }
    assert PairValues(dataSlice) == if slicing == Exclusive then data else data + [cc / 16] by {
      if slicing == Exclusive {
        PairValuesOfHex(data);
      } else {
        ByteHexDigits(cc);
        PairValuesOfHexAndDigit(data, p6[0]);
      }
    }
  }

  /** Where the pieces of a record line sit. */
  lemma RecordSlices(l: string, p1: string, p2: string, p3: string, p4: string, body: string, p6: string)
    requires |p1| == 2 && |p2| == 2 && |p3| == 2 && |p4| == 2 && |p6| == 2
    requires l == ":" + p1 + p2 + p3 + p4 + body + p6
    ensures |l| == 11 + |body| && l[0] == ':' && l[|l| - 1] == p6[1]
    ensures l[1..3] == p1 && l[3..7] == p2 + p3 && l[7..9] == p4
    ensures l[9..9 + |body|] == body && l[9 + |body|..11 + |body|] == p6
    ensures l[9..10 + |body|] == body + [p6[0]]
    ensures l[1..9 + |body|] == p1 + p2 + p3 + p4 + body
  {
  }

  /** The exclusive slice reads back exactly what an encoder wrote. */
  lemma RoundTrip(address: word, data: seq<byte>)
    requires |data| < 256
    ensures DecodeLine(EncodeRecord(address, 0, data), Exclusive) == Ok(Data(address, data))
  {
    DecodeRecord(address, 0, data, IntelChecksum(address, 0, data), "\n", Exclusive);
  }

  /** Only a checksum equal to the format's checksum is accepted. */
  lemma ChecksumRejected(address: word, recordType: byte, data: seq<byte>, cc: byte, slicing: Slicing)
    requires |data| < 256 && cc != IntelChecksum(address, recordType, data)
    ensures DecodeLine(Record(address, recordType, data, cc) + "\n", slicing).Err?
  {
    DecodeRecord(address, recordType, data, cc, "\n", slicing);
  }

  /**
   * As written in firmware/upload.rb: every well-formed data record stores
   * one value more than it carries, the checksum's first digit, at
   * address + L, so the stored bytes are never the record's.
   */
  lemma InclusiveSliceStoresExtraValue(address: word, data: seq<byte>)
    requires |data| < 256
    ensures var cc := IntelChecksum(address, 0, data);
      DecodeLine(EncodeRecord(address, 0, data), Inclusive) == Ok(Data(address, data + [cc / 16]))
    ensures DecodeLine(EncodeRecord(address, 0, data), Inclusive) != Ok(Data(address, data))
  {
    var cc := IntelChecksum(address, 0, data);
    DecodeRecord(address, 0, data, cc, "\n", Inclusive);
    assert |data + [cc / 16]| != |data|;
  }

  // -----------------------------------------------------------------------
  // Whole files

  /** Every line decoded in order, or the first error. */
  function DecodeAll(lines: seq<string>, slicing: Slicing): Result<seq<Outcome>, ParseError>
    decreases |lines|
  {
    if |lines| == 0 then Ok([])
    else
      match DecodeLine(lines[0], slicing)
      case Err(e) => Err(e)
      case Ok(o) =>
        match DecodeAll(lines[1..], slicing)
        case Err(e) => Err(e)
        case Ok(os) => Ok([o] + os)
  }

  function ApplyAll(cells: map<int, int>, os: seq<Outcome>): map<int, int>
    decreases |os|
  {
    if |os| == 0 then cells else ApplyAll(Apply(cells, os[0]), os[1..])
  }

  /** `parse` fails exactly when some line fails, else applies the decoded lines in order. */
  lemma {:induction false} ParseIsDecodeThenApply(lines: seq<string>, slicing: Slicing, cells: map<int, int>)
    ensures ParseLines(lines, slicing, cells) ==
      match DecodeAll(lines, slicing)
      case Err(e) => Err(e)
      case Ok(os) => Ok(ApplyAll(cells, os))
  {
    if |lines| > 0 {
      match DecodeLine(lines[0], slicing)
      case Err(e) =>
      case Ok(o) =>
        ParseIsDecodeThenApply(lines[1..], slicing, Apply(cells, o));
    }
  }

  predicate Covers(o: Outcome, k: int)
  {
    o.Data? && o.address <= k < o.address + |o.values|
  }

  /** Records that do not write address k leave it as it was. */
  lemma {:induction false} UntouchedAddress(os: seq<Outcome>, cells: map<int, int>, k: int)
    requires forall j :: 0 <= j < |os| ==> !Covers(os[j], k)
    ensures var m := ApplyAll(cells, os);
      (k in m <==> k in cells) && (k in cells ==> m[k] == cells[k])
  {
    if |os| > 0 {
      assert !Covers(os[0], k);
      UntouchedAddress(os[1..], Apply(cells, os[0]), k);
    }
  }

  /** A later record overwrites an earlier one: the last record writing k decides its value. */
  lemma {:induction false} LastWriteWins(os: seq<Outcome>, cells: map<int, int>, i: nat, k: int)
    requires i < |os| && Covers(os[i], k)
    requires forall j :: i < j < |os| ==> !Covers(os[j], k)
    ensures var m := ApplyAll(cells, os);
      k in m && m[k] == os[i].values[k - os[i].address]
  {
    if i == 0 {
      UntouchedAddress(os[1..], Apply(cells, os[0]), k);
    } else {
      LastWriteWins(os[1..], Apply(cells, os[0]), i - 1, k);
    }
  }

  /** A line whose first character is not ':' raises nothing and changes nothing. */
  lemma SkipsNonRecordLines(lines: seq<string>, slicing: Slicing, cells: map<int, int>, line: string)
    requires !(|line| > 0 && line[0] == ':')
    ensures ParseLines([line] + lines, slicing, cells) == ParseLines(lines, slicing, cells)
  {
    assert ([line] + lines)[1..] == lines;
  }

  // -----------------------------------------------------------------------
  // The object

  class HexProgram {
    /** `@bytes`, a Hash whose default value is 0xFF. */
    var cells: map<int, int>
    const slicing: Slicing

    constructor (slicing: Slicing)
      ensures cells == map[] && this.slicing == slicing
    {
      cells := map[];
      this.slicing := slicing;
    }

    /**
     * `parse`: the lines are those of `each_line` (each keeps its line
     * terminator). On a raise the map keeps what the earlier lines wrote.
     */
    method Parse(lines: seq<string>) returns (err: Option<ParseError>)
      modifies this
      ensures ParseLines(lines, slicing, old(cells)) == if err.None? then Ok(cells) else Err(err.value)
    {
      var i := 0;
      while i < |lines|
        invariant 0 <= i <= |lines|
        invariant ParseLines(lines[i..], slicing, cells) == ParseLines(lines, slicing, old(cells))
      {
        var decoded := DecodeLine(lines[i], slicing);
        assert lines[i..][1..] == lines[i + 1..];
        assert ParseLines(lines[i..], slicing, cells) ==
          if decoded.Err? then Err(decoded.error) else ParseLines(lines[i + 1..], slicing, Apply(cells, decoded.value));
        match decoded {
          case Err(e) =>
            return Some(e);
          case Ok(Skipped) =>
          case Ok(Data(address, values)) =>
            Write(address, values);
        }
        i := i + 1;
      }
      return None;
    }

    /** The `each_with_index` loop storing one record's bytes. */
    method Write(address: int, values: seq<int>)
      modifies this
      ensures cells == Store(old(cells), address, values)
    {
      var j := 0;
      while j < |values|
        invariant 0 <= j <= |values|
        invariant cells == Store(old(cells), address, values[..j])
      {
        assert values[..j + 1][..j] == values[..j];
        cells := cells[address + j := values[j]];
        j := j + 1;
      }
      assert values[..j] == values;
    }

    /** `bytes`: addresses 0 to the highest key, unwritten ones 0xFF. */
    function Bytes(): (r: Result<seq<int>, ImageError>)
      reads this
      ensures r.Ok? <==> cells != map[] && MaxOf(cells.Keys) >= -1
      ensures r.Err? ==> r.error == if cells == map[] then NoData else NegativeSize
      ensures r.Ok? ==> |r.value| == MaxOf(cells.Keys) + 1
      ensures r.Ok? ==> forall i :: 0 <= i < |r.value| ==> r.value[i] == if i in cells then cells[i] else 0xFF
    {
      if cells == map[] then Err(NoData)
      else
        var highest := MaxOf(cells.Keys);
        if highest + 1 < 0 then Err(NegativeSize)
        else
          var c := cells;
          Ok(seq(highest + 1, i => if i in c then c[i] else 0xFF))
    }

    /** `binary`: `pack('C*')` keeps the low eight bits of every entry. */
    function Binary(): (r: Result<seq<byte>, ImageError>)
      reads this
      ensures Bytes().Err? ==> r == Err(Bytes().error)
      ensures Bytes().Ok? ==> r.Ok? && |r.value| == |Bytes().value|
      ensures Bytes().Ok? ==> forall i :: 0 <= i < |r.value| ==> r.value[i] == Bytes().value[i] % 256
    {
      match Bytes()
      case Err(e) => Err(e)
      case Ok(b) => Ok(seq(|b|, i requires 0 <= i < |b| => b[i] % 256))
    }
  }
}
