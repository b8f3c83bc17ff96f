// The Intel HEX reader of the bootloader-upgrade data generator
// (upgrade/generate-data.py): an object that reads a file line by line,
// keeps a character position and a running byte sum, and collects the
// 16-bit data words of every data record until the first line that is too
// short or does not start with ':'.  Hexadecimal fields are read with
// Python's `int(_, 16)` on two-character slices, so a malformed field raises
// (modelled as the `Raised` outcome, which ends the script).

module PyIhex {
  import opened Common
  import opened IntelHex

  /** The segment and start address of a type-3 record. */
  datatype Start = Start(segment: int, start: int)

  /** What `readline` produces: the None triple, an exception, or the triple
      (address, words, checksum & 0xFF); `ext` is set by a type-3 record. */
  datatype Parse =
    | NoLine
    | Raised
    | Parsed(address: int, words: seq<int>, checksum: int, ext: Option<Start>)

  /** Data words read from a record, with the byte sum they add to the checksum. */
  datatype WordsRead = WordsRead(words: seq<int>, sum: int)

  /** What `readlines` leaves behind: the words of all records, and the start. */
  datatype Loaded = Loaded(words: seq<int>, start: int, segment: int)

  // ---------------------------------------------------------------------
  // Field reads

  /** The white space `int` strips from a bytes argument. */
  const BLANKS: set<char> := {' ', '\t', '\n', '\r', 11 as char, 12 as char}

  /** The value of a non-empty run of hexadecimal digits; anything else is an error. */
  function Magnitude(d: string): Option<int>
    decreases |d|
  {
    if |d| == 0 || !IsHexDigit(d[|d| - 1]) then None
    else if |d| == 1 then Some(DigitValue(d[0]))
    else
      match Magnitude(d[..|d| - 1])
      case None => None
      case Some(v) => Some(16 * v + DigitValue(d[|d| - 1]))
  }

  function Negated(o: Option<int>): Option<int>
  {
    if o.Some? then Some(-o.value) else None
  }

  /**
   * Python's `int(s, 16)` on the short slices it is given here: white space
   * around, an optional sign, then digits.  (The underscores and the `0x`
   * prefix Python also accepts need more than two characters.)
   */
  function PyInt16(s: string): Option<int>
    requires |s| <= 2
    decreases |s|
  {
    if |s| > 0 && s[0] in BLANKS then PyInt16(s[1..])
    else if |s| > 0 && s[|s| - 1] in BLANKS then PyInt16(s[..|s| - 1])
    else if |s| > 0 && s[0] == '-' then Negated(Magnitude(s[1..]))
    else if |s| > 0 && s[0] == '+' then Magnitude(s[1..])
    else Magnitude(s)
  }

  /** Python's `s[i:j]` for 0 <= i <= j: clipped to the string. */
  function Slice(s: string, i: nat, j: nat): (r: string)
    requires i <= j
    ensures |r| <= j - i
  {
    if i >= |s| then "" else s[i..Min(j, |s|)]
  }

  /** `int(l[p:p+2], 16)` for every position p from i on. */
  function Decoded(l: string, i: nat): (r: seq<Option<int>>)
    ensures |r| == if i < |l| then |l| - i else 0
    decreases |l| - i
  {
    if i >= |l| then [] else [PyInt16(Slice(l, i, i + 2))] + Decoded(l, i + 1)
  }

  /** `int(line[p:p+2], 16)`, looked up in the decoded line; past the end the
      slice is empty and raises, so a byte is never read there. */
  function ByteAt(l: string, p: nat): (r: Option<int>)
    ensures r.Some? ==> p < |l|
  {
    if p < |l| then Decoded(l, 0)[p] else None
  }

  lemma {:induction false} DecodedAt(l: string, i: nat, p: nat)
    requires i <= p < |l|
    ensures Decoded(l, i)[p - i] == PyInt16(Slice(l, p, p + 2))
    decreases p - i
  {
    if i < p {
      DecodedAt(l, i + 1, p);
    }
  }

  /** The field read at p is Python's `int(line[p:p+2], 16)`. */
  lemma ByteAtIsSlice(l: string, p: nat)
    ensures ByteAt(l, p) == PyInt16(Slice(l, p, p + 2))
  {
    if p < |l| {
      DecodedAt(l, 0, p);
    }
  }

  /** `getaddress`: 256 * getbyte() + getbyte(), the first byte read the high one. */
  function AddressAt(l: string, p: nat): Option<int>
  {
    var hi := ByteAt(l, p);
    var lo := ByteAt(l, p + 2);
    if hi.Some? && lo.Some? then Some(256 * hi.value + lo.value) else None
  }

  /** `getword`: getbyte() + 256 * getbyte(), the first byte read the low one. */
  function WordAt(l: string, p: nat): Option<int>
  {
    var lo := ByteAt(l, p);
    var hi := ByteAt(l, p + 2);
    if lo.Some? && hi.Some? then Some(lo.value + 256 * hi.value) else None
  }

  function PrependWords(ws: seq<int>, sum: int, o: Option<WordsRead>): Option<WordsRead>
  {
    match o
    case None => None
    case Some(w) => Some(WordsRead(ws + w.words, sum + w.sum))
  }

  /** `while length: data.append(getword()); length -= 2` from character p.
      An odd or negative length never reaches 0 and runs into the end of the line. */
  function Words(l: string, p: nat, n: int): Option<WordsRead>
    decreases |l| + 2 - p
  {
    if n == 0 then Some(WordsRead([], 0))
    else
      var lo := ByteAt(l, p);
      var hi := ByteAt(l, p + 2);
      if lo.None? || hi.None? then None
      else PrependWords([lo.value + 256 * hi.value], lo.value + hi.value, Words(l, p + 4, n - 2))
  }

  /** The header fields after ':': length, address high, address low, record type. */
  const HEADER_BYTES: nat := 4
  /** A type-3 record's fields: segment high and low, start high and low. */
  const START_BYTES: nat := 4

  /** n successive `getbyte` calls from character p. */
  function Bytes(l: string, p: nat, n: nat): (r: Option<seq<int>>)
    ensures r.Some? ==> |r.value| == n
    decreases n
  {
    if n == 0 then Some([])
    else
      match ByteAt(l, p)
      case None => None
      case Some(b) =>
        match Bytes(l, p + 2, n - 1)
        case None => None
        case Some(bs) => Some([b] + bs)
  }

  /** `readline` on one line of the file. */
  function ParseLine(l: string): Parse
  {
    if |l| < 11 || l[0] != ':' then NoLine
    else
      match Bytes(l, 1, HEADER_BYTES)
      case None => Raised
      case Some(h) => Body(l, h)
  }

  /** The fields after the header `h`, by record type, then the checksum byte. */
  function Body(l: string, h: seq<int>): Parse
    requires |h| == HEADER_BYTES
  {
    if h[3] == 3 then StartBody(l, h)
    else if h[3] == 0 then DataBody(l, h)
    else OtherBody(l, h)
  }

  /** A type-3 record: segment and start address, which also becomes the line's address. */
  function StartBody(l: string, h: seq<int>): Parse
    requires |h| == HEADER_BYTES
  {
    match Bytes(l, 9, START_BYTES)
    case None => Raised
    case Some(e) =>
      var cc := ByteAt(l, 17);
      if cc.None? then Raised
      else
        var start := 256 * e[2] + e[3];
        Parsed(start, [], (Sum(h) + Sum(e) + cc.value) % 256, Some(Start(256 * e[0] + e[1], start)))
  }

  /** A type-0 record: the words of the length field's count of bytes. */
  function DataBody(l: string, h: seq<int>): Parse
    requires |h| == HEADER_BYTES
  {
    match Words(l, 9, h[0])
    case None => Raised
    case Some(w) =>
      var cc := ByteAt(l, 9 + 4 * |w.words|);
      if cc.None? then Raised
      else Parsed(256 * h[1] + h[2], w.words, (Sum(h) + w.sum + cc.value) % 256, None)
  }

  /** Any other record type: no data is read, the next byte is taken as the checksum. */
  function OtherBody(l: string, h: seq<int>): Parse
    requires |h| == HEADER_BYTES
  {
    var cc := ByteAt(l, 9);
    if cc.None? then Raised
    else Parsed(256 * h[1] + h[2], [], (Sum(h) + cc.value) % 256, None)
  }

  /** The start and segment after a parsed line. */
  function After(r: Parse, start: int, segment: int): (int, int)
  {
    if r.Parsed? && r.ext.Some? then (r.ext.value.start, r.ext.value.segment) else (start, segment)
  }

  function PrependLoaded(ws: seq<int>, o: Option<Loaded>): Option<Loaded>
  {
    match o
    case None => None
    case Some(r) => Some(Loaded(ws + r.words, r.start, r.segment))
  }

  /** `readlines` over the parsed lines from i on: stop at the first None
      triple, append every record's words, never look at the checksum. */
  function ReadAll(ps: seq<Parse>, i: nat, start: int, segment: int): Option<Loaded>
    decreases |ps| - i
  {
    if i >= |ps| then Some(Loaded([], start, segment))
    else
      match ps[i]
      case NoLine => Some(Loaded([], start, segment))
      case Raised => None
      case Parsed(_, ws, _, _) =>
        var (st, sg) := After(ps[i], start, segment);
        PrependLoaded(ws, ReadAll(ps, i + 1, st, sg))
  }

  lemma BytesOfFour(l: string, p: nat)
    ensures var a, b, c, d := ByteAt(l, p), ByteAt(l, p + 2), ByteAt(l, p + 4), ByteAt(l, p + 6);
      Bytes(l, p, 4) == if a.Some? && b.Some? && c.Some? && d.Some? then Some([a.value, b.value, c.value, d.value]) else None
  {
    var b3 := Bytes(l, p + 6, 1);
    var b2 := Bytes(l, p + 4, 2);
    var b1 := Bytes(l, p + 2, 3);
    assert Bytes(l, p + 8, 0) == Some([]);
    if ByteAt(l, p + 6).Some? {
      assert [ByteAt(l, p + 6).value] + [] == [ByteAt(l, p + 6).value];
    }
    assert b3 == if ByteAt(l, p + 6).Some? then Some([ByteAt(l, p + 6).value]) else None;
    assert b2 == if ByteAt(l, p + 4).Some? && b3.Some? then Some([ByteAt(l, p + 4).value] + b3.value) else None;
    assert b1 == if ByteAt(l, p + 2).Some? && b2.Some? then Some([ByteAt(l, p + 2).value] + b2.value) else None;
    assert Bytes(l, p, 4) == if ByteAt(l, p).Some? && b1.Some? then Some([ByteAt(l, p).value] + b1.value) else None;
    if ByteAt(l, p).Some? && b1.Some? {
      var a, b, c, d := ByteAt(l, p).value, ByteAt(l, p + 2).value, ByteAt(l, p + 4).value, ByteAt(l, p + 6).value;
      assert [a] + ([b] + ([c] + [d])) == [a, b, c, d];
    }
  }

  lemma WordsStep(l: string, p: nat, n: int, w: int, sum: int)
    requires n != 0 && WordAt(l, p) == Some(w) && sum == ByteAt(l, p).value + ByteAt(l, p + 2).value
    ensures Words(l, p, n) == PrependWords([w], sum, Words(l, p + 4, n - 2))
  {
  }

  lemma WordsStop(l: string, p: nat, n: int)
    requires n != 0 && WordAt(l, p).None?
    ensures Words(l, p, n).None?
  {
  }

  lemma PrependWordsTwice(a: seq<int>, s: int, b: seq<int>, t: int, o: Option<WordsRead>)
    ensures PrependWords(a, s, PrependWords(b, t, o)) == PrependWords(a + b, s + t, o)
  {
    if o.Some? {
      assert a + (b + o.value.words) == (a + b) + o.value.words;
    }
  }

  lemma PrependWordsUnit(ws: seq<int>, sum: int, o: Option<WordsRead>)
    ensures PrependWords([], 0, o) == o
    ensures PrependWords(ws, sum, Some(WordsRead([], 0))) == Some(WordsRead(ws, sum))
  {
    if o.Some? {
      assert [] + o.value.words == o.value.words;
    }
    assert ws + [] == ws;
  }

  lemma PrependLoadedUnit(ws: seq<int>, start: int, segment: int, o: Option<Loaded>)
    ensures PrependLoaded([], o) == o
    ensures PrependLoaded(ws, Some(Loaded([], start, segment))) == Some(Loaded(ws, start, segment))
  {
    if o.Some? {
      assert [] + o.value.words == o.value.words;
    }
    assert ws + [] == ws;
  }

  lemma PrependLoadedTwice(a: seq<int>, b: seq<int>, o: Option<Loaded>)
    ensures PrependLoaded(a, PrependLoaded(b, o)) == PrependLoaded(a + b, o)
  {
    if o.Some? {
      assert a + (b + o.value.words) == (a + b) + o.value.words;
    }
  }

  /** One parsed line: its words come first, then those of the lines after it. */
  lemma ReadAllStep(ps: seq<Parse>, i: nat, start: int, segment: int)
    requires i < |ps| && ps[i].Parsed?
    ensures ReadAll(ps, i, start, segment) == PrependLoaded(ps[i].words, ReadAll(ps, i + 1, After(ps[i], start, segment).0, After(ps[i], start, segment).1))
  {
  }

  // ---------------------------------------------------------------------
  // The reader object

  class Ihex {
    /** The successive results of `h.readline()`; past them it returns an empty line. */
    const lines: seq<string>
    /** What `readline` makes of each of them. */
    ghost const parses: seq<Parse>
    var next: nat
    var line: string
    var pos: nat
    var checksum: int
    var start: int
    /** Only ever assigned by a type-3 record. */
    var segment: int
    var size: int
    var data: seq<int>

    /** `size` counts the collected words. */
    predicate Valid()
      reads this
    {
      size == |data|
    }

    ghost predicate ParsesLines()
    {
      |parses| == |lines| &&
      forall i {:trigger ParseLine(lines[i])} :: 0 <= i < |lines| ==> parses[i] == ParseLine(lines[i])
    }

    constructor (file: seq<string>)
      ensures lines == file && next == 0
      ensures start == 0 && size == 0 && checksum == 0 && data == []
      ensures Valid() && ParsesLines()
    {
      lines := file;
      parses := Parses(file);
      next := 0;
      line := "";
      pos := 0;
      checksum := 0;
      start := 0;
      segment := 0;
      size := 0;
      data := [];
    }

    method GetChar() returns (c: char)
      requires pos < |line|
      modifies this`pos
      ensures c == line[old(pos)] && pos == old(pos) + 1
    {
      c := line[pos];
      pos := pos + 1;
    }

    /** An exception leaves the position and the sum as they were. */
    method GetByte() returns (b: Option<int>)
      modifies this`pos, this`checksum
      ensures b == ByteAt(line, old(pos))
      ensures b.Some? ==> pos == old(pos) + 2 && checksum == old(checksum) + b.value
      ensures b.None? ==> pos == old(pos) && checksum == old(checksum)
    {
      b := ByteAt(line, pos);
      if b.Some? {
        pos := pos + 2;
        checksum := checksum + b.value;
      }
    }

    method GetAddress() returns (a: Option<int>)
      modifies this`pos, this`checksum
      ensures a == AddressAt(line, old(pos))
      ensures a.Some? ==> pos == old(pos) + 4
      ensures a.Some? ==> checksum == old(checksum) + ByteAt(line, old(pos)).value + ByteAt(line, old(pos) + 2).value
    {
      var hi := GetByte();
      if hi.None? {
        return None;
      }
      var lo := GetByte();
      if lo.None? {
        return None;
      }
      a := Some(256 * hi.value + lo.value);
    }

    method GetWord() returns (w: Option<int>)
      modifies this`pos, this`checksum
      ensures w == WordAt(line, old(pos))
      ensures w.Some? ==> pos == old(pos) + 4 && old(pos) + 2 < |line|
      ensures w.Some? ==> checksum == old(checksum) + ByteAt(line, old(pos)).value + ByteAt(line, old(pos) + 2).value
    {
      var lo := GetByte();
      if lo.None? {
        return None;
      }
      var hi := GetByte();
      if hi.None? {
        return None;
      }
      w := Some(lo.value + 256 * hi.value);
    }

    /** The data loop of a type-0 record, from character 9 on. */
    method ReadWords(length: int) returns (r: Option<WordsRead>)
      requires pos == 9
      modifies this`pos, this`checksum
      ensures r == Words(line, 9, length)
      ensures r.Some? ==> pos == 9 + 4 * |r.value.words| && checksum == old(checksum) + r.value.sum
    {
      var n := length;
      var initial := checksum;
      var words: seq<int> := [];
      ghost var target := Words(line, 9, length);
      PrependWordsUnit(words, 0, target);
      while n != 0
        invariant pos == 9 + 4 * |words|
        invariant target == PrependWords(words, checksum - initial, Words(line, pos, n))
        decreases |line| + 2 - pos
      {
        ghost var p, before := pos, checksum;
        var w := GetWord();
        if w.None? {
          WordsStop(line, p, n);
          return None;
        }
        WordsStep(line, p, n, w.value, checksum - before);
        PrependWordsTwice(words, before - initial, [w.value], checksum - before, Words(line, pos, n - 2));
        words := words + [w.value];
        n := n - 2;
      }
      PrependWordsUnit(words, checksum - initial, target);
      r := Some(WordsRead(words, checksum - initial));
    }

    /** `readline`: read the next line and parse it. */
    method ReadLine() returns (r: Parse)
      requires next <= |lines|
      modifies this`next, this`line, this`pos, this`checksum, this`start, this`segment
      ensures line == (if old(next) < |lines| then lines[old(next)] else "")
      ensures next == (if old(next) < |lines| then old(next) + 1 else old(next))
      ensures r == ParseLine(line)
      ensures !r.NoLine? ==> old(next) < |lines|
      ensures !r.Raised? ==> (start, segment) == After(r, old(start), old(segment))
    {
      if next < |lines| {
        line := lines[next];
        next := next + 1;
      } else {
        line := "";
      }
      if |line| < 11 {
        return NoLine;
      }
      pos := 0;
      var c := GetChar();
      if c != ':' {
        return NoLine;
      }
      r := ReadRecord();
    }

    /** The fields of a line that starts with ':', from character 1 on. */
    method ReadRecord() returns (r: Parse)
      requires pos == 1 && |line| >= 11 && line[0] == ':'
      modifies this`pos, this`checksum, this`start, this`segment
      ensures r == ParseLine(line)
      ensures !r.Raised? ==> (start, segment) == After(r, old(start), old(segment))
    {
      BytesOfFour(line, 1);
      checksum := 0;
      var length := GetByte();
      if length.None? {
        return Raised;
      }
      var address := GetAddress();
      if address.None? {
        return Raised;
      }
      var record := GetByte();
      if record.None? {
        return Raised;
      }
      ghost var h := [length.value, ByteAt(line, 3).value, ByteAt(line, 5).value, record.value];
      Sum4(h[0], h[1], h[2], h[3]);
      r := ReadBody(h, length.value, address.value, record.value);
      assert ParseLine(line) == Body(line, h);
    }

    /** The fields after the header: by record type, then the checksum byte. */
    method ReadBody(ghost h: seq<int>, length: int, address: int, record: int) returns (r: Parse)
      requires pos == 9
      requires |h| == HEADER_BYTES && checksum == Sum(h)
      requires length == h[0] && address == 256 * h[1] + h[2] && record == h[3]
      modifies this`pos, this`checksum, this`start, this`segment
      ensures r == Body(line, h)
      ensures !r.Raised? ==> (start, segment) == After(r, old(start), old(segment))
    {
      if record == 3 {
        r := ReadStart(h);
      } else if record == 0 {
        r := ReadData(h, length, address);
      } else {
        var cc := GetByte();
        if cc.None? {
          return Raised;
        }
        r := Parsed(address, [], checksum % 256, None);
      }
    }

    method ReadStart(ghost h: seq<int>) returns (r: Parse)
      requires pos == 9
      requires |h| == HEADER_BYTES && checksum == Sum(h)
      modifies this`pos, this`checksum, this`start, this`segment
      ensures r == StartBody(line, h)
      ensures !r.Raised? ==> (start, segment) == After(r, old(start), old(segment))
    {
      BytesOfFour(line, 9);
      var sg := GetAddress();
      if sg.None? {
        return Raised;
      }
      segment := sg.value;
      var st := GetAddress();
      if st.None? {
        return Raised;
      }
      start := st.value;
      Sum4(ByteAt(line, 9).value, ByteAt(line, 11).value, ByteAt(line, 13).value, ByteAt(line, 15).value);
      var cc := GetByte();
      if cc.None? {
        return Raised;
      }
      r := Parsed(start, [], checksum % 256, Some(Start(segment, start)));
    }

    method ReadData(ghost h: seq<int>, length: int, address: int) returns (r: Parse)
      requires pos == 9
      requires |h| == HEADER_BYTES && checksum == Sum(h)
      requires length == h[0] && address == 256 * h[1] + h[2]
      modifies this`pos, this`checksum
      ensures r == DataBody(line, h)
    {
      var w := ReadWords(length);
      if w.None? {
        return Raised;
      }
      var cc := GetByte();
      if cc.None? {
        return Raised;
      }
      r := Parsed(address, w.value.words, checksum % 256, None);
    }

    /** One pass of the `readlines` loop: read a line and append its words. */
    method ReadAndAppend() returns (p: Parse)
      requires next <= |lines| && ParsesLines()
      modifies this`next, this`line, this`pos, this`checksum, this`start, this`segment, this`size, this`data
      ensures next <= |lines|
      ensures p.Raised? ==> ReadAll(parses, old(next), old(start), old(segment)).None?
      ensures p.NoLine? ==> ReadAll(parses, old(next), old(start), old(segment)) == Some(Loaded([], old(start), old(segment)))
      ensures p.NoLine? ==> data == old(data) && size == old(size) && start == old(start) && segment == old(segment)
      ensures p.Parsed? ==> old(next) < next
      ensures p.Parsed? ==>
        ReadAll(parses, old(next), old(start), old(segment)) == PrependLoaded(p.words, ReadAll(parses, next, start, segment))
      ensures p.Parsed? ==> data == old(data) + p.words && size == old(size) + |p.words|
    {
      ghost var i := next;
      p := ReadLine();
      if !p.Parsed? {
        return;
      }
      ReadAllStep(parses, i, old(start), old(segment));
      data := data + p.words;
      size := size + |p.words|;
    }

    /** `readlines`: collect the words of every line up to the first None triple. */
    method ReadLines() returns (r: Option<seq<int>>)
      requires next <= |lines| && ParsesLines()
      modifies this`next, this`line, this`pos, this`checksum, this`start, this`segment, this`size, this`data
      ensures var spec := ReadAll(parses, old(next), old(start), old(segment));
        (r.Some? <==> spec.Some?) &&
        (r.Some? ==>
           r.value == data && data == old(data) + spec.value.words &&
           size == old(size) + |spec.value.words| && start == spec.value.start && segment == spec.value.segment)
      ensures old(Valid()) && r.Some? ==> Valid()
    {
      ghost var acc: seq<int> := [];
      PrependLoadedUnit(acc, start, segment, ReadAll(parses, next, start, segment));
      while true
        invariant next <= |lines|
        invariant ReadAll(parses, old(next), old(start), old(segment)) == PrependLoaded(acc, ReadAll(parses, next, start, segment))
        invariant data == old(data) + acc && size == old(size) + |acc|
        decreases |lines| - next
      {
        ghost var st, sg := start, segment;
        var p := ReadAndAppend();
        if p.Raised? {
          return None;
        }
        if p.NoLine? {
          PrependLoadedUnit(acc, st, sg, None);
          break;
        }
        PrependLoadedTwice(acc, p.words, ReadAll(parses, next, start, segment));
        acc := acc + p.words;
      }
      r := Some(data);
    }
  }

  // ---------------------------------------------------------------------
  // Properties

  /** What the reader makes of each line of a file. */
  function Parses(lines: seq<string>): (ps: seq<Parse>)
    ensures |ps| == |lines|
  {
    seq(|lines|, i requires 0 <= i < |lines| => ParseLine(lines[i]))
  }

  /** Two upper-case digits are read back as the byte they spell. */
  lemma PyInt16OfHex(b: byte)
    ensures PyInt16(ByteHex(b)) == Some(b)
  {
    var s := ByteHex(b);
    ByteHexDigits(b);
    assert s[0] !in BLANKS && s[1] !in BLANKS && s[0] != '-' && s[0] != '+';
    assert s[..1] == [s[0]];
    assert Magnitude(s[..1]) == Some(DigitValue(s[0]));
  }

  lemma SpelledByte(l: string, p: nat, b: byte)
    requires p + 2 <= |l| && l[p..p + 2] == ByteHex(b)
    ensures ByteAt(l, p) == Some(b)
  {
    ByteAtIsSlice(l, p);
    assert Slice(l, p, p + 2) == l[p..p + 2];
    PyInt16OfHex(b);
  }

  /** `getaddress` reads its two bytes big-endian, `getword` little-endian. */
  lemma FieldByteOrder(l: string, p: nat, x: byte, y: byte)
    requires p + 4 <= |l| && l[p..p + 4] == ByteHex(x) + ByteHex(y)
    ensures AddressAt(l, p) == Some(256 * x + y)
    ensures WordAt(l, p) == Some(x + 256 * y)
  {
    assert l[p..p + 2] == l[p..p + 4][..2];
    assert l[p + 2..p + 4] == l[p..p + 4][2..];
    SpelledByte(l, p, x);
    SpelledByte(l, p + 2, y);
  }

  /** The None triple comes exactly from lines that are too short or lack the ':' mark. */
  lemma NoLineExactly(l: string)
    ensures ParseLine(l).NoLine? <==> |l| < 11 || l[0] != ':'
  {
  }

  /** A data loop that ends has read an even, non-negative length, one word per two bytes. */
  lemma {:induction false} WordsCount(l: string, p: nat, n: int)
    requires Words(l, p, n).Some?
    ensures n >= 0 && n % 2 == 0 && |Words(l, p, n).value.words| == n / 2
    decreases |l| + 2 - p
  {
    if n != 0 {
      WordsCount(l, p + 4, n - 2);
    }
  }

  /** Characters p.. of l spell out the bytes bs in hexadecimal. */
  predicate Spells(l: string, p: nat, bs: seq<byte>)
  {
    p + 2 * |bs| <= |l| && l[p..p + 2 * |bs|] == HexOf(bs)
  }

  lemma SpellsByte(l: string, p: nat, bs: seq<byte>, j: nat)
    requires Spells(l, p, bs) && j < |bs|
    ensures ByteAt(l, p + 2 * j) == Some(bs[j])
  {
    HexOfAt(bs, j);
    SliceOfSlice(l, p, p + 2 * |bs|, 2 * j, 2 * j + 2);
    SpelledByte(l, p + 2 * j, bs[j]);
  }

  /** A spelled sequence spells its every suffix at the matching offset. */
  lemma SpellsDrop(l: string, p: nat, bs: seq<byte>, k: nat)
    requires Spells(l, p, bs) && k <= |bs|
    ensures Spells(l, p + 2 * k, bs[k..])
  {
    assert bs == bs[..k] + bs[k..];
    HexOfConcat(bs[..k], bs[k..]);
    var h := l[p..p + 2 * |bs|];
    assert HexOf(bs[k..]) == h[2 * k..];
    assert l[p + 2 * k..p + 2 * k + 2 * |bs[k..]|] == h[2 * k..];
  }

  /** The reader takes the bytes bs from the two-character fields at p, p + 2, ... */
  predicate Reads(l: string, p: nat, bs: seq<int>)
    decreases |bs|
  {
    |bs| == 0 || (ByteAt(l, p) == Some(bs[0]) && Reads(l, p + 2, bs[1..]))
  }

  /** Spelled bytes are read back as themselves. */
  lemma {:induction false} SpellsReads(l: string, p: nat, bs: seq<byte>)
    requires Spells(l, p, bs)
    ensures Reads(l, p, bs)
    decreases |bs|
  {
    if |bs| > 0 {
      SpellsByte(l, p, bs, 0);
      SpellsDrop(l, p, bs, 1);
      SpellsReads(l, p + 2, bs[1..]);
    }
  }

  lemma {:induction false} ReadsAt(l: string, p: nat, bs: seq<int>, j: nat)
    requires Reads(l, p, bs) && j < |bs|
    ensures ByteAt(l, p + 2 * j) == Some(bs[j])
    decreases j
  {
    if j > 0 {
      ReadsAt(l, p + 2, bs[1..], j - 1);
    }
  }

  lemma {:induction false} ReadsDrop(l: string, p: nat, bs: seq<int>, k: nat)
    requires Reads(l, p, bs) && k <= |bs|
    ensures Reads(l, p + 2 * k, bs[k..])
    decreases k
  {
    if k > 0 {
      ReadsDrop(l, p + 2, bs[1..], k - 1);
      assert bs[1..][k - 1..] == bs[k..];
    }
  }

  lemma {:induction false} ReadsTake(l: string, p: nat, bs: seq<int>, k: nat)
    requires Reads(l, p, bs) && k <= |bs|
    ensures Reads(l, p, bs[..k])
    decreases k
  {
    if k > 0 {
      ReadsTake(l, p + 2, bs[1..], k - 1);
      assert bs[..k][1..] == bs[1..][..k - 1];
    }
  }

  /** Pairs of bytes as 16-bit words, the first byte of each pair the low one. */
  function LEWords(bs: seq<int>): (ws: seq<int>)
    requires |bs| % 2 == 0
    ensures |ws| == |bs| / 2
  {
    if |bs| == 0 then [] else [bs[0] + 256 * bs[1]] + LEWords(bs[2..])
  }

  /** The data loop reads an even-length run of bytes as its little-endian words and their sum. */
  lemma {:induction false} WordsOfRead(l: string, p: nat, bs: seq<int>)
    requires Reads(l, p, bs) && |bs| % 2 == 0
    ensures Words(l, p, |bs|) == Some(WordsRead(LEWords(bs), Sum(bs)))
    decreases |bs|
  {
    if |bs| > 0 {
      assert Reads(l, p + 2, bs[1..]);
      assert bs[1..][1..] == bs[2..];
      WordsOfRead(l, p + 4, bs[2..]);
    }
  }

  /** Four bytes read in a row are the reader's header or start fields. */
  lemma ReadsFour(l: string, p: nat, bs: seq<int>)
    requires Reads(l, p, bs) && 4 <= |bs|
    ensures Bytes(l, p, 4) == Some(bs[..4])
  {
    ReadsAt(l, p, bs, 0);
    ReadsAt(l, p, bs, 1);
    ReadsAt(l, p, bs, 2);
    ReadsAt(l, p, bs, 3);
    BytesOfFour(l, p);
    assert bs[..4] == [bs[0], bs[1], bs[2], bs[3]];
  }

  /** Equal sums leave equal remainders (stated once, so that the solver need not search for it). */
  lemma SameMod(a: int, b: int)
    requires a == b
    ensures a % 256 == b % 256
  {
  }

  /** A type-0 line once its header, words and checksum byte are known. */
  lemma DataLineOf(l: string, h: seq<int>, ws: seq<int>, hs: int, sum: int, c: int)
    requires |l| >= 11 && l[0] == ':' && Bytes(l, 1, HEADER_BYTES) == Some(h) && h[3] == 0
    requires Words(l, 9, h[0]) == Some(WordsRead(ws, sum))
    requires ByteAt(l, 9 + 4 * |ws|) == Some(c) && hs == Sum(h)
    ensures ParseLine(l) == Parsed(256 * h[1] + h[2], ws, (hs + sum + c) % 256, None)
  {
    DataBodyOf(l, h, ws, hs, sum, c);
    assert ParseLine(l) == Body(l, h);
  }

  lemma DataBodyOf(l: string, h: seq<int>, ws: seq<int>, hs: int, sum: int, c: int)
    requires |h| == HEADER_BYTES && h[3] == 0
    requires Words(l, 9, h[0]) == Some(WordsRead(ws, sum))
    requires ByteAt(l, 9 + 4 * |ws|) == Some(c) && hs == Sum(h)
    ensures Body(l, h) == Parsed(256 * h[1] + h[2], ws, (hs + sum + c) % 256, None)
  {
    assert Body(l, h) == DataBody(l, h);
  }

  /** The fields the reader takes from a line reading `head`, then `data`, then `cc`. */
  lemma DataFields(l: string, bs: seq<int>, head: seq<int>, data: seq<int>, cc: int, ws: seq<int>, sum: int)
    requires |head| == HEADER_BYTES && head[0] == |data| && |data| % 2 == 0
    requires Reads(l, 1, bs) && bs == head + data + [cc] && ws == LEWords(data) && sum == Sum(data)
    ensures Bytes(l, 1, HEADER_BYTES) == Some(head)
    ensures Words(l, 9, head[0]) == Some(WordsRead(ws, sum))
    ensures ByteAt(l, 9 + 4 * |ws|) == Some(cc)
  {
    assert bs[..4] == head;
    ReadsFour(l, 1, bs);
    DataWords(l, bs, head, data, cc);
    ReadsAt(l, 1, bs, 4 + |data|);
  }

  lemma DataWords(l: string, bs: seq<int>, head: seq<int>, data: seq<int>, cc: int)
    requires |head| == HEADER_BYTES && |data| % 2 == 0
    requires Reads(l, 1, bs) && bs == head + data + [cc]
    ensures Words(l, 9, |data|) == Some(WordsRead(LEWords(data), Sum(data)))
  {
    ReadsDrop(l, 1, bs, 4);
    assert bs[4..][..|data|] == data;
    ReadsTake(l, 9, bs[4..], |data|);
    WordsOfRead(l, 9, data);
  }

  lemma DataRead(l: string, bs: seq<int>, head: seq<int>, data: seq<int>, cc: int,
                 address: int, ws: seq<int>, hs: int, sum: int)
    requires |head| == HEADER_BYTES && head[0] == |data| && head[3] == 0 && |data| % 2 == 0
    requires |l| >= 11 && l[0] == ':' && Reads(l, 1, bs) && bs == head + data + [cc]
    requires address == 256 * head[1] + head[2]
    requires ws == LEWords(data) && hs == Sum(head) && sum == Sum(data)
    ensures ParseLine(l) == Parsed(address, ws, (hs + sum + cc) % 256, None)
  {
    DataFields(l, bs, head, data, cc, ws, sum);
    DataLineOf(l, head, ws, hs, sum, cc);
  }

  /** A line whose reader takes the bytes of a whole record, after its ':' mark. */
  predicate ReadsRecord(l: string, bs: seq<int>)
  {
    |l| >= 1 + 2 * |bs| && l[0] == ':' && Reads(l, 1, bs)
  }

  /**
   * A line that reads as the bytes `bs` of a type-0 record (length, address
   * high and low byte, type, data, checksum) is taken as the record's
   * address, its data as little-endian words, and its byte sum modulo 256.
   */
  lemma DataLineRead(l: string, bs: seq<int>)
    requires 5 <= |bs| && bs[0] == |bs| - 5 && bs[3] == 0 && bs[0] % 2 == 0
    requires ReadsRecord(l, bs)
    ensures ParseLine(l) == Parsed(256 * bs[1] + bs[2], LEWords(bs[4..|bs| - 1]), Sum(bs) % 256, None)
  {
    RecordParts(bs);
    SameMod(Sum(bs[..4]) + Sum(bs[4..|bs| - 1]) + bs[|bs| - 1], Sum(bs));
    DataRead(l, bs, bs[..4], bs[4..|bs| - 1], bs[|bs| - 1], 256 * bs[1] + bs[2],
      LEWords(bs[4..|bs| - 1]), Sum(bs[..4]), Sum(bs[4..|bs| - 1]));
  }

  /** A record's bytes are its header, its data and its checksum byte. */
  lemma RecordParts(bs: seq<int>)
    requires 5 <= |bs|
    ensures bs == bs[..4] + bs[4..|bs| - 1] + [bs[|bs| - 1]]
    ensures bs[..4][0] == bs[0] && bs[..4][1] == bs[1] && bs[..4][2] == bs[2] && bs[..4][3] == bs[3]
    ensures Sum(bs[..4]) + Sum(bs[4..|bs| - 1]) + bs[|bs| - 1] == Sum(bs)
  {
    var n := |bs|;
    var head, data, last := bs[..4], bs[4..n - 1], bs[n - 1];
    var body := bs[..n - 1];
    assert bs == body + [last] by {
      assert forall i :: 0 <= i < n ==> bs[i] == (body + [last])[i];
    }
    assert body == head + data by {
      assert forall i :: 0 <= i < n - 1 ==> body[i] == (head + data)[i];
    }
    SumConcat(body, [last]);
    SumConcat(head, data);
    assert Sum([last]) == last;
  }

  /** A type-3 line once its header, start fields and checksum byte are known. */
  lemma StartLineOf(l: string, h: seq<int>, e: seq<int>, hs: int, es: int, c: int, segment: int, start: int)
    requires |l| >= 11 && l[0] == ':' && Bytes(l, 1, HEADER_BYTES) == Some(h) && h[3] == 3
    requires Bytes(l, 9, START_BYTES) == Some(e) && ByteAt(l, 17) == Some(c)
    requires hs == Sum(h) && es == Sum(e) && segment == 256 * e[0] + e[1] && start == 256 * e[2] + e[3]
    ensures ParseLine(l) == Parsed(start, [], (hs + es + c) % 256, Some(Start(segment, start)))
  {
    StartBodyOf(l, h, e, hs, es, c, segment, start);
    assert ParseLine(l) == Body(l, h);
  }

  lemma StartBodyOf(l: string, h: seq<int>, e: seq<int>, hs: int, es: int, c: int, segment: int, start: int)
    requires |h| == HEADER_BYTES && h[3] == 3
    requires Bytes(l, 9, START_BYTES) == Some(e) && ByteAt(l, 17) == Some(c)
    requires hs == Sum(h) && es == Sum(e) && segment == 256 * e[0] + e[1] && start == 256 * e[2] + e[3]
    ensures Body(l, h) == Parsed(start, [], (hs + es + c) % 256, Some(Start(segment, start)))
  {
    assert Body(l, h) == StartBody(l, h);
  }

  lemma StartFields(l: string, bs: seq<int>)
    requires |bs| == 9 && Reads(l, 1, bs)
    ensures Bytes(l, 1, HEADER_BYTES) == Some(bs[..4])
    ensures Bytes(l, 9, START_BYTES) == Some(bs[4..8])
    ensures ByteAt(l, 17) == Some(bs[8])
  {
    ReadsFour(l, 1, bs);
    ReadsDrop(l, 1, bs, 4);
    ReadsFour(l, 9, bs[4..]);
    assert bs[4..][..4] == bs[4..8];
    ReadsAt(l, 1, bs, 8);
  }

  /** A start record's bytes are its header, its four start bytes and its checksum byte. */
  lemma StartParts(bs: seq<int>)
    requires |bs| == 9
    ensures bs[..4][3] == bs[3]
    ensures bs[4..8][0] == bs[4] && bs[4..8][1] == bs[5] && bs[4..8][2] == bs[6] && bs[4..8][3] == bs[7]
    ensures Sum(bs[..4]) + Sum(bs[4..8]) + bs[8] == Sum(bs)
  {
    assert bs == bs[..4] + bs[4..8] + [bs[8]];
    SumConcat(bs[..4] + bs[4..8], [bs[8]]);
    SumConcat(bs[..4], bs[4..8]);
    assert Sum([bs[8]]) == bs[8];
  }

  /**
   * A line that reads as the nine bytes of a type-3 record is taken as its
   * segment and start address, the start also standing for the line's
   * address; the record's own address field and length field play no part.
   */
  lemma StartLineRead(l: string, bs: seq<int>)
    requires |bs| == 9 && bs[3] == 3 && ReadsRecord(l, bs)
    ensures ParseLine(l) == Parsed(256 * bs[6] + bs[7], [], Sum(bs) % 256, Some(Start(256 * bs[4] + bs[5], 256 * bs[6] + bs[7])))
  {
    StartParts(bs);
    StartFields(l, bs);
    SameMod(Sum(bs[..4]) + Sum(bs[4..8]) + bs[8], Sum(bs));
    StartLineOf(l, bs[..4], bs[4..8], Sum(bs[..4]), Sum(bs[4..8]), bs[8], 256 * bs[4] + bs[5], 256 * bs[6] + bs[7]);
  }

  /** Any other record type: the address is kept, the data is skipped and its first byte taken as the checksum. */
  lemma OtherLineRead(l: string, bs: seq<int>)
    requires 5 <= |bs| && bs[3] != 0 && bs[3] != 3 && ReadsRecord(l, bs)
    ensures ParseLine(l) == Parsed(256 * bs[1] + bs[2], [], Sum(bs[..5]) % 256, None)
  {
    ReadsFour(l, 1, bs);
    ReadsAt(l, 1, bs, 4);
    OtherParts(bs);
    SameMod(Sum(bs[..4]) + bs[4], Sum(bs[..5]));
    OtherLineOf(l, bs[..4], Sum(bs[..4]), bs[4], 256 * bs[1] + bs[2]);
  }

  lemma OtherLineOf(l: string, h: seq<int>, hs: int, c: int, address: int)
    requires |l| >= 11 && l[0] == ':' && Bytes(l, 1, HEADER_BYTES) == Some(h) && h[3] != 0 && h[3] != 3
    requires ByteAt(l, 9) == Some(c) && hs == Sum(h) && address == 256 * h[1] + h[2]
    ensures ParseLine(l) == Parsed(address, [], (hs + c) % 256, None)
  {
    OtherBodyOf(l, h, hs, c, address);
    assert ParseLine(l) == Body(l, h);
  }

  lemma OtherBodyOf(l: string, h: seq<int>, hs: int, c: int, address: int)
    requires |h| == HEADER_BYTES && h[3] != 0 && h[3] != 3
    requires ByteAt(l, 9) == Some(c) && hs == Sum(h) && address == 256 * h[1] + h[2]
    ensures Body(l, h) == Parsed(address, [], (hs + c) % 256, None)
  {
    assert Body(l, h) == OtherBody(l, h);
  }

  lemma OtherParts(bs: seq<int>)
    requires 5 <= |bs|
    ensures bs[..4][1] == bs[1] && bs[..4][2] == bs[2] && bs[..4][3] == bs[3]
    ensures Sum(bs[..4]) + bs[4] == Sum(bs[..5])
  {
    assert bs[..5] == bs[..4] + [bs[4]];
    SumConcat(bs[..4], [bs[4]]);
    assert Sum([bs[4]]) == bs[4];
  }

  // Records as the format writes them

  /** A record's text is read back as the record's bytes. */
  lemma RecordReads(address: word, recordType: byte, data: seq<byte>, cc: byte, rest: string)
    requires |data| < 256
    ensures ReadsRecord(Record(address, recordType, data, cc) + rest, RecordBytes(address, recordType, data, cc))
  {
    var bs := RecordBytes(address, recordType, data, cc);
    var l := Record(address, recordType, data, cc) + rest;
    RecordIsHexOfBytes(address, recordType, data, cc);
    assert l == ":" + HexOf(bs) + rest;
    assert l[1..1 + 2 * |bs|] == HexOf(bs);
    SpellsReads(l, 1, bs);
  }

  /** The fields of a record's bytes. */
  lemma RecordBytesFields(address: word, recordType: byte, data: seq<byte>, cc: byte)
    requires |data| < 256
    ensures var bs := RecordBytes(address, recordType, data, cc);
      |bs| == |data| + 5 && bs[0] == |data| && 256 * (bs[1] as int) + bs[2] == address && bs[3] == recordType &&
      bs[4..|bs| - 1] == data
  {
    var bs := RecordBytes(address, recordType, data, cc);
    assert bs[4..|bs| - 1] == data;
    HiLo(address);
  }

  /** A 16-bit address is its high byte times 256 plus its low byte. */
  lemma HiLo(address: word)
    ensures 256 * HiByte(address) + LoByte(address) == address
  {
  }

  lemma DataLineNamed(l: string, bs: seq<int>, address: int, words: seq<int>, checksum: int)
    requires 5 <= |bs| && bs[0] == |bs| - 5 && bs[3] == 0 && bs[0] % 2 == 0 && ReadsRecord(l, bs)
    requires address == 256 * bs[1] + bs[2] && words == LEWords(bs[4..|bs| - 1]) && checksum == Sum(bs) % 256
    ensures ParseLine(l) == Parsed(address, words, checksum, None)
  {
    DataLineRead(l, bs);
  }

  /**
   * A type-0 record of even length, whatever its checksum byte, is read as
   * its address, its data as little-endian words, and the byte sum of the
   * whole record modulo 256 as the checksum.
   */
  lemma DataRecordRead(address: word, data: seq<byte>, cc: byte, rest: string)
    requires |data| < 256 && |data| % 2 == 0
    ensures ParseLine(Record(address, 0, data, cc) + rest)
      == Parsed(address, LEWords(data), Sum(RecordBytes(address, 0, data, cc)) % 256, None)
  {
    RecordBytesFields(address, 0, data, cc);
    RecordReads(address, 0, data, cc, rest);
    DataLineNamed(Record(address, 0, data, cc) + rest, RecordBytes(address, 0, data, cc),
      address, LEWords(data), Sum(RecordBytes(address, 0, data, cc)) % 256);
  }

  /** The checksum the reader returns is 0 exactly when the record carries the format's checksum. */
  lemma DataRecordChecksum(address: word, data: seq<byte>, cc: byte, rest: string)
    requires |data| < 256 && |data| % 2 == 0
    ensures var r := ParseLine(Record(address, 0, data, cc) + rest);
      r.Parsed? && (r.checksum == 0 <==> cc == IntelChecksum(address, 0, data))
  {
    DataRecordRead(address, data, cc, rest);
    ChecksumZeroesSum(address, 0, data, cc);
  }

  // ---------------------------------------------------------------------
  // Whole files

  /** The words of the records among `ps`, in order. */
  function WordsOf(ps: seq<Parse>): seq<int>
    decreases |ps|
  {
    if |ps| == 0 then []
    else (if ps[0].Parsed? then ps[0].words else []) + WordsOf(ps[1..])
  }

  /** The first line from i on that is not a record, or |ps| if there is none. */
  function StopAt(ps: seq<Parse>, i: nat): (j: nat)
    requires i <= |ps|
    ensures i <= j <= |ps| && (j < |ps| ==> !ps[j].Parsed?)
    ensures forall k :: i <= k < j ==> ps[k].Parsed?
    decreases |ps| - i
  {
    if i == |ps| || !ps[i].Parsed? then i else StopAt(ps, i + 1)
  }

  /**
   * `readlines` succeeds exactly when the first line that is not a record is
   * a None triple (or the file ends first), and then holds the words of the
   * records before that line, in file order.
   */
  lemma {:induction false} ReadAllUntilStop(ps: seq<Parse>, i: nat, start: int, segment: int)
    requires i <= |ps|
    ensures var r, j := ReadAll(ps, i, start, segment), StopAt(ps, i);
      (r.Some? <==> j == |ps| || ps[j].NoLine?) && (r.Some? ==> r.value.words == WordsOf(ps[i..j]))
    decreases |ps| - i
  {
    if i < |ps| && ps[i].Parsed? {
      var (st, sg) := After(ps[i], start, segment);
      ReadAllUntilStop(ps, i + 1, st, sg);
      var j := StopAt(ps, i + 1);
      assert ps[i..j][0] == ps[i];
      assert ps[i..j][1..] == ps[i + 1..j];
    }
  }

  /** Nothing after a None triple is read, not even a line that would raise. */
  lemma {:induction false} ReadAllIgnoresRest(ps: seq<Parse>, qs: seq<Parse>, i: nat, start: int, segment: int)
    requires i <= |ps|
    ensures ReadAll(ps + [NoLine] + qs, i, start, segment) == ReadAll(ps, i, start, segment)
    decreases |ps| - i
  {
    var all := ps + [NoLine] + qs;
    if i == |ps| {
      assert all[i] == NoLine;
    } else {
      assert all[i] == ps[i];
      var (st, sg) := After(ps[i], start, segment);
      ReadAllIgnoresRest(ps, qs, i + 1, st, sg);
    }
  }

  /** A line's result with its checksum blanked out. */
  function Unchecked(p: Parse): Parse
  {
    if p.Parsed? then p.(checksum := 0) else p
  }

  /** The checksum of a line never changes what `readlines` collects. */
  lemma {:induction false} ReadAllIgnoresChecksums(ps: seq<Parse>, qs: seq<Parse>, i: nat, start: int, segment: int)
    requires |ps| == |qs| && forall k :: 0 <= k < |ps| ==> Unchecked(ps[k]) == Unchecked(qs[k])
    ensures ReadAll(ps, i, start, segment) == ReadAll(qs, i, start, segment)
    decreases |ps| - i
  {
    if i < |ps| {
      assert Unchecked(ps[i]) == Unchecked(qs[i]);
      if ps[i].Parsed? {
        var (st, sg) := After(ps[i], start, segment);
        assert After(qs[i], start, segment) == (st, sg);
        ReadAllIgnoresChecksums(ps, qs, i + 1, st, sg);
      }
    }
  }

  /** A type-0 record as it appears on a line, with any checksum byte and any text after it. */
  datatype DataRecord = DataRecord(address: word, data: seq<byte>, cc: byte, rest: string)

  predicate IsDataRecord(d: DataRecord)
  {
    |d.data| < 256 && |d.data| % 2 == 0
  }

  predicate AllDataRecords(ds: seq<DataRecord>)
  {
    forall k :: 0 <= k < |ds| ==> IsDataRecord(ds[k])
  }

  function RecordLine(d: DataRecord): string
    requires IsDataRecord(d)
  {
    Record(d.address, 0, d.data, d.cc) + d.rest
  }

  /** A file of data records, one per line. */
  function DataLines(ds: seq<DataRecord>): (lines: seq<string>)
    requires AllDataRecords(ds)
    ensures |lines| == |ds|
  {
    seq(|ds|, k requires 0 <= k < |ds| => RecordLine(ds[k]))
  }

  /** The little-endian words of the records' data, in file order. */
  function RecordWords(ds: seq<DataRecord>): seq<int>
    requires AllDataRecords(ds)
    decreases |ds|
  {
    if |ds| == 0 then [] else LEWords(ds[0].data) + RecordWords(ds[1..])
  }

  lemma {:induction false} DataRecordsLoad(ds: seq<DataRecord>, ps: seq<Parse>, i: nat, start: int, segment: int)
    requires AllDataRecords(ds) && |ps| == |ds| && i <= |ds|
    requires forall k :: 0 <= k < |ds| ==> ps[k] == ParseLine(RecordLine(ds[k]))
    ensures ReadAll(ps, i, start, segment) == Some(Loaded(RecordWords(ds[i..]), start, segment))
    decreases |ds| - i
  {
    if i < |ds| {
      var d := ds[i];
      DataRecordRead(d.address, d.data, d.cc, d.rest);
      assert ps[i] == Parsed(d.address, LEWords(d.data), Sum(RecordBytes(d.address, 0, d.data, d.cc)) % 256, None);
      DataRecordsLoad(ds, ps, i + 1, start, segment);
      assert ds[i..][0] == d;
      assert ds[i..][1..] == ds[i + 1..];
    } else {
      assert ds[i..] == [];
    }
  }

  /**
   * A file of data records loads the words of all of them, in order, whatever
   * their checksum bytes, and leaves the start address as it was.
   */
  lemma DataFileLoads(ds: seq<DataRecord>, start: int, segment: int)
    requires AllDataRecords(ds)
    ensures ReadAll(Parses(DataLines(ds)), 0, start, segment) == Some(Loaded(RecordWords(ds), start, segment))
  {
    var ps := Parses(DataLines(ds));
    DataRecordsLoad(ds, ps, 0, start, segment);
    assert ds[0..] == ds;
  }
}
