// The bootloader size calculator (firmware/CalculateSize.py): it scans the
// lines of the size report for the last "Total <n>" line, then places the
// bootloader at the top of an 8 KiB device with 64-byte pages and of a
// 16 KiB device with 128-byte pages, whole pages at a time.  The printed
// text is left out; the numbers it prints are modelled.

module CalcSize {
  import opened Common

  /** The `POSTSCRIPT_SIZE` the free space leaves room for. */
  const POSTSCRIPT_SIZE: int := 6

  // ---------------------------------------------------------------------
  // Python's str.split() and int()

  /** The ASCII characters `str.split()` separates on. */
  predicate PySpace(c: char)
  {
    c == ' ' || (9 <= c as int <= 13) || (28 <= c as int <= 31)
  }

  /** The length of the leading run of characters that are not white space. */
  function WordLength(s: string): (n: nat)
    ensures n <= |s| && (n < |s| ==> PySpace(s[n]))
    ensures forall i :: 0 <= i < n ==> !PySpace(s[i])
  {
    if |s| > 0 && !PySpace(s[0]) then 1 + WordLength(s[1..]) else 0
  }

  /** `s.split()`: the maximal runs of characters that are not white space, in order. */
  function Split(s: string): (ws: seq<string>)
    decreases |s|
  {
    if |s| == 0 then []
    else if PySpace(s[0]) then Split(s[1..])
    else
      var n := WordLength(s);
      [s[..n]] + Split(s[n..])
  }

  predicate IsDigit(c: char)
  {
    '0' <= c <= '9'
  }

  /** Decimal digits with single underscores between them, as `int()` takes them. */
  predicate DigitGroups(d: string)
  {
    && |d| > 0 && IsDigit(d[0]) && IsDigit(d[|d| - 1])
    && (forall i :: 0 <= i < |d| ==> IsDigit(d[i]) || d[i] == '_')
    && (forall i :: 0 <= i < |d| - 1 ==> d[i] == '_' ==> d[i + 1] != '_')
  }

  /** The value of the digits, the underscores skipped. */
  function DecimalValue(d: string): nat
  {
    if |d| == 0 then 0
    else if IsDigit(d[|d| - 1]) then 10 * DecimalValue(d[..|d| - 1]) + (d[|d| - 1] as int - '0' as int)
    else DecimalValue(d[..|d| - 1])
  }

  /** `int(t)` on a word without white space; None where Python raises ValueError. */
  function PyInt(t: string): (r: Option<int>)
  {
    var neg := |t| > 0 && t[0] == '-';
    var d := if |t| > 0 && (t[0] == '-' || t[0] == '+') then t[1..] else t;
    if !DigitGroups(d) then None
    else if neg then Some(-(DecimalValue(d) as int))
    else Some(DecimalValue(d))
  }

  // ---------------------------------------------------------------------
  // The scan of the report

  /** One line: the count if its first word is "Total" and its second parses;
      None where the line leaves `codesize` as it was (a missing word, or an
      exception, is caught by the bare `except`). */
  function LineValue(line: string): Option<int>
  {
    var ws := Split(line);
    if |ws| >= 2 && ws[0] == "Total" then PyInt(ws[1]) else None
  }

  /** `codesize` after the loop over `lines`. */
  function CodeSize(lines: seq<string>): int
  {
    if |lines| == 0 then 0
    else
      match LineValue(lines[|lines| - 1])
      case Some(v) => v
      case None => CodeSize(lines[..|lines| - 1])
  }

  /** The loop over `sys.stdin.readlines()`. */
  method ScanReport(lines: seq<string>) returns (codesize: int)
    ensures codesize == CodeSize(lines)
  {
    codesize := 0;
    var i := 0;
    while i < |lines|
      invariant 0 <= i <= |lines|
      invariant codesize == CodeSize(lines[..i])
    {
      var splitline := Split(lines[i]);
      if |splitline| >= 1 && splitline[0] == "Total" && |splitline| >= 2 {
        var v := PyInt(splitline[1]);
        if v.Some? {
          codesize := v.value;
        }
      }
      assert lines[..i + 1][..i] == lines[..i];
      i := i + 1;
    }
    assert lines[..i] == lines;
  }

  // ---------------------------------------------------------------------
  // printmnsize

  /** `math.ceil(a / b)` for a positive b, on exact rationals. */
  function PyCeilDiv(a: int, b: int): (q: int)
    requires b > 0
    ensures q * b >= a && (q - 1) * b < a
  {
    -((-a) / b)
  }

  /** The numbers `printmnsize` prints. */
  datatype Layout = Layout(pages: int, bootstart: int, freespace: int)

  function MnSize(codesize: int, pagesize: int, memsize: int): (l: Layout)
    requires pagesize > 0
  {
    var pages := PyCeilDiv(codesize, pagesize);
    Layout(pages, memsize - pages * pagesize, memsize - pages * pagesize - POSTSCRIPT_SIZE)
  }

  /**
   * The bootloader takes whole pages, as few as hold the code; it sits right
   * below the end of memory; the free space leaves the postscript out.
   */
  lemma MnSizeLayout(codesize: int, pagesize: int, memsize: int)
    requires pagesize > 0
    ensures var l := MnSize(codesize, pagesize, memsize);
      l.pages * pagesize >= codesize && (l.pages - 1) * pagesize < codesize &&
      l.bootstart + l.pages * pagesize == memsize &&
      l.freespace == l.bootstart - POSTSCRIPT_SIZE &&
      (codesize > 0 ==> l.pages >= 1 && l.bootstart <= memsize - pagesize)
  {
    var l := MnSize(codesize, pagesize, memsize);
    if codesize > 0 {
      NonPositiveProduct(l.pages, pagesize);
      assert l.pages * pagesize >= pagesize;
    }
  }

  lemma NonPositiveProduct(q: int, b: int)
    requires b > 0
    ensures q < 1 ==> q * b <= 0
  {
  }

  /** What the script reports: nothing when no count was found, otherwise the 8 KiB and the 16 KiB layouts. */
  function Report(lines: seq<string>): Option<(Layout, Layout)>
  {
    var c := CodeSize(lines);
    if c == 0 then None else Some((MnSize(c, 64, 8192), MnSize(c, 128, 16384)))
  }

  /** The script from its input lines to the numbers it prints. */
  method Script(lines: seq<string>) returns (report: Option<(Layout, Layout)>)
    ensures report == Report(lines)
  {
    var codesize := ScanReport(lines);
    if codesize == 0 {
      return None;
    }
    var small := MnSize(codesize, 64, 8192);
    var large := MnSize(codesize, 128, 16384);
    report := Some((small, large));
  }

  // ---------------------------------------------------------------------
  // Properties of the scan

  /** The words of a line are non-empty and hold no white space. */
  lemma {:induction false} SplitWords(s: string)
    ensures forall k :: 0 <= k < |Split(s)| ==> |Split(s)[k]| > 0
    ensures forall k, i :: 0 <= k < |Split(s)| && 0 <= i < |Split(s)[k]| ==> !PySpace(Split(s)[k][i])
    decreases |s|
  {
    if |s| > 0 {
      if PySpace(s[0]) {
        SplitWords(s[1..]);
      } else {
        var n := WordLength(s);
        SplitWords(s[n..]);
        var ws := Split(s);
        assert ws == [s[..n]] + Split(s[n..]);
        forall k | 0 <= k < |ws| ensures |ws[k]| > 0 && forall i :: 0 <= i < |ws[k]| ==> !PySpace(ws[k][i]) {
          if k > 0 {
            assert ws[k] == Split(s[n..])[k - 1];
          }
        }
      }
    }
  }

  /** The count is that of the last line that gives one. */
  lemma {:induction false} LastTotalWins(lines: seq<string>, i: nat)
    requires i < |lines| && LineValue(lines[i]).Some?
    requires forall j :: i < j < |lines| ==> LineValue(lines[j]).None?
    ensures CodeSize(lines) == LineValue(lines[i]).value
    decreases |lines|
  {
    if i < |lines| - 1 {
      var init := lines[..|lines| - 1];
      forall j | i < j < |init| ensures LineValue(init[j]).None? {
        assert init[j] == lines[j];
      }
      LastTotalWins(init, i);
    }
  }

  /** Without a line that gives a count the script reports that none was found. */
  lemma {:induction false} NoTotalNoReport(lines: seq<string>)
    requires forall j :: 0 <= j < |lines| ==> LineValue(lines[j]).None?
    ensures CodeSize(lines) == 0 && Report(lines).None?
    decreases |lines|
  {
    if |lines| > 0 {
      var init := lines[..|lines| - 1];
      forall j | 0 <= j < |init| ensures LineValue(init[j]).None? {
        assert init[j] == lines[j];
      }
      NoTotalNoReport(init);
    }
  }

  /** Lines appended after the last count do not change it. */
  lemma {:induction false} LaterLinesIgnored(lines: seq<string>, rest: seq<string>)
    requires forall j :: 0 <= j < |rest| ==> LineValue(rest[j]).None?
    ensures CodeSize(lines + rest) == CodeSize(lines)
    decreases |rest|
  {
    if |rest| > 0 {
      var init := rest[..|rest| - 1];
      assert (lines + rest)[..|lines + rest| - 1] == lines + init;
      forall j | 0 <= j < |init| ensures LineValue(init[j]).None? {
        assert init[j] == rest[j];
      }
      LaterLinesIgnored(lines, init);
    } else {
      assert lines + rest == lines;
    }
  }
}
