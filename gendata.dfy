// The Ruby bootloader-data generator (upgrade/generate-data.rb): it takes the
// byte image of a hex file (`HexProgram#bytes`, unwritten addresses 0xFF),
// drops the leading 0xFF bytes and remembers how many there were as the
// install address, pads the rest with 0xFF to an even length, and packs each
// pair of bytes into one little-endian 16-bit word.

module GenData {
  import opened Common

  /** The erased-flash value the generator trims and pads with. */
  const BLANK: int := 0xFF

  // ---------------------------------------------------------------------
  // Specification

  /** The number of leading 0xFF entries: the install address. */
  function LeadingBlanks(data: seq<int>): (n: nat)
    ensures n <= |data|
    ensures forall i :: 0 <= i < n ==> data[i] == BLANK
    ensures n == |data| || data[n] != BLANK
    decreases |data|
  {
    if |data| > 0 && data[0] == BLANK then 1 + LeadingBlanks(data[1..]) else 0
  }

  /** The data with 0xFF appended while its length is odd. */
  function Padded(data: seq<int>): seq<int>
  {
    if |data| % 2 != 0 then data + [BLANK] else data
  }

  /** `each_slice(2).map { |a, b| b * 256 + a }` on an even-length array. */
  function PackWords(data: seq<int>): (ws: seq<int>)
    requires |data| % 2 == 0
    ensures |ws| == |data| / 2
    decreases |data|
  {
    if |data| == 0 then [] else [data[1] * 256 + data[0]] + PackWords(data[2..])
  }

  /** The bytes of a word array, low byte first: the reference reading of `PackWords`. */
  function UnpackWords(ws: seq<int>): (bs: seq<int>)
    ensures |bs| == 2 * |ws|
    decreases |ws|
  {
    if |ws| == 0 then [] else [ws[0] % 256, ws[0] / 256] + UnpackWords(ws[1..])
  }

  /** What the script writes: the install address and the words. */
  datatype Output = Output(address: nat, words: seq<int>)

  function Generated(data: seq<int>): Output
  {
    var n := LeadingBlanks(data);
    Output(n, PackWords(Padded(data[n..])))
  }

  predicate AllBytes(data: seq<int>)
  {
    forall i :: 0 <= i < |data| ==> 0 <= data[i] < 256
  }

  /** The entries that are not 0xFF, in order. */
  function NonBlank(data: seq<int>): (r: seq<int>)
    ensures |r| <= |data|
    decreases |data|
  {
    if |data| == 0 then []
    else (if data[0] == BLANK then [] else [data[0]]) + NonBlank(data[1..])
  }

  // ---------------------------------------------------------------------
  // The script's loops

  /** `start_address += 1 while data[start_address] == 0xFF`; past the end `data[i]` is nil. */
  method FindStart(data: seq<int>) returns (start: nat)
    ensures start == LeadingBlanks(data)
  {
    start := 0;
    while start < |data| && data[start] == BLANK
      invariant start <= |data|
      invariant LeadingBlanks(data) == start + LeadingBlanks(data[start..])
    {
      assert data[start..][1..] == data[start + 1..];
      start := start + 1;
    }
  }

  /** `start_address.times { data.shift }`. */
  method Trim(data: seq<int>, start: nat) returns (trimmed: seq<int>)
    ensures trimmed == if start <= |data| then data[start..] else []
  {
    trimmed := data;
    var i := 0;
    while i < start
      invariant i <= start
      invariant trimmed == if i <= |data| then data[i..] else []
    {
      if |trimmed| > 0 {
        trimmed := trimmed[1..];
      }
      i := i + 1;
    }
  }

  /** `data.push 0xFF while (data.length % 2) != 0`. */
  method Pad(data: seq<int>) returns (padded: seq<int>)
    ensures padded == Padded(data)
  {
    padded := data;
    while |padded| % 2 != 0
      invariant padded == data || (|data| % 2 != 0 && padded == data + [BLANK])
      decreases |padded| % 2
    {
      padded := padded + [BLANK];
    }
  }

  /** The whole script, from the image to the address and words it writes out. */
  method Generate(data: seq<int>) returns (out: Output)
    ensures out == Generated(data)
  {
    var start := FindStart(data);
    var trimmed := Trim(data, start);
    var padded := Pad(trimmed);
    out := Output(start, PackWords(padded));
  }

  // ---------------------------------------------------------------------
  // Properties

  /** Padding makes the length even, keeps the data as a prefix and appends only 0xFF, at most once. */
  lemma PaddedShape(data: seq<int>)
    ensures var p := Padded(data);
      |p| % 2 == 0 && p[..|data|] == data && |p| - |data| <= 1 &&
      forall i :: |data| <= i < |p| ==> p[i] == BLANK
  {
  }

  /** Word k is the byte pair at 2k and 2k+1, the second byte the high one. */
  lemma {:induction false} PackWordsAt(data: seq<int>, k: nat)
    requires |data| % 2 == 0 && k < |data| / 2
    ensures PackWords(data)[k] == data[2 * k + 1] * 256 + data[2 * k]
    decreases k
  {
    if k > 0 {
      PackWordsAt(data[2..], k - 1);
      assert data[2..][2 * (k - 1)] == data[2 * k];
      assert data[2..][2 * (k - 1) + 1] == data[2 * k + 1];
    }
  }

  /** Bytes pack into 16-bit words. */
  lemma {:induction false} PackWordsBound(data: seq<int>)
    requires |data| % 2 == 0 && AllBytes(data)
    ensures forall k :: 0 <= k < |PackWords(data)| ==> 0 <= PackWords(data)[k] < 65536
    decreases |data|
  {
    if |data| > 0 {
      assert AllBytes(data[2..]) by {
        forall i | 0 <= i < |data[2..]| ensures 0 <= data[2..][i] < 256 {
          assert data[2..][i] == data[i + 2];
        }
      }
      PackWordsBound(data[2..]);
      var ws := PackWords(data);
      assert ws == [data[1] * 256 + data[0]] + PackWords(data[2..]);
      forall k | 0 <= k < |ws| ensures 0 <= ws[k] < 65536 {
        if k > 0 {
          assert ws[k] == PackWords(data[2..])[k - 1];
        }
      }
    }
  }

  /** Reading the words back low byte first gives the bytes again. */
  lemma {:induction false} UnpackPack(data: seq<int>)
    requires |data| % 2 == 0 && AllBytes(data)
    ensures UnpackWords(PackWords(data)) == data
    decreases |data|
  {
    if |data| > 0 {
      assert AllBytes(data[2..]) by {
        forall i | 0 <= i < |data[2..]| ensures 0 <= data[2..][i] < 256 {
          assert data[2..][i] == data[i + 2];
        }
      }
      UnpackPack(data[2..]);
      var w := data[1] * 256 + data[0];
      assert PackWords(data) == [w] + PackWords(data[2..]);
      assert w % 256 == data[0] && w / 256 == data[1];
      assert data == [data[0], data[1]] + data[2..];
    }
  }

  lemma {:induction false} NonBlankConcat(a: seq<int>, b: seq<int>)
    ensures NonBlank(a + b) == NonBlank(a) + NonBlank(b)
    decreases |a|
  {
    if |a| == 0 {
      assert a + b == b;
    } else {
      var h := if a[0] == BLANK then [] else [a[0]];
      assert (a + b)[0] == a[0];
      assert (a + b)[1..] == a[1..] + b;
      assert NonBlank(a + b) == h + NonBlank(a[1..] + b);
      NonBlankConcat(a[1..], b);
      assert h + (NonBlank(a[1..]) + NonBlank(b)) == (h + NonBlank(a[1..])) + NonBlank(b);
    }
  }

  lemma {:induction false} NonBlankOfBlanks(data: seq<int>)
    requires forall i :: 0 <= i < |data| ==> data[i] == BLANK
    ensures NonBlank(data) == []
    decreases |data|
  {
    if |data| > 0 {
      NonBlankOfBlanks(data[1..]);
    }
  }

  /**
   * The words hold the image's bytes from the install address on, in order,
   * followed by at most one 0xFF; the address counts the 0xFF bytes dropped.
   */
  lemma GeneratedLayout(data: seq<int>)
    requires AllBytes(data)
    ensures var out := Generated(data);
      var n := out.address;
      var bs := UnpackWords(out.words);
      n <= |data| && (forall i :: 0 <= i < n ==> data[i] == BLANK) && (n == |data| || data[n] != BLANK) &&
      bs[..|data| - n] == data[n..] && |bs| - (|data| - n) <= 1 &&
      (forall i :: |data| - n <= i < |bs| ==> bs[i] == BLANK) &&
      |out.words| == (|data| - n + 1) / 2
  {
    var n := LeadingBlanks(data);
    PaddedShape(data[n..]);
    GeneratedBytes(data);
  }

  /** The words unpack to the trimmed and padded image. */
  lemma GeneratedBytes(data: seq<int>)
    requires AllBytes(data)
    ensures UnpackWords(Generated(data).words) == Padded(data[LeadingBlanks(data)..])
  {
    var n := LeadingBlanks(data);
    var p := Padded(data[n..]);
    PaddedShape(data[n..]);
    assert AllBytes(p) by {
      forall i | 0 <= i < |p| ensures 0 <= p[i] < 256 {
        if i < |data| - n {
          assert p[i] == p[..|data| - n][i] == data[n + i];
        }
      }
    }
    UnpackPack(p);
  }

  /** The entries that are not 0xFF reach the words unchanged and in order. */
  lemma NonBlankKept(data: seq<int>)
    requires AllBytes(data)
    ensures NonBlank(UnpackWords(Generated(data).words)) == NonBlank(data)
  {
    var n := LeadingBlanks(data);
    var rest := data[n..];
    var p := Padded(rest);
    GeneratedBytes(data);
    assert data == data[..n] + rest;
    NonBlankConcat(data[..n], rest);
    NonBlankOfBlanks(data[..n]);
    if |rest| % 2 != 0 {
      NonBlankConcat(rest, [BLANK]);
      assert NonBlank([BLANK]) == [];
    }
  }
}
