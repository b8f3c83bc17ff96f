// Intel HEX records as the format writes them (Intel Hexadecimal Object
// File Format Specification, Rev. A): `:LLAAAATT<data>CC`, every field as
// two-digit upper-case hexadecimal, and the checksum that makes the byte
// sum of the record 0 modulo 256. The readers in the other modules are
// checked against these records.
module IntelHex {
  import opened Common

  function Sum(xs: seq<int>): int
  {
    if |xs| == 0 then 0 else xs[0] + Sum(xs[1..])
  }

  lemma {:induction false} SumConcat(a: seq<int>, b: seq<int>)
    ensures Sum(a + b) == Sum(a) + Sum(b)
  {
    if |a| == 0 {
      assert a + b == b;
    } else {
      assert (a + b)[1..] == a[1..] + b;
      SumConcat(a[1..], b);
    }
  }

  lemma SumSnoc(xs: seq<int>, x: int)
    ensures Sum(xs + [x]) == Sum(xs) + x
  {
    SumConcat(xs, [x]);
    assert Sum([x]) == x;
  }

  lemma Sum4(a: int, b: int, c: int, d: int)
    ensures Sum([a, b, c, d]) == a + b + c + d
  {
    assert [a, b, c, d][1..] == [b, c, d];
    assert [b, c, d][1..] == [c, d];
    assert [c, d][1..] == [d];
    assert [d][1..] == [];
    assert Sum([d]) == d;
    assert Sum([c, d]) == c + d;
    assert Sum([b, c, d]) == b + c + d;
  }

  function HexOf(data: seq<byte>): (s: string)
    ensures |s| == 2 * |data|
  {
    if |data| == 0 then "" else ByteHex(data[0]) + HexOf(data[1..])
  }

  /** The format's checksum: the two's complement of the low byte of the field sum. */
  function IntelChecksum(address: word, recordType: byte, data: seq<byte>): byte
    requires |data| < 256
  {
    (256 - (|data| + HiByte(address) + LoByte(address) + recordType + Sum(data)) % 256) % 256
  }

  /** `:LLAAAATT<data>CC` with an arbitrary checksum byte `cc`. */
  function Record(address: word, recordType: byte, data: seq<byte>, cc: byte): string
    requires |data| < 256
  {
    ":" + ByteHex(|data|) + ByteHex(HiByte(address)) + ByteHex(LoByte(address)) + ByteHex(recordType) + HexOf(data) + ByteHex(cc)
  }

  /** A record written with the format's checksum, ready for a file. */
  function EncodeRecord(address: word, recordType: byte, data: seq<byte>): string
    requires |data| < 256
  {
    Record(address, recordType, data, IntelChecksum(address, recordType, data)) + "\n"
  }

  /** The bytes a record spells out: length, address high and low, type, data, checksum. */
  function RecordBytes(address: word, recordType: byte, data: seq<byte>, cc: byte): (bs: seq<byte>)
    requires |data| < 256
    ensures |bs| == |data| + 5
  {
    [|data|, HiByte(address), LoByte(address), recordType] + data + [cc]
  }

  lemma {:induction false} HexOfConcat(a: seq<byte>, b: seq<byte>)
    ensures HexOf(a + b) == HexOf(a) + HexOf(b)
  {
    if |a| == 0 {
      assert a + b == b;
    } else {
      assert (a + b)[0] == a[0] && (a + b)[1..] == a[1..] + b;
      HexOfConcat(a[1..], b);
    }
  }

  lemma HexOfOne(b: byte)
    ensures HexOf([b]) == ByteHex(b)
  {
    assert [b][1..] == [];
  }

  lemma HexOf4(a: byte, b: byte, c: byte, d: byte)
    ensures HexOf([a, b, c, d]) == ByteHex(a) + ByteHex(b) + ByteHex(c) + ByteHex(d)
  {
    assert [a, b, c, d][1..] == [b, c, d];
    assert [b, c, d][1..] == [c, d];
    assert [c, d][1..] == [d];
    HexOfOne(d);
    assert HexOf([c, d]) == ByteHex(c) + ByteHex(d);
    assert HexOf([b, c, d]) == ByteHex(b) + ByteHex(c) + ByteHex(d);
  }

  /** A record is its marker followed by the hexadecimal spelling of its bytes. */
  lemma RecordIsHexOfBytes(address: word, recordType: byte, data: seq<byte>, cc: byte)
    requires |data| < 256
    ensures Record(address, recordType, data, cc) == ":" + HexOf(RecordBytes(address, recordType, data, cc))
  {
    var head: seq<byte> := [|data|, HiByte(address), LoByte(address), recordType];
    var h := HexOf(head);
    assert HexOf(head + data + [cc]) == h + HexOf(data) + ByteHex(cc) by {
      HexOfConcat(head + data, [cc]);
      HexOfConcat(head, data);
      HexOfOne(cc);
    }
    HexOf4(|data|, HiByte(address), LoByte(address), recordType);
  }

  /** Byte j of a spelled-out sequence sits at characters 2j and 2j + 1. */
  lemma {:induction false} HexOfAt(bs: seq<byte>, j: nat)
    requires j < |bs|
    ensures HexOf(bs)[2 * j..2 * j + 2] == ByteHex(bs[j])
  {
    if j > 0 {
      HexOfAt(bs[1..], j - 1);
      assert HexOf(bs) == ByteHex(bs[0]) + HexOf(bs[1..]);
      assert HexOf(bs)[2 * j..2 * j + 2] == HexOf(bs[1..])[2 * (j - 1)..2 * (j - 1) + 2];
    }
  }

  /** The byte sum of a record, field by field. */
  lemma RecordSum(address: word, recordType: byte, data: seq<byte>, cc: byte)
    requires |data| < 256
    ensures Sum(RecordBytes(address, recordType, data, cc)) == |data| + HiByte(address) + LoByte(address) + recordType + Sum(data) + cc
  {
    var head: seq<int> := [|data|, HiByte(address), LoByte(address), recordType];
    assert RecordBytes(address, recordType, data, cc) == head + data + [cc];
    SumConcat(head + data, [cc]);
    SumConcat(head, data);
    Sum4(|data|, HiByte(address), LoByte(address), recordType);
    assert Sum([cc]) == cc;
  }

  /** The format's checksum, and no other byte, brings the record's byte sum to 0 modulo 256. */
  lemma ChecksumZeroesSum(address: word, recordType: byte, data: seq<byte>, cc: byte)
    requires |data| < 256
    ensures Sum(RecordBytes(address, recordType, data, cc)) % 256 == 0 <==> cc == IntelChecksum(address, recordType, data)
  {
    RecordSum(address, recordType, data, cc);
    Complement(|data| + HiByte(address) + LoByte(address) + recordType + Sum(data), cc);
  }

  /** The one byte that brings a sum to 0 modulo 256 is its two's complement. */
  lemma Complement(s: int, cc: byte)
    ensures (s + cc) % 256 == 0 <==> cc == (256 - s % 256) % 256
  {
  }
}
