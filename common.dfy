// Shared vocabulary: result wrappers, byte and word types, big- and
// little-endian packing, hexadecimal digits and the lenient hexadecimal
// number readers the host tools rely on.
module Common {

  datatype Option<T> = None | Some(value: T)

  datatype Result<T, E> = Ok(value: T) | Err(error: E)

  /** Where a source line does not do what its authors evidently meant: the
      code as written, or as intended. */
  datatype Variant = AsWritten | Intended

  type byte = x: int | 0 <= x < 256
  type word = x: int | 0 <= x < 65536

  function Min(a: int, b: int): int { if a <= b then a else b }
  function Max(a: int, b: int): int { if a <= b then b else a }

  /** Largest element of a non-empty finite set of integers. */
  function MaxOf(s: set<int>): (m: int)
    requires s != {}
    ensures m in s && forall y :: y in s ==> y <= m
  {
    assert GreatestOf(s) in s && forall y :: y in s ==> y <= GreatestOf(s);
    var m :| m in s && forall y :: y in s ==> y <= m;
    m
  }

  /** The witness that a greatest element exists. */
  ghost function GreatestOf(s: set<int>): (m: int)
    requires s != {}
    ensures m in s && forall y :: y in s ==> y <= m
    decreases |s|
  {
    assert exists x :: x in s by {
      if forall x :: x !in s {
        assert false;
      }
    }
    var x :| x in s;
    if s == {x} then x
    else
      var r := GreatestOf(s - {x});
      assert forall y :: y in s ==> y == x || y in s - {x};
      Max(x, r)
  }

  /** Ceiling division, as the hosts compute a page count. */
  function CeilDiv(a: nat, b: nat): (r: nat)
    requires b > 0
    ensures r * b >= a && (r == 0 || (r - 1) * b < a)
  {
    (a + b - 1) / b
  }

  /** The count that meets the ceiling condition is the ceiling. */
  lemma CeilDivUnique(a: nat, b: nat, c: nat)
    requires b > 0 && c * b >= a && (c == 0 || (c - 1) * b < a)
    ensures c == CeilDiv(a, b)
  {
    var r := CeilDiv(a, b);
    if c < r {
      MulMono(c, r - 1, b);
    } else if r < c {
      MulMono(r, c - 1, b);
    }
  }

  lemma MulStep(k: nat, b: nat)
    requires k > 0
    ensures (k - 1) * b == k * b - b && b <= k * b
  {
  }

  /** k·p as repeated addition, for proofs that step through pages one at a time. */
  function Times(k: nat, p: nat): nat
  {
    if k == 0 then 0 else Times(k - 1, p) + p
  }

  lemma {:induction false} TimesIsProduct(k: nat, p: nat)
    ensures Times(k, p) == k * p
  {
    if k > 0 {
      TimesIsProduct(k - 1, p);
      MulStep(k, p);
    }
  }

  /** `Times` grows with its count. */
  lemma {:induction false} TimesMono(a: nat, b: nat, p: nat)
    requires a <= b
    ensures Times(a, p) <= Times(b, p)
    decreases b
  {
    if a < b {
      TimesMono(a, b - 1, p);
    }
  }

  lemma MulMono(x: nat, y: nat, b: nat)
    requires x <= y
    ensures x * b <= y * b
  {
  }

  // ---------------------------------------------------------------------
  // Endianness

  function BE16(hi: byte, lo: byte): (w: word)
    ensures w / 256 == hi && w % 256 == lo
  {
    hi * 256 + lo
  }

  function LE16(lo: byte, hi: byte): (w: word)
    ensures w / 256 == hi && w % 256 == lo
  {
    hi * 256 + lo
  }

  function HiByte(w: word): byte { w / 256 }
  function LoByte(w: word): byte { w % 256 }

  function Pow256(n: nat): (p: nat)
    ensures p >= 1
  {
    if n == 0 then 1 else 256 * Pow256(n - 1)
  }

  /** The unsigned value of bytes stored least significant first. */
  function LE(bs: seq<byte>): (v: nat)
  {
    if |bs| == 0 then 0 else LE(bs[..|bs| - 1]) + bs[|bs| - 1] * Pow256(|bs| - 1)
  }

  /** The n low bytes of v in two's complement, least significant first. */
  function LEBytes(v: int, n: nat): (bs: seq<byte>)
    ensures |bs| == n
    decreases n
  {
    if n == 0 then [] else [v % 256] + LEBytes(v / 256, n - 1)
  }

  lemma {:induction false} LEHead(b: byte, bs: seq<byte>)
    ensures LE([b] + bs) == b + 256 * LE(bs)
    decreases |bs|
  {
    var s := [b] + bs;
    if |bs| > 0 {
      var k := |bs| - 1;
      assert s[..|s| - 1] == [b] + bs[..k];
      LEHead(b, bs[..k]);
      assert LE(s) == b + 256 * LE(bs[..k]) + bs[k] * (256 * Pow256(k));
      assert bs[k] * (256 * Pow256(k)) == 256 * (bs[k] * Pow256(k));
    }
  }

  /** n bytes hold less than 256^n. */
  lemma {:induction false} LEBound(bs: seq<byte>)
    ensures LE(bs) < Pow256(|bs|)
    decreases |bs|
  {
    if |bs| > 0 {
      var k := |bs| - 1;
      LEBound(bs[..k]);
      MulMono(bs[k], 255, Pow256(k));
    }
  }

  /** The remainder by b·p splits into the remainder by b and the remainder of the quotient. */
  lemma ModSplit(v: int, b: nat, p: nat)
    requires b > 0 && p > 0
    ensures v % (b * p) == v % b + b * ((v / b) % p)
  {
    var q, r := v / b, v % b;
    var a, c0 := q / p, q % p;
    assert v == b * q + r;
    assert q == p * a + c0;
    var c := b * c0 + r;
    assert v == (b * p) * a + c;
    assert c <= b * (p - 1) + (b - 1) by {
      MulMono(c0, p - 1, b);
    }
    ModUnique(v, b * p, a, c);
  }

  lemma ModUnique(v: int, m: int, a: int, c: int)
    requires m > 0 && v == m * a + c && 0 <= c < m
    ensures v % m == c && v / m == a
  {
    var q, r := v / m, v % m;
    assert v == m * q + r;
    if q > a {
      var k: nat := q - a;
      assert m * q == m * a + m * k;
      MulMono(1, k, m);
      assert false;
    } else if q < a {
      var k: nat := a - q;
      assert m * a == m * q + m * k;
      MulMono(1, k, m);
      assert false;
    }
  }

  /** Writing the n low bytes and reading them back gives v modulo 256^n. */
  lemma {:induction false} LEOfLEBytes(v: int, n: nat)
    ensures LE(LEBytes(v, n)) == v % Pow256(n)
    decreases n
  {
    if n > 0 {
      LEOfLEBytes(v / 256, n - 1);
      LEHead(v % 256, LEBytes(v / 256, n - 1));
      ModSplit(v, 256, Pow256(n - 1));
    }
  }

  /** Regrouping a concatenation, kept apart from what the pieces are. */
  lemma AppendAssoc<T>(a: seq<T>, b: seq<T>, c: seq<T>)
    ensures (a + b) + c == a + (b + c)
  {
  }

  /** A slice that lies within the left part of a concatenation. */
  lemma SliceLeft<T>(a: seq<T>, b: seq<T>, lo: nat, hi: nat)
    requires lo <= hi <= |a|
    ensures (a + b)[lo..hi] == a[lo..hi]
  {
  }

  /** A slice that lies within a prefix is that slice of the prefix. */
  lemma SliceOfPrefix<T>(s: seq<T>, n: nat, lo: nat, hi: nat)
    requires lo <= hi <= n <= |s|
    ensures s[lo..hi] == s[..n][lo..hi]
  {
  }

  /** A slice of a slice is a slice of the whole. */
  lemma SliceOfSlice<T>(s: seq<T>, lo: nat, hi: nat, i: nat, j: nat)
    requires lo <= hi <= |s| && i <= j <= hi - lo
    ensures s[lo..hi][i..j] == s[lo + i..lo + j]
  {
    forall k | 0 <= k < j - i
      ensures s[lo..hi][i..j][k] == s[lo + i..lo + j][k]
    {
      assert s[lo..hi][i..j][k] == s[lo..hi][i + k] == s[lo + i + k];
    }
  }

  /** The right part of a concatenation, sliced back out. */
  lemma SliceRight<T>(a: seq<T>, b: seq<T>)
    ensures (a + b)[|a|..|a| + |b|] == b
  {
  }

  lemma WordSplit(w: word)
    ensures BE16(HiByte(w), LoByte(w)) == w
    ensures LE16(LoByte(w), HiByte(w)) == w
  {
  }

  // ---------------------------------------------------------------------
  // Hexadecimal digits

  predicate IsHexDigit(c: char)
  {
    ('0' <= c <= '9') || ('A' <= c <= 'F') || ('a' <= c <= 'f')
  }

  function DigitValue(c: char): (v: int)
    requires IsHexDigit(c)
    ensures 0 <= v < 16
  {
    if '0' <= c <= '9' then c as int - '0' as int
    else if 'A' <= c <= 'F' then c as int - 'A' as int + 10
    else c as int - 'a' as int + 10
  }

  /** The upper-case digit for a value below 16. */
  function HexChar(n: int): (c: char)
    requires 0 <= n < 16
    ensures IsHexDigit(c) && DigitValue(c) == n
  {
    if n < 10 then ('0' as int + n) as char else ('A' as int + n - 10) as char
  }

  /** Two upper-case digits for a byte, most significant first. */
  function ByteHex(b: byte): (s: string)
    ensures |s| == 2
  {
    [HexChar(b / 16), HexChar(b % 16)]
  }

  lemma ByteHexDigits(b: byte)
    ensures IsHexDigit(ByteHex(b)[0]) && IsHexDigit(ByteHex(b)[1])
    ensures 16 * DigitValue(ByteHex(b)[0]) + DigitValue(ByteHex(b)[1]) == b
  {
  }

  predicate AllHex(s: string)
  {
    forall i :: 0 <= i < |s| ==> IsHexDigit(s[i])
  }

  /** Number of leading hexadecimal digits of `s`. */
  function DigitRun(s: string): (n: nat)
    ensures n <= |s|
  {
    if |s| > 0 && IsHexDigit(s[0]) then 1 + DigitRun(s[1..]) else 0
  }

  /** A digit's value; a character that is not a digit is never read this way. */
  function Nibble(c: char): (v: nat)
    ensures v < 16
  {
    if IsHexDigit(c) then DigitValue(c) else 0
  }

  /** Value of a string of digits, most significant first. */
  function DigitsValue(s: string): nat
  {
    if |s| == 0 then 0 else 16 * DigitsValue(s[..|s| - 1]) + Nibble(s[|s| - 1])
  }

  /** Value of the leading run of digits; 0 when there is none. */
  function PrefixValue(s: string): nat
  {
    DigitsValue(s[..DigitRun(s)])
  }

  predicate IsSpace(c: char)
  {
    c == ' ' || c == '\t' || c == '\n' || c == '\r' || c as int == 11 || c as int == 12
  }

  /** Digits after an optional `0x`/`0X`. */
  function HexMagnitude(u: string): nat
  {
    if |u| >= 2 && u[0] == '0' && (u[1] == 'x' || u[1] == 'X') then PrefixValue(u[2..]) else PrefixValue(u)
  }

  /** An optional sign, then the magnitude. */
  function SignedHex(t: string): int
  {
    if |t| > 0 && t[0] == '-' then -(HexMagnitude(t[1..]) as int)
    else if |t| > 0 && t[0] == '+' then HexMagnitude(t[1..])
    else HexMagnitude(t)
  }

  /**
   * The lenient base-16 reading of Ruby's `String#to_i(16)` and of C's
   * `strtol(s, NULL, 16)`: leading white space, an optional sign, an
   * optional `0x`/`0X`, then as many digits as there are; 0 when none.
   */
  function LenientHex(s: string): int
  {
    if |s| > 0 && IsSpace(s[0]) then LenientHex(s[1..]) else SignedHex(s)
  }

  function Pow16(n: nat): (p: nat)
    ensures p >= 1
  {
    if n == 0 then 1 else 16 * Pow16(n - 1)
  }

  /** Digits of a concatenation: the left part is shifted by the right part's length. */
  lemma {:induction false} DigitsValueConcat(a: string, b: string)
    ensures DigitsValue(a + b) == DigitsValue(a) * Pow16(|b|) + DigitsValue(b)
  {
    var ab := a + b;
    if |b| == 0 {
      assert ab == a;
    } else {
      var b' := b[..|b| - 1];
      var d := Nibble(b[|b| - 1]);
      assert ab[..|ab| - 1] == a + b';
      assert ab[|ab| - 1] == b[|b| - 1];
      DigitsValueConcat(a, b');
      var x, y, q := DigitsValue(a), DigitsValue(b'), Pow16(|b'|);
      assert DigitsValue(ab) == 16 * (x * q + y) + d;
      assert DigitsValue(b) == 16 * y + d;
      assert Pow16(|b|) == 16 * q;
      ShiftByDigit(x, q, y, d);
    }
  }

  lemma ShiftByDigit(x: int, q: int, y: int, d: int)
    ensures 16 * (x * q + y) + d == x * (16 * q) + (16 * y + d)
  {
  }

  lemma {:induction false} DigitRunAll(s: string)
    requires AllHex(s)
    ensures DigitRun(s) == |s|
  {
    if |s| > 0 {
      assert AllHex(s[1..]) by {
        forall i | 0 <= i < |s[1..]| ensures IsHexDigit(s[1..][i]) {
          assert s[1..][i] == s[i + 1];
        }
      }
      DigitRunAll(s[1..]);
    }
  }

  lemma TwoDigits(s: string)
    requires |s| == 2
    ensures DigitsValue(s) == 16 * Nibble(s[0]) + Nibble(s[1])
  {
    var h := s[..1];
    assert h[..0] == [] && h[0] == s[0] && s[..|s| - 1] == h;
    assert DigitsValue(h) == Nibble(s[0]);
  }

  /** A string of digits (there is no room for `0x`) reads as its digits. */
  lemma LenientHexOfAllHex(s: string)
    requires |s| > 0 && AllHex(s)
    ensures LenientHex(s) == DigitsValue(s)
  {
    assert !IsSpace(s[0]);
    assert HexMagnitude(s) == PrefixValue(s);
    DigitRunAll(s);
    assert s[..DigitRun(s)] == s;
  }

  /** Two hexadecimal digits read leniently give their byte value. */
  lemma LenientHexOfDigits(s: string)
    requires |s| == 2 && IsHexDigit(s[0]) && IsHexDigit(s[1])
    ensures LenientHex(s) == 16 * DigitValue(s[0]) + DigitValue(s[1])
  {
    LenientHexOfAllHex(s);
    TwoDigits(s);
  }

  /** Reading back the digits written for a byte gives the byte. */
  lemma LenientHexOfByte(b: byte)
    ensures LenientHex(ByteHex(b)) == b
  {
    ByteHexDigits(b);
    LenientHexOfDigits(ByteHex(b));
  }

  lemma PrefixValueShort(w: string)
    requires |w| <= 2
    ensures PrefixValue(w) <= 255
  {
    var p := w[..DigitRun(w)];
    if |p| == 2 {
      TwoDigits(p);
    } else if |p| == 1 {
      assert p[..|p| - 1] == [];
      assert DigitsValue(p) == 16 * DigitsValue(p[..|p| - 1]) + Nibble(p[0]);
    }
    assert PrefixValue(w) == DigitsValue(p);
  }

  /** Two leniently read characters never exceed one byte either way. */
  lemma {:induction false} LenientHexShort(s: string)
    requires |s| <= 2
    ensures -255 <= LenientHex(s) <= 255
  {
    if |s| > 0 && IsSpace(s[0]) {
      LenientHexShort(s[1..]);
    } else {
      var u := if |s| > 0 && (s[0] == '-' || s[0] == '+') then s[1..] else s;
      PrefixValueShort(u);
      if |u| >= 2 {
        PrefixValueShort(u[2..]);
      }
    }
  }

  // ---------------------------------------------------------------------
  // Bitwise and on non-negative numbers

  function Pow2(k: nat): (p: nat)
    ensures p >= 1
  {
    if k == 0 then 1 else 2 * Pow2(k - 1)
  }

  /** x & m, bit by bit from the lowest. */
  function And(x: nat, m: nat): nat
  {
    if x == 0 then 0 else 2 * And(x / 2, m / 2) + (if x % 2 == 1 && m % 2 == 1 then 1 else 0)
  }

  /** x & ~m: the bits of x that m does not have. */
  function ClearBits(x: nat, m: nat): nat
  {
    if x == 0 then 0 else 2 * ClearBits(x / 2, m / 2) + (if x % 2 == 1 && m % 2 == 0 then 1 else 0)
  }

  /** Every bit of x is either kept by x & ~m or by x & m. */
  lemma {:induction false} ClearBitsSplit(x: nat, m: nat)
    ensures ClearBits(x, m) + And(x, m) == x
    decreases x
  {
    if x > 0 {
      ClearBitsSplit(x / 2, m / 2);
    }
  }

  lemma {:induction false} AndBound(x: nat, m: nat)
    ensures And(x, m) <= x && And(x, m) <= m
    decreases x
  {
    if x > 0 {
      AndBound(x / 2, m / 2);
    }
  }

  lemma {:induction false} AndZero(x: nat)
    ensures And(x, 0) == 0
    decreases x
  {
    if x > 0 {
      AndZero(x / 2);
    }
  }

  lemma AndOdd(x: nat, m: nat)
    requires x > 0
    ensures And(x, 2 * m + 1) == 2 * And(x / 2, m) + x % 2
  {
  }

  /** With a mask of k low bits, x & m is the remainder by 2^k. */
  lemma {:induction false} AndLowBits(x: nat, k: nat)
    ensures And(x, Pow2(k) - 1) == x % Pow2(k)
    decreases k
  {
    if k == 0 {
      AndZero(x);
      assert Pow2(k) == 1;
    } else if x == 0 {
      ModUnique(0, Pow2(k), 0, 0);
    } else {
      var p := Pow2(k - 1);
      assert Pow2(k) == 2 * p && Pow2(k) - 1 == 2 * (p - 1) + 1;
      AndOdd(x, p - 1);
      AndLowBits(x / 2, k - 1);
      assert And(x, Pow2(k) - 1) == 2 * ((x / 2) % p) + x % 2;
      ModSplit(x, 2, p);
      assert x % (2 * p) == x % 2 + 2 * ((x / 2) % p);
    }
  }

  /** x & ~(2^k - 1) is x less its remainder by 2^k. */
  lemma PageRemainder(x: nat, k: nat)
    ensures ClearBits(x, Pow2(k) - 1) == x - x % Pow2(k)
    ensures ClearBits(x, Pow2(k) - 1) % Pow2(k) == 0
  {
    ClearBitsSplit(x, Pow2(k) - 1);
    AndLowBits(x, k);
    RemainderRemoved(x, Pow2(k));
  }

  lemma RemainderRemoved(x: nat, p: nat)
    requires p > 0
    ensures (x - x % p) % p == 0
  {
    ModUnique(x - x % p, p, x / p, 0);
  }

  lemma {:induction false} Pow2Split(a: nat, b: nat)
    ensures Pow2(a + b) == Pow2(a) * Pow2(b)
    decreases b
  {
    if b > 0 {
      Pow2Split(a, b - 1);
    }
  }

  lemma {:induction false} PowMono(a: nat, b: nat)
    requires a <= b
    ensures Pow2(a) <= Pow2(b)
    decreases b
  {
    if a < b {
      PowMono(a, b - 1);
    }
  }

  /** x | m, bit by bit from the lowest. */
  function Or(x: nat, m: nat): nat
    decreases x + m
  {
    if x == 0 && m == 0 then 0 else 2 * Or(x / 2, m / 2) + (if x % 2 == 1 || m % 2 == 1 then 1 else 0)
  }

  /** Bit k of x is set. */
  predicate BitSet(x: nat, k: nat)
  {
    if k == 0 then x % 2 == 1 else BitSet(x / 2, k - 1)
  }

  lemma {:induction false} NoBitOfZero(k: nat)
    ensures !BitSet(0, k)
  {
    if k > 0 {
      NoBitOfZero(k - 1);
    }
  }

  /** Bit k of x | m is set exactly when it is set in x or in m. */
  lemma {:induction false} OrBit(x: nat, m: nat, k: nat)
    ensures BitSet(Or(x, m), k) <==> BitSet(x, k) || BitSet(m, k)
  {
    OrHalves(x, m);
    if k > 0 {
      OrBit(x / 2, m / 2, k - 1);
    }
  }

  /** The lowest bit of x | m, and the bits above it. */
  lemma OrHalves(x: nat, m: nat)
    ensures Or(x, m) / 2 == Or(x / 2, m / 2) && (Or(x, m) % 2 == 1 <==> x % 2 == 1 || m % 2 == 1)
  {
    if x != 0 || m != 0 {
      var bit := if x % 2 == 1 || m % 2 == 1 then 1 else 0;
      ModUnique(Or(x, m), 2, Or(x / 2, m / 2), bit);
    }
  }

  /** 2^i has bit i and no other. */
  lemma {:induction false} PowBit(i: nat, k: nat)
    ensures BitSet(Pow2(i), k) <==> i == k
  {
    if i == 0 {
      if k > 0 {
        NoBitOfZero(k - 1);
      }
    } else if k > 0 {
      PowBit(i - 1, k - 1);
    }
  }

  /** x & 2^k is 2^k when bit k of x is set and 0 otherwise. */
  lemma {:induction false} AndPow2(x: nat, k: nat)
    ensures And(x, Pow2(k)) == if BitSet(x, k) then Pow2(k) else 0
    decreases k
  {
    if x == 0 {
      NoBitOfZero(k);
    } else if k == 0 {
      AndZero(x / 2);
    } else {
      AndPow2(x / 2, k - 1);
    }
  }

  /** Or of two numbers below 2^n is below 2^n. */
  lemma {:induction false} OrBound(x: nat, m: nat, n: nat)
    requires x < Pow2(n) && m < Pow2(n)
    ensures Or(x, m) < Pow2(n)
  {
    if n > 0 && (x > 0 || m > 0) {
      OrBound(x / 2, m / 2, n - 1);
    }
  }
}
