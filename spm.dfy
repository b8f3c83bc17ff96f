// The self-programming primitives of the AVR (`boot_page_erase`,
// `boot_page_fill`, `boot_page_write` from avr/boot.h) as operations a
// flash-writing routine issues, in the order it issues them.  What the
// hardware then does with them is not part of this model.  The relative
// jump (`rjmp`) that the vector tables hold is encoded here too.

module Spm {
  import opened Common

  datatype SpmOp =
    | PageErase(address: nat)
    | PageFill(address: nat, data: word)
    | PageWrite(address: nat)
    /** An `spm` that clears the temporary page buffer (`CTPB`, or `RWWSRE` where there is none). */
    | PageBufferClear

  /** `boot_page_fill` of each word of `words` at consecutive even addresses from `address`. */
  function Fills(address: nat, words: seq<word>): (ops: seq<SpmOp>)
    ensures |ops| == |words|
    ensures forall i :: 0 <= i < |words| ==> ops[i] == PageFill(address + 2 * i, words[i])
  {
    seq(|words|, i requires 0 <= i < |words| => PageFill(address + 2 * i, words[i]))
  }

  /** Filling two runs of words one after the other fills the whole run. */
  lemma FillsConcat(address: nat, a: seq<word>, b: seq<word>)
    ensures Fills(address, a + b) == Fills(address, a) + Fills(address + 2 * |a|, b)
  {
    var l, r := Fills(address, a + b), Fills(address, a) + Fills(address + 2 * |a|, b);
    forall i | 0 <= i < |l|
      ensures l[i] == r[i]
    {
      if i >= |a| {
        assert r[i] == Fills(address + 2 * |a|, b)[i - |a|];
      }
    }
  }

  /** The erases of pages `n - 1` down to `k`, `p` bytes each, in that order. */
  function ErasedDown(n: nat, k: nat, p: nat): (es: seq<SpmOp>)
    requires k <= n
    ensures |es| == n - k
    decreases n - k
  {
    if k == n then [] else ErasedDown(n, k + 1, p) + [PageErase(Times(k, p))]
  }

  /** The i-th erase is of page n - 1 - i. */
  lemma {:induction false} ErasedDownPages(n: nat, k: nat, p: nat)
    requires k <= n
    ensures forall i :: 0 <= i < n - k ==> ErasedDown(n, k, p)[i] == PageErase(Times(n - 1 - i, p))
    decreases n - k
  {
    if k < n {
      ErasedDownPages(n, k + 1, p);
    }
  }

  // ---------------------------------------------------------------------
  // The relative jump instruction

  /**
   * The `addr2rjmp` macro of the upgrader and the bootloader: the relative
   * jump to word address `addr` placed at word `location`, its 12-bit offset
   * taken modulo 4096 as `& 0xFFF` does on the two's complement difference.
   */
  function Addr2Rjmp(addr: int, location: int): (w: word)
    ensures 0xC000 <= w <= 0xCFFF
  {
    0xC000 + (addr - location - 1) % 0x1000
  }

  /** The jump lands on `addr` modulo the 12-bit range: an rjmp goes to its location plus one plus its offset. */
  lemma RjmpTarget(addr: int, location: int)
    ensures (location + 1 + (Addr2Rjmp(addr, location) - 0xC000)) % 0x1000 == addr % 0x1000
    ensures 0 <= addr - location - 1 < 0x1000 ==> location + 1 + (Addr2Rjmp(addr, location) - 0xC000) == addr
  {
    var d := addr - location - 1;
    ModSplit(d, 1, 0x1000);
    ModUnique(location + 1 + d % 0x1000, 0x1000, (location + 1 + d % 0x1000) / 0x1000, (location + 1 + d % 0x1000) % 0x1000);
    SameResidue(location + 1 + d % 0x1000, addr, d / 0x1000);
  }

  /** Two numbers that differ by a multiple of 4096 leave the same remainder. */
  lemma SameResidue(a: int, b: int, k: int)
    requires b == a + 0x1000 * k
    ensures a % 0x1000 == b % 0x1000
  {
    ModUnique(b, 0x1000, a / 0x1000 + k, a % 0x1000);
  }
}
