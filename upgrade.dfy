// The in-place bootloader upgrader (firmware/upgrade.c): it points the
// reset vector at itself, writes the new bootloader page by page over the
// old one, then fills the vector page with a single jump into the new
// bootloader.  The flash is seen through the operations issued on it and
// through its contents when the upgrader starts (`pgm_read_word`).

module Upgrade {
  import opened Common
  import opened Spm

  /** The chip and build constants the upgrader is compiled with. */
  datatype Config = Config(
    pageSize: nat,           // SPM_PAGESIZE, in bytes
    bootloaderAddress: nat,  // BOOTLOADER_ADDRESS of the new bootloader, in bytes
    vectorSize: nat,         // VECTOR_SIZE, 2 or 4 bytes per vector
    ctorsEnd: nat)           // the word address of `__ctors_end`, where the upgrader's code starts

  /**
   * The constants a build of the upgrader has: pages of an even size that
   * `page_word` (8 bits) can count, an even bootloader address, and the
   * payload below the 16-bit address limit with a page to spare.
   */
  predicate ConfigOk(c: Config, payloadWords: nat)
  {
    && 2 <= c.pageSize <= 256 && c.pageSize % 2 == 0
    && c.bootloaderAddress % 2 == 0
    && c.bootloaderAddress + 2 * payloadWords + c.pageSize <= 0x1_0000
  }

  /** `PAGE_WORDS`. */
  function PageWords(c: Config): nat
  {
    c.pageSize / 2
  }

  lemma HalfPage(c: Config)
    requires ConfigOk(c, 0) || c.pageSize % 2 == 0
    ensures 2 * PageWords(c) == c.pageSize
  {
  }

  /** `TINY_TABLE_LEN`: the bootloader's own vectors ahead of its code. */
  function TinyTableLen(c: Config): nat
  {
    c.vectorSize * 2 + 2
  }

  /** The page start `erase_page` and `load_table` round an address down to. */
  function PageStart(address: nat, pageSize: nat): (s: nat)
    requires pageSize > 0
    ensures s % pageSize == 0 && s <= address < s + pageSize
  {
    ModUnique(address - address % pageSize, pageSize, address / pageSize, 0);
    address - address % pageSize
  }

  // ---------------------------------------------------------------------
  // The image of the new bootloader

  function Blank(n: nat): (s: seq<word>)
    ensures |s| == n && forall i :: 0 <= i < n ==> s[i] == 0xFFFF
  {
    seq(n, _ => 0xFFFF)
  }

  /** The words from the page start up to the bootloader address. */
  function Lead(c: Config): nat
    requires c.pageSize > 0
  {
    (c.bootloaderAddress % c.pageSize) / 2
  }

  /** The blank words that complete the last page after `n` words. */
  function Pad(n: nat, pageWords: nat): nat
    requires pageWords > 0
  {
    (pageWords - n % pageWords) % pageWords
  }

  /** What `write_new_bootloader` programs from the bootloader's page start: blanks, the payload, blanks. */
  function Image(c: Config, payload: seq<word>): seq<word>
    requires ConfigOk(c, |payload|)
  {
    Blank(Lead(c)) + payload + Blank(Pad(Lead(c) + |payload|, PageWords(c)))
  }

  /** One page as the upgrader writes it: erase, fill every word, write. */
  function PageOps(address: nat, words: seq<word>): seq<SpmOp>
  {
    [PageErase(address)] + Fills(address, words) + [PageWrite(address)]
  }

  /** The first `k` pages of `image` written from `start` on. */
  function Programmed(start: nat, pageWords: nat, image: seq<word>, k: nat): seq<SpmOp>
    requires Times(k, pageWords) <= |image|
  {
    if k == 0 then []
    else
      Programmed(start, pageWords, image, k - 1) +
        PageOps(start + 2 * Times(k - 1, pageWords), image[Times(k - 1, pageWords)..Times(k, pageWords)])
  }

  /** The operations `write_new_bootloader` issues. */
  function BootOps(c: Config, payload: seq<word>): seq<SpmOp>
    requires ConfigOk(c, |payload|)
  {
    var image := Image(c, payload);
    ImageLayout(c, payload);
    WholePages(|image|, PageWords(c));
    Programmed(PageStart(c.bootloaderAddress, c.pageSize), PageWords(c), image, |image| / PageWords(c))
  }

  /** A length of whole pages is the page count's multiple. */
  lemma WholePages(n: nat, pageWords: nat)
    requires pageWords > 0 && n % pageWords == 0
    ensures Times(n / pageWords, pageWords) == n
  {
    TimesIsProduct(n / pageWords, pageWords);
  }

  /**
   * The image is whole pages; the words before the bootloader address are
   * blank; payload word i sits at byte address BOOTLOADER_ADDRESS + 2i; the
   * words after the payload are blank and fill less than one page.
   */
  lemma ImageLayout(c: Config, payload: seq<word>)
    requires ConfigOk(c, |payload|)
    ensures var image := Image(c, payload); var pw := PageWords(c);
      var start := PageStart(c.bootloaderAddress, c.pageSize);
      && |image| % pw == 0 && |image| == Lead(c) + |payload| + Pad(Lead(c) + |payload|, pw)
      && Lead(c) + |payload| <= |image| < Lead(c) + |payload| + pw
      && start + 2 * Lead(c) == c.bootloaderAddress
      && (forall i :: 0 <= i < Lead(c) ==> image[i] == 0xFFFF)
      && (forall i :: 0 <= i < |payload| ==> image[Lead(c) + i] == payload[i])
      && (forall i :: Lead(c) + |payload| <= i < |image| ==> image[i] == 0xFFFF)
  {
    var pw, n := PageWords(c), Lead(c) + |payload|;
    LeadAlign(c);
    PadFills(n, pw);
    BlanksAround(Lead(c), payload, Pad(n, pw));
  }

  /** The blank words before the bootloader address make up its offset into its page. */
  lemma LeadAlign(c: Config)
    requires ConfigOk(c, 0)
    ensures PageStart(c.bootloaderAddress, c.pageSize) + 2 * Lead(c) == c.bootloaderAddress
    ensures Lead(c) < PageWords(c)
  {
    var a, p := c.bootloaderAddress, c.pageSize;
    var h, q, r := p / 2, a / p, a % p;
    assert p == 2 * h && a == p * q + r;
    var m := h * q;
    assert p * q == 2 * m;
    ModUnique(r, 2, a / 2 - m, 0);
  }

  /** The padding is less than a page and completes one. */
  lemma PadFills(n: nat, pageWords: nat)
    requires pageWords > 0
    ensures Pad(n, pageWords) < pageWords && (n + Pad(n, pageWords)) % pageWords == 0
  {
    if n % pageWords == 0 {
      ModUnique(pageWords, pageWords, 1, 0);
      assert Pad(n, pageWords) == 0;
    } else {
      ModUnique(pageWords - n % pageWords, pageWords, 0, pageWords - n % pageWords);
      ModUnique(n + Pad(n, pageWords), pageWords, n / pageWords + 1, 0);
    }
  }

  lemma BlanksAround(a: nat, p: seq<word>, b: nat)
    ensures var s := Blank(a) + p + Blank(b);
      |s| == a + |p| + b &&
      (forall i :: 0 <= i < a ==> s[i] == 0xFFFF) &&
      (forall i :: 0 <= i < |p| ==> s[a + i] == p[i]) &&
      (forall i :: a + |p| <= i < |s| ==> s[i] == 0xFFFF)
  {
    var s := Blank(a) + p + Blank(b);
    forall i | a + |p| <= i < |s|
      ensures s[i] == 0xFFFF
    {
      assert s[i] == Blank(b)[i - a - |p|];
    }
  }

  /** Each written page is three operations more than its words. */
  lemma {:induction false} ProgrammedLength(start: nat, pageWords: nat, image: seq<word>, k: nat)
    requires Times(k, pageWords) <= |image|
    ensures |Programmed(start, pageWords, image, k)| == Times(k, pageWords + 2)
    decreases k
  {
    if k > 0 {
      ProgrammedLength(start, pageWords, image, k - 1);
    }
  }

  /**
   * Page `j` of `k` written pages is the operation triple at `start` plus
   * `j` pages of bytes, holding the image words from `j` pages of words on
   * (`Times(j, n)` is `j·n`, as `TimesIsProduct` shows).
   */
  lemma ProgrammedPage(start: nat, pageWords: nat, image: seq<word>, k: nat, j: nat)
    requires Times(k, pageWords) <= |image| && j < k
    ensures Times(j, pageWords) + pageWords <= |image|
    ensures |Programmed(start, pageWords, image, k)| == Times(k, pageWords + 2)
    ensures Times(j, pageWords + 2) + pageWords + 2 <= Times(k, pageWords + 2)
    ensures Programmed(start, pageWords, image, k)[Times(j, pageWords + 2)..Times(j, pageWords + 2) + pageWords + 2] ==
      PageOps(start + 2 * Times(j, pageWords), image[Times(j, pageWords)..Times(j, pageWords) + pageWords])
  {
    TimesMono(j + 1, k, pageWords);
    TimesMono(j + 1, k, pageWords + 2);
    ProgrammedLength(start, pageWords, image, k);
    ProgrammedLength(start, pageWords, image, j);
    ProgrammedPrefix(start, pageWords, image, j + 1, k);
    var prev := Programmed(start, pageWords, image, j);
    var page := PageOps(start + 2 * Times(j, pageWords), image[Times(j, pageWords)..Times(j, pageWords) + pageWords]);
    ProgrammedNext(start, pageWords, image, j, start + 2 * Times(j, pageWords), image[Times(j, pageWords)..Times(j, pageWords) + pageWords]);
    var lo := Times(j, pageWords + 2);
    assert |page| == pageWords + 2 && |prev| == lo;
    SliceOfPrefix(Programmed(start, pageWords, image, k), lo + pageWords + 2, lo, lo + pageWords + 2);
    SliceRight(prev, page);
  }

  /** The pages written first are a prefix of the pages written later. */
  lemma {:induction false} ProgrammedPrefix(start: nat, pageWords: nat, image: seq<word>, m: nat, k: nat)
    requires m <= k && Times(k, pageWords) <= |image|
    ensures Times(m, pageWords) <= |image|
    ensures |Programmed(start, pageWords, image, m)| <= |Programmed(start, pageWords, image, k)|
    ensures Programmed(start, pageWords, image, k)[..|Programmed(start, pageWords, image, m)|] == Programmed(start, pageWords, image, m)
    decreases k
  {
    TimesMono(m, k, pageWords);
    if m < k {
      ProgrammedPrefix(start, pageWords, image, m, k - 1);
      var prev := Programmed(start, pageWords, image, k - 1);
      var last := PageOps(start + 2 * Times(k - 1, pageWords), image[Times(k - 1, pageWords)..Times(k, pageWords)]);
      assert Programmed(start, pageWords, image, k) == prev + last;
      SliceLeft(prev, last, 0, |Programmed(start, pageWords, image, m)|);
    }
  }

  /** Writing the next page extends the pages written by that page. */
  lemma ProgrammedNext(start: nat, pageWords: nat, image: seq<word>, k: nat, address: nat, words: seq<word>)
    requires Times(k + 1, pageWords) <= |image| && address == start + 2 * Times(k, pageWords)
    requires words == image[Times(k, pageWords)..Times(k, pageWords) + pageWords]
    ensures Programmed(start, pageWords, image, k + 1) ==
      Programmed(start, pageWords, image, k) + PageOps(address, words)
  {
  }

  /** The address after a full last page is a page boundary past the first page. */
  lemma TailAligned(start: nat, k: nat, pageWords: nat, writeAddr: nat, pageSize: nat)
    requires pageWords > 0 && pageSize == 2 * pageWords && start % pageSize == 0
    requires writeAddr == start + 2 * (Times(k, pageWords) + pageWords)
    ensures writeAddr >= pageSize && writeAddr % pageSize == 0
  {
    AlignedIff(start, k, pageWords, pageWords);
  }

  /** The same step with the operations logged before the pages in front. */
  lemma ProgrammedAppend(base: seq<SpmOp>, start: nat, pageWords: nat, image: seq<word>, k: nat, address: nat, words: seq<word>)
    requires Times(k, pageWords) + pageWords <= |image| && address == start + 2 * Times(k, pageWords)
    requires words == image[Times(k, pageWords)..Times(k, pageWords) + pageWords]
    ensures base + Programmed(start, pageWords, image, k) + PageOps(address, words) ==
      base + Programmed(start, pageWords, image, k + 1)
  {
    ProgrammedNext(start, pageWords, image, k, address, words);
  }

  /** From an aligned start, the address after `k` pages and `j` words is aligned exactly at a page end. */
  lemma AlignedIff(start: nat, k: nat, j: nat, pageWords: nat)
    requires pageWords > 0 && start % (2 * pageWords) == 0 && j <= pageWords
    ensures (start + 2 * (Times(k, pageWords) + j)) % (2 * pageWords) == 0 <==> j == 0 || j == pageWords
  {
    var p := 2 * pageWords;
    TimesIsProduct(k, pageWords);
    if j < pageWords {
      ModUnique(start + 2 * (Times(k, pageWords) + j), p, start / p + k, 2 * j);
    } else {
      ModUnique(start + 2 * (Times(k, pageWords) + j), p, start / p + k + 1, 0);
    }
  }

  /** After `k` pages and `j` more words, padding completes exactly the current page. */
  lemma PadOf(k: nat, j: nat, pageWords: nat)
    requires j < pageWords
    ensures Pad(Times(k, pageWords) + j, pageWords) == if j == 0 then 0 else pageWords - j
  {
    TimesIsProduct(k, pageWords);
    ModUnique(Times(k, pageWords) + j, pageWords, k, j);
    if j > 0 {
      ModUnique(pageWords - j, pageWords, 0, pageWords - j);
    } else {
      ModUnique(pageWords, pageWords, 1, 0);
    }
  }

  /** The bootloader's pages are the image's `k` pages when they make up the whole image. */
  lemma BootOpsPages(c: Config, payload: seq<word>, k: nat)
    requires ConfigOk(c, |payload|) && Times(k, PageWords(c)) == |Image(c, payload)|
    ensures BootOps(c, payload) ==
      Programmed(PageStart(c.bootloaderAddress, c.pageSize), PageWords(c), Image(c, payload), k)
  {
    PageCount(k, PageWords(c));
  }

  /**
   * The bootloader's operations split where the payload ends, `j` words into
   * page `k`: the whole pages before, then the padded last page if one was begun.
   */
  lemma BootOpsTail(c: Config, payload: seq<word>, k: nat, j: nat)
    requires ConfigOk(c, |payload|) && j < PageWords(c) && Times(k, PageWords(c)) + j == Lead(c) + |payload|
    ensures var image, pw := Image(c, payload), PageWords(c);
      var start := PageStart(c.bootloaderAddress, c.pageSize);
      var a := start + 2 * Times(k, pw);
      && (j == 0 ==> BootOps(c, payload) == Programmed(start, pw, image, k))
      && (j > 0 ==> (Times(k, pw) + pw == |image| &&
            BootOps(c, payload) == Programmed(start, pw, image, k) + PageOps(a, image[Times(k, pw)..|image|])))
  {
    var image, pw := Image(c, payload), PageWords(c);
    var start := PageStart(c.bootloaderAddress, c.pageSize);
    ImageLayout(c, payload);
    PadOf(k, j, pw);
    if j > 0 {
      ProgrammedNext(start, pw, image, k, start + 2 * Times(k, pw), image[Times(k, pw)..Times(k, pw) + pw]);
      BootOpsPages(c, payload, k + 1);
    } else {
      BootOpsPages(c, payload, k);
    }
  }

  /** The page count of a length of `k` whole pages is `k`. */
  lemma PageCount(k: nat, pageWords: nat)
    requires pageWords > 0
    ensures Times(k, pageWords) / pageWords == k
  {
    TimesIsProduct(k, pageWords);
    ModUnique(Times(k, pageWords), pageWords, k, 0);
  }

  /** A page start is an even byte address. */
  lemma EvenStart(s: nat, pageSize: nat)
    requires pageSize > 0 && pageSize % 2 == 0 && s % pageSize == 0
    ensures s % 2 == 0
  {
    var q, h := s / pageSize, pageSize / 2;
    assert s == pageSize * q && pageSize == 2 * h;
    assert s == 2 * (h * q);
  }

  /** `erase_page` leaves an aligned address as it is. */
  lemma FlushAligned(address: nat, pageSize: nat)
    requires pageSize > 0 && (address + pageSize) % pageSize == 0
    ensures PageStart(address, pageSize) == address
  {
    ModUnique(address, pageSize, (address + pageSize) / pageSize - 1, 0);
  }

  // ---------------------------------------------------------------------
  // The upgrader

  class Upgrader {
    const config: Config
    /** The words of the new bootloader, `__payload_start` to `__payload_end`. */
    const payload: seq<word>
    /** The flash as a sequence of words when the upgrader starts. */
    const rom: seq<word>
    /** The self-programming operations issued so far. */
    var log: seq<SpmOp>

    ghost predicate Valid()
    {
      ConfigOk(config, |payload|) && |rom| >= PageWords(config)
    }

    constructor (config: Config, payload: seq<word>, rom: seq<word>)
      requires ConfigOk(config, |payload|) && |rom| >= PageWords(config)
      ensures Valid() && log == []
      ensures this.config == config && this.payload == payload && this.rom == rom
    {
      this.config, this.payload, this.rom := config, payload, rom;
      log := [];
    }

    /** `erase_page`: the page holding `address`. */
    method ErasePage(address: nat)
      requires Valid()
      modifies this
      ensures log == old(log) + [PageErase(PageStart(address, config.pageSize))]
    {
      log := log + [PageErase(PageStart(address, config.pageSize))];
    }

    /** `write_page`: every word of the page buffer, then the page write. */
    method WritePage(address: nat, words: array<word>)
      requires Valid() && words.Length == PageWords(config)
      modifies this
      ensures log == old(log) + Fills(address, words[..]) + [PageWrite(address)]
    {
      var iter := 0;
      while iter < PageWords(config)
        invariant 0 <= iter <= PageWords(config)
        invariant log == old(log) + Fills(address, words[..iter])
      {
        FillsConcat(address, words[..iter], [words[iter]]);
        assert words[..iter + 1] == words[..iter] + [words[iter]];
        log := log + [PageFill(address + iter * 2, words[iter])];
        iter := iter + 1;
      }
      assert words[..iter] == words[..];
      log := log + [PageWrite(address)];
    }

    /** `load_table`: the words of the page holding `address`, as the flash held them. */
    method LoadTable(address: nat, words: array<word>)
      requires Valid() && words.Length == PageWords(config)
      requires PageStart(address, config.pageSize) / 2 + PageWords(config) <= |rom|
      modifies words
      ensures var first := PageStart(address, config.pageSize) / 2;
        words[..] == rom[first..first + PageWords(config)]
    {
      var base := PageStart(address, config.pageSize);
      ghost var first := base / 2;
      EvenStart(base, config.pageSize);
      HalfPage(config);
      var subaddress := 0;
      ghost var j := 0;
      while subaddress < config.pageSize
        invariant subaddress == 2 * j && j <= PageWords(config)
        invariant forall k :: 0 <= k < j ==> words[k] == rom[first + k]
      {
        words[subaddress / 2] := rom[(base + subaddress) / 2];
        subaddress := subaddress + 2;
        j := j + 1;
      }
    }

    /** `secure_interrupt_vector_table`: page 0 as it was, with the reset vector jumping to the upgrader. */
    method SecureVectorTable()
      requires Valid()
      modifies this
      ensures log == old(log) + PageOps(0, SecuredTable(config, rom))
    {
      var table := new word[PageWords(config)];
      LoadTable(0, table);
      table[0] := Addr2Rjmp(config.ctorsEnd, 0);
      ErasePage(0);
      WritePage(0, table);
    }

    /** `forward_interrupt_vector_table`: a blank page 0 whose reset vector jumps into the new bootloader. */
    method ForwardVectorTable()
      requires Valid()
      modifies this
      ensures log == old(log) + PageOps(0, ForwardTable(config))
    {
      var table := new word[PageWords(config)](_ => 0xFFFF);
      table[0] := Addr2Rjmp((config.bootloaderAddress + TinyTableLen(config)) / 2, 0);
      ErasePage(0);
      WritePage(0, table);
    }

    /** `write_new_bootloader`: the blanks up to the bootloader address, the payload, the blanks after it. */
    method WriteNewBootloader()
      requires Valid()
      modifies this
      ensures log == old(log) + BootOps(config, payload)
    {
      var pw := PageWords(config);
      var pageBuffer := new word[pw];
      var writeAddr := PageStart(config.bootloaderAddress, config.pageSize);
      ghost var start := writeAddr;
      var pageWord := LeadBlanks(pageBuffer, writeAddr);
      writeAddr := writeAddr + 2 * pageWord;
      ghost var k;
      pageWord, writeAddr, k := PayloadWords(pageBuffer, pageWord, writeAddr, start);
      ghost var done := log;
      TailPage(pageBuffer, pageWord, writeAddr, start, k);
      BootOpsTail(config, payload, k, pageWord);
      if pageWord > 0 {
        AppendAssoc(old(log), Programmed(start, pw, Image(config, payload), k), log[|done|..]);
      }
    }

    /** The first loop of `write_new_bootloader`: blank words from the page start up to the bootloader address. */
    method LeadBlanks(pageBuffer: array<word>, start: nat) returns (pageWord: nat)
      requires Valid() && pageBuffer.Length == PageWords(config)
      requires start == PageStart(config.bootloaderAddress, config.pageSize)
      modifies pageBuffer
      ensures pageWord == Lead(config) < PageWords(config) && start + 2 * pageWord == config.bootloaderAddress
      ensures forall i :: 0 <= i < pageWord ==> pageBuffer[i] == Image(config, payload)[i]
    {
      ghost var image := Image(config, payload);
      ImageLayout(config, payload);
      LeadAlign(config);
      var writeAddr := start;
      pageWord := 0;
      while writeAddr < config.bootloaderAddress
        invariant writeAddr == start + 2 * pageWord && pageWord <= Lead(config)
        invariant forall i :: 0 <= i < pageWord ==> pageBuffer[i] == image[i]
      {
        pageBuffer[pageWord] := 0xFFFF;
        writeAddr := writeAddr + 2;
        pageWord := pageWord + 1;
      }
    }

    /** `erase_page` and `write_page` of the page that ends at `writeAddr`. */
    method FlushPage(pageBuffer: array<word>, writeAddr: nat)
      requires Valid() && pageBuffer.Length == PageWords(config)
      requires writeAddr >= config.pageSize && writeAddr % config.pageSize == 0
      modifies this
      ensures var a := writeAddr - config.pageSize;
        log == old(log) + PageOps(a, pageBuffer[..])
    {
      FlushAligned(writeAddr - config.pageSize, config.pageSize);
      ErasePage(writeAddr - config.pageSize);
      WritePage(writeAddr - config.pageSize, pageBuffer);
    }

    /** The second loop: each payload word into the page buffer, and each page written as it fills. */
    method PayloadWords(pageBuffer: array<word>, pageWord0: nat, writeAddr0: nat, ghost start: nat)
      returns (pageWord: nat, writeAddr: nat, ghost k: nat)
      requires Valid() && pageBuffer.Length == PageWords(config)
      requires start == PageStart(config.bootloaderAddress, config.pageSize)
      requires pageWord0 == Lead(config) < PageWords(config) && writeAddr0 == start + 2 * pageWord0
      requires forall i :: 0 <= i < pageWord0 ==> pageBuffer[i] == Image(config, payload)[i]
      modifies this, pageBuffer
      ensures Times(k, PageWords(config)) + pageWord == Lead(config) + |payload| && pageWord < PageWords(config)
      ensures writeAddr == start + 2 * (Times(k, PageWords(config)) + pageWord)
      ensures forall i :: 0 <= i < pageWord ==> pageBuffer[i] == Image(config, payload)[Times(k, PageWords(config)) + i]
      ensures log == old(log) + Programmed(start, PageWords(config), Image(config, payload), k)
    {
      var pw := PageWords(config);
      ghost var image := Image(config, payload);
      ImageLayout(config, payload);
      pageWord, writeAddr, k := pageWord0, writeAddr0, 0;
      for offset := 0 to |payload|
        invariant Times(k, pw) + pageWord == Lead(config) + offset && pageWord < pw
        invariant writeAddr == start + 2 * (Times(k, pw) + pageWord)
        invariant forall i :: 0 <= i < pageWord ==> pageBuffer[i] == image[Times(k, pw) + i]
        invariant log == old(log) + Programmed(start, pw, image, k)
      {
        var data := payload[offset];
        pageWord, writeAddr, k := StoreWord(pageBuffer, data, pageWord, writeAddr, start, k, image, old(log));
      }
    }

    /** One pass of the second loop: the word into the page buffer, and the page written when it is full. */
    method StoreWord(pageBuffer: array<word>, data: word, pageWord0: nat, writeAddr0: nat,
                     ghost start: nat, ghost k0: nat, ghost image: seq<word>, ghost base: seq<SpmOp>)
      returns (pageWord: nat, writeAddr: nat, ghost k: nat)
      requires Valid() && pageBuffer.Length == PageWords(config) && pageWord0 < PageWords(config)
      requires start % config.pageSize == 0 && writeAddr0 == start + 2 * (Times(k0, PageWords(config)) + pageWord0)
      requires Times(k0, PageWords(config)) + pageWord0 < |image| && image[Times(k0, PageWords(config)) + pageWord0] == data
      requires forall i :: 0 <= i < pageWord0 ==> pageBuffer[i] == image[Times(k0, PageWords(config)) + i]
      requires log == base + Programmed(start, PageWords(config), image, k0)
      modifies this, pageBuffer
      ensures Times(k, PageWords(config)) + pageWord == Times(k0, PageWords(config)) + pageWord0 + 1
      ensures pageWord < PageWords(config) && writeAddr == start + 2 * (Times(k, PageWords(config)) + pageWord)
      ensures forall i :: 0 <= i < pageWord ==> pageBuffer[i] == image[Times(k, PageWords(config)) + i]
      ensures log == base + Programmed(start, PageWords(config), image, k)
    {
      var pw := PageWords(config);
      HalfPage(config);
      k := k0;
      pageBuffer[pageWord0] := data;
      writeAddr := writeAddr0 + 2;
      pageWord := pageWord0 + 1;
      AlignedIff(start, k, pageWord, pw);
      if writeAddr % config.pageSize == 0 {
        assert pageWord == pw;
        assert pageBuffer[..] == image[Times(k, pw)..Times(k, pw) + pw];
        FullPage(pageBuffer, writeAddr, start, k, image, base);
        pageWord := 0;
        k := k + 1;
      }
    }

    /** A full page buffer written out: the next page of the image programmed. */
    method FullPage(pageBuffer: array<word>, writeAddr: nat, ghost start: nat, ghost k: nat, ghost image: seq<word>, ghost base: seq<SpmOp>)
      requires Valid() && pageBuffer.Length == PageWords(config)
      requires start % config.pageSize == 0 && writeAddr == start + 2 * (Times(k, PageWords(config)) + PageWords(config))
      requires Times(k, PageWords(config)) + PageWords(config) <= |image|
      requires pageBuffer[..] == image[Times(k, PageWords(config))..Times(k, PageWords(config)) + PageWords(config)]
      requires log == base + Programmed(start, PageWords(config), image, k)
      modifies this
      ensures log == base + Programmed(start, PageWords(config), image, k + 1)
    {
      var pw := PageWords(config);
      HalfPage(config);
      TailAligned(start, k, pw, writeAddr, config.pageSize);
      FlushPage(pageBuffer, writeAddr);
      ProgrammedAppend(base, start, pw, image, k, writeAddr - config.pageSize, pageBuffer[..]);
    }

    /** The last part: blank words up to the page end and that page written, when a page was left open. */
    method TailPage(pageBuffer: array<word>, pageWord0: nat, writeAddr0: nat, ghost start: nat, ghost k: nat)
      requires Valid() && pageBuffer.Length == PageWords(config) && pageWord0 < PageWords(config)
      requires start == PageStart(config.bootloaderAddress, config.pageSize)
      requires writeAddr0 == start + 2 * (Times(k, PageWords(config)) + pageWord0)
      requires Times(k, PageWords(config)) + pageWord0 == Lead(config) + |payload|
      requires forall i :: 0 <= i < pageWord0 ==> pageBuffer[i] == Image(config, payload)[Times(k, PageWords(config)) + i]
      modifies this, pageBuffer
      ensures pageWord0 == 0 ==> log == old(log)
      ensures pageWord0 > 0 ==> var a, image := start + 2 * Times(k, PageWords(config)), Image(config, payload);
        log == old(log) + PageOps(a, image[Times(k, PageWords(config))..|image|])
    {
      var pw := PageWords(config);
      HalfPage(config);
      AlignedIff(start, k, pageWord0, pw);
      if writeAddr0 % config.pageSize != 0 {
        var pageWord, writeAddr := PadPage(pageBuffer, pageWord0, writeAddr0, start, k);
        TailAligned(start, k, pw, writeAddr, config.pageSize);
        ghost var image := Image(config, payload);
        ImageLayout(config, payload);
        PadOf(k, pageWord0, pw);
        assert pageBuffer[..] == image[Times(k, pw)..|image|];
        FlushPage(pageBuffer, writeAddr);
      }
    }

    /** The pad loop: blank words into the page buffer until the write address reaches a page boundary. */
    method PadPage(pageBuffer: array<word>, pageWord0: nat, writeAddr0: nat, ghost start: nat, ghost k: nat)
      returns (pageWord: nat, writeAddr: nat)
      requires Valid() && pageBuffer.Length == PageWords(config) && 0 < pageWord0 < PageWords(config)
      requires start % config.pageSize == 0 && writeAddr0 == start + 2 * (Times(k, PageWords(config)) + pageWord0)
      modifies pageBuffer
      ensures pageWord == PageWords(config) && writeAddr == start + 2 * (Times(k, PageWords(config)) + pageWord)
      ensures forall i :: 0 <= i < pageWord0 ==> pageBuffer[i] == old(pageBuffer[i])
      ensures forall i :: pageWord0 <= i < pageWord ==> pageBuffer[i] == 0xFFFF
    {
      var pw := PageWords(config);
      HalfPage(config);
      pageWord, writeAddr := pageWord0, writeAddr0;
      while writeAddr % config.pageSize != 0
        invariant pageWord0 <= pageWord <= pw
        invariant writeAddr == start + 2 * (Times(k, pw) + pageWord)
        invariant forall i :: 0 <= i < pageWord0 ==> pageBuffer[i] == old(pageBuffer[i])
        invariant forall i :: pageWord0 <= i < pageWord ==> pageBuffer[i] == 0xFFFF
        decreases pw - pageWord
      {
        AlignedIff(start, k, pageWord, pw);
        pageBuffer[pageWord] := 0xFFFF;
        writeAddr := writeAddr + 2;
        pageWord := pageWord + 1;
      }
      AlignedIff(start, k, pageWord, pw);
    }

    /** The upgrader's `main`: secure the vectors, write the bootloader, forward the vectors. */
    method Run()
      requires Valid()
      modifies this
      ensures log == old(log) + PageOps(0, SecuredTable(config, rom)) + BootOps(config, payload) +
        PageOps(0, ForwardTable(config))
    {
      SecureVectorTable();
      WriteNewBootloader();
      ForwardVectorTable();
    }
  }

  /** The vector page the upgrader runs from while it works. */
  function SecuredTable(c: Config, rom: seq<word>): seq<word>
    requires c.pageSize > 0 && |rom| >= c.pageSize / 2 && c.pageSize >= 2
  {
    rom[..c.pageSize / 2][0 := Addr2Rjmp(c.ctorsEnd, 0)]
  }

  /** The vector page the upgrader leaves: blank but for a reset vector into the new bootloader. */
  function ForwardTable(c: Config): seq<word>
    requires c.pageSize >= 2
  {
    Blank(c.pageSize / 2)[0 := Addr2Rjmp((c.bootloaderAddress + TinyTableLen(c)) / 2, 0)]
  }

  /**
   * The forwarding page is a page of 0xFFFF words but for word 0, a relative
   * jump that lands on the new bootloader's entry past its tiny table.
   */
  lemma ForwardTableShape(c: Config)
    requires c.pageSize >= 2
    ensures |ForwardTable(c)| == c.pageSize / 2
    ensures (1 + (ForwardTable(c)[0] - 0xC000)) % 0x1000 == (c.bootloaderAddress + TinyTableLen(c)) / 2 % 0x1000
    ensures forall i :: 0 < i < |ForwardTable(c)| ==> ForwardTable(c)[i] == 0xFFFF
  {
    RjmpTarget((c.bootloaderAddress + TinyTableLen(c)) / 2, 0);
  }

  /** The secured page is page 0 as the flash held it, but for word 0, a relative jump to the upgrader's code. */
  lemma SecuredTableShape(c: Config, rom: seq<word>)
    requires c.pageSize > 0 && |rom| >= c.pageSize / 2 && c.pageSize >= 2
    ensures |SecuredTable(c, rom)| == c.pageSize / 2
    ensures (1 + (SecuredTable(c, rom)[0] - 0xC000)) % 0x1000 == c.ctorsEnd % 0x1000
    ensures forall i :: 0 < i < |SecuredTable(c, rom)| ==> SecuredTable(c, rom)[i] == rom[i]
  {
    RjmpTarget(c.ctorsEnd, 0);
  }
}
