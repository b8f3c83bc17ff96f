// The raw-image loader of mnflash (mnflash/lib/load-raw.c): the file is read
// in chunks of up to 4096 bytes into a growing firmware blob; the first
// chunk must look like an AVR interrupt vector table, either 2-byte `rjmp`
// vectors or 4-byte vectors of a 16 KiB device.  The file is given as the
// chunks `read` returns; opening it is a flag.  The 16 KiB check is modelled
// both as written (it refuses every vector) and as intended (an `rjmp` or a
// `jmp`), selected by a `Variant`.

module LoadRaw {
  import opened Common
  import opened FirmwareBlob

  /** The number of vectors checked. */
  const CHECKINTS: nat := 15
  const BUFSIZE: nat := 4096

  // ---------------------------------------------------------------------
  // The interrupt-table check

  /** `(b & 0xF0) == 0xC0`: the high byte of an `rjmp` word. */
  predicate IsRjmpHigh(b: byte)
  {
    b / 16 == 0xC
  }

  /** Lines 73-80: every odd byte of the first 2·CHECKINTS is an `rjmp` high byte. */
  predicate RjmpTable(c: seq<byte>)
    requires |c| >= 2 * CHECKINTS
  {
    forall k :: 1 <= k < 2 * CHECKINTS && k % 2 == 1 ==> IsRjmpHigh(c[k])
  }

  /** A 4-byte vector of a 16 KiB device, as intended: an `rjmp`, or the
      `jmp` opcode 0x940C stored low byte first. */
  predicate VectorOk(lo: byte, hi: byte)
  {
    IsRjmpHigh(hi) || (lo == 0x0C && hi == 0x94)
  }

  /** Lines 89-90 as written: a vector is refused when it is not an `rjmp`
      OR not a `jmp`, so it passes only when it is both. */
  predicate VectorOkAsWritten(lo: byte, hi: byte)
  {
    !(!IsRjmpHigh(hi) || !(lo == 0x0C && hi == 0x94))
  }

  /** The test of one 4-byte vector, as written or as intended. */
  predicate VectorPasses(v: Variant, lo: byte, hi: byte)
  {
    if v == AsWritten then VectorOkAsWritten(lo, hi) else VectorOk(lo, hi)
  }

  /** Lines 87-95: every 4-byte vector of the first 4·CHECKINTS bytes passes. */
  predicate VectorTable(v: Variant, c: seq<byte>)
    requires |c| >= 4 * CHECKINTS
  {
    forall k :: 0 <= k < 4 * CHECKINTS && k % 4 == 0 ==> VectorPasses(v, c[k], c[k + 1])
  }

  /** Lines 66-96: the check of the first chunk. */
  predicate TableOk(v: Variant, c: seq<byte>)
  {
    if |c| < 2 * CHECKINTS then false
    else if IsRjmpHigh(c[3]) then RjmpTable(c)
    else |c| >= 4 * CHECKINTS && VectorTable(v, c)
  }

  // ---------------------------------------------------------------------
  // The read loop

  /** The bytes of all chunks, in order. */
  function Concat(chunks: seq<seq<byte>>): seq<byte>
  {
    if |chunks| == 0 then [] else chunks[0] + Concat(chunks[1..])
  }

  /** The data with `c` laid over it at `at`. */
  function Overlay(data: seq<byte>, at: nat, c: seq<byte>): (r: seq<byte>)
    requires at + |c| <= |data|
    ensures |r| == |data| && r[..at] == data[..at] && r[at..at + |c|] == c
  {
    data[..at] + c + data[at + |c|..]
  }

  /** The blob fits what has been read so far. */
  predicate Fits(st: BlobState, now: nat)
  {
    && (st.data.Some? ==> |st.data.value| == st.dataSize && now <= st.dataSize)
    && (st.data.None? ==> st.dataSize == 0 && now == 0)
  }

  /** One pass of the loop: grow the blob to hold the chunk, check the first
      chunk, then copy the chunk in and move `end` behind it. */
  function Step(v: Variant, st: BlobState, now: nat, c: seq<byte>): (r: Option<BlobState>)
    requires Fits(st, now)
    ensures r.Some? ==> Fits(r.value, now + |c|)
  {
    var g := Resized(st.data, st.dataSize, now + |c|);
    ResizeCovers(st.data, st.dataSize, now + |c|);
    if g.0.None? || (now == 0 && !TableOk(v, c)) then None
    else Some(BlobState(st.entry, 0, now + |c|, g.1, Some(Overlay(g.0.value, now, c))))
  }

  /** The loop from `now` on, with the blob as it stands. */
  function Load(v: Variant, chunks: seq<seq<byte>>, now: nat, st: BlobState): Option<BlobState>
    requires Fits(st, now)
    decreases |chunks|
  {
    if |chunks| == 0 then Some(st)
    else
      match Step(v, st, now, chunks[0])
      case None => None
      case Some(next) => Load(v, chunks[1..], now + |chunks[0]|, next)
  }

  /** `mnflash_raw_load`: NULL if the file does not open, if the blob cannot
      grow, or if the first chunk is not a vector table. */
  function RawLoad(v: Variant, opens: bool, chunks: seq<seq<byte>>): Option<BlobState>
  {
    if !opens then None else Load(v, chunks, 0, EmptyBlob)
  }

  /** Read results are positive and at most the buffer's size. */
  predicate Chunked(chunks: seq<seq<byte>>)
  {
    forall i :: 0 <= i < |chunks| ==> 0 < |chunks[i]| <= BUFSIZE
  }

  /** The validation of the first chunk, in the buffer it was read into. */
  method CheckTable(v: Variant, buffer: array<byte>, bytesread: nat) returns (ok: bool)
    requires bytesread <= buffer.Length
    ensures ok == TableOk(v, buffer[..bytesread])
  {
    if bytesread < 2 * CHECKINTS {
      return false;
    }
    if IsRjmpHigh(buffer[3]) {
      var i := 1;
      while i < 2 * CHECKINTS
        invariant 1 <= i <= 2 * CHECKINTS + 1 && i % 2 == 1
        invariant forall k :: 1 <= k < i && k % 2 == 1 ==> IsRjmpHigh(buffer[k])
      {
        if !IsRjmpHigh(buffer[i]) {
          assert buffer[..bytesread][i] == buffer[i];
          return false;
        }
        i := i + 2;
      }
    } else {
      if bytesread < 4 * CHECKINTS {
        return false;
      }
      var i := 0;
      while i < 4 * CHECKINTS
        invariant 0 <= i <= 4 * CHECKINTS && i % 4 == 0
        invariant forall k :: 0 <= k < i && k % 4 == 0 ==> VectorPasses(v, buffer[k], buffer[k + 1])
      {
        if !VectorPasses(v, buffer[i], buffer[i + 1]) {
          assert buffer[..bytesread][i] == buffer[i] && buffer[..bytesread][i + 1] == buffer[i + 1];
          return false;
        }
        i := i + 4;
      }
    }
    ok := true;
  }

  /** `memcpy(blob->data + now, buffer, bytesread)`, then `start` and `end`. */
  method Store(blob: Blob, buffer: array<byte>, now: nat, bytesread: nat)
    requires bytesread <= buffer.Length && blob.data.Some? && now + bytesread <= |blob.data.value|
    modifies blob
    ensures blob.State() == BlobState(old(blob.entry), 0, now + bytesread, old(blob.dataSize),
      Some(Overlay(old(blob.data.value), now, buffer[..bytesread])))
  {
    blob.data := Some(Overlay(blob.data.value, now, buffer[..bytesread]));
    blob.start := 0;
    blob.end := now + bytesread;
  }

  /** The loop body: `read`, `resize`, the check of the first chunk, `memcpy`. */
  method ReadChunk(v: Variant, blob: Blob, buffer: array<byte>, now: nat, chunk: seq<byte>) returns (ok: bool)
    requires buffer.Length == BUFSIZE && 0 < |chunk| <= BUFSIZE && blob.Valid() && Fits(blob.State(), now)
    modifies blob, buffer
    ensures ok <==> Step(v, old(blob.State()), now, chunk).Some?
    ensures ok ==> blob.State() == Step(v, old(blob.State()), now, chunk).value && blob.Valid()
  {
    var bytesread := |chunk|;
    forall j | 0 <= j < bytesread {
      buffer[j] := chunk[j];
    }
    assert buffer[..bytesread] == chunk;
    ghost var st := blob.State();
    blob.Resize(now + bytesread);
    if blob.data.None? {
      return false;
    }
    ResizeCovers(st.data, st.dataSize, now + bytesread);
    if now == 0 {
      ok := CheckTable(v, buffer, bytesread);
      if !ok {
        return false;
      }
    }
    Store(blob, buffer, now, bytesread);
    ok := true;
  }

  /** `mnflash_raw_load`, the read loop over the file's chunks. */
  method ReadRaw(v: Variant, opens: bool, chunks: seq<seq<byte>>) returns (blob: Blob?)
    requires Chunked(chunks)
    ensures blob == null <==> RawLoad(v, opens, chunks).None?
    ensures blob != null ==> fresh(blob) && blob.State() == RawLoad(v, opens, chunks).value
  {
    if !opens {
      return null;
    }
    blob := new Blob();
    var buffer := new byte[BUFSIZE];
    var now: nat := 0;
    var i := 0;
    while i < |chunks|
      invariant 0 <= i <= |chunks| && fresh(blob) && blob.Valid() && Fits(blob.State(), now)
      invariant now == 0 <==> i == 0
      invariant Load(v, chunks, 0, EmptyBlob) == Load(v, chunks[i..], now, blob.State())
      invariant i == 0 ==> blob.State() == EmptyBlob
    {
      var ok := ReadChunk(v, blob, buffer, now, chunks[i]);
      if !ok {
        return null;
      }
      assert chunks[i..][1..] == chunks[i + 1..];
      now := now + |chunks[i]|;
      i := i + 1;
    }
  }

  // ---------------------------------------------------------------------
  // Properties

  /** A first chunk shorter than 2·CHECKINTS bytes is refused. */
  lemma ShortFileRefused(v: Variant, chunks: seq<seq<byte>>)
    requires |chunks| > 0 && |chunks[0]| < 2 * CHECKINTS
    ensures RawLoad(v, true, chunks).None?
  {
  }

  /** A first chunk that fails the table check is refused, whatever follows. */
  lemma NoTableRefused(v: Variant, opens: bool, chunks: seq<seq<byte>>)
    requires |chunks| > 0 && !TableOk(v, chunks[0])
    ensures RawLoad(v, opens, chunks).None?
  {
  }

  /** An empty file loads as the empty blob. */
  lemma EmptyFileLoads(v: Variant)
    ensures RawLoad(v, true, []) == Some(EmptyBlob)
  {
  }

  lemma ConcatSplit(chunks: seq<seq<byte>>)
    requires |chunks| > 0
    ensures Concat(chunks) == chunks[0] + Concat(chunks[1..])
  {
  }

  lemma AllocBelowMax(address: nat)
    requires address < MAX_DATA_SIZE
    ensures AllocFor(address) <= MAX_DATA_SIZE
  {
    assert address / ALLOC_SIZE < 1024;
  }

  /** One pass keeps `start` at 0, moves `end` behind the chunk and appends the chunk to the bytes read. */
  lemma StepShape(v: Variant, st: BlobState, now: nat, c: seq<byte>, before: seq<byte>)
    requires Fits(st, now) && (st.data.Some? ==> st.data.value[..now] == before) && (st.data.None? ==> before == [])
    requires Step(v, st, now, c).Some?
    ensures var n := Step(v, st, now, c).value;
      n.start == 0 && n.end == now + |c| && n.entry == st.entry && n.data.Some? && |n.data.value| >= n.end &&
      n.data.value[..now + |c|] == before + c
  {
    var g := Resized(st.data, st.dataSize, now + |c|);
    ResizeCovers(st.data, st.dataSize, now + |c|);
    var d := Overlay(g.0.value, now, c);
    assert g.0.value[..now] == before;
    assert d[..now + |c|] == d[..now] + d[now..now + |c|];
  }

  /** A successful load has `start` 0, `end` the number of bytes read, and room for them. */
  lemma {:induction false} LoadFields(v: Variant, chunks: seq<seq<byte>>, now: nat, st: BlobState)
    requires Fits(st, now) && st.end == now && st.start == 0
    ensures var r := Load(v, chunks, now, st);
      r.Some? ==> (r.value.start == 0 && r.value.end == now + |Concat(chunks)| && r.value.entry == st.entry &&
        Fits(r.value, r.value.end) && (r.value.data.None? ==> r.value.end == 0))
    decreases |chunks|
  {
    if |chunks| > 0 {
      var c := chunks[0];
      var n := Step(v, st, now, c);
      if n.Some? {
        StepShape(v, st, now, c, if st.data.Some? then st.data.value[..now] else []);
        LoadFields(v, chunks[1..], now + |c|, n.value);
        ConcatSplit(chunks);
      }
    }
  }

  /** The data of a successful load from 0 to `end` is the bytes read before and the file's bytes in order. */
  lemma {:induction false} LoadBytes(v: Variant, chunks: seq<seq<byte>>, now: nat, st: BlobState, before: seq<byte>)
    requires Fits(st, now) && st.end == now && st.start == 0
    requires st.data.Some? ==> st.data.value[..now] == before
    requires st.data.None? ==> before == []
    ensures var r := Load(v, chunks, now, st);
      r.Some? && r.value.data.Some? && r.value.end <= |r.value.data.value| && r.value.end == now + |Concat(chunks)| ==>
        r.value.data.value[..r.value.end] == before + Concat(chunks)
    decreases |chunks|
  {
    if |chunks| > 0 {
      var c := chunks[0];
      var n := Step(v, st, now, c);
      if n.Some? {
        StepShape(v, st, now, c, before);
        LoadBytes(v, chunks[1..], now + |c|, n.value, before + c);
        ConcatSplit(chunks);
        LoadNext(v, chunks, now, st);
        AppendAssoc(before, c, Concat(chunks[1..]));
      }
    }
  }

  /** A load that passes the table check and stays below 4 MiB succeeds. */
  lemma {:induction false} SmallLoads(v: Variant, chunks: seq<seq<byte>>, now: nat, st: BlobState)
    requires Fits(st, now) && now + |Concat(chunks)| < MAX_DATA_SIZE
    requires now == 0 && |chunks| > 0 ==> TableOk(v, chunks[0])
    requires Chunked(chunks)
    ensures Load(v, chunks, now, st).Some?
    decreases |chunks|
  {
    if |chunks| > 0 {
      var c := chunks[0];
      ConcatSplit(chunks);
      StepSucceeds(v, st, now, c);
      LoadNext(v, chunks, now, st);
      SmallLoads(v, chunks[1..], now + |c|, Step(v, st, now, c).value);
    }
  }

  /** A chunk that fits below 4 MiB and passes the check is stored. */
  lemma StepSucceeds(v: Variant, st: BlobState, now: nat, c: seq<byte>)
    requires Fits(st, now) && now + |c| < MAX_DATA_SIZE && (now == 0 ==> TableOk(v, c))
    ensures Step(v, st, now, c).Some?
  {
    AllocBelowMax(now + |c|);
    ResizeCovers(st.data, st.dataSize, now + |c|);
  }

  /** The loop after a chunk that was stored. */
  lemma LoadNext(v: Variant, chunks: seq<seq<byte>>, now: nat, st: BlobState)
    requires Fits(st, now) && |chunks| > 0 && Step(v, st, now, chunks[0]).Some?
    ensures Load(v, chunks, now, st) == Load(v, chunks[1..], now + |chunks[0]|, Step(v, st, now, chunks[0]).value)
  {
  }

  /** A loaded file: nothing else than its bytes, from address 0. */
  lemma RawLoadResult(v: Variant, chunks: seq<seq<byte>>)
    requires Chunked(chunks)
    ensures var r := RawLoad(v, true, chunks);
      (|chunks| > 0 && TableOk(v, chunks[0]) && |Concat(chunks)| < MAX_DATA_SIZE ==> r.Some?) &&
      (r.Some? ==> (r.value.start == 0 && r.value.end == |Concat(chunks)| && r.value.entry == 0 &&
        Fits(r.value, r.value.end) &&
        (r.value.end > 0 ==> r.value.data.Some? && r.value.data.value[..r.value.end] == Concat(chunks))))
  {
    LoadFields(v, chunks, 0, EmptyBlob);
    LoadBytes(v, chunks, 0, EmptyBlob, []);
    if |chunks| > 0 && TableOk(v, chunks[0]) && |Concat(chunks)| < MAX_DATA_SIZE {
      SmallLoads(v, chunks, 0, EmptyBlob);
    }
  }

  /** In the `rjmp` branch the table is accepted exactly when every odd byte below 2·CHECKINTS is an `rjmp` high byte. */
  lemma RjmpBranch(v: Variant, c: seq<byte>)
    requires |c| >= 2 * CHECKINTS && IsRjmpHigh(c[3])
    ensures TableOk(v, c) <==> forall k :: 1 <= k < 2 * CHECKINTS && k % 2 == 1 ==> c[k] / 16 == 0xC
  {
  }

  /** As written, no vector passes the 16 KiB check: a `jmp` high byte 0x94 is not an `rjmp` high byte. */
  lemma AsWrittenRefusesVectors(lo: byte, hi: byte)
    ensures !VectorOkAsWritten(lo, hi)
  {
  }

  /** As written, only the `rjmp` branch can accept a file. */
  lemma AsWrittenNeedsRjmp(c: seq<byte>)
    ensures TableOk(AsWritten, c) ==> IsRjmpHigh(c[3]) && RjmpTable(c)
  {
    if |c| >= 2 {
      AsWrittenRefusesVectors(c[0], c[1]);
    }
  }

  /** The two checks differ only in the 16 KiB branch; there the code as
      written accepts nothing the intended check refuses. */
  lemma AsWrittenStricter(c: seq<byte>)
    ensures |c| >= 4 && IsRjmpHigh(c[3]) ==> (TableOk(AsWritten, c) <==> TableOk(Intended, c))
    ensures TableOk(AsWritten, c) ==> TableOk(Intended, c)
  {
    AsWrittenNeedsRjmp(c);
  }

  /** As written, a loaded file always starts with an `rjmp` table. */
  lemma AsWrittenLoadsOnlyRjmp(opens: bool, chunks: seq<seq<byte>>)
    requires |chunks| > 0 && RawLoad(AsWritten, opens, chunks).Some?
    ensures |chunks[0]| >= 2 * CHECKINTS && IsRjmpHigh(chunks[0][3]) && RjmpTable(chunks[0])
  {
    if !TableOk(AsWritten, chunks[0]) {
      NoTableRefused(AsWritten, opens, chunks);
    }
    AsWrittenNeedsRjmp(chunks[0]);
  }

  /** A table of `jmp` vectors (0x0C 0x94 and a target word, fifteen times). */
  function JmpTable(target: seq<byte>): (c: seq<byte>)
    requires |target| == 2
    ensures |c| == 4 * CHECKINTS
  {
    seq(4 * CHECKINTS, i requires 0 <= i => if i % 4 == 0 then 0x0C else if i % 4 == 1 then 0x94 else target[i % 4 - 2])
  }

  /**
   * The 16 KiB table of `jmp` vectors: refused as written, accepted as
   * intended, and then loaded as one chunk.
   */
  lemma JmpTableLoads(target: seq<byte>)
    requires |target| == 2 && !IsRjmpHigh(target[1])
    ensures !TableOk(AsWritten, JmpTable(target)) && TableOk(Intended, JmpTable(target))
    ensures RawLoad(AsWritten, true, [JmpTable(target)]).None?
    ensures RawLoad(Intended, true, [JmpTable(target)]).Some?
  {
    var c := JmpTable(target);
    assert c[3] == target[1];
    AsWrittenRefusesVectors(c[0], c[1]);
    assert forall k :: 0 <= k < 4 * CHECKINTS && k % 4 == 0 ==> c[k] == 0x0C && c[k + 1] == 0x94;
    assert Concat([c]) == c;
    SmallLoads(Intended, [c], 0, EmptyBlob);
  }
}
