// `struct firmware_blob` and its grow-and-fill operation
// (mnflash/firmware-blob.c, mnflash/firmware-blob.h): an image buffer that
// grows in 4096-byte steps up to 4 MiB, new space reading as erased flash.
module FirmwareBlob {
  import opened Common

  const ALLOC_SIZE: nat := 4096
  const MAX_DATA_SIZE: nat := 1024 * 4096

  /** The allocation `firmware_blob_resize` asks for to cover `address`: the next 4096-byte step above it. */
  function AllocFor(address: nat): (n: nat)
    ensures n % ALLOC_SIZE == 0 && address < n <= address + ALLOC_SIZE
  {
    (address / ALLOC_SIZE + 1) * ALLOC_SIZE
  }

  /** The blob's fields as a value; `data == None` is the NULL pointer. */
  datatype BlobState = BlobState(entry: nat, start: nat, end: nat, dataSize: nat, data: Option<seq<byte>>)

  /** `firmware_blob_new`: everything zeroed, no data. */
  const EmptyBlob := BlobState(0, 0, 0, 0, None)

  /**
   * `firmware_blob_resize` on the data pointer and size. A blob whose data
   * is NULL while its size is not 0 is never resized (the loader gives it
   * up); it would copy uninitialized memory.
   */
  function Resized(data: Option<seq<byte>>, dataSize: nat, address: nat): (r: (Option<seq<byte>>, nat))
    requires data.Some? ==> |data.value| == dataSize
    requires data.None? ==> dataSize == 0
    ensures data.Some? && dataSize >= address ==> r == (data, dataSize)
    ensures (data.None? || dataSize < address) && AllocFor(address) > MAX_DATA_SIZE ==> r == (None, dataSize)
    ensures (data.None? || dataSize < address) && AllocFor(address) <= MAX_DATA_SIZE ==>
      && r.0.Some? && r.1 == AllocFor(address) == |r.0.value|
      && dataSize <= r.1
      && (data.Some? ==> r.0.value[..dataSize] == data.value)
      && (forall i :: dataSize <= i < r.1 ==> r.0.value[i] == 0xFF)
  {
    if dataSize < address || data.None? then
      var newAlloc := AllocFor(address);
      if newAlloc > MAX_DATA_SIZE then (None, dataSize)
      else
        var kept := if data.Some? then data.value else [];
        (Some(kept + seq(newAlloc - dataSize, _ => 0xFF)), newAlloc)
    else (data, dataSize)
  }

  /** After a resize the data is NULL, or it has room for every index below `address`. */
  lemma ResizeCovers(data: Option<seq<byte>>, dataSize: nat, address: nat)
    requires data.Some? ==> |data.value| == dataSize
    requires data.None? ==> dataSize == 0
    ensures var r := Resized(data, dataSize, address);
      r.0.Some? ==> r.1 >= address && |r.0.value| == r.1
    ensures var r := Resized(data, dataSize, address);
      r.0.None? <==> AllocFor(address) > MAX_DATA_SIZE && (data.None? || dataSize < address)
  {
  }

  /** Resizing twice to the same address changes nothing the second time. */
  lemma ResizeIdempotent(data: Option<seq<byte>>, dataSize: nat, address: nat)
    requires data.Some? ==> |data.value| == dataSize
    requires data.None? ==> dataSize == 0
    requires Resized(data, dataSize, address).0.Some?
    ensures var r := Resized(data, dataSize, address);
      Resized(r.0, r.1, address) == r
  {
  }

  class Blob {
    var entry: nat
    var start: nat
    var end: nat
    var dataSize: nat
    var data: Option<seq<byte>>

    function State(): BlobState
      reads this
    {
      BlobState(entry, start, end, dataSize, data)
    }

    /** `data_size` is the length of the buffer whenever there is one, and 0 before the first allocation. */
    predicate Valid()
      reads this
    {
      (data.Some? ==> |data.value| == dataSize) && (data.None? ==> dataSize == 0)
    }

    /** `firmware_blob_new` (an allocation failure there is not modelled). */
    constructor ()
      ensures State() == EmptyBlob && Valid()
    {
      entry, start, end, dataSize, data := 0, 0, 0, 0, None;
    }

    /** `firmware_blob_resize` */
    method Resize(address: nat)
      requires Valid()
      modifies this
      ensures (data, dataSize) == Resized(old(data), old(dataSize), address)
      ensures entry == old(entry) && start == old(start) && end == old(end)
      ensures data.Some? ==> Valid()
    {
      if dataSize < address || data.None? {
        var newAlloc := AllocFor(address);
        if newAlloc > MAX_DATA_SIZE {
          data := None;
          return;
        }
        // realloc keeps the old bytes; memset marks the new ones erased
        var kept := if data.Some? then data.value else [];
        data := Some(kept + seq(newAlloc - dataSize, _ => 0xFF));
        dataSize := newAlloc;
      }
    }
  }
}
