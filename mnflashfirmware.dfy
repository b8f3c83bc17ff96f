// Finding the firmware for a device (mnflash/firmware.c): the name of the
// target for a (device, wiring) pair, the loaders tried on one file, and the
// search of a directory over name prefixes and file extensions.  The file
// system is a value: what `stat` says about each path, and which loader
// reads a blob from it.

module MnflashFirmware {
  import opened Common
  import opened FirmwareBlob
  import MnflashUploader

  // ---------------------------------------------------------------------
  // Target names

  /** One entry of `target_list`. */
  datatype Target = Target(device: byte, wiring: byte, name: string)

  /** `target_list` without its NULL terminator. */
  const TARGETS: seq<Target> := [
    Target(4, 1, "tiny-85-1"),
    Target(4, 2, "tiny-85-2"),
    Target(7, 1, "tiny-861-c12"),
    Target(14, 1, "tiny-167-c12")
  ]

  const UNKNOWN: string := "unknown"

  /** The name of the first entry of `table` for the pair, if there is one. */
  function Lookup(table: seq<Target>, device: byte, wiring: byte): Option<string>
  {
    if |table| == 0 then None
    else if table[0].device == device && table[0].wiring == wiring then Some(table[0].name)
    else Lookup(table[1..], device, wiring)
  }

  /** What `firmware_get_target_name` returns. */
  function TargetNameOf(device: byte, wiring: byte): string
  {
    match Lookup(TARGETS, device, wiring)
    case Some(n) => n
    case None => UNKNOWN
  }

  /** `firmware_get_target_name`: the walk along `target_list`. */
  method TargetName(info: MnflashUploader.DeviceInfo) returns (name: string)
    ensures name == TargetNameOf(info.device, info.wiring)
  {
    var i := 0;
    while i < |TARGETS|
      invariant 0 <= i <= |TARGETS|
      invariant Lookup(TARGETS, info.device, info.wiring) == Lookup(TARGETS[i..], info.device, info.wiring)
    {
      var now := TARGETS[i];
      if now.device == info.device && now.wiring == info.wiring {
        return now.name;
      }
      assert TARGETS[i..][1..] == TARGETS[i + 1..];
      i := i + 1;
    }
    return UNKNOWN;
  }

  /** `Lookup` gives the first matching entry, and nothing exactly when no entry matches. */
  lemma {:induction false} LookupFirst(table: seq<Target>, device: byte, wiring: byte)
    ensures Lookup(table, device, wiring).Some? <==>
      exists i :: 0 <= i < |table| && table[i].device == device && table[i].wiring == wiring
    ensures Lookup(table, device, wiring).Some? ==>
      exists i :: 0 <= i < |table| && table[i].device == device && table[i].wiring == wiring &&
        table[i].name == Lookup(table, device, wiring).value &&
        forall j :: 0 <= j < i ==> !(table[j].device == device && table[j].wiring == wiring)
    decreases |table|
  {
    if |table| > 0 {
      LookupFirst(table[1..], device, wiring);
      if !(table[0].device == device && table[0].wiring == wiring) {
        if Lookup(table, device, wiring).Some? {
          var i :| 0 <= i < |table[1..]| && table[1..][i].device == device &&
            table[1..][i].wiring == wiring && table[1..][i].name == Lookup(table, device, wiring).value &&
            forall j :: 0 <= j < i ==> !(table[1..][j].device == device && table[1..][j].wiring == wiring);
          assert table[i + 1] == table[1..][i];
          forall j | 0 <= j < i + 1
            ensures !(table[j].device == device && table[j].wiring == wiring)
          {
            if j > 0 {
              assert table[j] == table[1..][j - 1];
            }
          }
        } else {
          forall i | 0 <= i < |table|
            ensures !(table[i].device == device && table[i].wiring == wiring)
          {
            if i > 0 {
              assert table[i] == table[1..][i - 1];
            }
          }
        }
      }
    }
  }

  /** The four boards the table knows, and "unknown" for any other pair. */
  lemma KnownTargets(device: byte, wiring: byte)
    ensures TargetNameOf(4, 1) == "tiny-85-1" && TargetNameOf(4, 2) == "tiny-85-2"
    ensures TargetNameOf(7, 1) == "tiny-861-c12" && TargetNameOf(14, 1) == "tiny-167-c12"
    ensures (!(device == 4 && wiring == 1) && !(device == 4 && wiring == 2) &&
        !(device == 7 && wiring == 1) && !(device == 14 && wiring == 1)) ==>
      TargetNameOf(device, wiring) == UNKNOWN
  {
    LookupFirst(TARGETS, device, wiring);
    if Lookup(TARGETS, device, wiring).Some? {
      var i :| 0 <= i < |TARGETS| && TARGETS[i].device == device && TARGETS[i].wiring == wiring;
    }
  }

  // ---------------------------------------------------------------------
  // The file system and the loaders

  /** What `stat` reports about a path. */
  datatype Kind = RegularFile | Directory | OtherFile

  datatype Format = Elf | Ihex | Raw

  /** The order `firmware_load_file_autofmt` tries the loaders in. */
  const FORMATS: seq<Format> := [Elf, Ihex, Raw]

  /**
   * The paths `stat` finds, and for each loader the paths it reads a blob
   * from (the blob it returns); a path a loader is not listed for makes it
   * return NULL.
   */
  datatype Disk = Disk(kinds: map<string, Kind>, loads: map<(Format, string), BlobState>)

  function LoadAs(disk: Disk, f: Format, path: string): Option<BlobState>
  {
    if (f, path) in disk.loads then Some(disk.loads[(f, path)]) else None
  }

  /** `firmware_load_file_autofmt`: elf, then ihex, then raw. */
  function Autofmt(disk: Disk, path: string): Option<BlobState>
  {
    var elf := LoadAs(disk, Elf, path);
    if elf.Some? then elf
    else
      var ihex := LoadAs(disk, Ihex, path);
      if ihex.Some? then ihex
      else LoadAs(disk, Raw, path)
  }

  /** The first loader of `formats` that reads `path`. */
  function FirstLoad(disk: Disk, formats: seq<Format>, path: string): Option<BlobState>
  {
    if |formats| == 0 then None
    else if LoadAs(disk, formats[0], path).Some? then LoadAs(disk, formats[0], path)
    else FirstLoad(disk, formats[1..], path)
  }

  /** The loaders are tried in the order elf, ihex, raw, and the first that reads the file wins. */
  lemma AutofmtOrder(disk: Disk, path: string)
    ensures Autofmt(disk, path) == FirstLoad(disk, FORMATS, path)
    ensures Autofmt(disk, path).None? <==> forall f :: f in FORMATS ==> LoadAs(disk, f, path).None?
    ensures LoadAs(disk, Elf, path).Some? ==> Autofmt(disk, path) == LoadAs(disk, Elf, path)
    ensures LoadAs(disk, Elf, path).None? && LoadAs(disk, Ihex, path).Some? ==>
      Autofmt(disk, path) == LoadAs(disk, Ihex, path)
  {
    assert FORMATS[1..] == [Ihex, Raw] && FORMATS[1..][1..] == [Raw] && FORMATS[1..][1..][1..] == [];
    assert FirstLoad(disk, [Raw], path) == LoadAs(disk, Raw, path);
    assert FirstLoad(disk, [Ihex, Raw], path) == if LoadAs(disk, Ihex, path).Some? then LoadAs(disk, Ihex, path)
      else LoadAs(disk, Raw, path);
  }

  /** A path the search takes: a regular file that one of the loaders reads. */
  predicate Loads(disk: Disk, name: string)
  {
    name in disk.kinds && disk.kinds[name] == RegularFile && Autofmt(disk, name).Some?
  }

  /** `firmware_locate` on a path: a file is loaded, a directory searched. */
  function Locate(disk: Disk, path: string, app: Option<string>, device: byte, wiring: byte): Option<BlobState>
  {
    if path !in disk.kinds then None
    else match disk.kinds[path]
      case RegularFile => Autofmt(disk, path)
      case Directory => FromDir(disk, path, app, device, wiring)
      case OtherFile => None
  }

  // ---------------------------------------------------------------------
  // The directory search

  const EXTENSIONS: seq<string> := [".elf", ".hex", ".bin", ".raw"]
  const PREFIXES: seq<string> := ["", "target-"]

  /** The length of the longest string of `ss`. */
  function MaxLength(ss: seq<string>): (n: nat)
    ensures forall i :: 0 <= i < |ss| ==> |ss[i]| <= n
    ensures |ss| > 0 ==> exists i :: 0 <= i < |ss| && |ss[i]| == n
  {
    if |ss| == 0 then 0
    else
      var rest := MaxLength(ss[1..]);
      assert forall i :: 1 <= i < |ss| ==> ss[i] == ss[1..][i - 1];
      if |ss[0]| > rest then |ss[0]| else rest
  }

  /** The `pflen` and `extlen` loops. */
  method Longest(ss: seq<string>) returns (n: nat)
    ensures n == MaxLength(ss)
  {
    n := 0;
    var i := 0;
    while i < |ss|
      invariant 0 <= i <= |ss|
      invariant forall k :: 0 <= k < i ==> |ss[k]| <= n
      invariant i == 0 ==> n == 0
      invariant i > 0 ==> exists k :: 0 <= k < i && |ss[k]| == n
    {
      if n < |ss[i]| {
        n := |ss[i]|;
      }
      i := i + 1;
    }
    MaxLengthUnique(ss, n);
  }

  /** A bound every string reaches and one of them meets is the longest length. */
  lemma MaxLengthUnique(ss: seq<string>, n: nat)
    requires forall k :: 0 <= k < |ss| ==> |ss[k]| <= n
    requires |ss| == 0 ==> n == 0
    requires |ss| > 0 ==> exists k :: 0 <= k < |ss| && |ss[k]| == n
    ensures n == MaxLength(ss)
  {
    if |ss| > 0 {
      var k :| 0 <= k < |ss| && |ss[k]| == n;
      var j :| 0 <= j < |ss| && |ss[j]| == MaxLength(ss);
    }
  }

  /** The size `load_firmware_from_dir` gives `snprintf` for the names. */
  function NameRoom(path: string, app: Option<string>, stem: string): nat
  {
    |path| + |stem| + MaxLength(PREFIXES) + MaxLength(EXTENSIONS) + 3 + (if app.Some? then |app.value| else 0)
  }

  /** The candidate `path/prefix+stem+ext`, or `path/prefix+stem/app+ext` when an app is given. */
  function Candidate(path: string, prefix: string, stem: string, app: Option<string>, ext: string): string
  {
    match app
    case Some(a) => path + "/" + prefix + stem + "/" + a + ext
    case None => path + "/" + prefix + stem + ext
  }

  /** What `snprintf` leaves in a buffer of `size` bytes: at most `size - 1` characters and the NUL. */
  function Snprintf(s: string, size: nat): string
  {
    if |s| < size then s else if size == 0 then [] else s[..size - 1]
  }

  /** No candidate name is cut short: the buffer has room for the longest one and its NUL. */
  lemma NameFits(path: string, prefix: string, stem: string, app: Option<string>, ext: string)
    requires prefix in PREFIXES && ext in EXTENSIONS
    ensures |Candidate(path, prefix, stem, app, ext)| < NameRoom(path, app, stem)
    ensures Snprintf(Candidate(path, prefix, stem, app, ext), NameRoom(path, app, stem)) ==
      Candidate(path, prefix, stem, app, ext)
  {
    var i :| 0 <= i < |PREFIXES| && PREFIXES[i] == prefix;
    var j :| 0 <= j < |EXTENSIONS| && EXTENSIONS[j] == ext;
    assert |PREFIXES[i]| <= MaxLength(PREFIXES);
    assert |EXTENSIONS[j]| <= MaxLength(EXTENSIONS);
  }

  /** The names tried with one prefix, in extension order. */
  function Row(path: string, prefix: string, stem: string, app: Option<string>, exts: seq<string>): seq<string>
  {
    if |exts| == 0 then [] else [Candidate(path, prefix, stem, app, exts[0])] + Row(path, prefix, stem, app, exts[1..])
  }

  /** All names tried: prefixes in the outer loop, extensions in the inner. */
  function Grid(path: string, prefixes: seq<string>, stem: string, app: Option<string>): seq<string>
  {
    if |prefixes| == 0 then []
    else Row(path, prefixes[0], stem, app, EXTENSIONS) + Grid(path, prefixes[1..], stem, app)
  }

  /** The blob of the first name that is a regular file a loader reads. */
  function Search(disk: Disk, names: seq<string>): Option<BlobState>
  {
    if |names| == 0 then None
    else if Loads(disk, names[0]) then Autofmt(disk, names[0])
    else Search(disk, names[1..])
  }

  /** What `load_firmware_from_dir` returns. */
  function FromDir(disk: Disk, path: string, app: Option<string>, device: byte, wiring: byte): Option<BlobState>
  {
    Search(disk, Grid(path, PREFIXES, TargetNameOf(device, wiring), app))
  }

  /** The search returns the blob of the first loadable name, and nothing exactly when no name loads. */
  lemma {:induction false} SearchFirst(disk: Disk, names: seq<string>)
    ensures Search(disk, names).None? <==> forall i :: 0 <= i < |names| ==> !Loads(disk, names[i])
    ensures Search(disk, names).Some? ==>
      exists i :: 0 <= i < |names| && Loads(disk, names[i]) && Search(disk, names) == Autofmt(disk, names[i]) &&
        forall j :: 0 <= j < i ==> !Loads(disk, names[j])
    decreases |names|
  {
    if |names| > 0 {
      SearchFirst(disk, names[1..]);
      assert forall i :: 1 <= i < |names| ==> names[i] == names[1..][i - 1];
      if !Loads(disk, names[0]) && Search(disk, names).Some? {
        var i :| 0 <= i < |names[1..]| && Loads(disk, names[1..][i]) &&
          Search(disk, names) == Autofmt(disk, names[1..][i]) &&
          forall j :: 0 <= j < i ==> !Loads(disk, names[1..][j]);
        assert names[i + 1] == names[1..][i];
        assert forall j :: 0 <= j < i + 1 ==> !Loads(disk, names[j]);
      }
    }
  }

  lemma {:induction false} RowLength(path: string, prefix: string, stem: string, app: Option<string>, exts: seq<string>)
    ensures |Row(path, prefix, stem, app, exts)| == |exts|
    ensures forall k :: 0 <= k < |exts| ==> Row(path, prefix, stem, app, exts)[k] == Candidate(path, prefix, stem, app, exts[k])
    decreases |exts|
  {
    if |exts| > 0 {
      RowLength(path, prefix, stem, app, exts[1..]);
    }
  }

  /** Name `j·4 + i` of the search is prefix `j` with extension `i`. */
  lemma {:induction false} GridAt(path: string, prefixes: seq<string>, stem: string, app: Option<string>, j: nat, i: nat)
    requires j < |prefixes| && i < |EXTENSIONS|
    ensures |Grid(path, prefixes, stem, app)| == |prefixes| * |EXTENSIONS|
    ensures Grid(path, prefixes, stem, app)[j * |EXTENSIONS| + i] == Candidate(path, prefixes[j], stem, app, EXTENSIONS[i])
    decreases |prefixes|
  {
    GridLength(path, prefixes, stem, app);
    var row := Row(path, prefixes[0], stem, app, EXTENSIONS);
    var later := Grid(path, prefixes[1..], stem, app);
    RowLength(path, prefixes[0], stem, app, EXTENSIONS);
    assert Grid(path, prefixes, stem, app) == row + later;
    if j > 0 {
      GridAt(path, prefixes[1..], stem, app, j - 1, i);
      MulStep(j, |EXTENSIONS|);
      var k := (j - 1) * |EXTENSIONS| + i;
      assert j * |EXTENSIONS| + i == |row| + k;
      assert (row + later)[|row| + k] == later[k];
    }
  }

  lemma {:induction false} GridLength(path: string, prefixes: seq<string>, stem: string, app: Option<string>)
    ensures |Grid(path, prefixes, stem, app)| == |prefixes| * |EXTENSIONS|
    decreases |prefixes|
  {
    if |prefixes| > 0 {
      RowLength(path, prefixes[0], stem, app, EXTENSIONS);
      GridLength(path, prefixes[1..], stem, app);
    }
  }

  /** A search through two lists of names finds in the second only what the first does not hold. */
  lemma {:induction false} SearchConcat(disk: Disk, names: seq<string>, rest: seq<string>)
    ensures Search(disk, names + rest) == if Search(disk, names).Some? then Search(disk, names) else Search(disk, rest)
    decreases |names|
  {
    if |names| > 0 {
      assert (names + rest)[1..] == names[1..] + rest;
      SearchConcat(disk, names[1..], rest);
    } else {
      assert names + rest == rest;
    }
  }

  /** One `stat` and, on a regular file, the loaders: the blob exactly when the name loads. */
  method TryName(disk: Disk, name: string) returns (firmware: Option<BlobState>)
    ensures firmware == if Loads(disk, name) then Autofmt(disk, name) else None
  {
    firmware := None;
    if name in disk.kinds {
      if disk.kinds[name] == RegularFile {
        firmware := Autofmt(disk, name);
      }
    }
  }

  /** The inner loop of `load_firmware_from_dir`: the extensions with one prefix. */
  method TryPrefix(disk: Disk, path: string, prefix: string, stem: string, app: Option<string>, len: nat)
    returns (firmware: Option<BlobState>)
    requires prefix in PREFIXES && len == NameRoom(path, app, stem)
    ensures firmware == Search(disk, Row(path, prefix, stem, app, EXTENSIONS))
  {
    ghost var row := Row(path, prefix, stem, app, EXTENSIONS);
    RowLength(path, prefix, stem, app, EXTENSIONS);
    firmware := None;
    var i := 0;
    while i < |EXTENSIONS|
      invariant 0 <= i <= |EXTENSIONS|
      invariant firmware.None? && Search(disk, row) == Search(disk, row[i..])
    {
      var name := Snprintf(Candidate(path, prefix, stem, app, EXTENSIONS[i]), len);
      NameFits(path, prefix, stem, app, EXTENSIONS[i]);
      assert name == row[i..][0];
      firmware := TryName(disk, name);
      if firmware.Some? {
        return;
      }
      assert row[i..][1..] == row[i + 1..];
      i := i + 1;
    }
  }

  /** `load_firmware_from_dir`: the nested loops over prefixes and extensions. */
  method LoadFromDir(disk: Disk, path: string, app: Option<string>, info: MnflashUploader.DeviceInfo)
    returns (firmware: Option<BlobState>)
    ensures firmware == FromDir(disk, path, app, info.device, info.wiring)
  {
    var stem := TargetName(info);
    var pflen := Longest(PREFIXES);
    var extlen := Longest(EXTENSIONS);
    var len := |path| + |stem| + pflen + extlen + 3;
    if app.Some? {
      len := len + |app.value|;
    }
    ghost var all := Grid(path, PREFIXES, stem, app);
    firmware := None;
    var j := 0;
    while j < |PREFIXES|
      invariant 0 <= j <= |PREFIXES|
      invariant firmware.None? && Search(disk, all) == Search(disk, Grid(path, PREFIXES[j..], stem, app))
    {
      ghost var later := Grid(path, PREFIXES[j + 1..], stem, app);
      assert Grid(path, PREFIXES[j..], stem, app) == Row(path, PREFIXES[j], stem, app, EXTENSIONS) + later by {
        assert PREFIXES[j..][1..] == PREFIXES[j + 1..];
      }
      SearchConcat(disk, Row(path, PREFIXES[j], stem, app, EXTENSIONS), later);
      firmware := TryPrefix(disk, path, PREFIXES[j], stem, app, len);
      if firmware.Some? {
        return;
      }
      j := j + 1;
    }
  }

  /** `firmware_locate`. */
  method Find(disk: Disk, path: string, app: Option<string>, info: MnflashUploader.DeviceInfo)
    returns (firmware: Option<BlobState>)
    ensures firmware == Locate(disk, path, app, info.device, info.wiring)
  {
    if path in disk.kinds {
      if disk.kinds[path] == RegularFile {
        return Autofmt(disk, path);
      } else if disk.kinds[path] == Directory {
        firmware := LoadFromDir(disk, path, app, info);
        return;
      }
    }
    return None;
  }

  /**
   * In a directory, the files named after the target come before the ones
   * with the `target-` prefix, and within a prefix `.elf`, `.hex`, `.bin`,
   * `.raw` in that order: the first such regular file a loader reads wins.
   */
  lemma DirectoryOrder(disk: Disk, path: string, app: Option<string>, device: byte, wiring: byte, j: nat, i: nat)
    requires j < |PREFIXES| && i < |EXTENSIONS|
    requires var stem := TargetNameOf(device, wiring); Loads(disk, Candidate(path, PREFIXES[j], stem, app, EXTENSIONS[i]))
    requires var stem := TargetNameOf(device, wiring);
      forall j', i' :: 0 <= j' < |PREFIXES| && 0 <= i' < |EXTENSIONS| && j' * |EXTENSIONS| + i' < j * |EXTENSIONS| + i ==>
        !Loads(disk, Candidate(path, PREFIXES[j'], stem, app, EXTENSIONS[i']))
    ensures var stem := TargetNameOf(device, wiring);
      FromDir(disk, path, app, device, wiring) == Autofmt(disk, Candidate(path, PREFIXES[j], stem, app, EXTENSIONS[i]))
  {
    var stem := TargetNameOf(device, wiring);
    var names := Grid(path, PREFIXES, stem, app);
    GridAt(path, PREFIXES, stem, app, j, i);
    var n := j * |EXTENSIONS| + i;
    forall k | 0 <= k < n
      ensures !Loads(disk, names[k])
    {
      var j', i' := k / |EXTENSIONS|, k % |EXTENSIONS|;
      GridAt(path, PREFIXES, stem, app, j', i');
    }
    SearchAt(disk, names, n);
  }

  /** A search whose first loadable name is at `n` returns that name's blob. */
  lemma {:induction false} SearchAt(disk: Disk, names: seq<string>, n: nat)
    requires n < |names| && Loads(disk, names[n])
    requires forall k :: 0 <= k < n ==> !Loads(disk, names[k])
    ensures Search(disk, names) == Autofmt(disk, names[n])
    decreases n
  {
    if n > 0 {
      assert forall k :: 0 <= k < n - 1 ==> names[1..][k] == names[k + 1];
      SearchAt(disk, names[1..], n - 1);
    }
  }
}
