/** `ElfFile::get_libs_full_paths` and `ElfFile::collect_libs` as functions:
    what one object contributes (its word size, its DT_NEEDED names and its
    search directories), the first-match directory search, and the
    depth-first traversal that threads the visited set and the result list. */
module Traversal {
  import opened Wrappers
  import opened CStr
  import opened Elf

  /** The fixed directories every search list starts with, in this order. */
  const FixedDirs: seq<Path> := [Ascii("/usr/lib"), Ascii("/lib64"), Ascii("/lib/x86_64-linux-gnu"), Ascii("/lib"), Ascii("/usr/lib64")]

  /** The components of `comps` that exist, in their order. */
  function ExistingDirs(host: Host, comps: seq<Path>): (r: seq<Path>)
    ensures |r| <= |comps|
  {
    if comps == [] then []
    else
      var init := comps[..|comps| - 1];
      var last := comps[|comps| - 1];
      if Exists(host, last) then ExistingDirs(host, init) + [last] else ExistingDirs(host, init)
  }

  /** Keeping or dropping one more component. */
  lemma ExistingDirsStep(host: Host, comps: seq<Path>, i: nat)
    requires i < |comps|
    ensures ExistingDirs(host, comps[..i + 1])
         == if Exists(host, comps[i]) then ExistingDirs(host, comps[..i]) + [comps[i]] else ExistingDirs(host, comps[..i])
  {
    assert comps[..i + 1][..i] == comps[..i];
  }

  /** A directory is kept exactly when it is one of the components and exists. */
  lemma {:induction false} ExistingDirsMembers(host: Host, comps: seq<Path>, d: Path)
    ensures d in ExistingDirs(host, comps) <==> d in comps && Exists(host, d)
    decreases |comps|
  {
    if comps != [] {
      var init := comps[..|comps| - 1];
      assert comps == init + [comps[|comps| - 1]];
      ExistingDirsMembers(host, init, d);
    }
  }

  /** The directories LD_LIBRARY_PATH contributes: its `:`-separated components that exist. */
  function EnvDirs(host: Host): seq<Path>
  {
    match host.ldLibraryPath
    case None => []
    case Some(v) => ExistingDirs(host, Split(v, COLON))
  }

  /** What the scan of `.dynamic` collects, each list in entry order: the
      DT_NEEDED names and the directories of the DT_RPATH/DT_RUNPATH strings. */
  datatype Scan = Scan(needed: seq<seq<byte>>, hints: seq<Path>)

  /** One step of the scan. A DT_NEEDED name that cannot be read makes
      `collect_libs` return None; an unreadable DT_RPATH/DT_RUNPATH string and
      an offset past the end of `.dynstr` panic. Other tags are ignored. */
  function ScanEntry(e: DynEntry, dynstr: seq<byte>, s: Scan): Exit<Scan>
  {
    if e.tag == DT_NEEDED then
      if e.val > |dynstr| then Panic
      else match U8SliceToStr(dynstr[e.val..])
        case None => Fail
        case Some(name) => Done(Scan(s.needed + [name], s.hints))
    else if e.tag == DT_RPATH || e.tag == DT_RUNPATH then
      if e.val > |dynstr| then Panic
      else match U8SliceToStr(dynstr[e.val..])
        case None => Panic
        case Some(paths) => Done(Scan(s.needed, s.hints + Split(paths, COLON)))
    else Done(s)
  }

  /** The number of DT_NEEDED entries. */
  function CountNeeded(entries: seq<DynEntry>): nat
  {
    if entries == [] then 0
    else CountNeeded(entries[..|entries| - 1]) + if entries[|entries| - 1].tag == DT_NEEDED then 1 else 0
  }

  /** The scan of all entries; the first entry that fails decides the outcome. */
  function ScanEntries(entries: seq<DynEntry>, dynstr: seq<byte>): (r: Exit<Scan>)
    ensures r.Done? ==> |r.value.needed| == CountNeeded(entries)
    ensures CountNeeded(entries) == 0 ==> !r.Fail?
  {
    if entries == [] then Done(Scan([], []))
    else match ScanEntries(entries[..|entries| - 1], dynstr)
      case Done(s) => ScanEntry(entries[|entries| - 1], dynstr, s)
      case Fail => Fail
      case Panic => Panic
  }

  /** Every needed name is a NUL-free, valid UTF-8 string, and no hint
      directory contains a colon. */
  lemma {:induction false} ScanEntriesWellFormed(entries: seq<DynEntry>, dynstr: seq<byte>)
    requires ScanEntries(entries, dynstr).Done?
    ensures var s := ScanEntries(entries, dynstr).value;
      (forall i | 0 <= i < |s.needed| :: NUL !in s.needed[i] && ValidUtf8(s.needed[i]))
      && (forall i | 0 <= i < |s.hints| :: COLON !in s.hints[i])
    decreases |entries|
  {
    if entries != [] {
      ScanEntriesWellFormed(entries[..|entries| - 1], dynstr);
    }
  }

  /** Scanning one more entry after a prefix that succeeded. */
  lemma ScanEntriesStep(entries: seq<DynEntry>, dynstr: seq<byte>, i: nat)
    requires i < |entries| && ScanEntries(entries[..i], dynstr).Done?
    ensures ScanEntries(entries[..i + 1], dynstr)
         == ScanEntry(entries[i], dynstr, ScanEntries(entries[..i], dynstr).value)
  {
    assert entries[..i + 1][..i] == entries[..i];
  }

  /** Once a prefix of the entries fails, the scan of all of them fails the same way. */
  lemma {:induction false} ScanEntriesStops(entries: seq<DynEntry>, dynstr: seq<byte>, i: nat)
    requires i <= |entries| && !ScanEntries(entries[..i], dynstr).Done?
    ensures ScanEntries(entries, dynstr) == ScanEntries(entries[..i], dynstr)
    decreases |entries|
  {
    if i == |entries| {
      assert entries[..i] == entries;
    } else {
      var init := entries[..|entries| - 1];
      assert init[..i] == entries[..i];
      ScanEntriesStops(init, dynstr, i);
    }
  }

  /** What `collect_libs` learns about one object before resolving anything:
      its word size, its needed names and its search directories. */
  datatype FileView = FileView(is64: bool, needed: seq<seq<byte>>, searchDirs: seq<Path>)

  /** Reading one object: it must be readable and parse, and have `.dynstr`
      and `.dynamic` (each missing piece panics); the search directories are
      the fixed ones, then those of LD_LIBRARY_PATH, then the hints. */
  function Inspect(host: Host, path: Path): (r: Exit<FileView>)
    ensures r.Done? ==> path in host.fs && host.fs[path].ElfObject?
    ensures r.Done? ==> r.value.is64 == Is64(host.fs[path].elf.elfClass)
    ensures r.Done? ==> FixedDirs + EnvDirs(host) <= r.value.searchDirs
  {
    if path !in host.fs || !host.fs[path].ElfObject? then Panic
    else
      var elf := host.fs[path].elf;
      if elf.dynstr.None? || elf.dynamic.None? then Panic
      else match ScanEntries(elf.dynamic.value, elf.dynstr.value)
        case Done(s) => Done(FileView(Is64(elf.elfClass), s.needed, FixedDirs + EnvDirs(host) + s.hints))
        case Fail => Fail
        case Panic => Panic
  }

  /** The candidate `dir.join(name)` exists and passes `verify_arch`. */
  predicate Acceptable(host: Host, dir: Path, name: seq<byte>, is64: bool)
  {
    var c := host.join(dir, name);
    Exists(host, c) && VerifyArch(host, c, is64)
  }

  /** The first index at or after `j` whose directory gives an acceptable candidate. */
  function FirstAcceptableFrom(host: Host, dirs: seq<Path>, name: seq<byte>, is64: bool, j: nat): (r: Option<nat>)
    requires j <= |dirs|
    ensures r.Some? ==> j <= r.value < |dirs| && Acceptable(host, dirs[r.value], name, is64)
    ensures r.Some? ==> forall k | j <= k < r.value :: !Acceptable(host, dirs[k], name, is64)
    ensures r.None? ==> forall k | j <= k < |dirs| :: !Acceptable(host, dirs[k], name, is64)
    decreases |dirs| - j
  {
    if j == |dirs| then None
    else if Acceptable(host, dirs[j], name, is64) then Some(j)
    else FirstAcceptableFrom(host, dirs, name, is64, j + 1)
  }

  /** First match wins: the index of the first directory whose candidate is
      acceptable; a candidate that is missing, unreadable, not ELF or of the
      other class is passed over. */
  function FirstAcceptable(host: Host, dirs: seq<Path>, name: seq<byte>, is64: bool): (r: Option<nat>)
    ensures r.Some? ==> r.value < |dirs| && Acceptable(host, dirs[r.value], name, is64)
    ensures r.Some? ==> forall k | 0 <= k < r.value :: !Acceptable(host, dirs[k], name, is64)
    ensures r.None? ==> forall k | 0 <= k < |dirs| :: !Acceptable(host, dirs[k], name, is64)
  {
    FirstAcceptableFrom(host, dirs, name, is64, 0)
  }

  /** The two accumulators `collect_libs` threads through the traversal:
      `seen_libs` and `lib_paths`. */
  datatype Progress = Progress(seen: set<Path>, libPaths: seq<Path>)

  /** `collect_libs(path, seen_libs, lib_paths)`: Done with the new
      accumulators when it returns `Some(())`; on `None` or a panic the
      accumulators are of no further use and are dropped. */
  function Collect(host: Host, path: Path, acc: Progress): (r: Exit<Progress>)
    ensures r.Done? ==> acc.seen <= r.value.seen && acc.libPaths <= r.value.libPaths
    decreases |host.fs.Keys - acc.seen|, 1, 0
  {
    match Inspect(host, path)
    case Done(v) => ResolveAll(host, v.is64, v.needed, v.searchDirs, acc)
    case Fail => Fail
    case Panic => Panic
  }

  /** The resolution loop of `collect_libs` over the needed names, from the
      first: a name without an acceptable candidate gives up; a candidate
      already seen is skipped; a new one is marked seen, appended, and
      traversed before the next name. */
  function ResolveAll(host: Host, is64: bool, needed: seq<seq<byte>>, dirs: seq<Path>, acc: Progress): (r: Exit<Progress>)
    ensures r.Done? ==> acc.seen <= r.value.seen && acc.libPaths <= r.value.libPaths
    decreases |host.fs.Keys - acc.seen|, 0, |needed|
  {
    if needed == [] then Done(acc)
    else match FirstAcceptable(host, dirs, needed[0], is64)
      case None => Fail
      case Some(k) =>
        var c := host.join(dirs[k], needed[0]);
        if c in acc.seen then ResolveAll(host, is64, needed[1..], dirs, acc)
        else
          var acc1 := Progress(acc.seen + {c}, acc.libPaths + [c]);
          FewerUnseen(host.fs.Keys, acc.seen, acc1.seen, c);
          match Collect(host, c, acc1)
          case Done(acc2) =>
            FewerUnseen(host.fs.Keys, acc.seen, acc2.seen, c);
            ResolveAll(host, is64, needed[1..], dirs, acc2)
          case Fail => Fail
          case Panic => Panic
  }

  /** Resolving a list of names is resolving its first name, then the rest
      from where that left off. */
  lemma ResolveAllSplit(host: Host, is64: bool, needed: seq<seq<byte>>, dirs: seq<Path>, acc: Progress)
    requires needed != []
    ensures ResolveAll(host, is64, needed, dirs, acc)
         == match ResolveAll(host, is64, [needed[0]], dirs, acc)
            case Done(a) => ResolveAll(host, is64, needed[1..], dirs, a)
            case Fail => Fail
            case Panic => Panic
  {
    assert [needed[0]][1..] == [];
  }

  /** `get_libs_full_paths`: the traversal from `start` with `start` already
      seen and no result yet; Done with the result list when it succeeds. */
  function LibsFullPaths(host: Host, start: Path): Exit<seq<Path>>
  {
    match Collect(host, start, Progress({start}, []))
    case Done(p) => Done(p.libPaths)
    case Fail => Fail
    case Panic => Panic
  }

  /** A subset is no larger. */
  lemma {:induction false} SubsetCard(a: set<Path>, b: set<Path>)
    requires a <= b
    ensures |a| <= |b|
    decreases |a|
  {
    if a != {} {
      var x :| x in a;
      SubsetCard(a - {x}, b - {x});
    }
  }

  /** Marking a new path of the file system as seen shrinks the unseen part. */
  lemma UnseenShrinks(keys: set<Path>, seen: set<Path>, seen': set<Path>)
    requires seen <= seen'
    ensures |keys - seen'| <= |keys - seen|
  {
    SubsetCard(keys - seen', keys - seen);
  }

  lemma FewerUnseen(keys: set<Path>, seen: set<Path>, seen': set<Path>, c: Path)
    requires seen + {c} <= seen' && c in keys && c !in seen
    ensures |keys - seen'| < |keys - seen|
  {
    assert keys - seen' <= (keys - seen) - {c};
    SubsetCard(keys - seen', (keys - seen) - {c});
  }
}
