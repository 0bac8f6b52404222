/** `ElfFile` and its methods in the imperative form of the source:
    `collect_libs` builds its search list and its list of needed names by
    pushing in loops, scans the directories with a `found` flag and `break`,
    and threads the visited set and the result list through its recursion.
    Each method is proved to compute the function of `Traversal` that
    specifies it. */
module LibFinder {
  import opened Wrappers
  import opened CStr
  import opened Elf
  import opened Traversal
  import opened Properties

  /** An ELF file on disk, named by its path. */
  datatype ElfFile = ElfFile(path: Path)

  /** `get_libs_full_paths`: seed the visited set with the file's own path
      and the result list with nothing, and collect. */
  method GetLibsFullPaths(host: Host, file: ElfFile) returns (r: Exit<seq<Path>>)
    ensures r == LibsFullPaths(host, file.path)
    ensures r.Done? ==> Distinct(r.value) && file.path !in r.value
  {
    var seenLibs: set<Path> := {file.path};
    var libPaths: seq<Path> := [];
    var collected := CollectLibs(host, file.path, Progress(seenLibs, libPaths));
    match collected {
      case Done(acc) => r := Done(acc.libPaths);
      case Fail => r := Fail;
      case Panic => r := Panic;
    }
    LibsFullPathsSound(host, file.path);
  }

  /** The fixed directories, then each `:`-separated LD_LIBRARY_PATH
      component that exists, in order. */
  method InitialSearchDirs(host: Host) returns (searchDirs: seq<Path>)
    ensures searchDirs == FixedDirs + EnvDirs(host)
  {
    searchDirs := FixedDirs;
    match host.ldLibraryPath
    case None =>
      assert EnvDirs(host) == [];
      assert searchDirs == FixedDirs + [];
    case Some(ldLibraryPathVar) =>
      var components := Split(ldLibraryPathVar, COLON);
      assert EnvDirs(host) == ExistingDirs(host, components);
      searchDirs := PushExisting(host, searchDirs, components);
  }

  /** The loop over the LD_LIBRARY_PATH components: push each one that exists. */
  method PushExisting(host: Host, dirs: seq<Path>, components: seq<Path>) returns (searchDirs: seq<Path>)
    ensures searchDirs == dirs + ExistingDirs(host, components)
  {
    searchDirs := dirs;
    ghost var envDirs: seq<Path> := [];
    for i := 0 to |components|
      invariant envDirs == ExistingDirs(host, components[..i])
      invariant searchDirs == dirs + envDirs
    {
      var libPath := components[i];
      ExistingDirsStep(host, components, i);
      if Exists(host, libPath) {
        searchDirs := searchDirs + [libPath];
        envDirs := envDirs + [libPath];
      }
    }
    assert components[..|components|] == components;
  }

  /** The loop over `.dynamic`: push each DT_NEEDED name onto the list of
      needed names, and each directory of a DT_RPATH/DT_RUNPATH string onto
      the search directories. */
  method ScanDynamic(entries: seq<DynEntry>, dynstrBytes: seq<byte>, searchDirs0: seq<Path>)
    returns (r: Exit<seq<seq<byte>>>, searchDirs: seq<Path>)
    ensures match ScanEntries(entries, dynstrBytes)
      case Done(s) => r == Done(s.needed) && searchDirs == searchDirs0 + s.hints
      case Fail => r == Fail
      case Panic => r == Panic
  {
    var libs: seq<seq<byte>> := [];
    searchDirs := searchDirs0;
    ghost var hints: seq<Path> := [];
    for i := 0 to |entries|
      invariant ScanEntries(entries[..i], dynstrBytes) == Done(Scan(libs, hints))
      invariant searchDirs == searchDirs0 + hints
    {
      ScanEntriesStep(entries, dynstrBytes, i);
      ghost var next := ScanEntry(entries[i], dynstrBytes, Scan(libs, hints));
      var step;
      step, libs, searchDirs := ScanOne(entries[i], dynstrBytes, libs, searchDirs, searchDirs0, hints);
      if !step.Done? {
        ScanEntriesStops(entries, dynstrBytes, i + 1);
        return if step.Fail? then Fail else Panic, searchDirs;
      }
      hints := next.value.hints;
    }
    assert entries[..|entries|] == entries;
    r := Done(libs);
  }

  /** One turn of the loop over `.dynamic`. A DT_NEEDED entry pushes its
      name (an unreadable name makes `collect_libs` return None); a
      DT_RPATH/DT_RUNPATH entry pushes each `:`-separated directory of its
      string (an unreadable string panics); an offset past the end of
      `.dynstr` panics; other entries change nothing. `hints` are the
      directories pushed so far onto `searchDirs0`. */
  method ScanOne(entry: DynEntry, dynstrBytes: seq<byte>, libs: seq<seq<byte>>, searchDirs: seq<Path>,
                 ghost searchDirs0: seq<Path>, ghost hints: seq<Path>)
    returns (r: Exit<()>, libs': seq<seq<byte>>, searchDirs': seq<Path>)
    requires searchDirs == searchDirs0 + hints
    ensures match ScanEntry(entry, dynstrBytes, Scan(libs, hints))
      case Done(s) => r == Done(()) && libs' == s.needed && searchDirs' == searchDirs0 + s.hints
      case Fail => r == Fail
      case Panic => r == Panic
  {
    libs', searchDirs' := libs, searchDirs;
    if entry.tag == DT_NEEDED {
      var offset := entry.val;
      if offset > |dynstrBytes| {
        return Panic, libs', searchDirs';
      }
      var name := U8SliceToStr(dynstrBytes[offset..]);
      if name.None? {
        return Fail, libs', searchDirs';
      }
      libs' := libs + [name.value];
    } else if entry.tag == DT_RPATH || entry.tag == DT_RUNPATH {
      var offset := entry.val;
      if offset > |dynstrBytes| {
        return Panic, libs', searchDirs';
      }
      var pathsStr := U8SliceToStr(dynstrBytes[offset..]);
      if pathsStr.None? {
        return Panic, libs', searchDirs';
      }
      var pieces := Split(pathsStr.value, COLON);
      assert searchDirs0 + (hints + pieces) == searchDirs + pieces;
      searchDirs' := PushAll(searchDirs, pieces);
    }
    r := Done(());
  }

  /** Pushing each piece of a split RPATH/RUNPATH string, in order. */
  method PushAll(dirs: seq<Path>, pieces: seq<Path>) returns (r: seq<Path>)
    ensures r == dirs + pieces
  {
    r := dirs;
    for k := 0 to |pieces|
      invariant r == dirs + pieces[..k]
    {
      r := r + [pieces[k]];
    }
    assert pieces[..|pieces|] == pieces;
  }

  /** The first half of `collect_libs`: read and parse the object at `path`
      (each failure panics), take its word size and `.dynstr`, build the
      search directories and scan `.dynamic`. */
  method ReadObject(host: Host, path: Path) returns (r: Exit<FileView>)
    ensures r == Inspect(host, path)
  {
    // `fs::read` and `minimal_parse`, each followed by `expect`
    if path !in host.fs || !host.fs[path].ElfObject? {
      return Panic;
    }
    var elf := host.fs[path].elf;
    var is64Bit := match elf.elfClass case ELF64 => true case ELF32 => false;
    if elf.dynstr.None? {
      return Panic;
    }
    var dynstrBytes := elf.dynstr.value;
    var searchDirs := InitialSearchDirs(host);
    if elf.dynamic.None? {
      return Panic;
    }
    var libs;
    libs, searchDirs := ScanDynamic(elf.dynamic.value, dynstrBytes, searchDirs);
    match libs {
      case Done(needed) => r := Done(FileView(is64Bit, needed, searchDirs));
      case Fail => r := Fail;
      case Panic => r := Panic;
    }
  }

  /** `collect_libs`: read the object at `path`, then resolve each needed
      name in order, recursing into every path not seen before. */
  method CollectLibs(host: Host, path: Path, acc: Progress) returns (r: Exit<Progress>)
    ensures r == Collect(host, path, acc)
    decreases |host.fs.Keys - acc.seen|
  {
    var view := ReadObject(host, path);
    if view.Fail? {
      return Fail;
    } else if view.Panic? {
      return Panic;
    }
    var is64Bit, libs, searchDirs := view.value.is64, view.value.needed, view.value.searchDirs;
    assert Collect(host, path, acc) == ResolveAll(host, is64Bit, libs, searchDirs, acc);

    var seenLibs, libPaths := acc.seen, acc.libPaths;
    for i := 0 to |libs|
      invariant acc.seen <= seenLibs
      invariant ResolveAll(host, is64Bit, libs, searchDirs, acc)
             == ResolveAll(host, is64Bit, libs[i..], searchDirs, Progress(seenLibs, libPaths))
    {
      ResolveAllSplit(host, is64Bit, libs[i..], searchDirs, Progress(seenLibs, libPaths));
      assert libs[i..][0] == libs[i] && libs[i..][1..] == libs[i + 1..];
      UnseenShrinks(host.fs.Keys, acc.seen, seenLibs);
      var resolved := ResolveLib(host, is64Bit, libs[i], searchDirs, seenLibs, libPaths);
      if !resolved.Done? {
        return resolved;
      }
      seenLibs, libPaths := resolved.value.seen, resolved.value.libPaths;
    }
    assert libs[|libs|..] == [];
    return Done(Progress(seenLibs, libPaths));
  }

  /** One turn of `for lib in libs`: try `lib` in each search directory in
      order; the first candidate that exists and passes `verify_arch` ends
      the search, and is skipped when already seen, or else is marked seen,
      appended and traversed. No candidate at all makes `collect_libs`
      return None. */
  method ResolveLib(host: Host, is64Bit: bool, lib: seq<byte>, searchDirs: seq<Path>,
                    seenLibs: set<Path>, libPaths: seq<Path>)
    returns (r: Exit<Progress>)
    ensures r == ResolveAll(host, is64Bit, [lib], searchDirs, Progress(seenLibs, libPaths))
    decreases |host.fs.Keys - seenLibs|, 0
  {
    var seen, paths := seenLibs, libPaths;
    var found := false;
    for j := 0 to |searchDirs|
      invariant !found && seen == seenLibs && paths == libPaths
      invariant FirstAcceptable(host, searchDirs, lib, is64Bit) == FirstAcceptableFrom(host, searchDirs, lib, is64Bit, j)
    {
      var possibleLibPath := host.join(searchDirs[j], lib);
      if Exists(host, possibleLibPath) && VerifyArch(host, possibleLibPath, is64Bit) {
        assert FirstAcceptable(host, searchDirs, lib, is64Bit) == Some(j);
        if possibleLibPath in seen {
          found := true;
          break;
        }
        seen := seen + {possibleLibPath};
        paths := paths + [possibleLibPath];
        found := true;
        FewerUnseen(host.fs.Keys, seenLibs, seen, possibleLibPath);
        var sub := CollectLibs(host, possibleLibPath, Progress(seen, paths));
        if !sub.Done? {
          return sub;
        }
        seen, paths := sub.value.seen, sub.value.libPaths;
        break;
      }
    }
    if !found {
      return Fail;
    }
    return Done(Progress(seen, paths));
  }
}
