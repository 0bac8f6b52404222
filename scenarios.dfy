/** Two worked traversals over small hosts, for any two library names: two
    libraries in `/usr/lib` that need each other, and a needed library that
    is present only with the other word size. */
module Scenarios {
  import opened Wrappers
  import opened CStr
  import opened Elf
  import opened Traversal
  import opened Properties

  const SLASH: byte := 47

  /** `PathBuf::join` with a relative name: the directory, a slash, the name. */
  function JoinRelative(dir: Path, name: seq<byte>): (r: Path)
    ensures |r| == |dir| + 1 + |name| && r[..|dir|] == dir && r[|dir|] == SLASH && r[|dir| + 1..] == name
  {
    dir + [SLASH] + name
  }

  /** The path of library `name` in `/usr/lib`, the first fixed directory. */
  function InUsrLib(name: seq<byte>): Path
  {
    JoinRelative(FixedDirs[0], name)
  }

  /** Distinct names give distinct paths in `/usr/lib`. */
  lemma InUsrLibInjective(a: seq<byte>, b: seq<byte>)
    requires a != b
    ensures InUsrLib(a) != InUsrLib(b)
  {
    var pa, pb := InUsrLib(a), InUsrLib(b);
    assert pa[|FixedDirs[0]| + 1..] == a && pb[|FixedDirs[0]| + 1..] == b;
  }

  /** A name a DT_NEEDED entry can carry: NUL-free and valid UTF-8. */
  predicate Readable(name: seq<byte>)
  {
    NUL !in name && ValidUtf8(name)
  }

  /** An object whose one dynamic entry is a DT_NEEDED `name`, stored at
      offset 1 of its `.dynstr`. */
  function Needing(c: ElfClass, name: seq<byte>): Elf
  {
    Elf(c, Some([NUL] + name + [NUL]), Some([DynEntry(DT_NEEDED, 1)]))
  }

  /** The scan of such an object finds exactly `name` and no search hints. */
  lemma ScanNeeding(name: seq<byte>)
    requires Readable(name)
    ensures ScanEntries([DynEntry(DT_NEEDED, 1)], [NUL] + name + [NUL]) == Done(Scan([name], []))
  {
    var table := [NUL] + name + [NUL];
    var e := DynEntry(DT_NEEDED, 1);
    assert table[1..] == name + [NUL] + [];
    ReadBackCString(name, []);
    assert U8SliceToStr(table[e.val..]) == Some(name);
    assert ScanEntry(e, table, Scan([], [])) == Done(Scan([] + [name], []));
    assert [e][..0] == [];
    assert ScanEntries([e][..0], table) == Done(Scan([], []));
    assert ScanEntries([e], table) == ScanEntry(e, table, Scan([], []));
    assert [] + [name] == [name];
  }

  /** With LD_LIBRARY_PATH unset, such an object searches the fixed directories only. */
  lemma InspectNeeding(host: Host, p: Path, c: ElfClass, name: seq<byte>)
    requires host.ldLibraryPath.None? && p in host.fs && host.fs[p] == ElfObject(Needing(c, name))
    requires Readable(name)
    ensures Inspect(host, p) == Done(FileView(Is64(c), [name], FixedDirs))
  {
    ScanNeeding(name);
    assert FixedDirs + EnvDirs(host) + [] == FixedDirs;
  }

  /** A host that joins by appending a slash and the name, with LD_LIBRARY_PATH unset. */
  ghost predicate Plain(host: Host)
  {
    host.ldLibraryPath.None? && forall d, n :: host.join(d, n) == JoinRelative(d, n)
  }

  /** `/usr/lib/a` needs `b`, and `/usr/lib/b` needs `a` back; both are 64-bit. */
  ghost predicate IsCycleHost(host: Host, a: seq<byte>, b: seq<byte>)
  {
    Plain(host) && host.fs == map[InUsrLib(a) := ElfObject(Needing(ELF64, b)), InUsrLib(b) := ElfObject(Needing(ELF64, a))]
  }

  /** On the cycle host, either name is found in `/usr/lib`. */
  lemma CycleFindsInUsrLib(host: Host, a: seq<byte>, b: seq<byte>, name: seq<byte>)
    requires IsCycleHost(host, a, b) && a != b && (name == a || name == b)
    ensures FirstAcceptable(host, FixedDirs, name, true) == Some(0) && host.join(FixedDirs[0], name) == InUsrLib(name)
  {
    InUsrLibInjective(a, b);
    assert Acceptable(host, FixedDirs[0], name, true);
  }

  /** From `/usr/lib/b`, with `/usr/lib/a` already seen, `a` is skipped: nothing changes. */
  lemma CycleInner(host: Host, a: seq<byte>, b: seq<byte>, acc: Progress)
    requires IsCycleHost(host, a, b) && a != b && Readable(a) && InUsrLib(a) in acc.seen
    ensures Collect(host, InUsrLib(b), acc) == Done(acc)
  {
    InUsrLibInjective(a, b);
    InspectNeeding(host, InUsrLib(b), ELF64, a);
    CycleFindsInUsrLib(host, a, b, a);
    assert [a][1..] == [];
    assert ResolveAll(host, true, [a], FixedDirs, acc) == ResolveAll(host, true, [], FixedDirs, acc);
  }

  /** Starting from `/usr/lib/a`, the traversal stops at the cycle: the list
      is `/usr/lib/b` alone, since `/usr/lib/a` is the start file and already seen. */
  lemma CycleListsTheOtherLibrary(host: Host, a: seq<byte>, b: seq<byte>)
    requires IsCycleHost(host, a, b) && a != b && Readable(a) && Readable(b)
    ensures LibsFullPaths(host, InUsrLib(a)) == Done([InUsrLib(b)])
  {
    var pa, pb := InUsrLib(a), InUsrLib(b);
    InUsrLibInjective(a, b);
    InspectNeeding(host, pa, ELF64, b);
    CycleFindsInUsrLib(host, a, b, b);
    var acc1 := Progress({pa} + {pb}, [] + [pb]);
    CycleInner(host, a, b, acc1);
    assert [b][1..] == [];
    assert ResolveAll(host, true, [b], FixedDirs, Progress({pa}, [])) == ResolveAll(host, true, [], FixedDirs, acc1);
    assert [] + [pb] == [pb];
  }

  /** A 64-bit `/usr/lib/a` needs `b`, which exists only as the 32-bit `/usr/lib/b`. */
  ghost predicate IsMismatchHost(host: Host, a: seq<byte>, b: seq<byte>)
  {
    Plain(host) && host.fs == map[InUsrLib(a) := ElfObject(Needing(ELF64, b)), InUsrLib(b) := ElfObject(Elf(ELF32, Some([NUL]), Some([])))]
  }

  /** On the mismatch host, `/usr/lib/a` needs `b` and searches the fixed
      directories only; the 32-bit candidate is passed over like a missing
      file, and no other directory holds `b`. */
  lemma MismatchUnresolved(host: Host, a: seq<byte>, b: seq<byte>)
    requires IsMismatchHost(host, a, b) && a != b && Readable(b)
    ensures Inspect(host, InUsrLib(a)) == Done(FileView(true, [b], FixedDirs))
    ensures FirstAcceptable(host, FixedDirs, b, true) == None
  {
    InUsrLibInjective(a, b);
    InspectNeeding(host, InUsrLib(a), ELF64, b);
    assert !Acceptable(host, FixedDirs[0], b, true);
    forall j | 1 <= j < |FixedDirs| ensures !Acceptable(host, FixedDirs[j], b, true) {
      OutsideUsrLib(j, b, a);
      OutsideUsrLib(j, b, b);
    }
  }

  /** So there is no list at all. */
  lemma MismatchGivesNoList(host: Host, a: seq<byte>, b: seq<byte>)
    requires IsMismatchHost(host, a, b) && a != b && Readable(b)
    ensures LibsFullPaths(host, InUsrLib(a)) == Fail
  {
    var pa := InUsrLib(a);
    MismatchUnresolved(host, a, b);
    assert Collect(host, pa, Progress({pa}, [])) == ResolveAll(host, true, [b], FixedDirs, Progress({pa}, []));
  }

  /** Closure under dependencies is not enough for a list: on the mismatch
      host the start file alone is dependency-closed, since its one needed
      name resolves nowhere, and yet no list is returned. */
  lemma DependencyClosedIsNotEnough(host: Host, a: seq<byte>, b: seq<byte>)
    requires IsMismatchHost(host, a, b) && a != b && Readable(b)
    ensures ClosedUnderDeps(host, {InUsrLib(a)}) && LibsFullPaths(host, InUsrLib(a)) == Fail
  {
    MismatchGivesNoList(host, a, b);
    forall q ensures !DependsOn(host, InUsrLib(a), q) {
      NoDependency(host, a, b, q);
    }
  }

  /** On the mismatch host, `/usr/lib/a` depends on nothing. */
  lemma NoDependency(host: Host, a: seq<byte>, b: seq<byte>, q: Path)
    requires IsMismatchHost(host, a, b) && a != b && Readable(b)
    ensures !DependsOn(host, InUsrLib(a), q)
  {
    MismatchUnresolved(host, a, b);
    forall i | 0 <= i < 1 ensures !ResolvedTo(host, FixedDirs, [b][i], true, q) {
      assert [b][i] == b;
    }
  }

  /** A helper for `MismatchGivesNoList`: a name joined to any other fixed directory is never a path in `/usr/lib`:
      `/lib64`, `/lib/x86_64-linux-gnu` and `/lib` differ in their second byte,
      and `/usr/lib64` in its ninth, where `/usr/lib/` has its slash. */
  lemma OutsideUsrLib(j: nat, name: seq<byte>, other: seq<byte>)
    requires 1 <= j < |FixedDirs|
    ensures JoinRelative(FixedDirs[j], name) != InUsrLib(other)
  {
    var p, q := JoinRelative(FixedDirs[j], name), InUsrLib(other);
    if j < 4 {
      assert p[1] == FixedDirs[j][1] != FixedDirs[0][1] == q[1];
    } else {
      assert p[8] == FixedDirs[4][8] != SLASH == q[8];
    }
  }
}
