# rust-dyn-lib-finder: the dependency resolver, in Dafny

`rust-dyn-lib-finder` works like `ldd`. Given an ELF file, `ElfFile::get_libs_full_paths` lists the full paths of every shared library the file needs, directly or through other libraries.

The work happens in `ElfFile::collect_libs`, which does four things:
- It reads an object's word size (ELF class).
- It builds an ordered list of search directories:
  - the five fixed directories `/usr/lib`, `/lib64`, `/lib/x86_64-linux-gnu`, `/lib` and `/usr/lib64`;
  - then the existing components of `LD_LIBRARY_PATH`;
  - then every `:`-separated directory of the object's `DT_RPATH`/`DT_RUNPATH` strings.
- It collects the object's `DT_NEEDED` names from `.dynamic`. Those are offsets into `.dynstr`, read by `u8_slice_to_str`.
- It resolves each name in order to the first candidate `dir.join(name)` that exists and has the same class (`verify_arch`):
  - a candidate already in the visited set is skipped;
  - a new one is inserted into the visited set, appended to the result list, and traversed before the next name;
  - a name without a candidate makes the whole traversal return `None`.

## Modules

- `wrappers.dfy` (`Wrappers`): `Option`, and `Exit`, the three ways a call ends:
  - `Done` is `Some`;
  - `Fail` is `None`;
  - `Panic` is an `expect` that fails or a slice out of range.
- `cstr.dfy` (`CStr`) has bytes, UTF-8 validity and `u8_slice_to_str`. It also has `str::split` on a one-byte separator, with its inverse `JoinWith`. UTF-8 validity follows the table of section 4 of RFC 3629.
- `elf.dfy` (`Elf`) models the world the resolver reads. The file system maps paths to directories, to files the ELF parser rejects, or to ELF objects (class, `.dynstr` bytes, `.dynamic` entries). It also holds `LD_LIBRARY_PATH` and `PathBuf::join`, plus `verify_arch`. The empty path is never in the file system, since `Path::new("")` names nothing.
- `traversal.dfy` (`Traversal`) is the specification of the resolver as functions:
  - what one object contributes (`Inspect`, built from `ScanEntries` and the search-directory functions);
  - the first-match search (`FirstAcceptable`);
  - the traversal, `Collect`/`ResolveAll`, which threads the visited set and the result list (`Progress`).
- `finder.dfy` (`LibFinder`) is the resolver in the source's imperative form:
  - search lists and name lists grow by pushes in loops;
  - the directory scan uses a `found` flag and `break`;
  - the recursion threads the two accumulators.

  Each method is proved to compute the `Traversal` function that specifies it.
- `properties.dfy` (`Properties`) proves what the traversal guarantees:
  - no duplicates, and never the start file;
  - the visited set grows by exactly what is appended;
  - the start file and every listed object have all their names resolved to the start file or a listed path;
  - the start file plus the list is the least set that holds the start file and is closed under dependencies;
  - a list is returned exactly when the start file lies in a set whose every object can be read and has each needed name resolved inside the set (`ClosedSet`), so a name that cannot be resolved anywhere in the closure means no list at all. A set that is only closed under dependencies is not enough: a name that resolves nowhere gives no dependency, yet no list;
  - first-match and directory priority;
  - a class mismatch counts as absence.
- `scenarios.dfy` (`Scenarios`) has two small hosts, for any two distinct library names `a` and `b` in `/usr/lib`:
  - two libraries that need each other, where the traversal stops at the cycle;
  - a needed library present only with the other class, which gives no list.

## Model

| member | source | states |
|---|---|---|
| CStr.U8SliceToStr | src/lib.rs:149-158 | A result is the bytes strictly before the first NUL. It contains no NUL and is valid UTF-8. `None` means there is no NUL, or the bytes before the first NUL are not valid UTF-8. |
| CStr.Position | src/lib.rs:151 | `position(b == 0)`: `None` exactly when the byte is absent; otherwise the index of its first occurrence. |
| CStr.ReadBackCString | src/lib.rs:149-158 | Reading a NUL-free, valid UTF-8 string followed by a NUL and anything else gives that string back. |
| CStr.Split | src/lib.rs:88 | `str::split(':')` gives at least one piece. No piece contains the separator, and joining the pieces with it gives the input back. |
| CStr.SplitJoinWith | src/lib.rs:113 | Splitting separator-free pieces joined with the separator gives exactly those pieces. |
| CStr.AsciiIsValidUtf8 | src/lib.rs:154 | Every ASCII byte string passes `from_utf8`. |
| Elf.VerifyArch | src/lib.rs:160-171 | True exactly when the path holds an ELF object whose class matches the requested word size. An unreadable or unparsable path gives false. |
| Elf.VerifyArchExclusive | src/lib.rs:160-171 | No path passes for both word sizes. A path passes for one of them exactly when it holds an ELF object. |
| Traversal.ExistingDirsMembers | src/lib.rs:87-94 | A directory is kept from `LD_LIBRARY_PATH` exactly when it is one of its components and exists. |
| Traversal.ScanEntries | src/lib.rs:96-119 | A successful scan holds one name per `DT_NEEDED` entry. A `.dynamic` without `DT_NEEDED` never makes the scan return `None`. |
| Traversal.ScanEntriesWellFormed | src/lib.rs:104-115 | Every needed name is NUL-free valid UTF-8, and no hint directory contains a `:`. |
| Traversal.ScanEntriesStops | src/lib.rs:102-118 | The first entry that fails (with `?` or a panic) decides the outcome of the whole scan. |
| Traversal.Inspect | src/lib.rs:55-119 | Reading succeeds only for an ELF object. `is64` is its class. The search list starts with the five fixed directories, then the `LD_LIBRARY_PATH` ones. |
| Traversal.FirstAcceptable | src/lib.rs:123-139 | The index of the first directory whose joined candidate exists and passes `verify_arch`. No earlier directory is acceptable. `None` means no directory is. |
| Traversal.Collect | src/lib.rs:50-146 | A successful `collect_libs` only grows the visited set and only appends to the result list. |
| Traversal.ResolveAll | src/lib.rs:121-145 | The same, for the loop over the needed names. |
| Traversal.ResolveAllSplit | src/lib.rs:121-144 | Resolving a list of names is resolving its first name, then the rest from the accumulators it leaves. |
| LibFinder.GetLibsFullPaths | src/lib.rs:41-48 | Seeds the visited set with the file's own path and computes `LibsFullPaths`. A returned list has no duplicates and never holds the file itself. |
| LibFinder.InitialSearchDirs | src/lib.rs:76-94 | The pushes build exactly the fixed directories followed by the existing `LD_LIBRARY_PATH` components, in order. |
| LibFinder.PushExisting | src/lib.rs:87-94 | The loop over the `LD_LIBRARY_PATH` components appends exactly the existing ones, in order. |
| LibFinder.ScanDynamic | src/lib.rs:96-119 | The loop over `.dynamic` returns the `DT_NEEDED` names `ScanEntries` collects, and appends its `RPATH`/`RUNPATH` directories to the search list. It returns `None` or panics exactly when `ScanEntries` does. |
| LibFinder.ScanOne | src/lib.rs:103-117 | One entry of that loop behaves exactly as `ScanEntry` says. |
| LibFinder.PushAll | src/lib.rs:113-115 | Pushing each piece appends all of them, in order. |
| LibFinder.ReadObject | src/lib.rs:55-119 | Reading, parsing and scanning one object gives exactly `Inspect`. |
| LibFinder.CollectLibs | src/lib.rs:50-146 | The method computes `Collect`: same outcome, same visited set, same result list. |
| LibFinder.ResolveLib | src/lib.rs:122-143 | One turn of the loop over names computes `ResolveAll` on that one name. |
| Properties.CollectExtends | src/lib.rs:127-136 | After a successful `collect_libs`, the result list has grown by distinct paths that were not seen before. The visited set has grown by exactly those paths. |
| Properties.ResolveAllExtends | src/lib.rs:121-145 | The same, for the loop over the needed names. |
| Properties.ExtendsConsistent | src/lib.rs:127-133 | Such growth keeps the list duplicate-free and inside the visited set. |
| Properties.CollectClosed | src/lib.rs:121-145 | After a successful `collect_libs(path)`, the object at `path` has every needed name resolved into the visited set. So has every object that call added. |
| Properties.CollectParents | src/lib.rs:121-145 | Every path a successful `collect_libs(path)` appends is a dependency of `path` or of a path appended before it. |
| Properties.LibsFullPathsSound | src/lib.rs:41-146 | A returned list has no duplicates and never holds the start file. The start file and every listed object have all their needed names resolved to the start file or a listed path. |
| Properties.LibsFullPathsMinimal | src/lib.rs:41-146 | Every listed path lies in any set that holds the start file and every dependency of each of its members. |
| Properties.LibsFullPathsLeastClosed | src/lib.rs:41-146 | The start file plus a returned list is closed under dependencies, and it lies inside every dependency-closed set that holds the start file: it is the least such set. |
| Properties.CollectDone | src/lib.rs:50-146 | `collect_libs` on a path of a set whose every object can be read and has each needed name resolved inside the set returns `Some`, whatever was seen before. |
| Properties.ResolveAllDone | src/lib.rs:121-145 | The loop over names returns `Some` when every name resolves into a `ClosedSet`. |
| Properties.LibsFullPathsComplete | src/lib.rs:26-48 | A list is returned whenever the start file lies in a `ClosedSet`. |
| Properties.LibsFullPathsSucceeds | src/lib.rs:26-48 | A list is returned exactly when the start file lies in a `ClosedSet`: a set whose every object can be read and has each needed name resolved inside the set. `None` or a panic means that some object of the closure cannot be read or some needed name cannot be found. |
| Properties.UnresolvableNameGivesNoList | src/lib.rs:140-143 | A needed name of the start file that has no acceptable candidate means no list at all, never a partial one. |
| Properties.NoNeededGivesEmptyList | src/lib.rs:42-48 | A file without `DT_NEEDED` entries yields `Some(empty)`, unless reading it panics, and the visited set stays the start file alone. |
| Properties.FirstAcceptableConcat | src/lib.rs:123-139 | Over two concatenated directory lists, the second is consulted only when the first gives no acceptable candidate. |
| Properties.SearchPriority | src/lib.rs:76-139 | A name that some fixed directory can satisfy resolves through a fixed directory. One that an `LD_LIBRARY_PATH` directory can satisfy resolves before any `RPATH`/`RUNPATH` directory. |
| Properties.MismatchLikeAbsent | src/lib.rs:125 | A candidate of the other class is treated exactly as if the file were absent. |
| Scenarios.CycleListsTheOtherLibrary | src/lib.rs:121-145 | `/usr/lib/a` needs `b`, and `/usr/lib/b` needs `a`. Starting from `/usr/lib/a`, the result is `[/usr/lib/b]`. |
| Scenarios.MismatchGivesNoList | src/lib.rs:123-143 | A 64-bit `/usr/lib/a` whose only candidate for its needed name `b` is the 32-bit `/usr/lib/b` gets `None`. |
| Scenarios.OutsideUsrLib | src/lib.rs:77-81 | Helper for `MismatchGivesNoList`: with the slash join of that scenario, a name joined to any of the four other fixed directories is never a `/usr/lib/` path. |
| Scenarios.DependencyClosedIsNotEnough | src/lib.rs:26-31 | On the mismatch host, the set holding only the start file is closed under dependencies, yet no list is returned. So success needs a `ClosedSet`, not only a dependency-closed set. |

## Left out

- File reading and ELF parsing are not modelled: `fs::read`, `ElfBytes::minimal_parse`, `section_header_by_name`, `dynamic()`. The file system is a map from paths to nodes holding what the parser would expose. Slicing `.dynstr` out of the file by its header's offset and size is folded into `dynstr`: a header that cannot be read, or a slice out of range, appears as a missing `.dynstr`. Both panic in the source.
- `Path::exists` is membership in the file system map. Symbolic links and permissions are not modelled.
- `env::var("LD_LIBRARY_PATH")` is an input of the host. `None` stands for unset or not Unicode, both of which the source ignores.
- `PathBuf::join` is an uninterpreted function of the host. A name that is an absolute path replaces the directory in Rust; this case, and path normalisation, are not modelled. Paths are compared byte for byte.
- The doc comment of `get_libs_full_paths` (src/lib.rs:32-40) lists the search directories in a different order from the one the code builds. The model follows the code: fixed directories first, then `LD_LIBRARY_PATH`, then `RPATH`/`RUNPATH`.
- Panics are kept as their own outcome (`Panic`); they are not merged into `None`. Unwinding and process exit are not modelled.
- `ElfFile::new` and the tests in src/lib.rs:173-202 are not part of this model. The tests depend on binaries installed on the host.
- Inside `collect_libs`, the loop of src/lib.rs:87-94, the body of the loop of src/lib.rs:102-118, the inner loop of src/lib.rs:113-115, the reading part of src/lib.rs:55-119 and the body of the loop of src/lib.rs:121-144 are separate methods. They have the same loops and branches; only the proofs are split.
- `collect_libs` takes its two accumulators by value and returns them, rather than through `&mut` borrows. Every caller passes its own accumulators and uses the returned ones, so no aliasing is lost. On `None` or a panic, the partly updated accumulators are not returned, and the source drops them as well.
