/** The outside world the resolver reads: the file system, holding ELF
    objects as the `elf` crate's parser exposes them, the LD_LIBRARY_PATH
    variable and path joining. */
module Elf {
  import opened Wrappers
  import opened CStr

  /** A `PathBuf`, compared byte for byte. */
  type Path = seq<byte>

  /** Dynamic-section tags of the System V generic ABI, chapter 5, "Dynamic Section". */
  const DT_NEEDED: int := 1
  const DT_RPATH: int := 15
  const DT_RUNPATH: int := 29

  /** The ELF header's class field (EI_CLASS): 32-bit or 64-bit objects. */
  datatype ElfClass = ELF32 | ELF64

  /** One entry of `.dynamic`: `d_tag` and `d_val` (an offset into `.dynstr` for the tags used here). */
  datatype DynEntry = DynEntry(tag: int, val: nat)

  /** What the parser makes of a file that `minimal_parse` accepts: its class,
      the bytes of `.dynstr` (None when the section is missing or its header
      cannot be read) and the entries the `.dynamic` iterator yields, in file
      order (None when the section is missing or cannot be parsed). */
  datatype Elf = Elf(elfClass: ElfClass, dynstr: Option<seq<byte>>, dynamic: Option<seq<DynEntry>>)

  /** A file-system entry: a directory, a file `minimal_parse` rejects, or an ELF object. */
  datatype Node = Directory | OtherFile | ElfObject(elf: Elf)

  /** The file system: what each path names. `Path::new("")` names nothing
      (`exists` is false for it and reading it fails), so the empty path is
      never a key. */
  type FileSystem = fs: map<Path, Node> | [] !in fs witness map[]

  /** The environment of one traversal: the file system, the value of
      LD_LIBRARY_PATH (None when unset or not Unicode, as `env::var` reports
      it), and `PathBuf::join`, left uninterpreted. */
  datatype Host = Host(fs: FileSystem, ldLibraryPath: Option<seq<byte>>, join: (Path, seq<byte>) -> Path)

  /** `Path::exists`. */
  predicate Exists(host: Host, p: Path)
  {
    p in host.fs
  }

  /** `is_64_bit` as the resolver derives it from the header. */
  function Is64(c: ElfClass): bool
  {
    match c
    case ELF64 => true
    case ELF32 => false
  }

  /** `verify_arch`: the file can be read and parsed, and its class is the
      requested one; a file that cannot be read (a directory, a missing path)
      or parsed is rejected. */
  function VerifyArch(host: Host, libPath: Path, is64Executable: bool): (ok: bool)
    ensures ok <==> libPath in host.fs && host.fs[libPath].ElfObject? && Is64(host.fs[libPath].elf.elfClass) == is64Executable
  {
    if libPath in host.fs && host.fs[libPath].ElfObject? then
      match (host.fs[libPath].elf.elfClass, is64Executable)
      case (ELF64, true) => true
      case (ELF32, false) => true
      case _ => false
    else
      false
  }

  /** A path passes `verify_arch` for exactly one word size when it is an ELF
      object, and for none otherwise. */
  lemma VerifyArchExclusive(host: Host, libPath: Path)
    ensures !(VerifyArch(host, libPath, true) && VerifyArch(host, libPath, false))
    ensures VerifyArch(host, libPath, true) || VerifyArch(host, libPath, false)
        <==> libPath in host.fs && host.fs[libPath].ElfObject?
  {
  }
}
