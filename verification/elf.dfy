/**
 The facts libelf hands to the dependency generator, as plain values: the
 ELF header fields it reads, program headers, section headers and the decoded
 records of one data chunk per section, the string tables and the raw file
 image. Constants are those of <elf.h> (System V gABI and the GNU symbol
 versioning extension of LSB Core Generic, section 10.7 "Symbol Versioning").
 */
module Elf {
  import opened Options

  type u8 = x: nat | x < 0x100
  type u16 = x: nat | x < 0x1_0000
  type u32 = x: nat | x < 0x1_0000_0000

  /** `unsigned int` addition, which wraps around at 2^32. */
  function Add32(a: u32, b: u32): u32 {
    (a + b) % 0x1_0000_0000
  }

  // e_ident[EI_CLASS] and e_ident[EI_DATA]
  const ELFCLASS64: u8 := 2
  const ELFDATA2LSB: u8 := 1

  // e_type
  const ET_EXEC: u16 := 2
  const ET_DYN: u16 := 3

  // e_machine
  const EM_SPARC: u16 := 2
  const EM_386: u16 := 3
  const EM_68K: u16 := 4
  const EM_MIPS: u16 := 8
  const EM_PARISC: u16 := 15
  const EM_SPARC32PLUS: u16 := 18
  const EM_PPC: u16 := 20
  const EM_PPC64: u16 := 21
  const EM_S390: u16 := 22
  const EM_ARM: u16 := 40
  const EM_FAKE_ALPHA: u16 := 41
  const EM_SH: u16 := 42
  const EM_SPARCV9: u16 := 43
  const EM_IA_64: u16 := 50
  const EM_X86_64: u16 := 62
  const EM_AARCH64: u16 := 183
  const EM_RISCV: u16 := 243
  const EM_ALPHA: u16 := 0x9026

  // p_type
  const PT_INTERP: u32 := 3

  // sh_type
  const SHT_DYNAMIC: u32 := 6
  const SHT_GNU_verdef: u32 := 0x6fff_fffd
  const SHT_GNU_verneed: u32 := 0x6fff_fffe

  // d_tag
  const DT_NEEDED: int := 1
  const DT_HASH: int := 4
  const DT_SONAME: int := 14
  const DT_DEBUG: int := 21
  const DT_GNU_HASH: int := 0x6fff_fef5

  // vd_flags
  const VER_FLG_BASE: u16 := 1

  /** The ELF header fields the generator reads. */
  datatype Ehdr = Ehdr(eType: u16, machine: u16, eClass: u8, eData: u8)

  predicate Is64(e: Ehdr) { e.eClass == ELFCLASS64 }
  predicate IsLE(e: Ehdr) { e.eData == ELFDATA2LSB }

  /** A program header: its type and file offset. */
  datatype Phdr = Phdr(pType: u32, offset: nat)

  /** A section header: type, linked string table, info word, size and entry size. */
  datatype Shdr = Shdr(shType: u32, link: u32, info: u32, size: nat, entsize: nat)

  /** A dynamic section entry (`d_tag`, `d_un.d_val`). */
  datatype Dyn = Dyn(tag: int, val: nat)

  /** A version definition record (`vd_flags`, `vd_cnt`, `vd_aux`, `vd_next`). */
  datatype Verdef = Verdef(flags: u16, cnt: u16, aux: u32, next: u32)

  /** A version requirement record (`vn_cnt`, `vn_file`, `vn_aux`, `vn_next`). */
  datatype Verneed = Verneed(cnt: u16, file: u32, aux: u32, next: u32)

  /**
   An auxiliary record of either table: the string-table offset of its name
   and the offset of the next auxiliary record relative to this one
   (`vda_name`/`vda_next` or `vna_name`/`vna_next`).
   */
  datatype Aux = Aux(name: u32, next: u32)

  /** `vd_flags & VER_FLG_BASE`. */
  predicate IsBase(flags: u16) { flags % 2 == VER_FLG_BASE }

  /**
   What libelf's accessors return for a section's data chunk: `gelf_getdyn`
   at each index (an index past the end gives NULL), and `gelf_getverdef`,
   `gelf_getverneed` and `gelf_getverdaux`/`gelf_getvernaux` at each byte
   offset (an offset that is not a key gives NULL).
   */
  datatype SectionData = SectionData(
    dyns: seq<Dyn>,
    verdefs: map<u32, Verdef>,
    verneeds: map<u32, Verneed>,
    auxs: map<u32, Aux>)

  /**
   A section as `elf_nextscn` yields it: its header (None when
   `gelf_getshdr` fails) and its data (None when `elf_getdata` gives none).
   */
  datatype Section = Section(shdr: Option<Shdr>, data: Option<SectionData>)

  /** A string table: `elf_strptr` at each offset; a missing key is NULL. */
  type StrTab = map<nat, string>

  /**
   An opened ELF object: header (None when `gelf_getehdr` fails), the
   `e_phnum` program headers (None where `gelf_getphdr` fails), the sections
   `elf_nextscn` visits (from index 1 on, in order), string tables by
   section index, and the raw file image (None when `elf_rawfile` fails).
   */
  datatype ElfFile = ElfFile(
    ehdr: Option<Ehdr>,
    phdrs: seq<Option<Phdr>>,
    sections: seq<Section>,
    strtabs: map<nat, StrTab>,
    image: Option<string>)

  /**
   The outcome of opening a path: `open`/`fstat` failed, or it was opened
   with mode bits `mode` and `elf_begin` gave an ELF object (None when it
   failed or the file is not of kind ELF_K_ELF).
   */
  datatype FileInput = Unreadable | Readable(mode: nat, elf: Option<ElfFile>)

  /** The string table `elf_strptr(elf, link, ...)` looks in. */
  function StringsOf(f: ElfFile, link: u32): StrTab {
    if link in f.strtabs then f.strtabs[link] else map[]
  }

  /** `st_mode & (S_IXUSR | S_IXGRP | S_IXOTH)` is non-zero. */
  predicate ExecBits(mode: nat) {
    (mode / 64) % 2 == 1 || (mode / 8) % 2 == 1 || mode % 2 == 1
  }
}
