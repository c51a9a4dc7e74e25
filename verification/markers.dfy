/**
 The two decorations appended to entries: the word-size marker of
 `mkmarker` and the architecture marker of `mkarchmarker`, both fixed
 functions of the ELF header.
 */
module Markers {
  import opened Options
  import opened Elf

  /** `mkmarker`: "(64bit)" for 64-bit objects, except on Alpha, which never carried it. */
  function MkMarker(e: Ehdr): (m: Option<string>)
    ensures m.Some? <==> Is64(e) && e.machine != EM_ALPHA && e.machine != EM_FAKE_ALPHA
    ensures m.Some? ==> m.value == "(64bit)"
  {
    if Is64(e) then
      if e.machine == EM_ALPHA || e.machine == EM_FAKE_ALPHA then None
      else Some("(64bit)")
    else None
  }

  /** The machines `mkarchmarker` has an entry for. */
  const KnownMachines: set<u16> := {
    EM_386, EM_68K, EM_AARCH64, EM_ALPHA, EM_FAKE_ALPHA, EM_ARM, EM_IA_64, EM_MIPS,
    EM_PARISC, EM_PPC, EM_PPC64, EM_RISCV, EM_S390, EM_SH, EM_SPARC, EM_SPARC32PLUS,
    EM_SPARCV9, EM_X86_64 }

  /** The marker is of the form "(...)". */
  predicate Parenthesised(m: string) {
    |m| >= 2 && m[0] == '(' && m[|m| - 1] == ')'
  }

  /**
   `mkarchmarker`: a marker for every header, chosen by machine, word size
   and byte order, with "(unknown64)"/"(unknown)" for machines without an
   entry. Big-endian ARM and 32-bit PA-RISC get the unparenthesised "armeb"
   and "hppa".
   */
  function MkArchMarker(e: Ehdr): (m: string)
    ensures |m| > 0
    ensures e.machine !in KnownMachines ==> m == (if Is64(e) then "(unknown64)" else "(unknown)")
    ensures Parenthesised(m) <==>
      !(e.machine == EM_ARM && !IsLE(e)) && !(e.machine == EM_PARISC && !Is64(e))
  {
    var is64 := Is64(e);
    var isle := IsLE(e);
    if e.machine == EM_386 then "(i386)"
    else if e.machine == EM_68K then "(m68k)"
    else if e.machine == EM_AARCH64 then (if isle then "(aarch64)" else "(aarch64_be)")
    else if e.machine == EM_ALPHA || e.machine == EM_FAKE_ALPHA then "(alpha)"
    else if e.machine == EM_ARM then (if isle then "(arm)" else "armeb")
    else if e.machine == EM_IA_64 then "(ia64)"
    else if e.machine == EM_MIPS then
      (if is64 && isle then "(mips64le)" else if is64 then "(mips64)"
       else if isle then "(mipsel)" else "(mips)")
    else if e.machine == EM_PARISC then (if is64 then "(hppa64)" else "hppa")
    else if e.machine == EM_PPC then (if isle then "(ppcle)" else "(ppc)")
    else if e.machine == EM_PPC64 then (if isle then "(ppc64le)" else "(ppc64)")
    else if e.machine == EM_RISCV then (if is64 then "(riscv64)" else "(riscv32)")
    else if e.machine == EM_S390 then (if is64 then "(s390x)" else "(s390)")
    else if e.machine == EM_SH then (if isle then "(shl)" else "(sh)")
    else if e.machine == EM_SPARC || e.machine == EM_SPARC32PLUS || e.machine == EM_SPARCV9 then
      (if is64 then "(sparc64)" else "(sparc)")
    else if e.machine == EM_X86_64 then "(x86_64)"
    else if is64 then "(unknown64)"
    else "(unknown)"
  }
}
