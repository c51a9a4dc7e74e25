/**
 The per-object state built up while one file is scanned (`elfInfo`), the
 requires gate `genRequires`, and the context each section scanner works in.
 */
module ElfInfo {
  import opened Options
  import opened Elf
  import opened Deps

  datatype ElfInfo = ElfInfo(
    isDSO: bool,
    isExec: bool,
    gotDebug: bool,
    gotHash: bool,
    gotGnuHash: bool,
    soname: Option<string>,
    interp: Option<string>,
    marker: Option<string>,
    archMarker: Option<string>,
    required: seq<string>,
    provided: seq<string>)

  /** The zero-filled state `rcalloc` gives. */
  const Blank := ElfInfo(false, false, false, false, false, None, None, None, None, [], [])

  /**
   `genRequires`: requires are generated unless the object carries an
   interpreter and has no execute bit set.
   */
  function GenRequires(ei: ElfInfo): (r: bool)
    ensures r <==> ei.interp.None? || ei.isExec
  {
    !(ei.interp.Some? && !ei.isExec)
  }

  /**
   What a section scanner reads besides the section itself: the flags, the
   string table named by the section's `sh_link`, and the object's markers.
   */
  datatype Ctx = Ctx(cfg: Config, strs: StrTab, marker: Option<string>, archMarker: Option<string>)

  function CtxFor(cfg: Config, f: ElfFile, link: u32, ei: ElfInfo): Ctx {
    Ctx(cfg, StringsOf(f, link), ei.marker, ei.archMarker)
  }

  /** `AddMarked` in a section's context. */
  function Emit(ctx: Ctx, deps: seq<string>, d: Dep): seq<string> {
    AddMarked(ctx.cfg, deps, d, ctx.marker, ctx.archMarker)
  }

  /** `AddMarkedAll` in a section's context. */
  function EmitAll(ctx: Ctx, deps: seq<string>, ds: seq<Dep>): seq<string> {
    AddMarkedAll(ctx.cfg, deps, ds, ctx.marker, ctx.archMarker)
  }
}
