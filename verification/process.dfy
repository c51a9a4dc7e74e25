/**
 One file from start to finish (`processFile`): classification, the
 interpreter from the program headers, the section scan, and the post-scan
 policy that adds the GNU hash requirement, the soname provide and the
 interpreter requirement.
 */
module Process {
  import opened Options
  import opened CString
  import opened Elf
  import opened Deps
  import opened Markers
  import opened ElfInfo
  import opened Dynamic
  import opened Versions

  // ------------------------------------------------------ program headers

  /** A program header that yields the interpreter: PT_INTERP, starting inside the file image. */
  predicate UsableInterp(p: Option<Phdr>, image: Option<string>) {
    p.Some? && p.value.pType == PT_INTERP && image.Some? && p.value.offset < |image.value|
  }

  /**
   `processProgHeaders` from index `i` on: the string at the first usable
   PT_INTERP header; headers that cannot be read, and PT_INTERP headers
   whose offset lies outside the image, are passed over.
   */
  function FindInterpFrom(phdrs: seq<Option<Phdr>>, image: Option<string>, i: nat): (r: Option<string>)
    requires i <= |phdrs|
    ensures r.Some? ==> image.Some? && |r.value| <= |image.value| && '\0' !in r.value
    decreases |phdrs| - i
  {
    if i == |phdrs| then None
    else if UsableInterp(phdrs[i], image) then Some(CStringAt(image.value, phdrs[i].value.offset))
    else FindInterpFrom(phdrs, image, i + 1)
  }

  /**
   The interpreter is absent exactly when no header is usable, and otherwise
   is the string at the first usable one.
   */
  lemma {:induction false} FindInterpFirst(phdrs: seq<Option<Phdr>>, image: Option<string>, i: nat)
    requires i <= |phdrs|
    ensures FindInterpFrom(phdrs, image, i).None? <==> forall j | i <= j < |phdrs| :: !UsableInterp(phdrs[j], image)
    ensures forall j | i <= j < |phdrs| && UsableInterp(phdrs[j], image)
                       && (forall l | i <= l < j :: !UsableInterp(phdrs[l], image)) ::
              FindInterpFrom(phdrs, image, i) == Some(CStringAt(image.value, phdrs[j].value.offset))
    decreases |phdrs| - i
  {
    if i < |phdrs| && !UsableInterp(phdrs[i], image) {
      FindInterpFirst(phdrs, image, i + 1);
      forall j | i <= j < |phdrs| && UsableInterp(phdrs[j], image)
                 && (forall l | i <= l < j :: !UsableInterp(phdrs[l], image))
        ensures FindInterpFrom(phdrs, image, i) == Some(CStringAt(image.value, phdrs[j].value.offset))
      {
        assert j != i;
      }
    }
  }

  function FindInterp(phdrs: seq<Option<Phdr>>, image: Option<string>): Option<string> {
    FindInterpFrom(phdrs, image, 0)
  }

  // ------------------------------------------------------------- sections

  /** What no section scanner changes. */
  predicate SectionFrame(ei: ElfInfo, r: ElfInfo) {
    && r.isDSO == ei.isDSO && r.isExec == ei.isExec && r.interp == ei.interp
    && r.marker == ei.marker && r.archMarker == ei.archMarker
  }

  /** Entries are only ever appended, and each one passes the soname filter. */
  ghost predicate Grows(cfg: Config, ei: ElfInfo, r: ElfInfo) {
    && |ei.provided| <= |r.provided| && r.provided[..|ei.provided|] == ei.provided
    && |ei.required| <= |r.required| && r.required[..|ei.required|] == ei.required
    && (AllAccepted(cfg, ei.provided) ==> AllAccepted(cfg, r.provided))
    && (AllAccepted(cfg, ei.required) ==> AllAccepted(cfg, r.required))
  }

  /** One section, dispatched on `sh_type`; other types are ignored. */
  function ProcessSection(cfg: Config, f: ElfFile, ei: ElfInfo, shdr: Shdr, data: Option<SectionData>): (r: ElfInfo)
    ensures SectionFrame(ei, r)
    ensures Grows(cfg, ei, r)
    ensures !GenRequires(ei) ==> r.required == ei.required
  {
    match data
    case None => ei
    case Some(d) =>
      var ctx := CtxFor(cfg, f, shdr.link, ei);
      if shdr.shType == SHT_GNU_verdef then ProcessVerDef(ctx, ei, shdr, d)
      else if shdr.shType == SHT_GNU_verneed then ProcessVerNeed(ctx, ei, shdr, d)
      else if shdr.shType == SHT_DYNAMIC then ProcessDynamic(ctx, ei, shdr, d.dyns)
      else ei
  }

  /** `processSections`: the sections in order, up to the first whose header cannot be read. */
  function ProcessSections(cfg: Config, f: ElfFile, ei: ElfInfo, secs: seq<Section>): (r: ElfInfo)
    ensures SectionFrame(ei, r)
    ensures Grows(cfg, ei, r)
    ensures !GenRequires(ei) ==> r.required == ei.required
    decreases |secs|
  {
    if |secs| == 0 || secs[0].shdr.None? then ei
    else
      var mid := ProcessSection(cfg, f, ei, secs[0].shdr.value, secs[0].data);
      var r := ProcessSections(cfg, f, mid, secs[1..]);
      assert r.provided[..|ei.provided|] == r.provided[..|mid.provided|][..|ei.provided|];
      assert r.required[..|ei.required|] == r.required[..|mid.required|][..|ei.required|];
      r
  }

  // ------------------------------------------------------------ the scan

  /** Only shared objects and executables are scanned. */
  predicate Supported(e: Ehdr) {
    e.eType == ET_DYN || e.eType == ET_EXEC
  }

  /** The state set up for a supported object before its sections are read. */
  function Setup(mode: nat, f: ElfFile, e: Ehdr): (r: ElfInfo)
    ensures r.required == [] && r.provided == [] && r.soname.None?
    ensures !r.gotDebug && !r.gotHash && !r.gotGnuHash
    ensures r.isDSO <==> e.eType == ET_DYN
    ensures r.isExec <==> ExecBits(mode)
    ensures r.marker == MkMarker(e) && r.archMarker == Some(MkArchMarker(e))
    ensures r.interp == FindInterp(f.phdrs, f.image)
  {
    Blank.(marker := MkMarker(e), archMarker := Some(MkArchMarker(e)),
           isDSO := e.eType == ET_DYN, isExec := ExecBits(mode),
           interp := FindInterp(f.phdrs, f.image))
  }

  /** The state after the program headers and sections are scanned. */
  function ScanSections(cfg: Config, mode: nat, f: ElfFile, e: Ehdr): ElfInfo {
    if Supported(e) then ProcessSections(cfg, f, Setup(mode, f, e), f.sections) else Blank
  }

  const GnuHashToken := "rtld(GNU_HASH)"

  /** A GNU hash table without a classic one asks for a loader that understands it. */
  predicate NeedsGnuHash(cfg: Config, ei: ElfInfo) {
    GenRequires(ei) && ei.gotGnuHash && !ei.gotHash && !cfg.sonameOnly
  }

  /** The soname to provide: DT_SONAME, or else the basename of the path when faking is on. */
  function ProvidedSoname(cfg: Config, path: string, ei: ElfInfo): Option<string> {
    if ei.soname.Some? then ei.soname
    else if cfg.fakeSoname then Some(Basename(path))
    else None
  }

  /** Lines 395-397: the GNU hash requirement. */
  function AddGnuHashRequire(cfg: Config, ei: ElfInfo): (r: ElfInfo)
    ensures r == ei.(required := r.required)
    ensures |ei.required| <= |r.required| && r.required[..|ei.required|] == ei.required
    ensures NeedsGnuHash(cfg, ei) ==> r.required[|ei.required|..] == [GnuHashToken]
    ensures !NeedsGnuHash(cfg, ei) ==> r == ei
  {
    if NeedsGnuHash(cfg, ei) then ei.(required := ei.required + [GnuHashToken]) else ei
  }

  /** Lines 404-415: the soname provide of a shared object without DT_DEBUG. */
  function AddSonameProvide(cfg: Config, path: string, ei: ElfInfo): (r: ElfInfo)
    ensures r.required == ei.required && r.interp == ei.interp
    ensures var sn := ProvidedSoname(cfg, path, ei);
      r.provided == if ei.isDSO && !ei.gotDebug && sn.Some?
                    then AddMarked(cfg, ei.provided, Dep(sn.value, None), ei.marker, ei.archMarker)
                    else ei.provided
  {
    if ei.isDSO && !ei.gotDebug then
      var sn := ProvidedSoname(cfg, path, ei);
      var ei' := ei.(soname := sn);
      if sn.Some? then
        ei'.(provided := AddMarked(cfg, ei'.provided, Dep(sn.value, None), ei'.marker, ei'.archMarker))
      else ei'
    else ei
  }

  /** Lines 418-419: the interpreter requirement, verbatim. */
  function AddInterpRequire(cfg: Config, ei: ElfInfo): (r: ElfInfo)
    ensures r == ei.(required := r.required)
    ensures |ei.required| <= |r.required| && r.required[..|ei.required|] == ei.required
    ensures ei.interp.Some? && cfg.requireInterp ==> r.required[|ei.required|..] == [ei.interp.value]
    ensures !(ei.interp.Some? && cfg.requireInterp) ==> r == ei
  {
    if ei.interp.Some? && cfg.requireInterp then ei.(required := ei.required + [ei.interp.value]) else ei
  }

  /**
   The post-scan policy: the GNU hash requirement, then for a shared object
   without DT_DEBUG the soname provide, then the interpreter requirement.
   */
  function PostScan(cfg: Config, path: string, ei: ElfInfo): ElfInfo {
    AddInterpRequire(cfg, AddSonameProvide(cfg, path, AddGnuHashRequire(cfg, ei)))
  }

  /** The whole state `processFile` prints from, for an object with header `e`. */
  function Scan(cfg: Config, path: string, mode: nat, f: ElfFile, e: Ehdr): ElfInfo {
    PostScan(cfg, path, ScanSections(cfg, mode, f, e))
  }

  /** Exit code and printed lines of `processFile`. */
  datatype Outcome = Outcome(rc: int, lines: seq<string>)

  /**
   `processFile`: 1 with no output when the file cannot be opened, is not
   an ELF object or has no header; otherwise 0 and the requested list.
   */
  function ProcessFile(cfg: Config, path: string, input: FileInput, wantRequires: bool): (o: Outcome)
    ensures o.rc == 0 || o.rc == 1
    ensures o.rc == 1 <==> input.Unreadable? || input.elf.None? || input.elf.value.ehdr.None?
    ensures o.rc == 1 ==> o.lines == []
    ensures o.rc == 0 && !Supported(input.elf.value.ehdr.value) ==> o.lines == []
  {
    match input
    case Unreadable => Outcome(1, [])
    case Readable(mode, elf) =>
      match elf
      case None => Outcome(1, [])
      case Some(f) =>
        match f.ehdr
        case None => Outcome(1, [])
        case Some(e) =>
          UnsupportedKindSilent(cfg, path, mode, f, e);
          var ei := Scan(cfg, path, mode, f, e);
          Outcome(0, if wantRequires then ei.required else ei.provided)
  }

  // ------------------------------------------------------------- lemmas

  /** An object that is neither a shared object nor an executable yields no entries. */
  lemma UnsupportedKindSilent(cfg: Config, path: string, mode: nat, f: ElfFile, e: Ehdr)
    ensures !Supported(e) ==> Scan(cfg, path, mode, f, e).provided == []
    ensures !Supported(e) ==> Scan(cfg, path, mode, f, e).required == []
  {
  }

  /**
   The requires are the section scan's entries, then the GNU hash token when
   its condition holds, then the interpreter path, verbatim, when requested.
   */
  lemma RequiresLayout(cfg: Config, path: string, mode: nat, f: ElfFile, e: Ehdr)
    ensures var s := ScanSections(cfg, mode, f, e);
      Scan(cfg, path, mode, f, e).required ==
        s.required
        + (if NeedsGnuHash(cfg, s) then [GnuHashToken] else [])
        + (if s.interp.Some? && cfg.requireInterp then [s.interp.value] else [])
  {
  }

  /**
   The provides are the section scan's entries (the version definitions),
   followed, for a shared object without DT_DEBUG, by the entries of the
   DT_SONAME or, failing that, the faked basename.
   */
  lemma ProvidesLayout(cfg: Config, path: string, mode: nat, f: ElfFile, e: Ehdr)
    ensures var s := ScanSections(cfg, mode, f, e);
      var sn := ProvidedSoname(cfg, path, s);
      Scan(cfg, path, mode, f, e).provided ==
        if s.isDSO && !s.gotDebug && sn.Some?
        then AddMarked(cfg, s.provided, Dep(sn.value, None), s.marker, s.archMarker)
        else s.provided
  {
  }

  /**
   The requires gate of a supported object is closed exactly when it has an
   interpreter and no execute bit.
   */
  lemma GateOfObject(cfg: Config, mode: nat, f: ElfFile, e: Ehdr)
    requires Supported(e)
    ensures var s := ScanSections(cfg, mode, f, e);
      s.interp == FindInterp(f.phdrs, f.image)
      && (GenRequires(s) <==> !(FindInterp(f.phdrs, f.image).Some? && !ExecBits(mode)))
  {
  }

  /**
   A non-executable object with an interpreter requires nothing, except the
   interpreter itself when that is requested.
   */
  lemma GatedObjectRequiresOnlyInterp(cfg: Config, path: string, mode: nat, f: ElfFile, e: Ehdr)
    requires Supported(e) && FindInterp(f.phdrs, f.image).Some? && !ExecBits(mode)
    ensures Scan(cfg, path, mode, f, e).required ==
      if cfg.requireInterp then [FindInterp(f.phdrs, f.image).value] else []
  {
    var ei := Setup(mode, f, e);
    assert !GenRequires(ei);
    RequiresLayout(cfg, path, mode, f, e);
  }

  /** Every provide would itself pass the soname filter. */
  lemma ProvidesPassFilter(cfg: Config, path: string, mode: nat, f: ElfFile, e: Ehdr)
    ensures forall i | 0 <= i < |Scan(cfg, path, mode, f, e).provided| ::
      !SkipSoname(cfg, Scan(cfg, path, mode, f, e).provided[i])
  {
    var s := ScanSections(cfg, mode, f, e);
    assert AllAccepted(cfg, s.provided);
    ProvidesLayout(cfg, path, mode, f, e);
  }

  /**
   Every require passes the soname filter, except the GNU hash token and
   the interpreter path, which are added without it.
   */
  lemma RequiresPassFilter(cfg: Config, path: string, mode: nat, f: ElfFile, e: Ehdr)
    ensures var r := Scan(cfg, path, mode, f, e);
      forall i | 0 <= i < |r.required| ::
        r.required[i] == GnuHashToken || Some(r.required[i]) == r.interp || !SkipSoname(cfg, r.required[i])
  {
    var s := ScanSections(cfg, mode, f, e);
    assert AllAccepted(cfg, s.required);
    RequiresLayout(cfg, path, mode, f, e);
    var r := Scan(cfg, path, mode, f, e);
    assert r.interp == s.interp;
    forall i | 0 <= i < |r.required|
      ensures r.required[i] == GnuHashToken || Some(r.required[i]) == r.interp || !SkipSoname(cfg, r.required[i])
    {
      if i < |s.required| {
        assert r.required[i] == s.required[i];
      }
    }
  }

  /** With strict filtering every provide contains ".so" and starts with "lib", "ld." , "ld-" or "ld6". */
  lemma StrictProvidesLookLikeLibraries(cfg: Config, path: string, mode: nat, f: ElfFile, e: Ehdr)
    requires cfg.filterSoname
    ensures var p := Scan(cfg, path, mode, f, e).provided;
      forall i | 0 <= i < |p| :: Contains(p[i], ".so") && SanePrefix(p[i])
  {
    ProvidesPassFilter(cfg, path, mode, f, e);
  }

  /**
   A GNU hash table without a classic one, with the gate open and
   soname-only mode off, always puts the token among the requires, right
   after the section scan's entries.
   */
  lemma GnuHashTokenRequired(cfg: Config, path: string, mode: nat, f: ElfFile, e: Ehdr)
    requires NeedsGnuHash(cfg, ScanSections(cfg, mode, f, e))
    ensures var n := |ScanSections(cfg, mode, f, e).required|;
      var r := Scan(cfg, path, mode, f, e).required;
      n < |r| && r[n] == GnuHashToken
  {
    RequiresLayout(cfg, path, mode, f, e);
  }

  /**
   A shared object without DT_DEBUG and without DT_SONAME, with faking on,
   provides its path's basename (when that passes the filter), marked with
   the word-size marker.
   */
  lemma FakeSonameFromBasename(cfg: Config, path: string, mode: nat, f: ElfFile, e: Ehdr)
    requires e.eType == ET_DYN
    requires var s := ScanSections(cfg, mode, f, e); !s.gotDebug && s.soname.None?
    requires cfg.fakeSoname && cfg.addNonarch && !SkipSoname(cfg, Basename(path))
    ensures var n := |ScanSections(cfg, mode, f, e).provided|;
      var p := Scan(cfg, path, mode, f, e).provided;
      n < |p| && p[n] == FormatDep(Basename(path), None, MkMarker(e))
  {
    var s := ScanSections(cfg, mode, f, e);
    assert s.isDSO && s.marker == MkMarker(e);
    assert ProvidedSoname(cfg, path, s) == Some(Basename(path));
    ProvidesLayout(cfg, path, mode, f, e);
    var p := Scan(cfg, path, mode, f, e).provided;
    assert p == AddMarked(cfg, s.provided, Dep(Basename(path), None), s.marker, s.archMarker);
    assert p[|s.provided|] == FormatDep(Basename(path), None, MkMarker(e));
  }
}
