/**
 The dynamic-section scan (`processDynamic`): hash-table and debug flags,
 the soname, and one requirement per needed library.
 */
module Dynamic {
  import opened Options
  import opened Elf
  import opened Deps
  import opened ElfInfo

  /**
   `sh_size / sh_entsize` as written: the division has no value (the
   process traps) when `sh_entsize` is zero.
   */
  function DynCountAsWritten(shdr: Shdr): (r: Option<nat>)
    ensures r.None? <==> shdr.entsize == 0
    ensures r.Some? ==> r.value * shdr.entsize <= shdr.size < (r.value + 1) * shdr.entsize
  {
    if shdr.entsize == 0 then None else Some(shdr.size / shdr.entsize)
  }

  /**
   Nothing before the division rejects a dynamic section header whose
   `sh_entsize` is zero: such a header, with a non-empty `sh_size`, leaves
   the loop bound undefined, while the corrected count examines nothing.
   */
  lemma ZeroEntsizeTraps()
    ensures exists shdr: Shdr | shdr.shType == SHT_DYNAMIC && shdr.size > 0 ::
      DynCountAsWritten(shdr).None? && DynCount(shdr) == 0
  {
    var shdr := Shdr(SHT_DYNAMIC, 0, 0, 0x100, 0);
    assert DynCountAsWritten(shdr).None? && DynCount(shdr) == 0;
  }

  /**
   The number of entries the scan examines: the section size in whole
   entries, and none when the entry size is zero.
   */
  function DynCount(shdr: Shdr): (n: nat)
    ensures shdr.entsize != 0 ==> DynCountAsWritten(shdr) == Some(n)
    ensures shdr.entsize == 0 ==> n == 0
  {
    if shdr.entsize == 0 then 0 else shdr.size / shdr.entsize
  }

  /** Some entry of `dyns` has tag `tag`. */
  predicate HasTag(dyns: seq<Dyn>, tag: int) {
    exists i | 0 <= i < |dyns| :: dyns[i].tag == tag
  }

  /** A DT_SONAME entry whose string resolves. */
  predicate SetsSoname(strs: StrTab, d: Dyn) {
    d.tag == DT_SONAME && d.val in strs
  }

  /** The libraries named by the resolvable DT_NEEDED entries, in order, without versions. */
  function NeededLibs(strs: StrTab, dyns: seq<Dyn>): (ds: seq<Dep>)
    ensures |ds| <= |dyns|
  {
    if |dyns| == 0 then []
    else
      var d := dyns[|dyns| - 1];
      NeededLibs(strs, dyns[..|dyns| - 1])
        + (if d.tag == DT_NEEDED && d.val in strs then [Dep(strs[d.val], None)] else [])
  }

  /** Everything the dynamic scan leaves alone is unchanged from `ei` to `r`. */
  predicate DynFrame(ei: ElfInfo, r: ElfInfo) {
    && r.isDSO == ei.isDSO && r.isExec == ei.isExec && r.interp == ei.interp
    && r.marker == ei.marker && r.archMarker == ei.archMarker && r.provided == ei.provided
  }

  /** The effect of one dynamic entry. */
  function DynStep(ctx: Ctx, ei: ElfInfo, d: Dyn): (r: ElfInfo)
    ensures DynFrame(ei, r)
    ensures r.gotHash == (ei.gotHash || d.tag == DT_HASH)
    ensures r.gotGnuHash == (ei.gotGnuHash || d.tag == DT_GNU_HASH)
    ensures r.gotDebug == (ei.gotDebug || d.tag == DT_DEBUG)
    ensures r.soname == if SetsSoname(ctx.strs, d) then Some(ctx.strs[d.val]) else ei.soname
    ensures r.required ==
      if GenRequires(ei) && d.tag == DT_NEEDED && d.val in ctx.strs
      then Emit(ctx, ei.required, Dep(ctx.strs[d.val], None)) else ei.required
  {
    if d.tag == DT_HASH then ei.(gotHash := true)
    else if d.tag == DT_GNU_HASH then ei.(gotGnuHash := true)
    else if d.tag == DT_DEBUG then ei.(gotDebug := true)
    else if d.tag == DT_SONAME then
      (if d.val in ctx.strs then ei.(soname := Some(ctx.strs[d.val])) else ei)
    else if d.tag == DT_NEEDED then
      (if GenRequires(ei) && d.val in ctx.strs
       then ei.(required := Emit(ctx, ei.required, Dep(ctx.strs[d.val], None)))
       else ei)
    else ei
  }

  /** The state after the entries `dyns`, in order. */
  function ScanDynamic(ctx: Ctx, ei: ElfInfo, dyns: seq<Dyn>): (r: ElfInfo)
    ensures DynFrame(ei, r)
    ensures !GenRequires(ei) ==> r.required == ei.required
  {
    if |dyns| == 0 then ei
    else DynStep(ctx, ScanDynamic(ctx, ei, dyns[..|dyns| - 1]), dyns[|dyns| - 1])
  }

  /** The three flags record exactly which of their tags occurred. */
  lemma {:induction false} ScanDynamicFlags(ctx: Ctx, ei: ElfInfo, dyns: seq<Dyn>)
    ensures var r := ScanDynamic(ctx, ei, dyns);
      && (r.gotHash <==> ei.gotHash || HasTag(dyns, DT_HASH))
      && (r.gotGnuHash <==> ei.gotGnuHash || HasTag(dyns, DT_GNU_HASH))
      && (r.gotDebug <==> ei.gotDebug || HasTag(dyns, DT_DEBUG))
    decreases |dyns|
  {
    if |dyns| > 0 {
      var init := dyns[..|dyns| - 1];
      ScanDynamicFlags(ctx, ei, init);
      assert forall i | 0 <= i < |init| :: init[i] == dyns[i];
      var d := dyns[|dyns| - 1];
      TagOfLast(dyns, DT_HASH);
      TagOfLast(dyns, DT_GNU_HASH);
      TagOfLast(dyns, DT_DEBUG);
    }
  }

  lemma TagOfLast(dyns: seq<Dyn>, tag: int)
    requires |dyns| > 0
    ensures HasTag(dyns, tag) <==> HasTag(dyns[..|dyns| - 1], tag) || dyns[|dyns| - 1].tag == tag
  {
    var init := dyns[..|dyns| - 1];
    assert forall i | 0 <= i < |init| :: init[i] == dyns[i];
    if HasTag(dyns, tag) && dyns[|dyns| - 1].tag != tag {
      var i :| 0 <= i < |dyns| && dyns[i].tag == tag;
      assert init[i].tag == tag;
    }
  }

  /** The last DT_SONAME entry whose string resolves sets the soname; with none, it is kept. */
  lemma {:induction false} ScanDynamicSoname(ctx: Ctx, ei: ElfInfo, dyns: seq<Dyn>)
    ensures (forall i | 0 <= i < |dyns| :: !SetsSoname(ctx.strs, dyns[i])) ==>
      ScanDynamic(ctx, ei, dyns).soname == ei.soname
    ensures forall i | 0 <= i < |dyns| && SetsSoname(ctx.strs, dyns[i])
                       && (forall j | i < j < |dyns| :: !SetsSoname(ctx.strs, dyns[j])) ::
              ScanDynamic(ctx, ei, dyns).soname == Some(ctx.strs[dyns[i].val])
    decreases |dyns|
  {
    if |dyns| > 0 {
      var init := dyns[..|dyns| - 1];
      var d := dyns[|dyns| - 1];
      ScanDynamicSoname(ctx, ei, init);
      var m := ScanDynamic(ctx, ei, init);
      var r := ScanDynamic(ctx, ei, dyns);
      assert r == DynStep(ctx, m, d);
      assert r.soname == if SetsSoname(ctx.strs, d) then Some(ctx.strs[d.val]) else m.soname;
      assert forall i | 0 <= i < |init| :: init[i] == dyns[i];
      forall i | 0 <= i < |dyns| && SetsSoname(ctx.strs, dyns[i])
                 && (forall j | i < j < |dyns| :: !SetsSoname(ctx.strs, dyns[j]))
        ensures r.soname == Some(ctx.strs[dyns[i].val])
      {
        if i == |dyns| - 1 {
          assert dyns[i] == d;
        } else {
          assert !SetsSoname(ctx.strs, d);
          assert init[i] == dyns[i];
          assert SetsSoname(ctx.strs, init[i]);
          assert forall j | i < j < |init| :: !SetsSoname(ctx.strs, init[j]);
          assert m.soname == Some(ctx.strs[init[i].val]);
        }
      }
    }
  }

  /**
   With the gate open, the requirements gain the entries of the needed
   libraries, in order, and nothing else.
   */
  lemma {:induction false} ScanDynamicNeeded(ctx: Ctx, ei: ElfInfo, dyns: seq<Dyn>)
    ensures GenRequires(ei) ==>
      ScanDynamic(ctx, ei, dyns).required == EmitAll(ctx, ei.required, NeededLibs(ctx.strs, dyns))
    decreases |dyns|
  {
    if |dyns| > 0 && GenRequires(ei) {
      var init := dyns[..|dyns| - 1];
      var d := dyns[|dyns| - 1];
      ScanDynamicNeeded(ctx, ei, init);
      var needed := if d.tag == DT_NEEDED && d.val in ctx.strs then [Dep(ctx.strs[d.val], None)] else [];
      AddMarkedAllAppend(ctx.cfg, ei.required, NeededLibs(ctx.strs, init), needed, ctx.marker, ctx.archMarker);
      if needed != [] {
        assert needed[1..] == [];
      }
    }
  }

  /** Scanning `a ++ b` is scanning `a`, then `b` from where `a` left off. */
  lemma {:induction false} ScanDynamicAppend(ctx: Ctx, ei: ElfInfo, a: seq<Dyn>, b: seq<Dyn>)
    ensures ScanDynamic(ctx, ei, a + b) == ScanDynamic(ctx, ScanDynamic(ctx, ei, a), b)
    decreases |b|
  {
    if |b| == 0 {
      assert a + b == a;
    } else {
      var b' := b[..|b| - 1];
      assert (a + b)[..|a + b| - 1] == a + b';
      assert (a + b)[|a + b| - 1] == b[|b| - 1];
      ScanDynamicAppend(ctx, ei, a, b');
    }
  }

  /** The tags the scan acts on. */
  const HandledTags: set<int> := {DT_HASH, DT_GNU_HASH, DT_DEBUG, DT_SONAME, DT_NEEDED}

  /** An entry with any other tag changes nothing, wherever it stands. */
  lemma OtherTagIgnored(ctx: Ctx, ei: ElfInfo, a: seq<Dyn>, d: Dyn, b: seq<Dyn>)
    requires d.tag !in HandledTags
    ensures ScanDynamic(ctx, ei, a + [d] + b) == ScanDynamic(ctx, ei, a + b)
  {
    ScanDynamicAppend(ctx, ei, a + [d], b);
    ScanDynamicAppend(ctx, ei, a, [d]);
    ScanDynamicAppend(ctx, ei, a, b);
    assert [d][..0] == [];
  }

  /** The entries `processDynamic` looks at: at most `DynCount`, and no more than there are. */
  function Examined(shdr: Shdr, dyns: seq<Dyn>): seq<Dyn> {
    if DynCount(shdr) <= |dyns| then dyns[..DynCount(shdr)] else dyns
  }

  /** `processDynamic` on a section with header `shdr` and entries `dyns`. */
  function ProcessDynamic(ctx: Ctx, ei: ElfInfo, shdr: Shdr, dyns: seq<Dyn>): (r: ElfInfo)
    ensures DynFrame(ei, r)
    ensures r.gotHash <==>
      ei.gotHash || exists i | 0 <= i < |dyns| && i < DynCount(shdr) :: dyns[i].tag == DT_HASH
    ensures r.gotGnuHash <==>
      ei.gotGnuHash || exists i | 0 <= i < |dyns| && i < DynCount(shdr) :: dyns[i].tag == DT_GNU_HASH
    ensures r.gotDebug <==>
      ei.gotDebug || exists i | 0 <= i < |dyns| && i < DynCount(shdr) :: dyns[i].tag == DT_DEBUG
    ensures GenRequires(ei) ==>
      r.required == EmitAll(ctx, ei.required, NeededLibs(ctx.strs, Examined(shdr, dyns)))
    ensures !GenRequires(ei) ==> r.required == ei.required
    ensures var xs := Examined(shdr, dyns);
      (forall i | 0 <= i < |xs| :: !SetsSoname(ctx.strs, xs[i])) ==> r.soname == ei.soname
    ensures var xs := Examined(shdr, dyns);
      forall i | 0 <= i < |xs| && SetsSoname(ctx.strs, xs[i])
                 && (forall j | i < j < |xs| :: !SetsSoname(ctx.strs, xs[j])) ::
        r.soname == Some(ctx.strs[xs[i].val])
  {
    var xs := Examined(shdr, dyns);
    assert forall i | 0 <= i < |xs| :: xs[i] == dyns[i];
    ScanDynamicSoname(ctx, ei, xs);
    ScanDynamicFlags(ctx, ei, xs);
    ScanDynamicNeeded(ctx, ei, xs);
    ScanDynamic(ctx, ei, xs)
  }

  /** Entries at or past index `DynCount` never influence the scan. */
  lemma EntriesPastCountIgnored(ctx: Ctx, ei: ElfInfo, shdr: Shdr, a: seq<Dyn>, b: seq<Dyn>)
    requires DynCount(shdr) <= |a| && DynCount(shdr) <= |b|
    requires a[..DynCount(shdr)] == b[..DynCount(shdr)]
    ensures ProcessDynamic(ctx, ei, shdr, a) == ProcessDynamic(ctx, ei, shdr, b)
  {
  }
}
