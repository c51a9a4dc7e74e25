/**
 The GNU symbol-versioning walks (LSB Core Generic, section 10.7 "Symbol
 Versioning"): `processVerDef` over version definitions, which yields
 provides, and `processVerNeed` over version requirements, which yields
 requires. Both follow offset chains inside one data chunk, bounded by the
 declared counts.
 */
module Versions {
  import opened Options
  import opened Elf
  import opened Deps
  import opened ElfInfo

  /** A 32-bit word read as a two's-complement `int`. */
  function Int32Of(w: u32): (i: int)
    ensures -0x8000_0000 <= i < 0x8000_0000
    ensures (i - w) % 0x1_0000_0000 == 0
  {
    if w < 0x8000_0000 then w else w - 0x1_0000_0000
  }

  /** The number of times the body of `for (; --i >= 0; )` runs. */
  function CountDown(i: int): nat
    decreases if i > 0 then i else 0
  {
    if i - 1 >= 0 then 1 + CountDown(i - 1) else 0
  }

  /** A count-down from `i` runs `i` times, and not at all from a negative start. */
  lemma {:induction false} CountDownRuns(i: int)
    ensures CountDown(i) == if i >= 0 then i else 0
    decreases if i > 0 then i else 0
  {
    if i - 1 >= 0 {
      CountDownRuns(i - 1);
    }
  }

  /**
   The iterations of `for (int i = sh_info; --i >= 0; )`: the 32-bit word is
   stored into an `int`, so a count of 2^31 or more turns negative and the
   loop does not run.
   */
  function InfoCount(info: u32): (n: nat)
    ensures n == CountDown(Int32Of(info))
    ensures n <= info
  {
    CountDownRuns(Int32Of(info));
    if info < 0x8000_0000 then info else 0
  }

  /**
   The names met along an auxiliary chain starting at `off`: at most `j`,
   each record found by adding the previous one's `next`, ending early at a
   missing record or a name that does not resolve.
   */
  function AuxNames(strs: StrTab, auxs: map<u32, Aux>, j: nat, off: u32): (names: seq<string>)
    ensures |names| <= j
    ensures forall i | 0 <= i < |names| :: names[i] in strs.Values
    decreases j
  {
    if j == 0 || off !in auxs || auxs[off].name !in strs then []
    else [strs[auxs[off].name]] + AuxNames(strs, auxs, j - 1, Add32(off, auxs[off].next))
  }

  /** `n` copies of `d`. */
  function Repeat(n: nat, d: Dep): (ds: seq<Dep>)
    ensures |ds| == n && forall i | 0 <= i < n :: ds[i] == d
  {
    seq(n, _ => d)
  }

  /** The facts pairing one soname with each of `names` as its version. */
  function Versioned(soname: string, names: seq<string>): (ds: seq<Dep>)
    ensures |ds| == |names| && forall i | 0 <= i < |names| :: ds[i] == Dep(soname, Some(names[i]))
  {
    seq(|names|, i requires 0 <= i < |names| => Dep(soname, Some(names[i])))
  }

  // ---------------------------------------------------------------- verdef

  /** The running soname of `processVerDef` and the provides so far. */
  datatype DefState = DefState(soname: Option<string>, provided: seq<string>)

  /**
   The inner loop of `processVerDef` over one record's `vd_cnt` auxiliary
   entries. A base record's names replace the running soname and the cursor
   moves on; a regular record emits (soname, name) once a soname is known,
   and its cursor is never moved.
   */
  function VerdauxLoop(ctx: Ctx, auxs: map<u32, Aux>, base: bool, j: nat, off: u32, st: DefState): (r: DefState)
    ensures base || ctx.cfg.sonameOnly ==> r.provided == st.provided
    ensures !base ==> r.soname == st.soname
    decreases j
  {
    if j == 0 || off !in auxs || auxs[off].name !in ctx.strs then st
    else
      var s := ctx.strs[auxs[off].name];
      if base then
        VerdauxLoop(ctx, auxs, base, j - 1, Add32(off, auxs[off].next), st.(soname := Some(s)))
      else if st.soname.Some? && !ctx.cfg.sonameOnly then
        VerdauxLoop(ctx, auxs, base, j - 1, off,
                    st.(provided := Emit(ctx, st.provided, Dep(st.soname.value, Some(s)))))
      else
        VerdauxLoop(ctx, auxs, base, j - 1, off, st)
  }

  /** A base record emits nothing; its last resolvable name becomes the running soname. */
  lemma {:induction false} BaseRecordSetsSoname(ctx: Ctx, auxs: map<u32, Aux>, j: nat, off: u32, st: DefState)
    ensures var names := AuxNames(ctx.strs, auxs, j, off);
      VerdauxLoop(ctx, auxs, true, j, off, st)
        == st.(soname := if |names| == 0 then st.soname else Some(names[|names| - 1]))
    decreases j
  {
    if !(j == 0 || off !in auxs || auxs[off].name !in ctx.strs) {
      var s := ctx.strs[auxs[off].name];
      var next := Add32(off, auxs[off].next);
      BaseRecordSetsSoname(ctx, auxs, j - 1, next, st.(soname := Some(s)));
      var rest := AuxNames(ctx.strs, auxs, j - 1, next);
      assert AuxNames(ctx.strs, auxs, j, off) == [s] + rest;
    }
  }

  /**
   A regular record re-reads its first auxiliary entry on each of its `j`
   iterations: with a soname known it emits that one fact `j` times, and
   otherwise nothing.
   */
  lemma {:induction false} RegularRecordRepeatsFirstAux(ctx: Ctx, auxs: map<u32, Aux>, j: nat, off: u32, st: DefState)
    ensures var names := AuxNames(ctx.strs, auxs, j, off);
      VerdauxLoop(ctx, auxs, false, j, off, st).provided ==
        if st.soname.Some? && !ctx.cfg.sonameOnly && |names| > 0
        then EmitAll(ctx, st.provided, Repeat(j, Dep(st.soname.value, Some(names[0]))))
        else st.provided
    decreases j
  {
    if j == 0 || off !in auxs || auxs[off].name !in ctx.strs {
    } else if st.soname.Some? && !ctx.cfg.sonameOnly {
      var s := ctx.strs[auxs[off].name];
      var d := Dep(st.soname.value, Some(s));
      var st' := st.(provided := Emit(ctx, st.provided, d));
      assert AuxNames(ctx.strs, auxs, j, off)[0] == s;
      RegularRecordRepeatsFirstAux(ctx, auxs, j - 1, off, st');
      EmitAllCons(ctx, st.provided, Repeat(j, d));
      assert Repeat(j, d)[1..] == Repeat(j - 1, d);
      if j - 1 == 0 {
        assert EmitAll(ctx, st'.provided, []) == st'.provided;
      } else {
        assert AuxNames(ctx.strs, auxs, j - 1, off)[0] == s;
      }
    } else {
      RegularRecordRepeatsFirstAux(ctx, auxs, j - 1, off, st);
    }
  }

  /** Emitting a non-empty list of facts is emitting its first, then the rest. */
  lemma EmitAllCons(ctx: Ctx, deps: seq<string>, ds: seq<Dep>)
    requires |ds| > 0
    ensures EmitAll(ctx, deps, ds) == EmitAll(ctx, Emit(ctx, deps, ds[0]), ds[1..])
  {
  }

  /**
   The outer loop of `processVerDef`: at most `k` records along the
   `vd_next` chain from `off`, ending at a missing record.
   */
  function VerdefLoop(ctx: Ctx, defs: map<u32, Verdef>, auxs: map<u32, Aux>, k: nat, off: u32, st: DefState): (r: DefState)
    ensures ctx.cfg.sonameOnly ==> r.provided == st.provided
    decreases k
  {
    if k == 0 || off !in defs then st
    else
      var def := defs[off];
      VerdefLoop(ctx, defs, auxs, k - 1, Add32(off, def.next),
                 VerdauxLoop(ctx, auxs, IsBase(def.flags), def.cnt, Add32(off, def.aux), st))
  }

  /**
   The versions a definition table provides, record by record along the
   chain: a base record sets the soname to its last resolvable name; a
   regular record, once a soname is known and its first name resolves,
   pairs that name with the soname `vd_cnt` times.
   */
  function DefinedVersions(strs: StrTab, defs: map<u32, Verdef>, auxs: map<u32, Aux>,
                           k: nat, off: u32, soname: Option<string>): (ds: seq<Dep>)
    ensures |ds| <= 0xFFFF * k
    decreases k
  {
    if k == 0 || off !in defs then []
    else
      var def := defs[off];
      var names := AuxNames(strs, auxs, def.cnt, Add32(off, def.aux));
      var next := Add32(off, def.next);
      if IsBase(def.flags) then
        DefinedVersions(strs, defs, auxs, k - 1, next,
                        if |names| == 0 then soname else Some(names[|names| - 1]))
      else
        (if soname.Some? && |names| > 0 then Repeat(def.cnt, Dep(soname.value, Some(names[0]))) else [])
          + DefinedVersions(strs, defs, auxs, k - 1, next, soname)
  }

  /** The definition walk emits exactly the entries of the versions `DefinedVersions` lists. */
  lemma {:induction false} VerdefLoopProvides(ctx: Ctx, defs: map<u32, Verdef>, auxs: map<u32, Aux>,
                                              k: nat, off: u32, st: DefState)
    ensures !ctx.cfg.sonameOnly ==>
      VerdefLoop(ctx, defs, auxs, k, off, st).provided
        == EmitAll(ctx, st.provided, DefinedVersions(ctx.strs, defs, auxs, k, off, st.soname))
    decreases k
  {
    if ctx.cfg.sonameOnly {
    } else if k == 0 || off !in defs {
      assert VerdefLoop(ctx, defs, auxs, k, off, st) == st;
      assert DefinedVersions(ctx.strs, defs, auxs, k, off, st.soname) == [];
      assert EmitAll(ctx, st.provided, []) == st.provided;
    } else {
      var def := defs[off];
      var st' := VerdauxLoop(ctx, auxs, IsBase(def.flags), def.cnt, Add32(off, def.aux), st);
      VerdefLoopProvides(ctx, defs, auxs, k - 1, Add32(off, def.next), st');
      VerdefRecordStep(ctx, defs, auxs, k, off, st);
    }
  }

  /**
   One record of the definition walk: what the walk emits from `off` is what
   the record emits, then what the rest of the walk emits from the state the
   record leaves, as `DefinedVersions` also splits it.
   */
  lemma VerdefRecordStep(ctx: Ctx, defs: map<u32, Verdef>, auxs: map<u32, Aux>, k: nat, off: u32, st: DefState)
    requires k > 0 && off in defs && !ctx.cfg.sonameOnly
    requires var def := defs[off];
      var st' := VerdauxLoop(ctx, auxs, IsBase(def.flags), def.cnt, Add32(off, def.aux), st);
      VerdefLoop(ctx, defs, auxs, k - 1, Add32(off, def.next), st').provided
        == EmitAll(ctx, st'.provided, DefinedVersions(ctx.strs, defs, auxs, k - 1, Add32(off, def.next), st'.soname))
    ensures VerdefLoop(ctx, defs, auxs, k, off, st).provided
         == EmitAll(ctx, st.provided, DefinedVersions(ctx.strs, defs, auxs, k, off, st.soname))
  {
    var def := defs[off];
    var aoff := Add32(off, def.aux);
    var next := Add32(off, def.next);
    var names := AuxNames(ctx.strs, auxs, def.cnt, aoff);
    var st' := VerdauxLoop(ctx, auxs, IsBase(def.flags), def.cnt, aoff, st);
    assert VerdefLoop(ctx, defs, auxs, k, off, st) == VerdefLoop(ctx, defs, auxs, k - 1, next, st');
    if IsBase(def.flags) {
      BaseRecordSetsSoname(ctx, auxs, def.cnt, aoff, st);
      assert DefinedVersions(ctx.strs, defs, auxs, k, off, st.soname)
          == DefinedVersions(ctx.strs, defs, auxs, k - 1, next, st'.soname);
    } else {
      RegularRecordRepeatsFirstAux(ctx, auxs, def.cnt, aoff, st);
      var here := if st.soname.Some? && |names| > 0 then Repeat(def.cnt, Dep(st.soname.value, Some(names[0]))) else [];
      var tail := DefinedVersions(ctx.strs, defs, auxs, k - 1, next, st.soname);
      assert st'.provided == EmitAll(ctx, st.provided, here);
      assert DefinedVersions(ctx.strs, defs, auxs, k, off, st.soname) == here + tail;
      AddMarkedAllAppend(ctx.cfg, st.provided, here, tail, ctx.marker, ctx.archMarker);
    }
  }

  /** Without any base record, no soname is ever known and nothing is provided. */
  lemma {:induction false} NoBaseNoProvides(strs: StrTab, defs: map<u32, Verdef>, auxs: map<u32, Aux>,
                                            k: nat, off: u32)
    ensures (forall o | o in defs :: !IsBase(defs[o].flags)) ==>
      DefinedVersions(strs, defs, auxs, k, off, None) == []
    decreases k
  {
    if !(k == 0 || off !in defs) && forall o | o in defs :: !IsBase(defs[o].flags) {
      NoBaseNoProvides(strs, defs, auxs, k - 1, Add32(off, defs[off].next));
    }
  }

  /**
   `processVerDef`: the provides gain the entries of the defined versions,
   read with a soname that starts unknown; nothing else changes.
   */
  function ProcessVerDef(ctx: Ctx, ei: ElfInfo, shdr: Shdr, data: SectionData): (r: ElfInfo)
    ensures r == ei.(provided := r.provided)
    ensures |ei.provided| <= |r.provided| && r.provided[..|ei.provided|] == ei.provided
    ensures AllAccepted(ctx.cfg, ei.provided) ==> AllAccepted(ctx.cfg, r.provided)
    ensures ctx.cfg.sonameOnly ==> r == ei
    ensures !ctx.cfg.sonameOnly ==>
      r.provided == EmitAll(ctx, ei.provided,
                            DefinedVersions(ctx.strs, data.verdefs, data.auxs, InfoCount(shdr.info), 0, None))
    ensures (forall o | o in data.verdefs :: !IsBase(data.verdefs[o].flags)) ==> r == ei
  {
    var st := DefState(None, ei.provided);
    VerdefLoopProvides(ctx, data.verdefs, data.auxs, InfoCount(shdr.info), 0, st);
    NoBaseNoProvides(ctx.strs, data.verdefs, data.auxs, InfoCount(shdr.info), 0);
    ei.(provided := VerdefLoop(ctx, data.verdefs, data.auxs, InfoCount(shdr.info), 0, st).provided)
  }

  // --------------------------------------------------------------- verneed

  /**
   The inner loop of `processVerNeed` over one record's `vn_cnt` auxiliary
   entries, each paired with the record's file name as soname when the gate
   is open and soname-only mode is off.
   */
  function VernauxLoop(ctx: Ctx, auxs: map<u32, Aux>, gen: bool, soname: string,
                       j: nat, off: u32, required: seq<string>): (r: seq<string>)
    ensures r == if gen && !ctx.cfg.sonameOnly
                 then EmitAll(ctx, required, Versioned(soname, AuxNames(ctx.strs, auxs, j, off)))
                 else required
    decreases j
  {
    if j == 0 || off !in auxs || auxs[off].name !in ctx.strs then required
    else
      var s := ctx.strs[auxs[off].name];
      var next := Add32(off, auxs[off].next);
      var required' := if gen && !ctx.cfg.sonameOnly then Emit(ctx, required, Dep(soname, Some(s))) else required;
      var names := AuxNames(ctx.strs, auxs, j, off);
      assert names == [s] + AuxNames(ctx.strs, auxs, j - 1, next);
      assert Versioned(soname, names)[1..] == Versioned(soname, AuxNames(ctx.strs, auxs, j - 1, next));
      VernauxLoop(ctx, auxs, gen, soname, j - 1, next, required')
  }

  /**
   The versions a requirement table asks for, record by record along the
   `vn_next` chain: each record's `vn_file` paired with every name on its
   auxiliary chain. A record whose file name does not resolve ends the walk.
   */
  function NeededVersions(strs: StrTab, needs: map<u32, Verneed>, auxs: map<u32, Aux>,
                          k: nat, off: u32): (ds: seq<Dep>)
    ensures |ds| <= 0xFFFF * k
    ensures forall i | 0 <= i < |ds| :: ds[i].soname in strs.Values && ds[i].ver.Some?
    decreases k
  {
    if k == 0 || off !in needs || needs[off].file !in strs then []
    else
      var need := needs[off];
      Versioned(strs[need.file], AuxNames(strs, auxs, need.cnt, Add32(off, need.aux)))
        + NeededVersions(strs, needs, auxs, k - 1, Add32(off, need.next))
  }

  /** The outer loop of `processVerNeed`: at most `k` records along the `vn_next` chain. */
  function VerneedLoop(ctx: Ctx, needs: map<u32, Verneed>, auxs: map<u32, Aux>, gen: bool,
                       k: nat, off: u32, required: seq<string>): (r: seq<string>)
    ensures r == if gen && !ctx.cfg.sonameOnly
                 then EmitAll(ctx, required, NeededVersions(ctx.strs, needs, auxs, k, off))
                 else required
    decreases k
  {
    if k == 0 || off !in needs || needs[off].file !in ctx.strs then required
    else
      var need := needs[off];
      var file := ctx.strs[need.file];
      var aoff := Add32(off, need.aux);
      var next := Add32(off, need.next);
      AddMarkedAllAppend(ctx.cfg, required, Versioned(file, AuxNames(ctx.strs, auxs, need.cnt, aoff)),
                         NeededVersions(ctx.strs, needs, auxs, k - 1, next), ctx.marker, ctx.archMarker);
      VerneedLoop(ctx, needs, auxs, gen, k - 1, next,
                  VernauxLoop(ctx, auxs, gen, file, need.cnt, aoff, required))
  }

  /**
   `processVerNeed`: with the gate open and soname-only mode off, the
   requires gain the entries of the needed versions; nothing else changes.
   */
  function ProcessVerNeed(ctx: Ctx, ei: ElfInfo, shdr: Shdr, data: SectionData): (r: ElfInfo)
    ensures r == ei.(required := r.required)
    ensures r.required == if GenRequires(ei) && !ctx.cfg.sonameOnly
      then EmitAll(ctx, ei.required, NeededVersions(ctx.strs, data.verneeds, data.auxs, InfoCount(shdr.info), 0))
      else ei.required
  {
    ei.(required := VerneedLoop(ctx, data.verneeds, data.auxs, GenRequires(ei), InfoCount(shdr.info), 0, ei.required))
  }
}
