/**
 Dependency policy: the configuration flags, the soname sanity filter
 (`skipSoname`) and the formatting and appending of entries (`addDep`).
 */
module Deps {
  import opened Options
  import opened CString

  /**
   The six process-wide flags, as one immutable record: `soname_only`,
   `fake_soname`, `filter_soname`, `require_interp`, `add_arch` and
   `add_nonarch`.
   */
  datatype Config = Config(
    sonameOnly: bool,
    fakeSoname: bool,
    filterSoname: bool,
    requireInterp: bool,
    addArch: bool,
    addNonarch: bool)

  /** The flags' initial values, before any option is parsed. */
  const DefaultConfig := Config(false, true, true, false, false, true)

  /**
   The leading characters an accepted soname may have when filtering is on:
   "lib", and the dynamic linker's "ld." and "ld-"; the "ld64." and "ld64-"
   forms are compared on three characters only, so what they admit is "ld6".
   */
  predicate SanePrefix(s: string) {
    |s| >= 3 && s[..3] in {"lib", "ld.", "ld-", "ld6"}
  }

  /** A soname the filter lets through, stated without reference to the scan. */
  ghost predicate AcceptedSoname(cfg: Config, s: string) {
    && NonBlank(s)
    && (cfg.filterSoname ==> (exists k: nat :: OccursAt(s, ".so", k)) && SanePrefix(s))
  }

  /** `skipSoname`: true when an entry for this soname is to be dropped. */
  function SkipSoname(cfg: Config, soname: string): (skip: bool)
    ensures skip <==> !AcceptedSoname(cfg, soname)
    ensures !NonBlank(soname) ==> skip
    ensures !cfg.filterSoname ==> (skip <==> !NonBlank(soname))
  {
    if !HasNonSpace(soname) then true
    else if cfg.filterSoname then
      if !Contains(soname, ".so") then true
      else if StrnEq(soname, "ld.", 3) || StrnEq(soname, "ld-", 3)
           || StrnEq(soname, "ld64.", 3) || StrnEq(soname, "ld64-", 3) then
        assert Take("ld.", 3) == "ld." && Take("ld-", 3) == "ld-";
        assert Take("ld64.", 3) == "ld6" && Take("ld64-", 3) == "ld6";
        assert |soname| >= 3 && Take(soname, 3) == soname[..3];
        false
      else
        assert Take("lib", 3) == "lib" && Take("ld.", 3) == "ld." && Take("ld-", 3) == "ld-";
        assert Take("ld64.", 3) == "ld6";
        assert SanePrefix(soname) <==> |soname| >= 3 && Take(soname, 3) in {"lib", "ld.", "ld-", "ld6"};
        !StrnEq(soname, "lib", 3)
    else false
  }

  /** The prefix quirk: a name beginning "ld6" passes although it is not "ld64." or "ld64-". */
  lemma Ld6PrefixAccepted()
    ensures !SkipSoname(DefaultConfig, "ld6x.so")
    ensures SkipSoname(DefaultConfig, "ld6x")
  {
    assert OccursAt("ld6x.so", ".so", 4);
    assert !IsSpace("ld6x.so"[0]);
    assert "ld6x"[..3][0] != '.' && "ld6x"[1..] == "d6x";
    assert "d6x"[..3][0] != '.' && "d6x"[1..] == "6x";
    assert !Contains("6x", ".so");
    assert !Contains("d6x", ".so");
    assert !Contains("ld6x", ".so");
  }

  /** A soname with an optional version; the raw fact an entry is made from. */
  datatype Dep = Dep(soname: string, ver: Option<string>)

  /**
   The entry for `soname`: the bare name when there is neither a version
   nor a marker, else `soname(ver)marker` with an empty slot for whichever
   is absent.
   */
  function FormatDep(soname: string, ver: Option<string>, marker: Option<string>): (entry: string)
    ensures |soname| <= |entry| && entry[..|soname|] == soname
    ensures entry == soname <==> ver.None? && marker.None?
  {
    if ver.Some? || marker.Some? then
      soname + "(" + ver.GetOr("") + ")" + marker.GetOr("")
    else
      soname
  }

  /** The shape of an entry read back: bare, or name, version slot and marker slot. */
  datatype Entry = Bare(name: string) | Decorated(name: string, ver: string, marker: string)

  /** Splits an entry at its first '(' and the first ')' after it. */
  function ParseDep(entry: string): Entry {
    match IndexOf(entry, '(')
    case None => Bare(entry)
    case Some(i) =>
      var rest := entry[i + 1..];
      match IndexOf(rest, ')')
      case None => Bare(entry)
      case Some(j) => Decorated(entry[..i], rest[..j], rest[j + 1..])
  }

  /**
   Formatting can be undone: for a soname without '(' and a version without
   ')', the entry reads back as the soname, the version (or an empty slot)
   and the marker (or an empty slot), in that order.
   */
  lemma {:induction false} ParseFormatDep(soname: string, ver: Option<string>, marker: Option<string>)
    requires '(' !in soname && ')' !in ver.GetOr("")
    ensures ParseDep(FormatDep(soname, ver, marker)) ==
      if ver.None? && marker.None? then Bare(soname)
      else Decorated(soname, ver.GetOr(""), marker.GetOr(""))
  {
    if ver.Some? || marker.Some? {
      var v, m := ver.GetOr(""), marker.GetOr("");
      var rest := v + [')'] + m;
      var entry := soname + ['('] + rest;
      assert FormatDep(soname, ver, marker) == entry;
      IndexOfPastPrefix(soname, '(', rest);
      assert entry[|soname| + 1..] == rest;
      IndexOfPastPrefix(v, ')', m);
      assert entry[..|soname|] == soname;
      assert rest[..|v|] == v;
      assert rest[|v| + 1..] == m;
    }
  }

  /** The first `c` in `a + [c] + b` is the one after `a`, when `a` has none. */
  lemma IndexOfPastPrefix(a: string, c: char, b: string)
    requires c !in a
    ensures IndexOf(a + [c] + b, c) == Some(|a|)
  {
    var s := a + [c] + b;
    assert s[|a|] == c;
    assert forall j | 0 <= j < |a| :: s[j] == a[j];
  }

  /** Every entry of `deps` would itself pass the soname filter. */
  ghost predicate AllAccepted(cfg: Config, deps: seq<string>) {
    forall i | 0 <= i < |deps| :: AcceptedSoname(cfg, deps[i])
  }

  /** An accepted soname stays accepted with anything appended to it. */
  lemma {:induction false} AcceptedExtends(cfg: Config, s: string, t: string)
    requires AcceptedSoname(cfg, s)
    ensures AcceptedSoname(cfg, s + t)
  {
    var i :| 0 <= i < |s| && !IsSpace(s[i]);
    assert (s + t)[i] == s[i];
    if cfg.filterSoname {
      var k: nat :| OccursAt(s, ".so", k);
      assert (s + t)[k..k + 3] == s[k..k + 3];
      assert OccursAt(s + t, ".so", k);
      assert (s + t)[..3] == s[..3];
    }
  }

  /** An entry made from an accepted soname is itself accepted. */
  lemma FormatDepAccepted(cfg: Config, soname: string, ver: Option<string>, marker: Option<string>)
    requires AcceptedSoname(cfg, soname)
    ensures AcceptedSoname(cfg, FormatDep(soname, ver, marker))
  {
    var entry := FormatDep(soname, ver, marker);
    AcceptedExtends(cfg, soname, entry[|soname|..]);
    assert soname + entry[|soname|..] == entry;
  }

  /**
   `addDep`: drops the entry when the soname is skipped, and otherwise appends
   exactly one entry, the formatted one, after the existing ones.
   */
  function AddDep(cfg: Config, deps: seq<string>, soname: string,
                  ver: Option<string>, marker: Option<string>): (r: seq<string>)
    ensures SkipSoname(cfg, soname) ==> r == deps
    ensures !SkipSoname(cfg, soname) ==>
      |r| == |deps| + 1 && r[..|deps|] == deps && r[|deps|] == FormatDep(soname, ver, marker)
    ensures AllAccepted(cfg, deps) ==> AllAccepted(cfg, r)
  {
    if SkipSoname(cfg, soname) then deps
    else
      FormatDepAccepted(cfg, soname, ver, marker);
      deps + [FormatDep(soname, ver, marker)]
  }

  /**
   The pair of `addDep` calls every fact goes through: with the word-size
   marker when `add_nonarch` is set, then with the architecture marker when
   `add_arch` is set.
   */
  function AddMarked(cfg: Config, deps: seq<string>, d: Dep,
                     marker: Option<string>, archMarker: Option<string>): (r: seq<string>)
    ensures |deps| <= |r| <= |deps| + 2 && r[..|deps|] == deps
    ensures SkipSoname(cfg, d.soname) ==> r == deps
    ensures !SkipSoname(cfg, d.soname) ==>
      r == deps + (if cfg.addNonarch then [FormatDep(d.soname, d.ver, marker)] else [])
                + (if cfg.addArch then [FormatDep(d.soname, d.ver, archMarker)] else [])
    ensures AllAccepted(cfg, deps) ==> AllAccepted(cfg, r)
  {
    var r1 := if cfg.addNonarch then AddDep(cfg, deps, d.soname, d.ver, marker) else deps;
    if cfg.addArch then AddDep(cfg, r1, d.soname, d.ver, archMarker) else r1
  }

  /** `AddMarked` for each fact in turn. */
  function AddMarkedAll(cfg: Config, deps: seq<string>, ds: seq<Dep>,
                        marker: Option<string>, archMarker: Option<string>): (r: seq<string>)
    ensures |deps| <= |r| <= |deps| + 2 * |ds| && r[..|deps|] == deps
    ensures AllAccepted(cfg, deps) ==> AllAccepted(cfg, r)
    decreases |ds|
  {
    if |ds| == 0 then deps
    else
      var r1 := AddMarked(cfg, deps, ds[0], marker, archMarker);
      var r := AddMarkedAll(cfg, r1, ds[1..], marker, archMarker);
      assert r[..|deps|] == r[..|r1|][..|deps|];
      r
  }

  /** Appending the facts of `a ++ b` is appending those of `a`, then those of `b`. */
  lemma {:induction false} AddMarkedAllAppend(cfg: Config, deps: seq<string>, a: seq<Dep>, b: seq<Dep>,
                                              marker: Option<string>, archMarker: Option<string>)
    ensures AddMarkedAll(cfg, deps, a + b, marker, archMarker)
         == AddMarkedAll(cfg, AddMarkedAll(cfg, deps, a, marker, archMarker), b, marker, archMarker)
    decreases |a|
  {
    if |a| == 0 {
      assert a + b == b;
    } else {
      assert (a + b)[0] == a[0];
      assert (a + b)[1..] == a[1..] + b;
      AddMarkedAllAppend(cfg, AddMarked(cfg, deps, a[0], marker, archMarker), a[1..], b, marker, archMarker);
    }
  }
}
