# elfdeps: a Dafny model of rpm's ELF dependency generator

`tools/elfdeps.c` reads one ELF object at a time and prints either the
shared-library capabilities it provides or the ones it requires. Entries
look like `libc.so.6(GLIBC_2.34)(64bit)`: a soname, an optional symbol
version in parentheses, and a marker for the word size or the architecture.
This project models the core of that program as pure functions over an
immutable view of the object, and proves properties about them:

- the soname sanity filter;
- entry formatting;
- the word-size and architecture markers;
- the requires gate;
- the walks over version definitions, version requirements and the dynamic
  section;
- program-header interpreter discovery;
- the post-scan policy of `processFile`, and its exit code.

Modules, one per concern:

| module | models |
|---|---|
| `Options` | the `Option` type standing in for C's NULL pointers |
| `CString` | the C string functions used: whitespace scan, `strstr`, `rstreqn`, `strrchr`, and `rstrdup` of a NUL-terminated string in the file image |
| `Elf` | the libelf views the code reads: headers, dynamic entries, version records, string tables; the ELF constants; 32-bit offset arithmetic |
| `Deps` | the six option flags (`Config`), `skipSoname`, the format of `addDep`'s entries and `addDep` itself |
| `Markers` | `mkmarker` and `mkarchmarker` |
| `ElfInfo` | the per-object state `elfInfo`, `genRequires`, and the context a section scanner reads |
| `Dynamic` | `processDynamic` |
| `Versions` | `processVerDef` and `processVerNeed` |
| `Process` | `processProgHeaders`, `processSections`, the post-scan policy, and `processFile` |

How the libelf data is represented:

- A string table is a map from offset to string. A missing key is a NULL
  from `elf_strptr`.
- Version records and auxiliary records are maps keyed by their byte offset
  in the section. A missing key is a NULL from `gelf_getverdef` and its
  relatives.
- Offsets are `unsigned int` and wrap modulo 2^32 (`Elf.Add32`).
- The `sh_info` count is stored into an `int` loop counter. A count of 2^31
  or more is negative there, so the loop does not run (`Versions.InfoCount`).
- Each walk is bounded by the count it reads (`sh_info`, `vd_cnt`, `vn_cnt`),
  so every model terminates without an extra fuel parameter.

Behaviour of the code that the model keeps:

- The "ld64." and "ld64-" prefixes are compared on three characters only, so
  any soname starting "ld6" passes the filter.
- Big-endian ARM gets the architecture marker "armeb" and 32-bit PA-RISC gets
  "hppa", neither in parentheses.
- In a non-base version definition the auxiliary cursor never advances, so
  the record's first name is emitted `vd_cnt` times.
- A version with no marker is formatted as `name(ver)`. A marker with no
  version is formatted as `name()marker`.
- A DT_NEEDED or version-requirement entry goes through the filter. The
  GNU-hash token and the interpreter path are appended without it.

Two consequences of the code's structure that are easy to miss:

- A file libelf does not recognise as ELF takes the same exit path as an
  unreadable one (lines 374-375), so `processFile` returns 1 for it, and so
  does `Process.ProcessFile`.
- The version-definition provides come before the soname provide: the
  section scan adds them (line 388) before the soname is added (lines
  404-415). `Process.ProvidesLayout` states this order.

## Model

| member | source | states |
|---|---|---|
| CString.HasNonSpace | tools/elfdeps.c:51-57 | true exactly when some character of the soname is not white space |
| CString.Contains | tools/elfdeps.c:63 | true exactly when the pattern occurs at some position of the string |
| CString.StrnEq | tools/elfdeps.c:66-70 | true exactly when the first n characters of both strings (or all of a shorter one) agree |
| CString.LastIndexOf | tools/elfdeps.c:406 | the position of the last occurrence of the character, or none exactly when it does not occur |
| CString.Basename | tools/elfdeps.c:406-407 | a suffix of the path with no '/', either the whole path or preceded by a '/' |
| CString.CStringAt | tools/elfdeps.c:352-353 | the string copied from an offset is a slice of the image, holds no NUL, and ends at a NUL or at the end of the image |
| CString.StrdupAsWritten | tools/elfdeps.c:352-353 | the unbounded copy reads past the image exactly when no NUL follows the offset; otherwise it agrees with the bounded copy |
| CString.BoundsCheckAdmitsOverRead | tools/elfdeps.c:352-353 | some offset that passes the bounds check still makes the copy read past the image |
| Deps.SkipSoname | tools/elfdeps.c:47-77 | skipped exactly when the name is not accepted: blank names always; with filtering, names without ".so" or without an allowed prefix; without filtering, only blank names |
| Deps.Ld6PrefixAccepted | tools/elfdeps.c:66-67 | the three-character comparison lets "ld6x.so" through while "ld6x", which lacks ".so", is still dropped |
| Deps.FormatDep | tools/elfdeps.c:179-183 | the entry starts with the soname, and equals it exactly when there is neither a version nor a marker |
| Deps.ParseFormatDep | tools/elfdeps.c:179-181 | reading an entry back gives the soname, the version slot and the marker slot it was made from |
| Deps.FormatDepAccepted | tools/elfdeps.c:176-183 | an entry made from an accepted soname is itself accepted by the filter |
| Deps.AddDep | tools/elfdeps.c:171-185 | a skipped soname leaves the list unchanged; otherwise exactly the formatted entry is appended; the list stays filter-clean |
| Deps.AddMarked | tools/elfdeps.c:219-222 | the pair of calls appends the entry with the word-size marker when add_nonarch is set, then the one with the architecture marker when add_arch is set, and nothing for a skipped soname |
| ElfInfo.GenRequires | tools/elfdeps.c:79-82 | requires are generated exactly when the object has no interpreter or has an execute bit set |
| Markers.MkMarker | tools/elfdeps.c:84-100 | a marker exactly for 64-bit objects other than Alpha, and then "(64bit)" |
| Markers.MkArchMarker | tools/elfdeps.c:102-169 | never empty; the unknown fallback by word size for machines not in the table; parenthesised except for big-endian ARM and 32-bit PA-RISC |
| Dynamic.DynCountAsWritten | tools/elfdeps.c:278 | the division has no value exactly when sh_entsize is zero, and is otherwise the number of whole entries in sh_size |
| Dynamic.ZeroEntsizeTraps | tools/elfdeps.c:278 | some SHT_DYNAMIC header with a non-empty size and zero sh_entsize leaves the code's loop bound undefined, while the corrected count is zero |
| Dynamic.DynCount | tools/elfdeps.c:278 | the corrected bound: the code's quotient (whole entries in sh_size) when sh_entsize is not zero, and zero otherwise |
| Dynamic.DynStep | tools/elfdeps.c:286-312 | one entry sets its hash or debug flag, replaces the soname when DT_SONAME resolves, and adds the needed library's entries only with the gate open |
| Dynamic.ScanDynamic | tools/elfdeps.c:278-313 | the scan changes no provides, markers, interpreter or object kind, and adds no requires with the gate closed |
| Dynamic.ScanDynamicFlags | tools/elfdeps.c:287-295 | each hash and debug flag is set exactly when its tag occurs among the entries or it was already set |
| Dynamic.ScanDynamicSoname | tools/elfdeps.c:296-300 | the last resolvable DT_SONAME wins; with none the soname is unchanged |
| Dynamic.ScanDynamicNeeded | tools/elfdeps.c:301-311 | with the gate open the requires gain the entries of the resolvable DT_NEEDED libraries, in order, and nothing else |
| Dynamic.ScanDynamicAppend | tools/elfdeps.c:278-313 | scanning two runs of entries in a row equals scanning their concatenation |
| Dynamic.OtherTagIgnored | tools/elfdeps.c:286-312 | an entry with an unhandled tag has no effect wherever it stands |
| Dynamic.ProcessDynamic | tools/elfdeps.c:274-315 | only the first sh_size/sh_entsize entries count: flags set exactly when their tags occur there, the last resolvable DT_SONAME wins, requires gain the needed libraries only with the gate open, provides unchanged |
| Dynamic.EntriesPastCountIgnored | tools/elfdeps.c:278 | entries at or beyond the header's entry count cannot change the result |
| Versions.InfoCount | tools/elfdeps.c:196 | the closed form agrees with the loop as written: sh_info read as a 32-bit signed int, then counted down by `--i >= 0` |
| Versions.Int32Of | tools/elfdeps.c:196 | the signed reading of a 32-bit word lies in the int range and is congruent to the word modulo 2^32 |
| Versions.CountDownRuns | tools/elfdeps.c:196 | a `--i >= 0` count-down runs the body i times from a non-negative start and not at all from a negative one |
| Versions.AuxNames | tools/elfdeps.c:204-212 | at most vd_cnt/vn_cnt names, each a string of the linked string table |
| Versions.VerdauxLoop | tools/elfdeps.c:204-224 | a base record emits nothing; a regular record keeps the running soname; soname-only mode emits nothing |
| Versions.BaseRecordSetsSoname | tools/elfdeps.c:213-217 | a base record's last resolvable name becomes the running soname, and nothing is emitted |
| Versions.RegularRecordRepeatsFirstAux | tools/elfdeps.c:204-223 | a regular record with a known soname emits its first name vd_cnt times, because the cursor does not advance |
| Versions.VerdefLoop | tools/elfdeps.c:196-226 | soname-only mode leaves the provides unchanged |
| Versions.DefinedVersions | tools/elfdeps.c:196-226 | at most 0xFFFF versions per record walked |
| Versions.VerdefLoopProvides | tools/elfdeps.c:193-227 | the definition walk emits exactly the entries of the versions the reference definition lists, record by record along vd_next |
| Versions.NoBaseNoProvides | tools/elfdeps.c:213-223 | without a base record no soname is known, so nothing is provided |
| Versions.ProcessVerDef | tools/elfdeps.c:187-229 | only the provides change, by appending filter-clean entries of the defined versions; nothing in soname-only mode or without a base record |
| Versions.VernauxLoop | tools/elfdeps.c:251-267 | with the gate open and soname-only off, one fact per resolvable auxiliary name, paired with the record's file; otherwise nothing |
| Versions.NeededVersions | tools/elfdeps.c:237-269 | every listed version is paired with a file name from the string table, at most 0xFFFF per record |
| Versions.VerneedLoop | tools/elfdeps.c:237-269 | the requirement walk emits exactly the entries of the versions the reference definition lists, or nothing when gated |
| Versions.ProcessVerNeed | tools/elfdeps.c:231-272 | only the requires change, and only with the gate open and soname-only off, by the needed versions' entries |
| Process.FindInterpFrom | tools/elfdeps.c:342-358 | an interpreter is found only in a present file image, is no longer than the image, and holds no NUL |
| Process.FindInterpFirst | tools/elfdeps.c:342-358 | no interpreter exactly when no header is a readable PT_INTERP inside the image; otherwise the string at the first such header |
| Process.ProcessSection | tools/elfdeps.c:326-338 | one section never changes the object kind, interpreter or markers, only appends filter-clean entries, and adds no requires with the gate closed |
| Process.ProcessSections | tools/elfdeps.c:317-340 | the same holds for the section sequence, which ends at the first unreadable header |
| Process.Setup | tools/elfdeps.c:381-387 | a supported object starts with no entries, no soname and no flags; the kind from e_type, the execute bit from the mode, markers from the header and the interpreter from the program headers |
| Process.AddGnuHashRequire | tools/elfdeps.c:395-397 | only the requires change: exactly "rtld(GNU_HASH)" is appended when its condition holds, and nothing otherwise |
| Process.AddSonameProvide | tools/elfdeps.c:404-415 | a shared object without DT_DEBUG gains the entries of its DT_SONAME, or of the basename when faking; the requires are untouched |
| Process.AddInterpRequire | tools/elfdeps.c:418-419 | only the requires change: exactly the interpreter path is appended when one exists and it is requested, and nothing otherwise |
| Process.ProcessFile | tools/elfdeps.c:360-423 | exit code 1 with no output exactly when the file cannot be opened, is not ELF or has no header; otherwise 0; an object of another type prints nothing |
| Process.UnsupportedKindSilent | tools/elfdeps.c:381-389 | an object that is neither ET_DYN nor ET_EXEC gets no provides and no requires |
| Process.RequiresLayout | tools/elfdeps.c:395-397 | the requires are the section scan's entries, then the GNU-hash token when its condition holds, then the interpreter path when requested |
| Process.ProvidesLayout | tools/elfdeps.c:404-415 | the provides are the section scan's entries, then, for a shared object without DT_DEBUG, the soname's or basename's entries |
| Process.GateOfObject | tools/elfdeps.c:79-82 | the requires gate is closed exactly when the object has a usable interpreter and no execute bit |
| Process.GatedObjectRequiresOnlyInterp | tools/elfdeps.c:395-419 | a non-executable object with an interpreter requires only its interpreter, and only when that is requested |
| Process.ProvidesPassFilter | tools/elfdeps.c:404-415 | every provide passes the soname filter |
| Process.RequiresPassFilter | tools/elfdeps.c:395-419 | every require passes the filter, except the GNU-hash token and the interpreter path |
| Process.StrictProvidesLookLikeLibraries | tools/elfdeps.c:62-73 | with filtering on, every provide contains ".so" and starts with "lib", "ld.", "ld-" or "ld6" |
| Process.GnuHashTokenRequired | tools/elfdeps.c:395-397 | a GNU hash table without a classic one, with the gate open and soname-only off, puts "rtld(GNU_HASH)" right after the section entries |
| Process.FakeSonameFromBasename | tools/elfdeps.c:404-411 | a shared object without DT_DEBUG or DT_SONAME, with faking on, provides its path's basename with the word-size marker |

## Left out

- The command-line driver `main` is not modelled: popt option parsing, reading file names from standard input, and the accumulated exit status. The flags are a `Config` parameter.
- Opening and `fstat`ing the file, and libelf's decoding of bytes into headers and records, are not modelled. A file is given as an already decoded `FileInput`, with `Unreadable` and absent parts standing for the failures.
- The printing of the chosen list and the memory management (`rstrdup`, `argvFree`, `rfree`) are not modelled. `ProcessFile` returns the lines instead of printing them.
- Each section is modelled as one data chunk. libelf can return several chunks from `elf_getdata`; the code restarts the walk at offset 0 in each chunk, and the version soname carries over between them.
- Record fields the code never reads are not modelled: `vd_version`, `vd_ndx`, `vd_hash`, `vn_version`, `vna_hash`, `vna_flags` and `vna_other`.
- The `#if` guards around EM_AARCH64 and EM_RISCV are assumed true. Both machines are in the marker table.
- Process.ProcessFile: the whole-file model uses the corrected definitions `Dynamic.DynCount` and `CString.CStringAt`. Where the code traps on a dynamic section with zero `sh_entsize`, or reads past the file image for a PT_INTERP string with no NUL before its end, the model returns exit code 0 and the entries of the corrected scan (see "## Findings").
- Versions.InfoCount: converting an `sh_info` of 2^31 or more to `int` is implementation-defined in C. The model takes the usual two's-complement result (`Versions.Int32Of`), a negative count, so the loop does not run.
- Versions.VerdefLoop: its contract states only soname-only mode. What the walk emits is stated by `Versions.VerdefLoopProvides` against `Versions.DefinedVersions`.
- Versions.DefinedVersions: its contract states only a size bound, because it is itself the reference definition of the versions a definition table provides.
- Idempotence and independence from earlier files are not stated as separate lemmas. Every function is pure, and `processFile` starts from a zeroed `elfInfo` for each file (`ElfInfo.Blank`).

## Findings

| source | as written | input that shows it | evidently intended | confidence | as-written member | corrected member |
|---|---|---|---|---|---|---|
| tools/elfdeps.c:352-353 | the interpreter path is copied with `rstrdup(filedata + p_offset)` after checking only `p_offset < maxsize` | a PT_INTERP segment at the end of the file whose string has no terminating NUL inside the image; the copy runs past the end of the mapped file | a copy bounded by the image size, ending at the first NUL or at the end of the image | not executed | CString.StrdupAsWritten, CString.BoundsCheckAdmitsOverRead | CString.CStringAt |
| tools/elfdeps.c:278 | the loop bound is `shdr->sh_size / shdr->sh_entsize` with no check on the divisor | a SHT_DYNAMIC section header with `sh_entsize` 0, such as a truncated or crafted object; integer division by zero traps | no entries examined when the entry size is zero | not executed | Dynamic.DynCountAsWritten, Dynamic.ZeroEntsizeTraps | Dynamic.DynCount |
