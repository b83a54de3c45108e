# csp — stack-protector check on an ELF object, modelled in Dafny

`csp` opens an ELF object with libelf. It walks the section-header table
for the section named `.dynsym` and, once that section is found, walks its
symbol entries for one named `__stack_chk_fail`. It exits with 0 when the
symbol is present ("protected"), 1 when it is absent ("not protected"), and
3 (`ERRCODE`) when the file could not be examined.

This project models the `ElfPrs` object and `main` from `csp.cpp`.

- **`Libelf`** stands in for the ELF library. An `Image` is the section-header
  table in file order. Each section has an optional header (`gelf_getshdr`),
  an optional string table (`elf_strptr`), and its decoded symbol entries
  (`gelf_getsym`).
  - Section 0 is the reserved null section, and `elf_nextscn(elf, NULL)`
    yields section 1.
  - The null `Elf_Scn*` handle is the index 0.
- **`CStrings`** holds bytes and C strings.
  - `StringAt` reads a NUL-terminated name out of a string table.
  - `CString` is the part of a `std::string` that `strcmp` reads through
    `c_str()`, which is everything before the first NUL.
- **`ElfCheck`** holds the constructor's checks (`Validate`) and the lookup.
  The lookup is written as specification functions:
  - `FirstSection`: the section walk;
  - `EntriesUpTo`: the entry walk;
  - `SymbolPhase`: what happens once a section has matched;
  - `LookupFrom` and `Lookup`: the whole of `checkSection`.

  `ElfCheck` also holds the lemmas that say what these functions mean.
- **`LookupProperties`** states the properties of the lookup. It covers the
  outcome for an absent section, for a present or absent symbol, and for
  each failure. It also shows which parts of the image the result does not
  depend on.
- **`Csp`** holds:
  - the verbosity levels and the `pdb` gate;
  - the `ElfPrs` class, with its members `scn` and `gshdr` and an imperative
    `CheckSection` (the section loop `FindSection`, then the symbol loop
    `ScanSymbols`), proved against `LookupFrom`;
  - the mapping of outcomes to exit statuses;
  - the `-v` counting loop;
  - `Run`, which is `main`.
- **`Scenarios`** builds a small concrete binary (null, `.shstrtab`,
  `.dynstr`, `.dynsym`) and uses it to show the tool's answers and the
  findings below.

The source leaves several library results unchecked. The model turns each
of them into an explicit error that `main` maps to `ERRCODE`:

- `ZeroEntsize`: the entry count of line 119 divides by `sh_entsize`, and
  that size is zero.
- `GetSymFailed`: the `gelf_getsym` result on line 123 is ignored, but the
  entry cannot be decoded.
- `SymbolNameFailed`: line 125 yields a null `thisSymb`, and line 130 then
  hands it to `strcmp`.

The last two are raised only when a symbol name is requested, because only
then does the source pass the name to `strcmp`. Line 119 divides before any
test of `symbolName`, so `ZeroEntsize` is raised with or without a symbol
name. The loop of lines 121-134 runs to `symbol_count` even after a match,
so an unreadable later entry still aborts the lookup; stopping at the first
match would behave differently.

## Model

| member | source | states |
|---|---|---|
| CStrings.CString | csp.cpp:115 | what `strcmp` compares of a `std::string`: a NUL-free prefix of it that ends at its first NUL, or the whole string |
| CStrings.CStringOfNoNul | csp.cpp:190 | a name without NUL bytes, such as the two literals `main` passes, is compared in full |
| CStrings.StringAt | csp.cpp:108 | `elf_strptr`'s name lookup: a found name is the NUL-free run of table bytes from the offset up to a NUL inside the table; the result is null exactly when no NUL follows the offset |
| CStrings.StringAtRoundTrip | csp.cpp:108 | a name stored with its terminating NUL at offset `off` is read back whole from `off` |
| ElfCheck.Validate | csp.cpp:75-92 | the constructor's five checks in source order: each error is reported exactly when every earlier check passed and this one failed; success exactly when all pass, carrying the section-name table index |
| ElfCheck.NameAtMeaning | csp.cpp:105-110 | reading one section's name fails with GetShdrFailed exactly when `gelf_getshdr` fails, with SectionNameFailed exactly when the retrieved header's `sh_name` does not resolve in the section-name table, and otherwise yields the name `elf_strptr(shstrndx, sh_name)` returns |
| ElfCheck.FirstSection | csp.cpp:104-115 | a section reported by the walk lies in the table from where the walk started, and has a header; a failure is one of the two section-reading failures |
| ElfCheck.FirstSectionMeaning | csp.cpp:104-137 | the walk stops at the first section that is named as requested or cannot be read; every section before it reads and is named otherwise; "not found" only after every name from the start reads and differs |
| ElfCheck.FirstSectionFound | csp.cpp:115 | a reported section is named as requested, and every section before it reads and is named otherwise |
| ElfCheck.FirstSectionNone | csp.cpp:104 | "not found" means every section from the start has a readable name different from the requested one |
| ElfCheck.FirstSectionFailed | csp.cpp:105-110 | a failure is that of an in-range section whose name cannot be read, and all sections before it read and differ |
| ElfCheck.EntryCountAsWritten | csp.cpp:119 | the count as written has no value exactly when `sh_entsize` is 0 (the division is undefined behaviour), and otherwise is the number of whole entries that fit in `sh_size` |
| ElfCheck.EntryNameMeaning | csp.cpp:122-125 | reading entry `i` fails with GetSymFailed exactly when `gelf_getsym` fails, with SymbolNameFailed exactly when the entry's `st_name` does not resolve in the table of `sh_link`, and otherwise yields the name `elf_strptr(sh_link, st_name)` returns |
| ElfCheck.EntriesUpToMeaning | csp.cpp:121-134 | the entry walk succeeds exactly when every counted entry reads, and is then true exactly when some counted entry carries the requested name |
| ElfCheck.EntriesUpToOk | csp.cpp:121-125 | the entry walk succeeds exactly when every counted entry reads |
| ElfCheck.EntriesUpToValue | csp.cpp:130-133 | a successful entry walk is true exactly when some counted entry carries the requested name: a match is never undone by later entries |
| ElfCheck.EntriesUpToFailure | csp.cpp:121-125 | a failed entry walk reports the failure of an entry before which every entry reads, that is, the first unreadable one |
| ElfCheck.EntriesFailureSticks | csp.cpp:121-134 | once an entry fails, walking further entries reports that same failure |
| LookupProperties.AbsentSection | csp.cpp:104-140 | with no section of the requested name, the result is never true; it is false exactly when every section name reads |
| LookupProperties.ScanFailureRaises | csp.cpp:105-110 | an unreadable section before any match aborts the lookup with that section's failure |
| LookupProperties.EmptySymbolFindsSection | csp.cpp:116 | with an empty symbol name, finding the section is the answer (true), whatever entries the section holds |
| LookupProperties.SymbolPresentIff | csp.cpp:115-133 | with a symbol requested and every counted entry readable, the lookup succeeds, and is true exactly when a counted entry carries the name |
| LookupProperties.EntryFailureRaises | csp.cpp:121-134 | with a symbol requested, the first unreadable counted entry aborts the lookup with its failure, even after a match |
| LookupProperties.ZeroEntsizeRaises | csp.cpp:119 | a matched section with entry size 0 aborts the lookup with ZeroEntsize, with or without a symbol name |
| LookupProperties.WholeEntriesOnly | csp.cpp:119-121 | entry `i` is visited exactly when all of it lies within `sh_size`; a trailing partial entry is never read |
| LookupProperties.FirstSectionAgrees | csp.cpp:104-115 | the walk depends only on the names of the sections up to the match |
| LookupProperties.EntriesAgree | csp.cpp:121-134 | the entry walk depends only on the names the counted entries read as |
| LookupProperties.LaterSectionIrrelevant | csp.cpp:115-135 | only the first section of the requested name is examined: replacing any later one that is neither the name table nor the symbol names' table leaves the result unchanged |
| LookupProperties.TrailingEntriesIgnored | csp.cpp:119-121 | entries past the count are never read: changing them leaves the result unchanged |
| LookupProperties.CountedEntriesAgree | csp.cpp:121-125 | the entry walk of a section is unchanged by replacing its entries with any that agree on the counted ones |
| Csp.EmittedExactly | csp.cpp:143-146 | a `pdb` call is written exactly when it was made and its level does not exceed the object's verbosity |
| Csp.EmittedInOrder | csp.cpp:143-146 | the gate keeps call order: the output of two runs of calls is the first run's output followed by the second's |
| Csp.HigherVerbositySuperset | csp.cpp:143-146 | a lower verbosity writes exactly the higher one's output filtered again, and never more lines |
| Csp.ElfPrs.constructor | csp.cpp:75 | a validated object holds its file name, image, name-table index and verbosity, with the null section handle, so the handle is valid |
| Csp.ElfPrs.CheckSection | csp.cpp:99-141 | the result is the lookup resumed after the section in `scn`; the object's `scn` ends at the match, at the failing section or at null, and `gshdr` holds the last header retrieved; the handle stays null or inside the section table |
| Csp.ElfPrs.FindSection | csp.cpp:104-115 | the `while` loop up to its `break`: the outcome is the walk resumed after the section in `scn`; `scn` ends at the match, at the failing section or at null, and `gshdr` holds the last header retrieved |
| Csp.ElfPrs.ReadSectionName | csp.cpp:105-110 | one iteration's header retrieval and name lookup agree with NameAt, and `gshdr` is overwritten exactly when the header is retrieved |
| Csp.ElfPrs.ScanSymbols | csp.cpp:115-135 | the matched section's count and entry loop agree with the symbol phase of the lookup |
| Csp.ElfPrs.CheckSectionFromStart | csp.cpp:104 | with the walk rewound to the null handle, the result is the lookup from section 1 |
| Csp.RepeatedCheckAgrees | csp.cpp:99-141 | with the walk rewound, two lookups on one object both give the lookup from section 1 |
| Csp.ExitStatus | csp.cpp:188-199 | exit 0 exactly when the lookup returned true, 1 exactly when it returned false, ERRCODE exactly when something was thrown |
| Csp.ParseOptions | csp.cpp:165-184 | help is printed exactly when an option other than `v` occurs; otherwise the verbosity is the number of `-v` flags, capped at DEBUG |
| Csp.CheckStackProtector | csp.cpp:189-190 | a freshly constructed object's `checkSection(".dynsym", "__stack_chk_fail")`, run as written, is the lookup from section 1 |
| Csp.Run | csp.cpp:157-200 | help exits with EXIT_SUCCESS; otherwise 0 exactly when the file validates and `.dynsym` holds `__stack_chk_fail`, 1 exactly when it validates and does not, ERRCODE exactly when validation or the lookup fails |
| Scenarios.DynsymLookup | csp.cpp:190 | for a `.dynsym` of null and `__stack_chk_fail` entries, the check is true exactly when the latter is present |
| Scenarios.ProtectedBinary | csp.cpp:190 | the sample binary with `__stack_chk_fail` is reported protected |
| Scenarios.UnprotectedBinary | csp.cpp:190 | the sample binary without it is reported unprotected |
| Scenarios.DuplicateSectionIgnored | csp.cpp:135 | with two `.dynsym` sections, a symbol only in the second is not found |
| Scenarios.ProtectedBinaryExitsZero | csp.cpp:190 | `csp -v` on the protected binary exits 0 |
| Scenarios.NotElfExitsErrcode | csp.cpp:87-88 | a file that is not ELF exits with ERRCODE |
| Scenarios.RepeatedCheckResumes | csp.cpp:104 | as written, a second `checkSection` on one object, after a match in the last section, reports false where the first reported true |
| Scenarios.ProtectedBinaryTwice | csp.cpp:104 | the protected sample binary checked twice on one object: true, then false |
| Scenarios.RepeatedCheckFromStart | csp.cpp:104 | with the walk rewound, the protected sample binary checked twice gives true both times |
| Scenarios.ZeroEntsizeTraps | csp.cpp:119 | a `.dynsym` with entry size 0: the count as written has no value, and the model reports ZeroEntsize, with or without a symbol name, which exits with ERRCODE |

## Left out

- The diagnostic texts that `pdb` formats are not modelled, and neither is the `fprintf` to stderr (lines 103, 112, 117, 127, 131 and 139). Only the level gate is modelled (`Csp.Emitted`, `Csp.EmittedExactly`, `Csp.EmittedInOrder`).
- The help text of `printHelp` (lines 148-155) is not modelled. `Run` models only its exit with EXIT_SUCCESS.
- The messages carried by `ElfPrsExp` and `elf_errmsg` (lines 36-55) are not modelled. An `ElfError` records only which check failed and where.
- The destructor (lines 94-97), `open`, `close`, `elf_end` and the decoding of the file's bytes by libelf are not modelled. The object is given as an abstract `Image`, and what opening it reports is given as `OpenEnv`.
- `elf_getdata` (line 118) is not modelled as a step of its own. A section with no data is one whose entries all fail to decode.
- `getopt` itself is not modelled: argument permutation, clustering of `-vv` and `--`. `Run` receives the option characters it returns and the operands after them.
- Csp.Run: never produces the `Unhandled` outcome of `catch(...)` (line 195), such as an allocation failure. `ExitStatus` does map it to ERRCODE.
- Csp.ElfPrs.ScanSymbols: does not model the truncation of the 64-bit quotient on line 119 into `int symbol_count`. The count is an unbounded natural.
- Csp.ParseOptions: does not model overflow of the `int v` counter on line 168. It would need more than 2^31 `-v` flags.
- Csp.ElfPrs.ScanSymbols: models the undefined behaviour of lines 123 and 130 as errors. Line 123 can leave `sym` uninitialised, and on line 130 `strcmp` can receive a null name. The model reports GetSymFailed and SymbolNameFailed instead of either.

## Findings

| source | as written | input that shows it | evidently intended | confidence | as-written member | corrected member |
|---|---|---|---|---|---|---|
| csp.cpp:104 | the walk starts from the member `scn`, which `checkSection` never resets, so a second call on one object resumes after the previous match | the sample binary whose last section `.dynsym` holds `__stack_chk_fail`, checked twice on one `ElfPrs`: true, then false | every call examines the whole section table and gives the same answer | not executed | Csp.ElfPrs.CheckSection; Scenarios.RepeatedCheckResumes | Csp.ElfPrs.CheckSectionFromStart; Csp.RepeatedCheckAgrees |
| csp.cpp:119 | `gshdr.sh_size / gshdr.sh_entsize` with no check of the divisor, even when no symbol is requested | a matched `.dynsym` whose header has `sh_entsize` 0: the division is undefined behaviour (SIGFPE on x86-64, outside the `try`) | an integrity error that `main` reports with ERRCODE | not executed | ElfCheck.EntryCountAsWritten; Scenarios.ZeroEntsizeTraps | LookupProperties.ZeroEntsizeRaises |
