/** What `ElfPrs` decides: the validation its constructor performs, and the
    section and symbol lookup of `checkSection`, as functions of the image. */
module ElfCheck {
  import opened Wrappers
  import opened CStrings
  import opened Libelf

  /** The failures that `ElfPrs` reports by throwing `ElfPrsExp`, and the
      failures the model adds where the source leaves a library result
      unchecked (ZeroEntsize, GetSymFailed, SymbolNameFailed). */
  datatype ElfError =
    | LibraryInit
    | FileOpen
    | Begin
    | InvalidKind
    | NoShstrndx
    | GetShdrFailed(section: nat)
    | SectionNameFailed(section: nat)
    | ZeroEntsize(section: nat)
    | GetSymFailed(section: nat, entry: nat)
    | SymbolNameFailed(section: nat, entry: nat)

  /** The constructor's checks, in order: the first that fails throws; when
      all pass the object is usable with the section-name table index. */
  function Validate(env: OpenEnv): (r: Result<nat, ElfError>)
    ensures r.Ok? <==>
      env.versionOk && env.fileOpens && env.beginOk && env.kind == KindElf && env.shstrndx.Some?
    ensures r.Ok? ==> Some(r.value) == env.shstrndx
    ensures r == Err(LibraryInit) <==> !env.versionOk
    ensures r == Err(FileOpen) <==> env.versionOk && !env.fileOpens
    ensures r == Err(Begin) <==> env.versionOk && env.fileOpens && !env.beginOk
    ensures r == Err(InvalidKind) <==>
      env.versionOk && env.fileOpens && env.beginOk && env.kind != KindElf
    ensures r == Err(NoShstrndx) <==>
      env.versionOk && env.fileOpens && env.beginOk && env.kind == KindElf && env.shstrndx.None?
  {
    if !env.versionOk then Err(LibraryInit)
    else if !env.fileOpens then Err(FileOpen)
    else if !env.beginOk then Err(Begin)
    else if env.kind != KindElf then Err(InvalidKind)
    else match env.shstrndx
      case None => Err(NoShstrndx)
      case Some(ndx) => Ok(ndx)
  }

  // ---------------------------------------------------------------------
  // The section scan

  /** The name of section `k`, read through its header and the section-name
      string table, or the failure that aborts the scan there. */
  function NameAt(img: Image, shstrndx: nat, k: nat): (r: Result<seq<byte>, ElfError>)
    ensures r.Ok? ==> GetShdr(img, k).Some?
    ensures r.Err? ==> r.error == GetShdrFailed(k) || r.error == SectionNameFailed(k)
    ensures r.Err? ==> (r.error == GetShdrFailed(k) <==> GetShdr(img, k).None?)
  {
    match GetShdr(img, k)
    case None => Err(GetShdrFailed(k))
    case Some(h) =>
      match StrPtr(img, shstrndx, h.shName)
      case None => Err(SectionNameFailed(k))
      case Some(name) => Ok(name)
  }

  /** Reading a section's name fails at the header exactly when
      `gelf_getshdr` fails, fails at the name exactly when the header's
      `sh_name` does not resolve in the section-name table, and otherwise
      yields the name `elf_strptr` returns. */
  lemma NameAtMeaning(img: Image, shstrndx: nat, k: nat)
    ensures NameAt(img, shstrndx, k) == Err(GetShdrFailed(k)) <==> GetShdr(img, k).None?
    ensures NameAt(img, shstrndx, k) == Err(SectionNameFailed(k)) <==>
      GetShdr(img, k).Some? && StrPtr(img, shstrndx, GetShdr(img, k).value.shName).None?
    ensures NameAt(img, shstrndx, k).Ok? <==>
      GetShdr(img, k).Some? && StrPtr(img, shstrndx, GetShdr(img, k).value.shName).Some?
    ensures NameAt(img, shstrndx, k).Ok? ==>
      Some(NameAt(img, shstrndx, k).value) == StrPtr(img, shstrndx, GetShdr(img, k).value.shName)
  {
  }

  /** Every section in [lo, hi) has a readable name and it is not `want`. */
  predicate Unmatched(img: Image, shstrndx: nat, want: seq<byte>, lo: nat, hi: nat)
  {
    forall j :: lo <= j < hi ==> NameAt(img, shstrndx, j).Ok? && NameAt(img, shstrndx, j).value != want
  }

  /** The walk over the section-header table from index `start`: the index
      of the first section named `want`, None when there is none, or the
      failure met first. */
  function FirstSection(img: Image, shstrndx: nat, want: seq<byte>, start: nat): (r: Result<Option<nat>, ElfError>)
    ensures r.Ok? && r.value.Some? ==> start <= r.value.value < |img.sections| && GetShdr(img, r.value.value).Some?
    ensures r.Err? ==> r.error.GetShdrFailed? || r.error.SectionNameFailed?
    decreases |img.sections| - start
  {
    if start >= |img.sections| then Ok(None)
    else match NameAt(img, shstrndx, start)
      case Err(e) => Err(e)
      case Ok(name) =>
        if name == want then Ok(Some(start)) else FirstSection(img, shstrndx, want, start + 1)
  }

  /** The walk stops at the first section that is named `want` or cannot be
      read, and reports None only after reading every name from `start` on. */
  lemma FirstSectionMeaning(img: Image, shstrndx: nat, want: seq<byte>, start: nat)
    ensures var r := FirstSection(img, shstrndx, want, start);
      (r.Ok? && r.value.Some? ==>
        start <= r.value.value < |img.sections| &&
        NameAt(img, shstrndx, r.value.value) == Ok(want) &&
        Unmatched(img, shstrndx, want, start, r.value.value)) &&
      (r == Ok(None) ==> Unmatched(img, shstrndx, want, start, |img.sections|)) &&
      (r.Err? ==>
        (r.error.GetShdrFailed? || r.error.SectionNameFailed?) &&
        start <= r.error.section < |img.sections| &&
        NameAt(img, shstrndx, r.error.section) == Err(r.error) &&
        Unmatched(img, shstrndx, want, start, r.error.section))
  {
    var r := FirstSection(img, shstrndx, want, start);
    if r.Ok? && r.value.Some? {
      FirstSectionFound(img, shstrndx, want, start, r.value.value);
    } else if r.Ok? {
      FirstSectionNone(img, shstrndx, want, start);
    } else {
      FirstSectionFailed(img, shstrndx, want, start, r.error);
    }
  }

  /** A match is named `want`, and every section before it is readable and
      named otherwise. */
  lemma {:induction false} FirstSectionFound(img: Image, shstrndx: nat, want: seq<byte>, start: nat, k: nat)
    requires FirstSection(img, shstrndx, want, start) == Ok(Some(k))
    ensures NameAt(img, shstrndx, k) == Ok(want)
    ensures Unmatched(img, shstrndx, want, start, k)
    decreases |img.sections| - start
  {
    if k != start {
      FirstSectionFound(img, shstrndx, want, start + 1, k);
    }
  }

  /** No match: every section from `start` on is readable and named
      otherwise. */
  lemma {:induction false} FirstSectionNone(img: Image, shstrndx: nat, want: seq<byte>, start: nat)
    requires FirstSection(img, shstrndx, want, start) == Ok(None)
    ensures Unmatched(img, shstrndx, want, start, |img.sections|)
    decreases |img.sections| - start
  {
    if start < |img.sections| {
      FirstSectionNone(img, shstrndx, want, start + 1);
    }
  }

  /** A failure is that of a section in range, every section before which is
      readable and named otherwise. */
  lemma {:induction false} FirstSectionFailed(img: Image, shstrndx: nat, want: seq<byte>, start: nat, e: ElfError)
    requires FirstSection(img, shstrndx, want, start) == Err(e)
    ensures start <= e.section < |img.sections|
    ensures NameAt(img, shstrndx, e.section) == Err(e)
    ensures Unmatched(img, shstrndx, want, start, e.section)
    decreases |img.sections| - start
  {
    if NameAt(img, shstrndx, start).Ok? {
      FirstSectionFailed(img, shstrndx, want, start + 1, e);
    }
  }

  // ---------------------------------------------------------------------
  // The symbol scan of a matched section

  /** The number of whole entries in a section: its size divided by its
      entry size, rounded down. */
  function EntryCount(h: Shdr): nat
    requires h.shEntsize != 0
  {
    h.shSize / h.shEntsize
  }

  /** The entry count as line 119 computes it: C++ unsigned division, which
      has no defined result for a zero `sh_entsize` (undefined behaviour:
      SIGFPE on x86-64, outside any `catch`). */
  function EntryCountAsWritten(h: Shdr): (r: Option<nat>)
    ensures r.None? <==> h.shEntsize == 0
    ensures r.Some? ==> r.value * h.shEntsize <= h.shSize < (r.value + 1) * h.shEntsize
  {
    if h.shEntsize == 0 then None else Some(h.shSize / h.shEntsize)
  }

  /** The name of entry `i` of section `k`, read through the string table in
      section `link`, or the failure that aborts the symbol scan there. */
  function EntryName(img: Image, k: nat, link: nat, i: nat): (r: Result<seq<byte>, ElfError>)
    ensures r.Ok? ==> GetSym(img, k, i).Some?
    ensures r.Err? ==> r.error == GetSymFailed(k, i) || r.error == SymbolNameFailed(k, i)
  {
    match GetSym(img, k, i)
    case None => Err(GetSymFailed(k, i))
    case Some(sym) =>
      match StrPtr(img, link, sym.stName)
      case None => Err(SymbolNameFailed(k, i))
      case Some(name) => Ok(name)
  }

  /** Reading entry `i` fails at the decode exactly when `gelf_getsym`
      fails, fails at the name exactly when the entry's `st_name` does not
      resolve in the string table of section `link`, and otherwise yields
      the name `elf_strptr` returns. */
  lemma EntryNameMeaning(img: Image, k: nat, link: nat, i: nat)
    ensures EntryName(img, k, link, i) == Err(GetSymFailed(k, i)) <==> GetSym(img, k, i).None?
    ensures EntryName(img, k, link, i) == Err(SymbolNameFailed(k, i)) <==>
      GetSym(img, k, i).Some? && StrPtr(img, link, GetSym(img, k, i).value.stName).None?
    ensures EntryName(img, k, link, i).Ok? <==>
      GetSym(img, k, i).Some? && StrPtr(img, link, GetSym(img, k, i).value.stName).Some?
    ensures EntryName(img, k, link, i).Ok? ==>
      Some(EntryName(img, k, link, i).value) == StrPtr(img, link, GetSym(img, k, i).value.stName)
  {
  }

  /** The scan of entries [0, n): whether one of them is named `want`, or the
      failure of the first entry that cannot be read. A match does not stop
      the scan, so a later unreadable entry still fails it. */
  function EntriesUpTo(img: Image, k: nat, link: nat, want: seq<byte>, n: nat): Result<bool, ElfError>
  {
    if n == 0 then Ok(false)
    else match EntriesUpTo(img, k, link, want, n - 1)
      case Err(e) => Err(e)
      case Ok(found) =>
        match EntryName(img, k, link, n - 1)
        case Err(e) => Err(e)
        case Ok(name) => Ok(found || name == want)
  }

  /** The symbol scan succeeds exactly when every counted entry reads, and
      is then true exactly when one of them is named `want`. */
  lemma {:induction false} EntriesUpToMeaning(img: Image, k: nat, link: nat, want: seq<byte>, n: nat)
    ensures EntriesUpTo(img, k, link, want, n).Ok? <==>
      forall i :: 0 <= i < n ==> EntryName(img, k, link, i).Ok?
    ensures EntriesUpTo(img, k, link, want, n).Ok? ==>
      (EntriesUpTo(img, k, link, want, n).value <==>
       exists i :: 0 <= i < n && EntryName(img, k, link, i) == Ok(want))
  {
    EntriesUpToOk(img, k, link, want, n);
    if EntriesUpTo(img, k, link, want, n).Ok? {
      EntriesUpToValue(img, k, link, want, n);
    }
  }

  /** The symbol scan succeeds exactly when every counted entry reads. */
  lemma {:induction false} EntriesUpToOk(img: Image, k: nat, link: nat, want: seq<byte>, n: nat)
    ensures EntriesUpTo(img, k, link, want, n).Ok? <==>
      forall i :: 0 <= i < n ==> EntryName(img, k, link, i).Ok?
  {
    if n > 0 {
      EntriesUpToOk(img, k, link, want, n - 1);
      var prev, last := EntriesUpTo(img, k, link, want, n - 1), EntryName(img, k, link, n - 1);
      assert EntriesUpTo(img, k, link, want, n).Ok? <==> prev.Ok? && last.Ok?;
      assert (forall i :: 0 <= i < n ==> EntryName(img, k, link, i).Ok?) <==>
        (forall i :: 0 <= i < n - 1 ==> EntryName(img, k, link, i).Ok?) && last.Ok?;
    }
  }

  /** A successful symbol scan is true exactly when a counted entry is named
      `want`. */
  lemma {:induction false} EntriesUpToValue(img: Image, k: nat, link: nat, want: seq<byte>, n: nat)
    requires EntriesUpTo(img, k, link, want, n).Ok?
    ensures EntriesUpTo(img, k, link, want, n).value <==>
      exists i :: 0 <= i < n && EntryName(img, k, link, i) == Ok(want)
  {
    if n > 0 {
      var prev := EntriesUpTo(img, k, link, want, n - 1);
      var last := EntryName(img, k, link, n - 1);
      assert prev.Ok? && last.Ok?;
      assert EntriesUpTo(img, k, link, want, n) == Ok(prev.value || last.value == want);
      EntriesUpToValue(img, k, link, want, n - 1);
      assert (exists i :: 0 <= i < n && EntryName(img, k, link, i) == Ok(want)) <==>
        (exists i :: 0 <= i < n - 1 && EntryName(img, k, link, i) == Ok(want)) || last == Ok(want);
    }
  }

  /** A failed symbol scan reports the failure of its first unreadable entry. */
  lemma {:induction false} EntriesUpToFailure(img: Image, k: nat, link: nat, want: seq<byte>, n: nat)
    requires EntriesUpTo(img, k, link, want, n).Err?
    ensures exists i :: 0 <= i < n && EntryName(img, k, link, i) == Err(EntriesUpTo(img, k, link, want, n).error) &&
                        forall j :: 0 <= j < i ==> EntryName(img, k, link, j).Ok?
  {
    var prev := EntriesUpTo(img, k, link, want, n - 1);
    if prev.Err? {
      EntriesUpToFailure(img, k, link, want, n - 1);
    } else {
      EntriesUpToOk(img, k, link, want, n - 1);
      assert EntryName(img, k, link, n - 1).Err?;
    }
  }

  /** Once an entry fails, the scan of any longer prefix fails the same way. */
  lemma {:induction false} EntriesFailureSticks(img: Image, k: nat, link: nat, want: seq<byte>, m: nat, n: nat)
    requires m <= n
    requires EntriesUpTo(img, k, link, want, m).Err?
    ensures EntriesUpTo(img, k, link, want, n) == EntriesUpTo(img, k, link, want, m)
    decreases n - m
  {
    if m < n {
      EntriesFailureSticks(img, k, link, want, m, n - 1);
    }
  }

  /** What the symbol phase decides once section `k` matched. */
  function SymbolPhase(img: Image, k: nat, symbolName: seq<byte>): Result<bool, ElfError>
    requires GetShdr(img, k).Some?
  {
    var h := GetShdr(img, k).value;
    if h.shEntsize == 0 then Err(ZeroEntsize(k))
    else if |symbolName| == 0 then Ok(true)
    else EntriesUpTo(img, k, h.shLink, CString(symbolName), EntryCount(h))
  }

  /** `checkSection(sectionName, symbolName)` when the walk begins at section
      `start`. */
  function LookupFrom(img: Image, shstrndx: nat, sectionName: seq<byte>, symbolName: seq<byte>, start: nat): Result<bool, ElfError>
  {
    match FirstSection(img, shstrndx, CString(sectionName), start)
    case Err(e) => Err(e)
    case Ok(None) => Ok(false)
    case Ok(Some(k)) => SymbolPhase(img, k, symbolName)
  }

  /** `checkSection(sectionName, symbolName)` on a freshly opened object. */
  function Lookup(img: Image, shstrndx: nat, sectionName: seq<byte>, symbolName: seq<byte>): Result<bool, ElfError>
  {
    LookupFrom(img, shstrndx, sectionName, symbolName, 1)
  }

  // ---------------------------------------------------------------------
  // The state the walk leaves in the object's members

  /** The section handle a walk with outcome `walk` leaves behind: the
      matched section, the section it failed at, or the null handle when the
      table ran out. */
  function ScnOf(walk: Result<Option<nat>, ElfError>): nat
  {
    match walk
    case Ok(Some(k)) => k
    case Ok(None) => 0
    case Err(e) => if e.GetShdrFailed? || e.SectionNameFailed? then e.section else 0
  }

  /** One past the last section whose header a walk from `start` over `n`
      sections, with outcome `walk`, retrieved. */
  function HeadersReadOf(walk: Result<Option<nat>, ElfError>, start: nat, n: nat): nat
  {
    match walk
    case Ok(Some(k)) => k + 1
    case Ok(None) => if start < n then n else start
    case Err(e) => if e.SectionNameFailed? then e.section + 1 else if e.GetShdrFailed? then e.section else start
  }

  /** The section handle the walk from `start` leaves behind. */
  function ScnAfter(img: Image, shstrndx: nat, want: seq<byte>, start: nat): nat
  {
    ScnOf(FirstSection(img, shstrndx, want, start))
  }

  /** One past the last section whose header the walk from `start` retrieved. */
  function HeadersRead(img: Image, shstrndx: nat, want: seq<byte>, start: nat): nat
  {
    HeadersReadOf(FirstSection(img, shstrndx, want, start), start, |img.sections|)
  }

  /** A walk that has reached section `next` unchanged and cannot read its
      name stops there with that failure. */
  lemma WalkFails(img: Image, shstrndx: nat, want: seq<byte>, start: nat, next: nat)
    requires start <= next < |img.sections|
    requires FirstSection(img, shstrndx, want, start) == FirstSection(img, shstrndx, want, next)
    requires NameAt(img, shstrndx, next).Err?
    ensures FirstSection(img, shstrndx, want, start) == Err(NameAt(img, shstrndx, next).error)
    ensures NameAt(img, shstrndx, next).error.section == next
  {
  }

  /** A walk that has reached section `next` unchanged and finds it named
      `want` stops there with a match. */
  lemma WalkMatches(img: Image, shstrndx: nat, want: seq<byte>, start: nat, next: nat)
    requires start <= next < |img.sections|
    requires FirstSection(img, shstrndx, want, start) == FirstSection(img, shstrndx, want, next)
    requires NameAt(img, shstrndx, next) == Ok(want)
    ensures FirstSection(img, shstrndx, want, start) == Ok(Some(next))
  {
  }

  /** A walk that has reached section `next` unchanged and reads a name
      other than `want` there goes on unchanged to the next section. */
  lemma WalkContinues(img: Image, shstrndx: nat, want: seq<byte>, start: nat, next: nat)
    requires start <= next < |img.sections|
    requires FirstSection(img, shstrndx, want, start) == FirstSection(img, shstrndx, want, next)
    requires NameAt(img, shstrndx, next).Ok? && NameAt(img, shstrndx, next).value != want
    ensures FirstSection(img, shstrndx, want, start) == FirstSection(img, shstrndx, want, next + 1)
  {
  }

  /** A walk that has run past the table unchanged finds nothing. */
  lemma WalkExhausted(img: Image, shstrndx: nat, want: seq<byte>, start: nat, next: nat)
    requires start <= next && |img.sections| <= next
    requires next <= |img.sections| || next == start
    requires FirstSection(img, shstrndx, want, start) == FirstSection(img, shstrndx, want, next)
    ensures FirstSection(img, shstrndx, want, start) == Ok(None)
    ensures next == if start < |img.sections| then |img.sections| else start
  {
  }
}
