/** The `csp` tool: the `ElfPrs` object with its section and symbol lookup,
    its diagnostic gate, and `main`, which counts `-v` flags, runs the one
    lookup the tool exists for and maps its outcome to the exit status. */
module Csp {
  import opened Wrappers
  import opened CStrings
  import opened Libelf
  import opened ElfCheck

  /** The verbosity levels, ordered by their numeric values 0..3. */
  datatype Verbosity = NONE | STD | VERB | DEBUG
  {
    function Level(): nat
    {
      match this
      case NONE => 0
      case STD => 1
      case VERB => 2
      case DEBUG => 3
    }
  }

  /** `pdb`'s gate: a diagnostic of level `v` is written when `v` does not
      exceed the object's verbosity. */
  predicate Emits(v: Verbosity, elfDebug: Verbosity)
  {
    v.Level() <= elfDebug.Level()
  }

  /** One `pdb` call: its level and the text it would format. */
  datatype Diag = Diag(level: Verbosity, text: string)

  /** What a sequence of `pdb` calls writes to stderr at verbosity
      `elfDebug`: the calls whose level passes the gate, in call order. */
  function Emitted(calls: seq<Diag>, elfDebug: Verbosity): seq<Diag>
  {
    if calls == [] then []
    else (if Emits(calls[0].level, elfDebug) then [calls[0]] else []) + Emitted(calls[1..], elfDebug)
  }

  /** A call is written exactly when it was made and its level passes the
      gate. */
  lemma {:induction false} EmittedExactly(calls: seq<Diag>, elfDebug: Verbosity)
    ensures forall d :: d in Emitted(calls, elfDebug) <==> d in calls && Emits(d.level, elfDebug)
  {
    if calls != [] {
      EmittedExactly(calls[1..], elfDebug);
      assert calls == [calls[0]] + calls[1..];
    }
  }

  /** The gate keeps call order: the output of calls made one after the
      other is the output of the first calls followed by that of the rest. */
  lemma {:induction false} EmittedInOrder(first: seq<Diag>, rest: seq<Diag>, elfDebug: Verbosity)
    ensures Emitted(first + rest, elfDebug) == Emitted(first, elfDebug) + Emitted(rest, elfDebug)
  {
    if first == [] {
      assert first + rest == rest;
    } else {
      assert (first + rest)[0] == first[0];
      assert (first + rest)[1..] == first[1..] + rest;
      EmittedInOrder(first[1..], rest, elfDebug);
    }
  }

  /** Each higher verbosity writes a superset of a lower one: the lower
      level's output is exactly the higher level's output, filtered again. */
  lemma {:induction false} HigherVerbositySuperset(calls: seq<Diag>, lo: Verbosity, hi: Verbosity)
    requires lo.Level() <= hi.Level()
    ensures Emitted(calls, lo) == Emitted(Emitted(calls, hi), lo)
    ensures |Emitted(calls, lo)| <= |Emitted(calls, hi)|
  {
    if calls != [] {
      HigherVerbositySuperset(calls[1..], lo, hi);
      var rest := Emitted(calls[1..], hi);
      if Emits(calls[0].level, hi) {
        assert Emitted(calls, hi) == [calls[0]] + rest;
        assert ([calls[0]] + rest)[1..] == rest;
      } else {
        assert Emitted(calls, hi) == rest;
      }
    }
  }

  /** The object behind `ElfPrs`: the opened image, the index of the
      section-name string table, the verbosity, and the two members the walk
      overwrites: the current section handle `scn` (0 is the null handle) and
      the last retrieved header `gshdr`. */
  class ElfPrs {
    const filename: string
    const elfDebug: Verbosity
    const shstrndx: nat
    const elf: Image
    var scn: nat
    var gshdr: Shdr

    /** `scn` is the null handle or a handle into the section table, as
        `elf_nextscn` hands out. */
    predicate Valid()
      reads this
    {
      scn == 0 || scn < |elf.sections|
    }

    /** The object after its constructor's checks passed (`Validate`). */
    constructor (fname: string, image: Image, strndx: nat, dbg: Verbosity)
      ensures filename == fname && elf == image && shstrndx == strndx && elfDebug == dbg
      ensures scn == 0 && Valid()
    {
      filename := fname;
      elf := image;
      shstrndx := strndx;
      elfDebug := dbg;
      scn := 0;
      gshdr := Shdr(0, 0, 0, 0);
    }

    /** `checkSection` as written: the walk resumes after whatever section
        `scn` holds, so only the first call on an object starts at section 1. */
    method CheckSection(sectionName: seq<byte>, symbolName: seq<byte>) returns (r: Result<bool, ElfError>)
      requires Valid()
      modifies this`scn, this`gshdr
      ensures Valid()
      ensures r == LookupFrom(elf, shstrndx, sectionName, symbolName, old(scn) + 1)
      ensures scn == ScnAfter(elf, shstrndx, CString(sectionName), old(scn) + 1)
      ensures var e := HeadersRead(elf, shstrndx, CString(sectionName), old(scn) + 1);
        if e > old(scn) + 1 then GetShdr(elf, e - 1) == Some(gshdr) else gshdr == old(gshdr)
    {
      var found := FindSection(CString(sectionName));
      match found
      case Err(e) => r := Err(e);
      case Ok(None) => r := Ok(false);
      case Ok(Some(k)) => r := ScanSymbols(k, gshdr, symbolName);
    }

    /** The `while` loop of `checkSection` up to its `break`: walk the
        sections after `scn`, reading each header into `gshdr` and resolving
        its name, and stop at the first named `want`, with `scn` left on it. */
    method FindSection(want: seq<byte>) returns (found: Result<Option<nat>, ElfError>)
      requires Valid()
      modifies this`scn, this`gshdr
      ensures Valid()
      ensures found == FirstSection(elf, shstrndx, want, old(scn) + 1)
      ensures scn == ScnOf(found)
      ensures var e := HeadersReadOf(found, old(scn) + 1, |elf.sections|);
        if e > old(scn) + 1 then GetShdr(elf, e - 1) == Some(gshdr) else gshdr == old(gshdr)
    {
      ghost var start := scn + 1;
      ghost var next := start;
      scn := NextScn(elf, scn);
      while scn != 0
        invariant start <= next
        invariant scn == (if next < |elf.sections| then next else 0)
        invariant next <= |elf.sections| || next == start
        invariant FirstSection(elf, shstrndx, want, start) == FirstSection(elf, shstrndx, want, next)
        invariant if next > start then GetShdr(elf, next - 1) == Some(gshdr) else gshdr == old(gshdr)
        decreases |elf.sections| - next
      {
        var sectionNameAt := ReadSectionName();
        if sectionNameAt.Err? {
          WalkFails(elf, shstrndx, want, start, next);
          found := Err(sectionNameAt.error);
          return;
        }
        if sectionNameAt.value == want {
          WalkMatches(elf, shstrndx, want, start, next);
          found := Ok(Some(scn));
          return;
        }
        WalkContinues(elf, shstrndx, want, start, next);
        next := next + 1;
        scn := NextScn(elf, scn);
      }
      WalkExhausted(elf, shstrndx, want, start, next);
      found := Ok(None);
    }

    /** The first two steps of each iteration: retrieve the header of section
        `scn` into `gshdr`, then resolve its name in the section-name table. */
    method ReadSectionName() returns (name: Result<seq<byte>, ElfError>)
      modifies this`gshdr
      ensures name == NameAt(elf, shstrndx, scn)
      ensures if GetShdr(elf, scn).Some? then GetShdr(elf, scn) == Some(gshdr) else gshdr == old(gshdr)
    {
      var hdr := GetShdr(elf, scn);
      if hdr.None? {
        name := Err(GetShdrFailed(scn));
        return;
      }
      gshdr := hdr.value;
      var sectionName := StrPtr(elf, shstrndx, gshdr.shName);
      if sectionName.None? {
        name := Err(SectionNameFailed(scn));
        return;
      }
      name := Ok(sectionName.value);
    }

    /** The part of `checkSection` that runs once section `k`, with header
        `h`, has matched: the entry count, then the walk over the entries,
        which continues after a match. */
    method ScanSymbols(k: nat, h: Shdr, symbolName: seq<byte>) returns (r: Result<bool, ElfError>)
      requires GetShdr(elf, k) == Some(h)
      ensures r == SymbolPhase(elf, k, symbolName)
    {
      var ret := |symbolName| == 0;
      if h.shEntsize == 0 {
        r := Err(ZeroEntsize(k));
        return;
      }
      var symbolCount := h.shSize / h.shEntsize;
      var wantSymbol := CString(symbolName);
      for i := 0 to symbolCount
        invariant |symbolName| != 0 ==> EntriesUpTo(elf, k, h.shLink, wantSymbol, i) == Ok(ret)
        invariant |symbolName| == 0 ==> ret
      {
        var sym := GetSym(elf, k, i);
        var thisSymb := if sym.Some? then StrPtr(elf, h.shLink, sym.value.stName) else None;
        if |symbolName| != 0 {
          if sym.None? {
            r := Err(GetSymFailed(k, i));
            EntriesFailureSticks(elf, k, h.shLink, wantSymbol, i + 1, symbolCount);
            return;
          }
          if thisSymb.None? {
            r := Err(SymbolNameFailed(k, i));
            EntriesFailureSticks(elf, k, h.shLink, wantSymbol, i + 1, symbolCount);
            return;
          }
          if thisSymb.value == wantSymbol {
            ret := true;
          }
        }
      }
      r := Ok(ret);
    }

    /** `checkSection` with the walk rewound to the start of the table, so
        that its result depends on the image and the names alone. */
    method CheckSectionFromStart(sectionName: seq<byte>, symbolName: seq<byte>) returns (r: Result<bool, ElfError>)
      modifies this`scn, this`gshdr
      ensures Valid()
      ensures r == Lookup(elf, shstrndx, sectionName, symbolName)
      ensures scn == ScnAfter(elf, shstrndx, CString(sectionName), 1)
      ensures var e := HeadersRead(elf, shstrndx, CString(sectionName), 1);
        if e > 1 then GetShdr(elf, e - 1) == Some(gshdr) else gshdr == old(gshdr)
    {
      scn := 0;
      r := CheckSection(sectionName, symbolName);
    }
  }

  /** Two lookups on one object agree once the walk is rewound. */
  method RepeatedCheckAgrees(p: ElfPrs, sectionName: seq<byte>, symbolName: seq<byte>)
    returns (first: Result<bool, ElfError>, second: Result<bool, ElfError>)
    modifies p
    ensures first == second == Lookup(p.elf, p.shstrndx, sectionName, symbolName)
  {
    first := p.CheckSectionFromStart(sectionName, symbolName);
    second := p.CheckSectionFromStart(sectionName, symbolName);
  }

  // ---------------------------------------------------------------------
  // main

  const ERRCODE: int := 3
  const EXIT_SUCCESS: int := 0

  /** ".dynsym", the section `main` looks up. */
  const DynsymName: seq<byte> := [0x2e, 0x64, 0x79, 0x6e, 0x73, 0x79, 0x6d]

  /** "__stack_chk_fail", the symbol `main` looks up. */
  const StackChkFailName: seq<byte> :=
    [0x5f, 0x5f, 0x73, 0x74, 0x61, 0x63, 0x6b, 0x5f, 0x63, 0x68, 0x6b, 0x5f, 0x66, 0x61, 0x69, 0x6c]

  /** How the `try` block in `main` ends. */
  datatype Exception = ElfPrsExp(error: ElfError) | Unhandled
  datatype Outcome = Returned(found: bool) | Threw(exception: Exception)

  /** The exit status for the outcome of the lookup: the three outcomes
      "protected", "not protected" and "could not be determined" stay apart. */
  function ExitStatus(o: Outcome): (status: int)
    ensures status == 0 <==> o == Returned(true)
    ensures status == 1 <==> o == Returned(false)
    ensures status == ERRCODE <==> o.Threw?
  {
    match o
    case Returned(found) => if found then 0 else 1
    case Threw(_) => ERRCODE
  }

  /** The `getopt` loop of `main` over the option characters it returns:
      every `v` raises the verbosity one level up to DEBUG; any other
      character ends option processing with the help text. */
  method ParseOptions(opts: seq<char>) returns (help: bool, verbose: Verbosity)
    ensures help <==> exists i :: 0 <= i < |opts| && opts[i] != 'v'
    ensures !help ==> verbose.Level() == if |opts| < DEBUG.Level() then |opts| else DEBUG.Level()
  {
    var v := 0;
    verbose := NONE;
    help := false;
    var k := 0;
    while k < |opts|
      invariant 0 <= k <= |opts| && v == k
      invariant forall i :: 0 <= i < k ==> opts[i] == 'v'
      invariant verbose.Level() == if v < DEBUG.Level() then v else DEBUG.Level()
    {
      if opts[k] != 'v' {
        help := true;
        return;
      }
      v := v + 1;
      if v == STD.Level() {
        verbose := STD;
      } else if v == VERB.Level() {
        verbose := VERB;
      } else if v == DEBUG.Level() {
        verbose := DEBUG;
      }
      k := k + 1;
    }
  }

  /** Whether `main` prints its help text and exits with EXIT_SUCCESS: an
      option other than `-v`, or no file operand. */
  predicate HelpRequested(opts: seq<char>, operands: seq<string>)
  {
    (exists i :: 0 <= i < |opts| && opts[i] != 'v') || |operands| == 0
  }

  /** The body of `main`'s `try`: a fresh `ElfPrs` for a validated object
      and its one `checkSection(".dynsym", "__stack_chk_fail")`. */
  method CheckStackProtector(fname: string, image: Image, strndx: nat, verbose: Verbosity)
    returns (found: Result<bool, ElfError>)
    ensures found == Lookup(image, strndx, DynsymName, StackChkFailName)
  {
    var elfprs := new ElfPrs(fname, image, strndx, verbose);
    assert elfprs.scn + 1 == 1;
    found := elfprs.CheckSection(DynsymName, StackChkFailName);
  }

  /** `main`: `opts` are the option characters `getopt` returns, `operands`
      the arguments after them, and `file` what the first operand names. */
  method Run(opts: seq<char>, operands: seq<string>, file: ObjectFile) returns (status: int)
    ensures HelpRequested(opts, operands) ==> status == EXIT_SUCCESS
    ensures !HelpRequested(opts, operands) ==>
      (status == 0 <==>
        Validate(file.env).Ok? &&
        Lookup(file.image, Validate(file.env).value, DynsymName, StackChkFailName) == Ok(true))
    ensures !HelpRequested(opts, operands) ==>
      (status == 1 <==>
        Validate(file.env).Ok? &&
        Lookup(file.image, Validate(file.env).value, DynsymName, StackChkFailName) == Ok(false))
    ensures !HelpRequested(opts, operands) ==>
      (status == ERRCODE <==>
        Validate(file.env).Err? ||
        Lookup(file.image, Validate(file.env).value, DynsymName, StackChkFailName).Err?)
  {
    var help, verbose := ParseOptions(opts);
    if help || |operands| == 0 {
      status := EXIT_SUCCESS;
      return;
    }
    var validated := Validate(file.env);
    if validated.Err? {
      status := ExitStatus(Threw(ElfPrsExp(validated.error)));
      return;
    }
    var found := CheckStackProtector(operands[0], file.image, validated.value, verbose);
    var outcome := match found
      case Ok(b) => Returned(b)
      case Err(e) => Threw(ElfPrsExp(e));
    status := ExitStatus(outcome);
  }
}
