/** Concrete objects: the stack-protector check `main` performs on a small
    dynamic symbol table, and the inputs behind the findings. */
module Scenarios {
  import opened Wrappers
  import opened CStrings
  import opened Libelf
  import opened ElfCheck
  import opened Csp
  import LookupProperties

  /** ".dynstr" */
  const DynstrName: seq<byte> := [0x2e, 0x64, 0x79, 0x6e, 0x73, 0x74, 0x72]

  /** The section-name table "\0.dynsym\0.dynstr\0": "" at 0, ".dynsym" at 1,
      ".dynstr" at 9. */
  const ShstrtabBytes: seq<byte> := [NUL] + DynsymName + [NUL] + DynstrName + [NUL]

  /** The dynamic string table "\0__stack_chk_fail\0": "" at 0, the symbol at 1. */
  const DynstrBytes: seq<byte> := [NUL] + StackChkFailName + [NUL]

  const NullSection: Section := Section(Some(Shdr(0, 0, 0, 0)), None, [])
  const ShstrtabSection: Section := Section(Some(Shdr(0, 17, 0, 0)), Some(ShstrtabBytes), [])
  const DynstrSection: Section := Section(Some(Shdr(9, 18, 0, 0)), Some(DynstrBytes), [])

  /** A `.dynsym` section of 24-byte entries linked to `.dynstr` (section 2). */
  function Dynsym(entries: seq<Sym>, entsize: nat): Section
  {
    Section(Some(Shdr(1, 24 * |entries|, entsize, 2)), None, entries)
  }

  const NullSym: Sym := Sym(0, 0, 0)
  const StackChkFailSym: Sym := Sym(1, 0, 0)

  /** Sections: null, .shstrtab (index 1, the section-name table), .dynstr,
      then the given `.dynsym` sections. */
  function Binary(dynsyms: seq<Section>): Image
  {
    Image([NullSection, ShstrtabSection, DynstrSection] + dynsyms)
  }

  /** The first three sections are those of `Binary`. */
  predicate StandardPrefix(img: Image)
  {
    |img.sections| >= 3 && img.sections[0] == NullSection &&
    img.sections[1] == ShstrtabSection && img.sections[2] == DynstrSection
  }

  lemma SectionNames(img: Image)
    requires StandardPrefix(img)
    ensures NameAt(img, 1, 1) == Ok([])
    ensures NameAt(img, 1, 2) == Ok(DynstrName)
    ensures DynstrName != DynsymName && [] != DynsymName
  {
    StringAtRoundTrip([NUL] + DynsymName + [NUL], DynstrName, []);
    assert [NUL] + DynsymName + [NUL] + DynstrName + [NUL] + [] == ShstrtabBytes;
    assert DynstrName[5] != DynsymName[5];
  }

  /** A section whose name offset is 1 is named ".dynsym". */
  lemma DynsymNameAt(img: Image, k: nat)
    requires StandardPrefix(img) && k < |img.sections|
    requires img.sections[k].header.Some? && img.sections[k].header.value.shName == 1
    ensures NameAt(img, 1, k) == Ok(DynsymName)
  {
    assert GetShdr(img, k) == img.sections[k].header;
    StringAtRoundTrip([NUL], DynsymName, DynstrName + [NUL]);
    assert [NUL] + DynsymName + [NUL] + (DynstrName + [NUL]) == ShstrtabBytes;
  }

  /** The walk for ".dynsym" stops at section 3. */
  lemma DynsymIsSection3(img: Image)
    requires StandardPrefix(img) && |img.sections| > 3
    requires img.sections[3].header.Some? && img.sections[3].header.value.shName == 1
    ensures FirstSection(img, 1, CString(DynsymName), 1) == Ok(Some(3))
  {
    SectionNames(img);
    DynsymNameAt(img, 3);
    CStringOfNoNul(DynsymName);
    assert FirstSection(img, 1, DynsymName, 3) == Ok(Some(3));
    assert FirstSection(img, 1, DynsymName, 2) == Ok(Some(3));
  }

  /** The null symbol's name, read through `.dynstr`, is empty. */
  lemma NullSymName(img: Image)
    requires StandardPrefix(img)
    ensures StrPtr(img, 2, NullSym.stName) == Some([])
  {
  }

  /** `__stack_chk_fail` is read back through `.dynstr` from offset 1. */
  lemma StackChkFailSymName(img: Image)
    requires StandardPrefix(img)
    ensures StrPtr(img, 2, StackChkFailSym.stName) == Some(StackChkFailName)
  {
    StringAtRoundTrip([NUL], StackChkFailName, []);
    assert [NUL] + StackChkFailName + [NUL] + [] == DynstrBytes;
  }

  /** strcmp sees the requested symbol name in full, and it is not empty. */
  lemma StackChkFailCString()
    ensures CString(StackChkFailName) == StackChkFailName != []
  {
    CStringOfNoNul(StackChkFailName);
  }

  /** The facts about the first four sections that the lookups below use. */
  lemma Standard(img: Image)
    requires StandardPrefix(img) && |img.sections| > 3
    requires img.sections[3].header.Some? && img.sections[3].header.value.shName == 1
    ensures FirstSection(img, 1, CString(DynsymName), 1) == Ok(Some(3))
    ensures StrPtr(img, 2, NullSym.stName) == Some([])
    ensures StrPtr(img, 2, StackChkFailSym.stName) == Some(StackChkFailName)
  {
    DynsymIsSection3(img);
    NullSymName(img);
    StackChkFailSymName(img);
  }

  /** For a `.dynsym` at index 3 whose entries are null symbols or
      `__stack_chk_fail`, the check is true exactly when the latter is among
      them. */
  lemma DynsymLookup(img: Image, entries: seq<Sym>)
    requires FirstSection(img, 1, CString(DynsymName), 1) == Ok(Some(3))
    requires |img.sections| > 3 && img.sections[3] == Dynsym(entries, 24)
    requires StrPtr(img, 2, NullSym.stName) == Some([])
    requires StrPtr(img, 2, StackChkFailSym.stName) == Some(StackChkFailName)
    requires forall i :: 0 <= i < |entries| ==> entries[i] == NullSym || entries[i] == StackChkFailSym
    ensures Lookup(img, 1, DynsymName, StackChkFailName) == Ok(StackChkFailSym in entries)
  {
    DynsymLookupIff(img, entries);
    StackChkFailEntries(img, entries);
  }

  /** An entry of that `.dynsym` reads as `__stack_chk_fail` exactly when it
      is that symbol. */
  lemma StackChkFailEntries(img: Image, entries: seq<Sym>)
    requires |img.sections| > 3 && img.sections[3] == Dynsym(entries, 24)
    requires StrPtr(img, 2, NullSym.stName) == Some([])
    requires StrPtr(img, 2, StackChkFailSym.stName) == Some(StackChkFailName)
    requires forall i :: 0 <= i < |entries| ==> entries[i] == NullSym || entries[i] == StackChkFailSym
    ensures (exists i :: 0 <= i < |entries| && EntryName(img, 3, 2, i) == Ok(StackChkFailName)) <==>
            StackChkFailSym in entries
  {
    if StackChkFailSym in entries {
      var i :| 0 <= i < |entries| && entries[i] == StackChkFailSym;
      DynsymEntryName(img, entries, i);
    } else {
      forall i | 0 <= i < |entries|
        ensures EntryName(img, 3, 2, i) != Ok(StackChkFailName)
      {
        DynsymEntryName(img, entries, i);
      }
    }
  }

  /** The lookup of that `.dynsym` succeeds, and is true exactly when one of
      its entries reads as `__stack_chk_fail`. */
  lemma DynsymLookupIff(img: Image, entries: seq<Sym>)
    requires FirstSection(img, 1, CString(DynsymName), 1) == Ok(Some(3))
    requires |img.sections| > 3 && img.sections[3] == Dynsym(entries, 24)
    requires StrPtr(img, 2, NullSym.stName) == Some([])
    requires StrPtr(img, 2, StackChkFailSym.stName) == Some(StackChkFailName)
    requires forall i :: 0 <= i < |entries| ==> entries[i] == NullSym || entries[i] == StackChkFailSym
    ensures Lookup(img, 1, DynsymName, StackChkFailName) ==
      Ok(exists i :: 0 <= i < |entries| && EntryName(img, 3, 2, i) == Ok(StackChkFailName))
  {
    var h := Shdr(1, 24 * |entries|, 24, 2);
    assert GetShdr(img, 3) == Some(h);
    DynsymCount(|entries|);
    forall i | 0 <= i < |entries|
      ensures EntryName(img, 3, 2, i).Ok?
    {
      DynsymEntryName(img, entries, i);
    }
    StackChkFailCString();
    LookupProperties.SymbolPresentIff(img, 1, DynsymName, StackChkFailName, 3);
    var r := Lookup(img, 1, DynsymName, StackChkFailName);
    var present := exists i :: 0 <= i < |entries| && EntryName(img, 3, 2, i) == Ok(StackChkFailName);
    assert r.Ok? && (r == Ok(true) <==> present);
    assert r.value == present;
  }

  /** A `.dynsym` of `n` 24-byte entries counts `n` of them. */
  lemma DynsymCount(n: nat)
    ensures EntryCount(Shdr(1, 24 * n, 24, 2)) == n
  {
  }

  /** Entry `i` of that `.dynsym` reads as its symbol's name. */
  lemma DynsymEntryName(img: Image, entries: seq<Sym>, i: nat)
    requires |img.sections| > 3 && img.sections[3] == Dynsym(entries, 24)
    requires StrPtr(img, 2, NullSym.stName) == Some([])
    requires StrPtr(img, 2, StackChkFailSym.stName) == Some(StackChkFailName)
    requires i < |entries| && (entries[i] == NullSym || entries[i] == StackChkFailSym)
    ensures EntryName(img, 3, 2, i) == Ok(if entries[i] == StackChkFailSym then StackChkFailName else [])
  {
  }

  /** A binary whose `.dynsym` names `__stack_chk_fail` is reported protected. */
  lemma ProtectedBinary(img: Image)
    requires img == Binary([Dynsym([NullSym, StackChkFailSym], 24)])
    ensures Lookup(img, 1, DynsymName, StackChkFailName) == Ok(true)
  {
    Standard(img);
    DynsymLookup(img, [NullSym, StackChkFailSym]);
  }

  /** The same binary without the symbol is reported unprotected. */
  lemma UnprotectedBinary(img: Image)
    requires img == Binary([Dynsym([NullSym, NullSym], 24)])
    ensures Lookup(img, 1, DynsymName, StackChkFailName) == Ok(false)
  {
    Standard(img);
    DynsymLookup(img, [NullSym, NullSym]);
  }

  /** Of two sections named ".dynsym", only the first is examined: a symbol
      held only by the second is not found. */
  lemma DuplicateSectionIgnored(img: Image)
    requires img == Binary([Dynsym([NullSym], 24), Dynsym([NullSym, StackChkFailSym], 24)])
    ensures Lookup(img, 1, DynsymName, StackChkFailName) == Ok(false)
  {
    Standard(img);
    DynsymLookup(img, [NullSym]);
  }

  /** The tool on the protected binary, with `-v`, exits with 0. */
  method ProtectedBinaryExitsZero(img: Image) returns (status: int)
    requires img == Binary([Dynsym([NullSym, StackChkFailSym], 24)])
    ensures status == 0
  {
    ProtectedBinary(img);
    status := Run(['v'], ["a.out"], ObjectFile(OpenEnv(true, true, true, KindElf, Some(1)), img));
  }

  /** A file the library does not recognise as ELF exits with ERRCODE. */
  method NotElfExitsErrcode(img: Image) returns (status: int)
    ensures status == ERRCODE
  {
    status := Run([], ["notes.txt"], ObjectFile(OpenEnv(true, true, true, KindNone, None), img));
  }

  // ---------------------------------------------------------------------
  // Findings

  /** As written, a second `checkSection` on the same object resumes after
      the section the first one matched; when that was the last section, the
      second call reports false where the first reported true. The protected
      binary above is such an image (ProtectedBinary, DynsymIsSection3). */
  method RepeatedCheckResumes(elfprs: ElfPrs, sectionName: seq<byte>, symbolName: seq<byte>)
    returns (first: Result<bool, ElfError>, second: Result<bool, ElfError>)
    requires elfprs.scn == 0 && |elfprs.elf.sections| > 1
    requires Lookup(elfprs.elf, elfprs.shstrndx, sectionName, symbolName) == Ok(true)
    requires FirstSection(elfprs.elf, elfprs.shstrndx, CString(sectionName), 1) ==
             Ok(Some(|elfprs.elf.sections| - 1))
    modifies elfprs
    ensures first == Ok(true) && second == Ok(false)
  {
    MatchAtLastSection(elfprs.elf, elfprs.shstrndx, sectionName, symbolName);
    first := elfprs.CheckSection(sectionName, symbolName);
    assert first == Ok(true);
    assert elfprs.scn + 1 == |elfprs.elf.sections|;
    second := elfprs.CheckSection(sectionName, symbolName);
  }

  /** A walk that matched the last section leaves the handle there, and a
      walk resumed after it finds nothing. */
  lemma MatchAtLastSection(img: Image, shstrndx: nat, sectionName: seq<byte>, symbolName: seq<byte>)
    requires |img.sections| > 1
    requires FirstSection(img, shstrndx, CString(sectionName), 1) == Ok(Some(|img.sections| - 1))
    ensures ScnAfter(img, shstrndx, CString(sectionName), 1) + 1 == |img.sections|
    ensures LookupFrom(img, shstrndx, sectionName, symbolName, |img.sections|) == Ok(false)
  {
  }

  /** The stack-protector check run twice on one object for the protected
      binary: true, then false. */
  method ProtectedBinaryTwice(img: Image) returns (first: Result<bool, ElfError>, second: Result<bool, ElfError>)
    requires img == Binary([Dynsym([NullSym, StackChkFailSym], 24)])
    ensures first == Ok(true) && second == Ok(false)
  {
    var elfprs := new ElfPrs("a.out", img, 1, NONE);
    ProtectedBinary(img);
    DynsymIsSection3(img);
    first, second := RepeatedCheckResumes(elfprs, DynsymName, StackChkFailName);
  }

  /** With the walk rewound, both calls give the first call's answer. */
  method RepeatedCheckFromStart(img: Image) returns (first: Result<bool, ElfError>, second: Result<bool, ElfError>)
    requires img == Binary([Dynsym([NullSym, StackChkFailSym], 24)])
    ensures first == Ok(true) && second == Ok(true)
  {
    var elfprs := new ElfPrs("a.out", img, 1, NONE);
    ProtectedBinary(img);
    first, second := RepeatedCheckAgrees(elfprs, DynsymName, StackChkFailName);
  }

  /** A `.dynsym` header with entry size 0: as written, the count on line
      119 divides by zero whether or not a symbol is requested; the model
      reports ZeroEntsize instead, which `main` maps to ERRCODE. */
  lemma ZeroEntsizeTraps(img: Image)
    requires img == Binary([Dynsym([NullSym, StackChkFailSym], 0)])
    ensures EntryCountAsWritten(GetShdr(img, 3).value) == None
    ensures Lookup(img, 1, DynsymName, StackChkFailName) == Err(ZeroEntsize(3))
    ensures Lookup(img, 1, DynsymName, []) == Err(ZeroEntsize(3))
    ensures ExitStatus(Threw(ElfPrsExp(ZeroEntsize(3)))) == ERRCODE
  {
    DynsymIsSection3(img);
    assert GetShdr(img, 3) == Some(Shdr(1, 48, 0, 2));
  }
}
