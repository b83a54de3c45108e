/** The object file as the ELF library presents it to the lookup, in place of
    libelf/gelf decoding of the bytes on disk. A section is addressed by its
    index in the section-header table (System V ABI, chapter 4 "Object Files",
    "Sections"); index 0 is the reserved null section. */
module Libelf {
  import opened Wrappers
  import opened CStrings

  /** The fields of a section header that the lookup reads. */
  datatype Shdr = Shdr(shName: nat, shSize: nat, shEntsize: nat, shLink: nat)

  /** The fields of a symbol-table entry that the lookup reads or traces. */
  datatype Sym = Sym(stName: nat, stValue: nat, stSize: nat)

  /** One section: its header as `gelf_getshdr` retrieves it (None: retrieval
      fails), the bytes `elf_strptr` looks names up in (None: not usable as a
      string table), and the entries `gelf_getsym` decodes from the section's
      data, index by index (past the end: decoding fails). */
  datatype Section = Section(header: Option<Shdr>, strings: Option<seq<byte>>, symbols: seq<Sym>)

  /** An opened ELF object: its section-header table in file order. */
  datatype Image = Image(sections: seq<Section>)

  /** `elf_nextscn`: the section after `scn`, where 0 stands for the null
      handle, so that the first call yields section 1; 0 once the table is
      exhausted. */
  function NextScn(img: Image, scn: nat): nat
  {
    if scn + 1 < |img.sections| then scn + 1 else 0
  }

  /** `gelf_getshdr`. */
  function GetShdr(img: Image, ndx: nat): Option<Shdr>
  {
    if ndx < |img.sections| then img.sections[ndx].header else None
  }

  /** `elf_strptr(elf, ndx, off)`: the name at offset `off` of the string
      table in section `ndx`, or None (the null pointer). */
  function StrPtr(img: Image, ndx: nat, off: nat): Option<seq<byte>>
  {
    if ndx < |img.sections| && img.sections[ndx].strings.Some?
    then StringAt(img.sections[ndx].strings.value, off)
    else None
  }

  /** `gelf_getsym` on the data of section `ndx`: entry `i`, or None when it
      cannot be decoded. */
  function GetSym(img: Image, ndx: nat, i: nat): Option<Sym>
  {
    if ndx < |img.sections| && i < |img.sections[ndx].symbols|
    then Some(img.sections[ndx].symbols[i])
    else None
  }

  /** The kinds `elf_kind` reports. */
  datatype ElfKind = KindNone | KindAr | KindCoff | KindElf

  /** What the library and the operating system report while the object is
      opened: whether `elf_version` accepts the library version, whether the
      file opens for reading, whether `elf_begin` succeeds, the kind of the
      file, and the section-name string-table index (`elf_getshdrstrndx`). */
  datatype OpenEnv = OpenEnv(versionOk: bool, fileOpens: bool, beginOk: bool,
                             kind: ElfKind, shstrndx: Option<nat>)

  /** A file operand: what opening it reports, and the object it holds. */
  datatype ObjectFile = ObjectFile(env: OpenEnv, image: Image)
}
