/** Properties of the lookup that `checkSection` performs. */
module LookupProperties {
  import opened Wrappers
  import opened CStrings
  import opened Libelf
  import opened ElfCheck

  /** When no section is named `sectionName`, the lookup never reports a
      match: it is false when every name reads, otherwise the read failure. */
  lemma AbsentSection(img: Image, shstrndx: nat, sectionName: seq<byte>, symbolName: seq<byte>)
    requires forall k :: 1 <= k < |img.sections| ==> NameAt(img, shstrndx, k) != Ok(CString(sectionName))
    ensures Lookup(img, shstrndx, sectionName, symbolName) != Ok(true)
    ensures Lookup(img, shstrndx, sectionName, symbolName) == Ok(false) <==>
      forall k :: 1 <= k < |img.sections| ==> NameAt(img, shstrndx, k).Ok?
  {
    FirstSectionMeaning(img, shstrndx, CString(sectionName), 1);
  }

  /** A section whose header or name cannot be read before any match aborts
      the lookup with that failure; it never turns into a false result. */
  lemma ScanFailureRaises(img: Image, shstrndx: nat, sectionName: seq<byte>, symbolName: seq<byte>, j: nat)
    requires 1 <= j < |img.sections|
    requires Unmatched(img, shstrndx, CString(sectionName), 1, j)
    requires NameAt(img, shstrndx, j).Err?
    ensures Lookup(img, shstrndx, sectionName, symbolName) == Err(NameAt(img, shstrndx, j).error)
  {
    FirstSectionMeaning(img, shstrndx, CString(sectionName), 1);
  }

  /** With no symbol requested, finding the section is the answer, whatever
      its entries are (given an entry size the count can be taken with). */
  lemma EmptySymbolFindsSection(img: Image, shstrndx: nat, sectionName: seq<byte>, k: nat, entries: seq<Sym>)
    requires FirstSection(img, shstrndx, CString(sectionName), 1) == Ok(Some(k))
    requires GetShdr(img, k).value.shEntsize != 0
    ensures Lookup(img, shstrndx, sectionName, []) == Ok(true)
    ensures Lookup(Image(img.sections[k := img.sections[k].(symbols := entries)]), shstrndx, sectionName, []) == Ok(true)
  {
    var img' := Image(img.sections[k := img.sections[k].(symbols := entries)]);
    var want := CString(sectionName);
    FirstSectionAgrees(img, img', shstrndx, want, 1, k);
  }

  /** With a symbol requested and every counted entry readable, the lookup
      is true exactly when one of the first EntryCount entries carries that
      name (as strcmp sees it). */
  lemma SymbolPresentIff(img: Image, shstrndx: nat, sectionName: seq<byte>, symbolName: seq<byte>, k: nat)
    requires FirstSection(img, shstrndx, CString(sectionName), 1) == Ok(Some(k))
    requires GetShdr(img, k).value.shEntsize != 0
    requires |symbolName| != 0
    requires forall i :: 0 <= i < EntryCount(GetShdr(img, k).value) ==>
      EntryName(img, k, GetShdr(img, k).value.shLink, i).Ok?
    ensures Lookup(img, shstrndx, sectionName, symbolName).Ok?
    ensures Lookup(img, shstrndx, sectionName, symbolName) == Ok(true) <==>
      exists i :: 0 <= i < EntryCount(GetShdr(img, k).value) &&
                  EntryName(img, k, GetShdr(img, k).value.shLink, i) == Ok(CString(symbolName))
  {
    var h := GetShdr(img, k).value;
    EntriesUpToMeaning(img, k, h.shLink, CString(symbolName), EntryCount(h));
  }

  /** With a symbol requested, an unreadable counted entry aborts the
      lookup with the failure of the first such entry, even after a match. */
  lemma EntryFailureRaises(img: Image, shstrndx: nat, sectionName: seq<byte>, symbolName: seq<byte>, k: nat, i: nat)
    requires FirstSection(img, shstrndx, CString(sectionName), 1) == Ok(Some(k))
    requires GetShdr(img, k).value.shEntsize != 0
    requires |symbolName| != 0
    requires i < EntryCount(GetShdr(img, k).value)
    requires EntryName(img, k, GetShdr(img, k).value.shLink, i).Err?
    requires forall j :: 0 <= j < i ==> EntryName(img, k, GetShdr(img, k).value.shLink, j).Ok?
    ensures Lookup(img, shstrndx, sectionName, symbolName) == Err(EntryName(img, k, GetShdr(img, k).value.shLink, i).error)
  {
    var h := GetShdr(img, k).value;
    EntriesUpToMeaning(img, k, h.shLink, CString(symbolName), EntryCount(h));
    EntriesUpToFailure(img, k, h.shLink, CString(symbolName), EntryCount(h));
  }

  /** A matched section with entry size 0 aborts the lookup, with or
      without a symbol name. */
  lemma ZeroEntsizeRaises(img: Image, shstrndx: nat, sectionName: seq<byte>, symbolName: seq<byte>, k: nat)
    requires FirstSection(img, shstrndx, CString(sectionName), 1) == Ok(Some(k))
    requires GetShdr(img, k).value.shEntsize == 0
    ensures Lookup(img, shstrndx, sectionName, symbolName) == Err(ZeroEntsize(k))
  {
  }

  /** Entry `i` is counted exactly when the whole of it lies within the
      section's size: a trailing partial entry is never visited. */
  lemma {:induction false} WholeEntriesOnly(h: Shdr, i: nat)
    requires h.shEntsize != 0
    ensures i < EntryCount(h) <==> (i + 1) * h.shEntsize <= h.shSize
  {
    var q, e := h.shSize / h.shEntsize, h.shEntsize;
    assert h.shSize == q * e + h.shSize % e;
    if i < q {
      MulMonotone(i + 1, q, e);
    } else {
      MulMonotone(q + 1, i + 1, e);
      assert (q + 1) * e == q * e + e;
    }
  }

  lemma MulMonotone(a: nat, b: nat, c: nat)
    requires a <= b
    ensures a * c <= b * c
  {
  }

  // ---------------------------------------------------------------------
  // Parts of the image the lookup does not depend on

  /** Two images whose section names agree up to the first match give the
      same walk. */
  lemma {:induction false} FirstSectionAgrees(img: Image, img': Image, shstrndx: nat, want: seq<byte>, start: nat, k: nat)
    requires FirstSection(img, shstrndx, want, start) == Ok(Some(k))
    requires |img'.sections| == |img.sections|
    requires forall m :: start <= m <= k ==> NameAt(img', shstrndx, m) == NameAt(img, shstrndx, m)
    ensures FirstSection(img', shstrndx, want, start) == Ok(Some(k))
    decreases k - start
  {
    if start < k {
      FirstSectionAgrees(img, img', shstrndx, want, start + 1, k);
    } else {
      assert NameAt(img', shstrndx, k) == Ok(want);
    }
  }

  /** Two images whose counted entries read the same names give the same
      symbol scan. */
  lemma {:induction false} EntriesAgree(img: Image, img': Image, k: nat, link: nat, want: seq<byte>, n: nat)
    requires forall i :: 0 <= i < n ==> EntryName(img', k, link, i) == EntryName(img, k, link, i)
    ensures EntriesUpTo(img', k, link, want, n) == EntriesUpTo(img, k, link, want, n)
  {
    if n > 0 {
      EntriesAgree(img, img', k, link, want, n - 1);
    }
  }

  /** Only the first section with the requested name is examined: replacing
      any later section (a duplicate of the same name included) leaves the
      result unchanged, unless that section holds the names the lookup reads. */
  lemma LaterSectionIrrelevant(img: Image, shstrndx: nat, sectionName: seq<byte>, symbolName: seq<byte>,
                               k: nat, j: nat, s: Section)
    requires FirstSection(img, shstrndx, CString(sectionName), 1) == Ok(Some(k))
    requires k < j < |img.sections|
    requires j != shstrndx && j != GetShdr(img, k).value.shLink
    ensures Lookup(Image(img.sections[j := s]), shstrndx, sectionName, symbolName) ==
            Lookup(img, shstrndx, sectionName, symbolName)
  {
    var img' := Image(img.sections[j := s]);
    var h := GetShdr(img, k).value;
    FirstSectionAgrees(img, img', shstrndx, CString(sectionName), 1, k);
    assert GetShdr(img', k) == Some(h);
    if h.shEntsize != 0 && |symbolName| != 0 {
      EntriesAgree(img, img', k, h.shLink, CString(symbolName), EntryCount(h));
    }
  }

  /** Entries at or past EntryCount are never read: replacing the matched
      section's entries by any that agree on the counted ones leaves the
      result unchanged. */
  lemma TrailingEntriesIgnored(img: Image, shstrndx: nat, sectionName: seq<byte>, symbolName: seq<byte>,
                               k: nat, entries: seq<Sym>)
    requires FirstSection(img, shstrndx, CString(sectionName), 1) == Ok(Some(k))
    requires GetShdr(img, k).value.shEntsize != 0
    requires forall i :: 0 <= i < EntryCount(GetShdr(img, k).value) ==>
      (i < |entries| <==> i < |img.sections[k].symbols|) &&
      (i < |entries| ==> entries[i] == img.sections[k].symbols[i])
    ensures Lookup(Image(img.sections[k := img.sections[k].(symbols := entries)]), shstrndx, sectionName, symbolName) ==
            Lookup(img, shstrndx, sectionName, symbolName)
  {
    var img' := Image(img.sections[k := img.sections[k].(symbols := entries)]);
    var h := GetShdr(img, k).value;
    FirstSectionAgrees(img, img', shstrndx, CString(sectionName), 1, k);
    assert GetShdr(img', k) == Some(h);
    if |symbolName| != 0 {
      forall i | 0 <= i < EntryCount(h)
        ensures EntryName(img', k, h.shLink, i) == EntryName(img, k, h.shLink, i)
      {
        assert GetSym(img', k, i) == GetSym(img, k, i);
      }
      EntriesAgree(img, img', k, h.shLink, CString(symbolName), EntryCount(h));
    }
  }

  /** The symbol scan of section `k` is the same once its entries are
      replaced by any that agree on the counted ones. */
  lemma CountedEntriesAgree(img: Image, k: nat, entries: seq<Sym>, want: seq<byte>)
    requires GetShdr(img, k).Some? && GetShdr(img, k).value.shEntsize != 0
    requires forall i :: 0 <= i < EntryCount(GetShdr(img, k).value) ==>
      (i < |entries| <==> i < |img.sections[k].symbols|) &&
      (i < |entries| ==> entries[i] == img.sections[k].symbols[i])
    ensures var h := GetShdr(img, k).value;
      EntriesUpTo(Image(img.sections[k := img.sections[k].(symbols := entries)]), k, h.shLink, want, EntryCount(h)) ==
      EntriesUpTo(img, k, h.shLink, want, EntryCount(h))
  {
    var img' := Image(img.sections[k := img.sections[k].(symbols := entries)]);
    var h := GetShdr(img, k).value;
    forall i | 0 <= i < EntryCount(h)
      ensures EntryName(img', k, h.shLink, i) == EntryName(img, k, h.shLink, i)
    {
      assert GetSym(img', k, i) == GetSym(img, k, i);
    }
    EntriesAgree(img, img', k, h.shLink, want, EntryCount(h));
  }
}
