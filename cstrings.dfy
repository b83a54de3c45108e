/** Byte strings as C sees them: NUL-terminated names inside string tables,
    and the prefix of a std::string that strcmp compares. */
module CStrings {
  import opened Wrappers

  newtype byte = x: int | 0 <= x < 256

  const NUL: byte := 0

  predicate NoNul(s: seq<byte>)
  {
    forall i :: 0 <= i < |s| ==> s[i] != NUL
  }

  /** The bytes of `s` before its first NUL: what `strcmp` reads through
      `std::string::c_str()`. */
  function CString(s: seq<byte>): (r: seq<byte>)
    ensures NoNul(r)
    ensures r <= s
    ensures |r| < |s| ==> s[|r|] == NUL
  {
    if |s| == 0 || s[0] == NUL then [] else [s[0]] + CString(s[1..])
  }

  /** A string without NUL bytes is seen by strcmp in full. */
  lemma CStringOfNoNul(s: seq<byte>)
    requires NoNul(s)
    ensures CString(s) == s
  {
  }

  /** The NUL-terminated string that starts at byte offset `off` of a string
      table: absent when `off` is outside the table or no NUL follows it. */
  function StringAt(table: seq<byte>, off: nat): (r: Option<seq<byte>>)
    ensures r.Some? ==>
      off + |r.value| < |table| && table[off..off + |r.value|] == r.value &&
      table[off + |r.value|] == NUL && NoNul(r.value)
    ensures r.None? ==> forall j :: off <= j < |table| ==> table[j] != NUL
    decreases |table| - off
  {
    if off >= |table| then None
    else if table[off] == NUL then Some([])
    else match StringAt(table, off + 1)
      case None => None
      case Some(s) => Some([table[off]] + s)
  }

  /** A name stored in a table with its terminating NUL is read back whole
      from its offset. */
  lemma StringAtRoundTrip(pre: seq<byte>, name: seq<byte>, post: seq<byte>)
    requires NoNul(name)
    ensures StringAt(pre + name + [NUL] + post, |pre|) == Some(name)
  {
    var table := pre + name + [NUL] + post;
    var off := |pre|;
    assert table[off + |name|] == NUL;
    assert table[off..off + |name|] == name;
  }
}
