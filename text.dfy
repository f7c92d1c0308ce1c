/** The string operations the core uses: Python's str.strip() and the substring test behind SQL LIKE '%q%'. */
module Text {

  /** The characters Python's str.isspace() accepts, which str.strip() without arguments removes. */
  const Whitespace: set<char> :=
    {' ', '\t', '\n', '\U{0B}', '\U{0C}', '\r', '\U{1C}', '\U{1D}', '\U{1E}', '\U{1F}', '\U{85}', '\U{A0}',
     '\U{1680}', '\U{2000}', '\U{2001}', '\U{2002}', '\U{2003}', '\U{2004}', '\U{2005}', '\U{2006}',
     '\U{2007}', '\U{2008}', '\U{2009}', '\U{200A}', '\U{2028}', '\U{2029}', '\U{202F}', '\U{205F}',
     '\U{3000}'}

  predicate IsSpace(c: char) {
    c in Whitespace
  }

  /** `s` without its leading whitespace (str.lstrip). */
  function TrimStart(s: string): (r: string)
    ensures |r| <= |s| && r == s[|s| - |r|..]
    ensures forall k :: 0 <= k < |s| - |r| ==> IsSpace(s[k])
    ensures r == [] || !IsSpace(r[0])
  {
    if s != [] && IsSpace(s[0]) then
      var r := TrimStart(s[1..]);
      assert s[1..][|s| - 1 - |r|..] == s[|s| - |r|..];
      assert forall k :: 1 <= k < |s| ==> s[k] == s[1..][k - 1];
      r
    else s
  }

  /** `s` without its trailing whitespace (str.rstrip). */
  function TrimEnd(s: string): (r: string)
    ensures |r| <= |s| && r == s[..|r|]
    ensures forall k :: |r| <= k < |s| ==> IsSpace(s[k])
    ensures r == [] || !IsSpace(r[|r| - 1])
  {
    if s != [] && IsSpace(s[|s| - 1]) then
      var r := TrimEnd(s[..|s| - 1]);
      assert s[..|s| - 1][..|r|] == s[..|r|];
      assert forall k :: 0 <= k < |s| - 1 ==> s[k] == s[..|s| - 1][k];
      r
    else s
  }

  /** Python's str.strip(): the slice of `s` left after removing whitespace at both ends. */
  function Strip(s: string): (r: string)
    ensures Trimmed(r)
    ensures r == [] <==> Blank(s)
    ensures StrippedAt(s, |s| - |TrimStart(s)|, r)
  {
    var t := TrimStart(s);
    StripIsSlice(s, |s| - |t|, t, TrimEnd(t));
    TrimEnd(t)
  }

  /** `r` neither starts nor ends with whitespace. */
  predicate Trimmed(r: string) {
    r == [] || (!IsSpace(r[0]) && !IsSpace(r[|r| - 1]))
  }

  /** Every character of `s` is whitespace (the empty string included). */
  predicate Blank(s: string) {
    forall k :: 0 <= k < |s| ==> IsSpace(s[k])
  }

  /** `r` is the slice of `s` starting at `lead`, and everything around it is whitespace. */
  predicate StrippedAt(s: string, lead: int, r: string) {
    && 0 <= lead && lead + |r| <= |s|
    && r == s[lead..lead + |r|]
    && forall k :: 0 <= k < |s| && !(lead <= k < lead + |r|) ==> IsSpace(s[k])
  }

  /**
   * Removing a whitespace prefix of length `lead` and then a whitespace suffix leaves a slice
   * of `s` with only whitespace outside it; the slice is empty exactly when `s` is blank.
   */
  lemma StripIsSlice(s: string, lead: int, t: string, r: string)
    requires 0 <= lead <= |s| && t == s[lead..] && |r| <= |t| && r == t[..|r|]
    requires forall k :: 0 <= k < lead ==> IsSpace(s[k])
    requires forall k :: |r| <= k < |t| ==> IsSpace(t[k])
    requires t == [] || !IsSpace(t[0])
    requires r == [] || !IsSpace(r[|r| - 1])
    ensures Trimmed(r)
    ensures r == [] <==> Blank(s)
    ensures StrippedAt(s, lead, r)
  {
    forall k | lead + |r| <= k < |s| ensures IsSpace(s[k]) {
      assert s[k] == t[k - lead];
    }
    if r != [] {
      assert r[0] == t[0] == s[lead];
    }
  }

  /** Stripping twice is stripping once. */
  lemma StripIdempotent(s: string)
    ensures Strip(Strip(s)) == Strip(s)
  {
    var r := Strip(s);
    if r != [] {
      assert TrimStart(r) == r;
      assert TrimEnd(r) == r;
    }
  }

  /** `needle` occurs in `text` as a contiguous run (SQL `text LIKE '%needle%'`, see the Left out notes). */
  predicate Contains(text: string, needle: string) {
    exists i :: 0 <= i <= |text| - |needle| && OccursAt(text, needle, i)
  }

  /** `needle` occurs in `text` starting at index `i`. */
  predicate OccursAt(text: string, needle: string, i: int) {
    0 <= i <= |text| - |needle| && text[i..i + |needle|] == needle
  }

  /** Every text contains the empty string. */
  lemma ContainsEmpty(text: string)
    ensures Contains(text, "")
  {
    assert OccursAt(text, "", 0);
  }
}
