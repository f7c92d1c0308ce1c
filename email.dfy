/**
 * The email check of models/user.py: `re.match` with the pattern
 * `^[a-zA-Z0-9._%+-]+@[a-zA-Z0-9.-]+\.[a-zA-Z]{2,}$`, written by hand as a scan for the '@'
 * and for the last '.', and proved equal to what the pattern means.
 */
module Email {
  import opened Wrappers

  /** `[a-zA-Z]`: ASCII letters only (no IGNORECASE flag, so no other letters). */
  predicate IsLetter(c: char) { 'a' <= c <= 'z' || 'A' <= c <= 'Z' }

  predicate IsDigit(c: char) { '0' <= c <= '9' }

  /** `[a-zA-Z0-9._%+-]`, the characters of the part before '@'. */
  predicate IsLocalChar(c: char) {
    IsLetter(c) || IsDigit(c) || c == '.' || c == '_' || c == '%' || c == '+' || c == '-'
  }

  /** `[a-zA-Z0-9.-]`, the characters of the host part before the last '.'. */
  predicate IsDomainChar(c: char) { IsLetter(c) || IsDigit(c) || c == '.' || c == '-' }

  predicate AllSatisfy(s: string, p: char -> bool) {
    forall k :: 0 <= k < |s| ==> p(s[k])
  }

  // What the pattern means.

  /**
   * The pattern matches all of `t`, the `+` and `{2,}` repetitions split so that the '@' is at
   * index `at` and the '.' before the final letters at index `dot`.
   */
  ghost predicate PatternSplit(t: string, at: int, dot: int) {
    && 0 < at && at + 1 < dot && dot + 2 < |t|
    && (forall k :: 0 <= k < at ==> IsLocalChar(t[k]))
    && t[at] == '@'
    && (forall k :: at < k < dot ==> IsDomainChar(t[k]))
    && t[dot] == '.'
    && (forall k :: dot < k < |t| ==> IsLetter(t[k]))
  }

  /** Some split of `t` matches the pattern. */
  ghost predicate PatternMatches(t: string) {
    exists at, dot :: PatternSplit(t, at, dot)
  }

  /** `re.match` of the anchored pattern: Python's `$` matches at the end or before one final newline. */
  ghost predicate RegexAccepts(s: string) {
    PatternMatches(s) || (|s| > 0 && s[|s| - 1] == '\n' && PatternMatches(s[..|s| - 1]))
  }

  // The hand-written recognizer.

  /** The first index of `c` in `s`, if any. */
  function IndexOf(s: string, c: char): (r: Option<nat>)
    ensures r.None? ==> forall k :: 0 <= k < |s| ==> s[k] != c
    ensures r.Some? ==> r.value < |s| && s[r.value] == c && forall k :: 0 <= k < r.value ==> s[k] != c
  {
    if s == [] then None
    else if s[0] == c then Some(0)
    else match IndexOf(s[1..], c) {
      case None => None
      case Some(i) => Some(i + 1)
    }
  }

  /** The last index of `c` in `s`, if any. */
  function LastIndexOf(s: string, c: char): (r: Option<nat>)
    ensures r.None? ==> forall k :: 0 <= k < |s| ==> s[k] != c
    ensures r.Some? ==> r.value < |s| && s[r.value] == c && forall k :: r.value < k < |s| ==> s[k] != c
  {
    if s == [] then None
    else if s[|s| - 1] == c then Some(|s| - 1)
    else LastIndexOf(s[..|s| - 1], c)
  }

  /** `s` without the one final newline that `$` tolerates. */
  function DropFinalNewline(s: string): string {
    if |s| > 0 && s[|s| - 1] == '\n' then s[..|s| - 1] else s
  }

  /**
   * The host part after '@': `[a-zA-Z0-9.-]+\.[a-zA-Z]{2,}`. The final letters hold no '.',
   * so the separating '.' can only be the last one.
   */
  predicate IsValidHost(d: string) {
    match LastIndexOf(d, '.')
    case None => false
    case Some(dot) =>
      0 < dot && dot + 2 < |d| && AllSatisfy(d[..dot], IsDomainChar) && AllSatisfy(d[dot + 1..], IsLetter)
  }

  /** A whole address. The local part holds no '@', so the separating '@' can only be the first one. */
  predicate IsValidAddress(t: string) {
    match IndexOf(t, '@')
    case None => false
    case Some(at) => 0 < at && AllSatisfy(t[..at], IsLocalChar) && IsValidHost(t[at + 1..])
  }

  /** `User._is_valid_email` (models/user.py:21-24). */
  predicate IsValidEmail(s: string) {
    IsValidAddress(DropFinalNewline(s))
  }

  // Proofs.

  /** The recognizer accepts an address exactly when the pattern matches all of it. */
  lemma AddressMatchesPattern(t: string)
    ensures IsValidAddress(t) <==> PatternMatches(t)
  {
    if IsValidAddress(t) {
      AddressHasSplit(t);
    }
    if PatternMatches(t) {
      var at, dot :| PatternSplit(t, at, dot);
      SplitIsAddress(t, at, dot);
    }
  }

  /** The '@' and '.' the recognizer finds are a split the pattern accepts. */
  lemma AddressHasSplit(t: string)
    requires IsValidAddress(t)
    ensures PatternMatches(t)
  {
    var at := IndexOf(t, '@').value;
    var d := t[at + 1..];
    var dot := LastIndexOf(d, '.').value;
    assert AllSatisfy(d[..dot], IsDomainChar) && AllSatisfy(d[dot + 1..], IsLetter);
    assert AllSatisfy(t[..at], IsLocalChar);
    forall k | 0 <= k < at ensures IsLocalChar(t[k]) {
      assert t[k] == t[..at][k];
    }
    forall k | at < k < at + 1 + dot ensures IsDomainChar(t[k]) {
      assert t[k] == d[..dot][k - at - 1];
    }
    forall k | at + 1 + dot < k < |t| ensures IsLetter(t[k]) {
      assert t[k] == d[dot + 1..][k - at - 2 - dot];
    }
    assert PatternSplit(t, at, at + 1 + dot);
  }

  /** Any split the pattern accepts is the one the recognizer finds: the first '@' and the last '.'. */
  lemma SplitIsAddress(t: string, at: int, dot: int)
    requires PatternSplit(t, at, dot)
    ensures IsValidAddress(t)
  {
    SplitAtIsFirst(t, at, dot);
    SplitLocalPart(t, at, dot);
    SplitHost(t, at, dot);
  }

  /** The local part holds no '@', so the split's '@' is the first one. */
  lemma SplitAtIsFirst(t: string, at: int, dot: int)
    requires PatternSplit(t, at, dot)
    ensures IndexOf(t, '@') == Some(at)
  {
    forall k | 0 <= k < at ensures t[k] != '@' {
      assert IsLocalChar(t[k]);
    }
    FirstIndexIs(t, '@', at);
  }

  lemma SplitLocalPart(t: string, at: int, dot: int)
    requires PatternSplit(t, at, dot)
    ensures AllSatisfy(t[..at], IsLocalChar)
  {
    var local := t[..at];
    forall k | 0 <= k < |local| ensures IsLocalChar(local[k]) {
      assert local[k] == t[k];
    }
  }

  /** The final letters hold no '.', so the split's '.' is the last one of the host part. */
  lemma SplitHost(t: string, at: int, dot: int)
    requires PatternSplit(t, at, dot)
    ensures IsValidHost(t[at + 1..])
  {
    var d := t[at + 1..];
    var rel := dot - at - 1;
    forall k | rel < k < |d| ensures d[k] != '.' {
      assert d[k] == t[k + at + 1];
      assert IsLetter(t[k + at + 1]);
    }
    LastIndexIs(d, '.', rel);
    var host := d[..rel];
    forall k | 0 <= k < |host| ensures IsDomainChar(host[k]) {
      assert host[k] == t[k + at + 1];
    }
    var tld := d[rel + 1..];
    forall k | 0 <= k < |tld| ensures IsLetter(tld[k]) {
      assert tld[k] == t[k + dot + 1];
    }
    assert AllSatisfy(host, IsDomainChar) && AllSatisfy(tld, IsLetter);
  }

  /** An occurrence of `c` with none before it is what IndexOf finds. */
  lemma FirstIndexIs(s: string, c: char, i: nat)
    requires i < |s| && s[i] == c && forall k :: 0 <= k < i ==> s[k] != c
    ensures IndexOf(s, c) == Some(i)
  {
    var r := IndexOf(s, c);
    assert r.Some?;
    assert !(r.value < i);
    assert !(i < r.value);
  }

  /** An occurrence of `c` with none after it is what LastIndexOf finds. */
  lemma LastIndexIs(s: string, c: char, i: nat)
    requires i < |s| && s[i] == c && forall k :: i < k < |s| ==> s[k] != c
    ensures LastIndexOf(s, c) == Some(i)
  {
    var r := LastIndexOf(s, c);
    assert r.Some?;
    assert !(r.value < i);
    assert !(i < r.value);
  }

  /** The hand-written check accepts exactly the strings `re.match` accepts (models/user.py:23-24). */
  lemma ValidEmailIsRegexMatch(s: string)
    ensures IsValidEmail(s) <==> RegexAccepts(s)
  {
    AddressMatchesPattern(DropFinalNewline(s));
    if |s| > 0 && s[|s| - 1] == '\n' {
      AddressMatchesPattern(s);
      if PatternMatches(s) {
        var at, dot :| PatternSplit(s, at, dot);
        assert IsLetter(s[|s| - 1]);
      }
    }
  }

  /** An accepted address, without a tolerated final newline, holds exactly one '@', after a non-empty local part. */
  lemma ValidEmailHasOneAt(s: string)
    requires IsValidEmail(s)
    ensures var t := DropFinalNewline(s);
      exists at :: 0 < at < |t| && t[at] == '@' && forall k :: 0 <= k < |t| && k != at ==> t[k] != '@'
  {
    var t := DropFinalNewline(s);
    var at := IndexOf(t, '@').value;
    var d := t[at + 1..];
    var dot := LastIndexOf(d, '.').value;
    forall k | at < k < |t| ensures t[k] != '@' {
      if k - at - 1 < dot {
        assert IsDomainChar(d[..dot][k - at - 1]);
      } else if k - at - 1 > dot {
        assert IsLetter(d[dot + 1..][k - at - 2 - dot]);
      }
    }
  }
}
