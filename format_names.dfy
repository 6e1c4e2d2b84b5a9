/**
 * The two patterns the format registration checks names against, written as
 * character classes: a format name is `namespace/name` where both halves
 * match [a-z][a-z0-9-]*, and a class name matches [_a-zA-Z]+[a-zA-Z0-9-]*.
 */
module FormatNames {
  import opened Wrappers

  predicate IsLower(ch: char) { 'a' <= ch <= 'z' }

  predicate IsUpper(ch: char) { 'A' <= ch <= 'Z' }

  predicate IsDigit(ch: char) { '0' <= ch <= '9' }

  /** [a-z0-9-] */
  predicate IsNameChar(ch: char) { IsLower(ch) || IsDigit(ch) || ch == '-' }

  /** [a-z][a-z0-9-]*: one half of a format name. */
  predicate IsNamePart(p: string)
  {
    |p| > 0 && IsLower(p[0]) && forall i :: 1 <= i < |p| ==> IsNameChar(p[i])
  }

  /** The first index of `ch` in `s`. */
  function IndexOf(s: string, ch: char): (r: Option<nat>)
    ensures r.None? <==> forall i :: 0 <= i < |s| ==> s[i] != ch
    ensures r.Some? ==> r.value < |s| && s[r.value] == ch && forall i :: 0 <= i < r.value ==> s[i] != ch
    decreases s
  {
    if s == [] then None
    else if s[0] == ch then Some(0)
    else match IndexOf(s[1..], ch)
      case None => None
      case Some(k) => Some(k + 1)
  }

  /** The test of ^[a-z][a-z0-9-]*\/[a-z][a-z0-9-]*$, splitting at the first slash. */
  predicate MatchesFormatName(n: string)
    ensures MatchesFormatName(n) ==> |n| >= 3 && IsLower(n[0]) && n[|n| - 1] != '/'
    ensures MatchesFormatName(n) ==> forall i :: 0 <= i < |n| ==> IsNameChar(n[i]) || n[i] == '/'
  {
    match IndexOf(n, '/')
    case None => false
    case Some(k) => IsNamePart(n[..k]) && IsNamePart(n[k + 1..])
  }

  /** A format name as the pattern describes it: two name parts around a slash. */
  ghost predicate FormatNameShape(n: string)
  {
    exists k :: 0 <= k < |n| && n[k] == '/' && IsNamePart(n[..k]) && IsNamePart(n[k + 1..])
  }

  /** A name part contains no slash. */
  lemma NamePartHasNoSlash(p: string)
    requires IsNamePart(p)
    ensures forall i :: 0 <= i < |p| ==> p[i] != '/'
  {
  }

  /** When the text before position `k` is a name part and `k` holds a slash, `k` is the first slash. */
  lemma FirstSlash(n: string, k: nat)
    requires k < |n| && n[k] == '/' && IsNamePart(n[..k])
    ensures IndexOf(n, '/') == Some(k)
  {
    NamePartHasNoSlash(n[..k]);
    assert forall i :: 0 <= i < k ==> n[i] == n[..k][i];
  }

  /**
   * The matcher accepts exactly the names of the shape; an accepted name has
   * exactly one slash.
   */
  lemma MatchesFormatNameExactly(n: string)
    ensures MatchesFormatName(n) <==> FormatNameShape(n)
    ensures MatchesFormatName(n) ==> exists k :: 0 <= k < |n| && n[k] == '/' && forall i :: 0 <= i < |n| && n[i] == '/' ==> i == k
  {
    if FormatNameShape(n) {
      var k :| 0 <= k < |n| && n[k] == '/' && IsNamePart(n[..k]) && IsNamePart(n[k + 1..]);
      FirstSlash(n, k);
    }
    if MatchesFormatName(n) {
      var k := IndexOf(n, '/').value;
      NamePartHasNoSlash(n[k + 1..]);
      assert forall i :: k < i < |n| ==> n[i] == n[k + 1..][i - k - 1];
    }
  }

  /** [_a-zA-Z]: the characters of a class name's leading run. */
  predicate IsLeadChar(ch: char) { ch == '_' || IsLower(ch) || IsUpper(ch) }

  /** [a-zA-Z0-9-]: the characters that may follow the leading run. */
  predicate IsTailChar(ch: char) { IsLower(ch) || IsUpper(ch) || IsDigit(ch) || ch == '-' }

  /** The length of the longest prefix of `s` made of lead characters. */
  function LeadRun(s: string): (k: nat)
    ensures k <= |s|
    ensures forall i :: 0 <= i < k ==> IsLeadChar(s[i])
    ensures k < |s| ==> !IsLeadChar(s[k])
    decreases s
  {
    if s != [] && IsLeadChar(s[0]) then 1 + LeadRun(s[1..]) else 0
  }

  /** The test of ^[_a-zA-Z]+[a-zA-Z0-9-]*$: a non-empty greedy lead run, then tail characters. */
  predicate MatchesClassName(s: string)
    ensures MatchesClassName(s) ==> |s| > 0 && IsLeadChar(s[0])
    ensures MatchesClassName(s) ==> forall i :: 0 <= i < |s| ==> IsLeadChar(s[i]) || IsTailChar(s[i])
  {
    var k := LeadRun(s);
    k > 0 && forall i :: k <= i < |s| ==> IsTailChar(s[i])
  }

  predicate AllLead(p: string) { forall i :: 0 <= i < |p| ==> IsLeadChar(p[i]) }

  predicate AllTail(p: string) { forall i :: 0 <= i < |p| ==> IsTailChar(p[i]) }

  /** A class name as the pattern describes it: some split into a non-empty lead run and a tail. */
  ghost predicate ClassNameShape(s: string)
  {
    exists k :: 1 <= k <= |s| && AllLead(s[..k]) && AllTail(s[k..])
  }

  /** Matching greedily is the same as finding some split. */
  lemma MatchesClassNameExactly(s: string)
    ensures MatchesClassName(s) <==> ClassNameShape(s)
  {
    if ClassNameShape(s) {
      var k :| 1 <= k <= |s| && AllLead(s[..k]) && AllTail(s[k..]);
      var m := LeadRun(s);
      assert k <= m;
      forall i | m <= i < |s| ensures IsTailChar(s[i]) {
        assert s[k..][i - k] == s[i];
      }
    }
    if MatchesClassName(s) {
      var m := LeadRun(s);
      assert AllLead(s[..m]) && AllTail(s[m..]);
    }
  }

  /** The text JavaScript gives `null` when a pattern is tested against it passes the class name test. */
  lemma NullTextPassesClassNameTest()
    ensures MatchesClassName("null")
  {
    assert LeadRun("null"[3..]) == 1;
    assert LeadRun("null"[2..]) == 2;
    assert LeadRun("null"[1..]) == 3;
    assert LeadRun("null") == 4;
  }
}
