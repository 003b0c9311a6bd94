/**
 * The JavaScript string operations the core relies on: `trim`, `toLowerCase`,
 * `startsWith`, `replace` with a string pattern, and the `\s` / `\S` classes
 * of regular expressions.
 */
module JsStrings {

  import opened Wrappers

  /** The characters JavaScript's `trim` removes and `\s` matches: WhiteSpace and LineTerminator. */
  predicate IsSpace(c: char) {
    || c == '\t' || c == '\n' || c == '\U{000B}' || c == '\U{000C}' || c == '\r' || c == ' '
    || c == '\U{00A0}' || c == '\U{1680}' || ('\U{2000}' <= c <= '\U{200A}')
    || c == '\U{2028}' || c == '\U{2029}' || c == '\U{202F}' || c == '\U{205F}'
    || c == '\U{3000}' || c == '\U{FEFF}'
  }

  /** No character of `s` matches `\s`. */
  predicate NoSpace(s: string) {
    forall i | 0 <= i < |s| :: !IsSpace(s[i])
  }

  predicate StartsWith(s: string, prefix: string) {
    |prefix| <= |s| && s[..|prefix|] == prefix
  }

  /** Neither end of `s` is a space: `s` is its own `trim()`. */
  predicate IsTrimmed(s: string) {
    s == [] || (!IsSpace(s[0]) && !IsSpace(s[|s| - 1]))
  }

  function TrimStart(s: string): (r: string)
    ensures |r| <= |s| && r == s[|s| - |r|..]
    ensures forall i | 0 <= i < |s| - |r| :: IsSpace(s[i])
    ensures r == [] || !IsSpace(r[0])
  {
    if s != [] && IsSpace(s[0]) then TrimStart(s[1..]) else s
  }

  function TrimEnd(s: string): (r: string)
    ensures |r| <= |s| && r == s[..|r|]
    ensures forall i | |r| <= i < |s| :: IsSpace(s[i])
    ensures r == [] || !IsSpace(r[|r| - 1])
  {
    if s != [] && IsSpace(s[|s| - 1]) then TrimEnd(s[..|s| - 1]) else s
  }

  /** `pat` occurs in `s` at index `k`. */
  predicate OccursAt(s: string, pat: string, k: int) {
    0 <= k && k + |pat| <= |s| && s[k..k + |pat|] == pat
  }

  /** `s.trim()`: the slice of `s` left after dropping spaces at both ends. */
  function Trim(s: string): (r: string)
    ensures IsTrimmed(r) && |r| <= |s|
  {
    TrimEnd(TrimStart(s))
  }

  /** A prefix of a suffix of `s` is a slice of `s`. */
  lemma PrefixOfSuffixOccurs(s: string, t: string, r: string, i: int)
    requires 0 <= i <= |s| && t == s[i..]
    requires |r| <= |t| && r == t[..|r|]
    ensures OccursAt(s, r, i)
  {
    assert s[i..i + |r|] == r;
  }

  /** What follows that prefix inside the suffix is also what follows the slice inside `s`. */
  lemma PrefixOfSuffixTail(s: string, t: string, r: string, i: int)
    requires 0 <= i <= |s| && t == s[i..]
    requires |r| <= |t| && forall k | |r| <= k < |t| :: IsSpace(t[k])
    ensures forall k | i + |r| <= k < |s| :: IsSpace(s[k])
  {
    forall k | i + |r| <= k < |s|
      ensures IsSpace(s[k])
    {
      assert s[k] == t[k - i];
    }
  }

  /** What `trim` keeps is one slice of `s`, and everything before and after it is a space. */
  lemma {:induction false} TrimIsSlice(s: string)
    ensures exists i :: && OccursAt(s, Trim(s), i)
                        && (forall k | 0 <= k < i :: IsSpace(s[k]))
                        && (forall k | i + |Trim(s)| <= k < |s| :: IsSpace(s[k]))
  {
    var t := TrimStart(s);
    var i := |s| - |t|;
    assert Trim(s) == TrimEnd(t);
    PrefixOfSuffixOccurs(s, t, Trim(s), i);
    PrefixOfSuffixTail(s, t, Trim(s), i);
  }

  /** Trimming drops nothing that is not a space, so a trimmed string is its own `trim()`. */
  lemma {:induction false} TrimOfTrimmed(s: string)
    requires IsTrimmed(s)
    ensures Trim(s) == s
  {
    assert TrimStart(s) == s;
    assert TrimEnd(s) == s;
  }

  lemma TrimIdempotent(s: string)
    ensures Trim(Trim(s)) == Trim(s)
  {
    TrimOfTrimmed(Trim(s));
  }

  /** `toLowerCase` on one character; only the ASCII letters A-Z are mapped. */
  function LowerChar(c: char): (d: char)
    ensures IsSpace(d) <==> IsSpace(c)
    ensures !('A' <= d <= 'Z')
  {
    if 'A' <= c <= 'Z' then (c as int - 'A' as int + 'a' as int) as char else c
  }

  function ToLower(s: string): (r: string)
    ensures |r| == |s|
    ensures forall i | 0 <= i < |s| :: r[i] == LowerChar(s[i])
  {
    seq(|s|, i requires 0 <= i < |s| => LowerChar(s[i]))
  }

  lemma ToLowerIdempotent(s: string)
    ensures ToLower(ToLower(s)) == ToLower(s)
  {
  }

  /** `s.trim().toLowerCase()`, the email normal form used by the login route and the register page. */
  function NormalizeEmail(s: string): (r: string)
    ensures IsTrimmed(r)
    ensures r == [] <==> Trim(s) == []
    ensures forall i | 0 <= i < |r| :: !('A' <= r[i] <= 'Z')
  {
    ToLower(Trim(s))
  }

  /** An email already in normal form is left alone, so normalising twice is normalising once. */
  lemma {:induction false} NormalizeEmailOfNormalized(s: string)
    requires IsTrimmed(s) && forall i | 0 <= i < |s| :: !('A' <= s[i] <= 'Z')
    ensures NormalizeEmail(s) == s
  {
    TrimOfTrimmed(s);
    assert ToLower(s) == s;
  }

  lemma NormalizeEmailIdempotent(s: string)
    ensures NormalizeEmail(NormalizeEmail(s)) == NormalizeEmail(s)
  {
    NormalizeEmailOfNormalized(NormalizeEmail(s));
  }

  /** The first index at or after `from` where `pat` occurs in `s`. */
  function IndexOfFrom(s: string, pat: string, from: nat): (r: Option<nat>)
    requires from <= |s|
    ensures r.Some? ==> from <= r.value && OccursAt(s, pat, r.value)
    ensures r.Some? ==> forall k | from <= k < r.value :: !OccursAt(s, pat, k)
    ensures r.None? ==> forall k | from <= k :: !OccursAt(s, pat, k)
    decreases |s| - from
  {
    if from + |pat| > |s| then None
    else if OccursAt(s, pat, from) then Some(from)
    else IndexOfFrom(s, pat, from + 1)
  }

  /**
   * The text `replace` inserts for one match when the pattern is a string:
   * `$$` is `$`, `$&` the matched text, `` $` `` the text before the match
   * and `$'` the text after it; any other `$` stands for itself.
   */
  function Substitution(rep: string, matched: string, before: string, after: string): string
    decreases |rep|
  {
    if |rep| >= 2 && rep[0] == '$' && rep[1] == '$' then "$" + Substitution(rep[2..], matched, before, after)
    else if |rep| >= 2 && rep[0] == '$' && rep[1] == '&' then matched + Substitution(rep[2..], matched, before, after)
    else if |rep| >= 2 && rep[0] == '$' && rep[1] == '`' then before + Substitution(rep[2..], matched, before, after)
    else if |rep| >= 2 && rep[0] == '$' && rep[1] == '\'' then after + Substitution(rep[2..], matched, before, after)
    else if rep == [] then []
    else [rep[0]] + Substitution(rep[1..], matched, before, after)
  }

  /** A replacement without `$` is inserted as it is. */
  lemma {:induction false} SubstitutionOfPlain(rep: string, matched: string, before: string, after: string)
    requires '$' !in rep
    ensures Substitution(rep, matched, before, after) == rep
    decreases |rep|
  {
    if rep != [] {
      assert '$' !in rep[1..];
      SubstitutionOfPlain(rep[1..], matched, before, after);
    }
  }

  /** `s.replace(pat, rep)` with a string pattern: only the first occurrence is replaced. */
  function ReplaceFirst(s: string, pat: string, rep: string): string {
    match IndexOfFrom(s, pat, 0)
    case None => s
    case Some(i) => s[..i] + Substitution(rep, pat, s[..i], s[i + |pat|..]) + s[i + |pat|..]
  }

  /** Without an occurrence of `pat` the string is unchanged. */
  lemma ReplaceFirstWithoutMatch(s: string, pat: string, rep: string)
    requires forall k | 0 <= k :: !OccursAt(s, pat, k)
    ensures ReplaceFirst(s, pat, rep) == s
  {
    assert IndexOfFrom(s, pat, 0).None?;
  }

  /**
   * The occurrence of `pat` with no earlier one is swapped for the
   * substituted `rep`, and the text on both sides of it is kept.
   */
  lemma ReplaceFirstReplacesFirst(s: string, pat: string, rep: string, i: nat)
    requires OccursAt(s, pat, i)
    requires forall k | 0 <= k < i :: !OccursAt(s, pat, k)
    ensures ReplaceFirst(s, pat, rep) == s[..i] + Substitution(rep, pat, s[..i], s[i + |pat|..]) + s[i + |pat|..]
  {
    assert IndexOfFrom(s, pat, 0) == Some(i);
  }

  /** When `s` starts with `pat`, the first occurrence is the prefix, so replace rewrites the prefix. */
  lemma ReplaceFirstOfPrefix(s: string, pat: string, rep: string)
    requires StartsWith(s, pat)
    ensures ReplaceFirst(s, pat, rep) == Substitution(rep, pat, [], s[|pat|..]) + s[|pat|..]
  {
    assert IndexOfFrom(s, pat, 0) == Some(0);
  }

  /** The `$` patterns of the replacement are expanded: `$&` repeats the match, `$$` is one `$`, `$'` the rest. */
  lemma ReplaceExpandsDollarPatterns()
    ensures ReplaceFirst("ab", "a", "$&$&") == "aab"
    ensures ReplaceFirst("ab", "a", "$$") == "$b"
    ensures ReplaceFirst("ab", "a", "$'") == "bb"
  {
    ReplaceFirstOfPrefix("ab", "a", "$&$&");
    ReplaceFirstOfPrefix("ab", "a", "$$");
    ReplaceFirstOfPrefix("ab", "a", "$'");
  }

  /**
   * `a || fallback` on an optional string: a non-empty string wins, and an
   * absent or empty one gives way to the fallback.
   */
  function ErrorText(error: Option<string>, fallback: string): (s: string)
    ensures error.Some? && error.value != "" ==> s == error.value
    ensures !(error.Some? && error.value != "") ==> s == fallback
    ensures s != "" <== fallback != ""
  {
    if error.Some? && error.value != "" then error.value else fallback
  }
}
