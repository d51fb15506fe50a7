/** The JavaScript string primitives the parser relies on: white space as
    `trim` and the regex class `\s` see it, `trim` itself, literal global
    replacement, and character removal. */
module Text {

  /** The WhiteSpace and LineTerminator code points of ECMAScript, which are
      exactly what `String.prototype.trim` strips and what `\s` matches. */
  predicate IsSpace(c: char) {
    || c == '\t' || c == '\n' || c == '\U{000B}' || c == '\U{000C}' || c == '\r'
    || c == ' ' || c == '\U{00A0}' || c == '\U{1680}' || ('\U{2000}' <= c <= '\U{200A}')
    || c == '\U{2028}' || c == '\U{2029}' || c == '\U{202F}' || c == '\U{205F}'
    || c == '\U{3000}' || c == '\U{FEFF}'
  }

  predicate AllSpace(s: string) {
    forall i :: 0 <= i < |s| ==> IsSpace(s[i])
  }

  /** Neither end is white space: what `trim` returns. */
  predicate IsTrimmed(s: string) {
    s == [] || (!IsSpace(s[0]) && !IsSpace(s[|s| - 1]))
  }

  /** The first index at or after `i` that is not white space, or `|s|`. */
  function SkipSpace(s: string, i: nat): (j: nat)
    requires i <= |s|
    ensures i <= j <= |s|
    ensures forall k :: i <= k < j ==> IsSpace(s[k])
    ensures j == |s| || !IsSpace(s[j])
    decreases |s| - i
  {
    if i < |s| && IsSpace(s[i]) then SkipSpace(s, i + 1) else i
  }

  /** The least index `i` with `lo <= i <= j` such that `s[i..j]` is all white
      space. */
  function SkipSpaceBack(s: string, lo: nat, j: nat): (i: nat)
    requires lo <= j <= |s|
    ensures lo <= i <= j
    ensures forall k :: i <= k < j ==> IsSpace(s[k])
    ensures i == lo || !IsSpace(s[i - 1])
    decreases j - lo
  {
    if lo < j && IsSpace(s[j - 1]) then SkipSpaceBack(s, lo, j - 1) else j
  }

  /** `String.prototype.trimStart`. */
  function TrimStart(s: string): (r: string)
    ensures |r| <= |s| && r == s[|s| - |r|..]
    ensures AllSpace(s[..|s| - |r|])
    ensures r == [] || !IsSpace(r[0])
  {
    s[SkipSpace(s, 0)..]
  }

  /** `String.prototype.trimEnd`. */
  function TrimEnd(s: string): (r: string)
    ensures |r| <= |s| && r == s[..|r|]
    ensures AllSpace(s[|r|..])
    ensures r == [] || !IsSpace(r[|r| - 1])
  {
    s[..SkipSpaceBack(s, 0, |s|)]
  }

  /** `String.prototype.trim`: the longest middle part of `s` whose two ends
      are not white space. */
  function Trim(s: string): (r: string)
    ensures IsTrimmed(r)
    ensures r == [] <==> AllSpace(s)
  {
    var lo := SkipSpace(s, 0);
    var hi := SkipSpaceBack(s, lo, |s|);
    assert lo == hi ==> AllSpace(s);
    s[lo..hi]
  }

  /** What `trim` keeps is the part of its input from `i` on, with only white
      space cut from either side. */
  lemma TrimCutsOnlySpace(s: string) returns (i: nat)
    ensures i + |Trim(s)| <= |s| && Trim(s) == s[i..i + |Trim(s)|]
    ensures AllSpace(s[..i]) && AllSpace(s[i + |Trim(s)|..])
  {
    i := SkipSpace(s, 0);
  }

  /** `trim` leaves text that is already trimmed alone. */
  lemma TrimTrimmed(s: string)
    requires IsTrimmed(s)
    ensures Trim(s) == s
  {
    assert TrimStart(s) == s;
  }

  /** `s` has `pat` starting at index `i`. */
  predicate OccursAt(s: string, pat: string, i: int) {
    0 <= i && i + |pat| <= |s| && s[i..i + |pat|] == pat
  }

  /** `s.replace(/pat/g, rep)` for a literal pattern: matches are found left to
      right and do not overlap; the scan resumes after each replaced match. */
  function ReplaceAll(s: string, pat: string, rep: string): (r: string)
    requires pat != []
    ensures |rep| <= |pat| ==> |r| <= |s|
    decreases |s|
  {
    if |s| < |pat| then s
    else if s[..|pat|] == pat then rep + ReplaceAll(s[|pat|..], pat, rep)
    else [s[0]] + ReplaceAll(s[1..], pat, rep)
  }

  /** A global replacement that finds no match leaves the text alone. */
  lemma {:induction false} ReplaceAllNoMatch(s: string, pat: string, rep: string)
    requires pat != []
    ensures (forall i :: !OccursAt(s, pat, i)) ==> ReplaceAll(s, pat, rep) == s
    decreases |s|
  {
    if (forall i :: !OccursAt(s, pat, i)) && |s| >= |pat| {
      assert !OccursAt(s, pat, 0);
      forall i | OccursAt(s[1..], pat, i)
        ensures false
      {
        assert s[1..][i..i + |pat|] == s[i + 1..i + 1 + |pat|];
        assert OccursAt(s, pat, i + 1);
      }
      ReplaceAllNoMatch(s[1..], pat, rep);
    }
  }

  /** `s` with every character of `drop` deleted. */
  function Remove(s: string, drop: set<char>): (r: string)
    ensures forall i :: 0 <= i < |r| ==> r[i] !in drop
    ensures |r| <= |s|
  {
    if s == [] then [] else (if s[0] in drop then [] else [s[0]]) + Remove(s[1..], drop)
  }

  /** Removal keeps every character outside `drop`, in order: with nothing to
      drop it is the identity, and with everything to drop it is empty. */
  lemma {:induction false} RemoveExtremes(s: string, drop: set<char>)
    ensures (forall i :: 0 <= i < |s| ==> s[i] !in drop) ==> Remove(s, drop) == s
    ensures (forall i :: 0 <= i < |s| ==> s[i] in drop) ==> Remove(s, drop) == []
    decreases |s|
  {
    if s != [] {
      RemoveExtremes(s[1..], drop);
    }
  }

  lemma {:induction false} RemoveAppend(a: string, b: string, drop: set<char>)
    ensures Remove(a + b, drop) == Remove(a, drop) + Remove(b, drop)
    decreases |a|
  {
    if a == [] {
      assert a + b == b;
    } else {
      assert (a + b)[1..] == a[1..] + b;
      RemoveAppend(a[1..], b, drop);
    }
  }

  /** Replacing `pat` by `rep` where the two agree once `drop` is deleted
      leaves the text unchanged outside `drop`. */
  lemma {:induction false} ReplaceAllKeepsRest(s: string, pat: string, rep: string, drop: set<char>)
    requires pat != []
    requires Remove(pat, drop) == Remove(rep, drop)
    ensures Remove(ReplaceAll(s, pat, rep), drop) == Remove(s, drop)
    decreases |s|
  {
    if |s| < |pat| {
    } else if s[..|pat|] == pat {
      ReplaceAllKeepsRest(s[|pat|..], pat, rep, drop);
      RemoveAppend(rep, ReplaceAll(s[|pat|..], pat, rep), drop);
      assert s == pat + s[|pat|..];
      RemoveAppend(pat, s[|pat|..], drop);
    } else {
      ReplaceAllKeepsRest(s[1..], pat, rep, drop);
      RemoveAppend([s[0]], ReplaceAll(s[1..], pat, rep), drop);
      assert s == [s[0]] + s[1..];
      RemoveAppend([s[0]], s[1..], drop);
    }
  }

  /** Globally replacing a single character by nothing deletes every copy of it. */
  lemma {:induction false} ReplaceCharIsRemove(s: string, c: char)
    ensures ReplaceAll(s, [c], []) == Remove(s, {c})
    decreases |s|
  {
    if |s| < 1 {
    } else {
      ReplaceCharIsRemove(s[1..], c);
      if s[..1] == [c] {
        assert s[0] == c;
      } else {
        assert s[0] != c;
      }
    }
  }
}
