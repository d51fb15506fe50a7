/** The repair engine `fixCommonJsonIssues` (src/utils/jsonParser.ts:23-84): a
    fixed sequence of text transforms that turns near-JSON into text a strict
    parser may accept. The character-level steps are modelled exactly; the
    regex-driven ones (comment stripping, key quoting, quote conversion,
    literal normalisation) are given as functions in `RegexPasses`. */
module Repair {
  import opened Wrappers
  import opened Text

  /** The regex-driven passes, in the order the engine applies them. */
  datatype RegexPasses = RegexPasses(
    stripComments: string -> string,     // `//`, `/* */` and `#` comments
    quoteKeys: string -> string,         // bare object keys get double quotes
    singleToDouble: string -> string,    // single-quoted literals become double-quoted
    normaliseLiterals: string -> string) // True/False/None/undefined spellings

  const Bom: char := '\U{FEFF}'

  const EllipsisGlyph: char := '\U{2026}'

  /** `replace(/^﻿/, '')`: at most one leading byte-order mark goes. */
  function StripBom(s: string): (r: string)
    ensures s == r || s == [Bom] + r
    ensures r != s <==> (s != [] && s[0] == Bom)
  {
    if s != [] && s[0] == Bom then s[1..] else s
  }

  /** The engine only ever sees trimmed text, and `trim` already removes a
      leading byte-order mark, so the first step never changes anything. */
  lemma TrimmedTextHasNoBom(s: string)
    ensures StripBom(Trim(s)) == Trim(s)
  {
  }

  /** `replace(/\\'/g, "'")` then `replace(/\\"/g, '"')`. */
  function UnescapeQuotes(s: string): (r: string)
    ensures |r| <= |s|
  {
    ReplaceAll(ReplaceAll(s, "\\'", "'"), "\\\"", "\"")
  }

  /** The two replacements only ever delete backslashes. */
  lemma UnescapingDropsOnlyBackslashes(s: string)
    ensures Remove(UnescapeQuotes(s), {'\\'}) == Remove(s, {'\\'})
  {
    var a := ReplaceAll(s, "\\'", "'");
    DroppingBackslash('\'');
    ReplaceAllKeepsRest(s, "\\'", "'", {'\\'});
    DroppingBackslash('"');
    ReplaceAllKeepsRest(a, "\\\"", "\"", {'\\'});
  }

  /** Reference definition: `s` with every backslash deleted whose next
      character is one of `quotes`; every other backslash stays. */
  function DropEscapes(s: string, quotes: set<char>): (r: string)
    ensures |r| <= |s|
    ensures r == [] <==> s == []
  {
    if s == [] then []
    else if s[0] == '\\' && |s| > 1 && s[1] in quotes then DropEscapes(s[1..], quotes)
    else [s[0]] + DropEscapes(s[1..], quotes)
  }

  /** Exactly the backslashes in front of a `'` or a `"` are deleted; the two
      passes do not interfere, since the first never makes a new `\"`. */
  lemma {:induction false} UnescapingDropsQuoteEscapes(s: string)
    ensures UnescapeQuotes(s) == DropEscapes(s, {'\'', '"'})
  {
    var a := ReplaceAll(s, "\\'", "'");
    ReplaceEscape(s, '\'');
    ReplaceEscape(a, '"');
    DropEscapesCompose(s, {'\''}, {'"'});
    assert {'\''} + {'"'} == {'\'', '"'};
  }

  /** `replace(/\\c/g, "c")` deletes each backslash that stands before `c`. */
  lemma {:induction false} ReplaceEscape(s: string, c: char)
    requires c != '\\'
    ensures ReplaceAll(s, ['\\', c], [c]) == DropEscapes(s, {c})
    decreases |s|
  {
    if |s| < 2 {
    } else if s[..2] == ['\\', c] {
      assert s[0] == '\\' && s[1] == c;
      ReplaceEscape(s[2..], c);
      assert s[1..][1..] == s[2..];
    } else {
      ReplaceEscape(s[1..], c);
    }
  }

  /** Dropping the escapes of `p` and then those of `q` drops those of both:
      a backslash the first pass keeps is followed by the same character of
      `q` afterwards as before. */
  lemma {:induction false} DropEscapesCompose(s: string, p: set<char>, q: set<char>)
    requires '\\' !in p && '\\' !in q && p !! q
    ensures DropEscapes(DropEscapes(s, p), q) == DropEscapes(s, p + q)
    decreases |s|
  {
    if s == [] {
    } else if s[0] == '\\' && |s| > 1 && s[1] in p {
      assert DropEscapes(s[1..], p) == [s[1]] + DropEscapes(s[2..], p) by {
        assert s[1..][1..] == s[2..];
      }
      DropEscapesCompose(s[2..], p, q);
      assert DropEscapes(s[1..], p + q) == [s[1]] + DropEscapes(s[2..], p + q) by {
        assert s[1..][1..] == s[2..];
      }
    } else {
      var t := DropEscapes(s, p);
      assert t == [s[0]] + DropEscapes(s[1..], p);
      assert t[1..] == DropEscapes(s[1..], p);
      DropEscapesCompose(s[1..], p, q);
      if |s| > 1 {
        HeadAfterDropping(s[1..], p, q);
      }
    }
  }

  lemma HeadAfterDropping(u: string, p: set<char>, q: set<char>)
    requires u != [] && '\\' !in p && '\\' !in q && p !! q
    ensures DropEscapes(u, p) != [] && (DropEscapes(u, p)[0] in q <==> u[0] in q)
  {
    if u[0] == '\\' && |u| > 1 && u[1] in p {
      assert DropEscapes(u[1..], p) == [u[1]] + DropEscapes(u[2..], p) by {
        assert u[1..][1..] == u[2..];
      }
    }
  }

  lemma DroppingBackslash(c: char)
    requires c != '\\'
    ensures Remove(['\\', c], {'\\'}) == Remove([c], {'\\'})
  {
    assert ['\\', c][1..] == [c];
  }

  /** The truncated-string fix of partial mode: one `"` is appended exactly
      when the text holds an odd number of them, so the count becomes even. */
  function CloseOddQuote(s: string): (r: string)
    ensures multiset(r)['"'] % 2 == 0
    ensures r == s || r == s + ['"']
    ensures r != s <==> multiset(s)['"'] % 2 == 1
  {
    var quoteCount := multiset(s)['"'];
    if quoteCount % 2 != 0 then s + "\"" else s
  }

  /** After optional white space, `t` continues with `}` or `]`. */
  predicate CloserAhead(t: string) {
    var u := TrimStart(t);
    u != [] && (u[0] == '}' || u[0] == ']')
  }

  /** The comma at `i` is one that `/,(\s*[}\]])/g` removes. */
  predicate CommaBeforeCloser(s: string, i: nat) {
    i < |s| && s[i] == ',' && CloserAhead(s[i + 1..])
  }

  /** Some comma of `s` stands before a closer, found scanning left to right. */
  predicate HasCommaBeforeCloser(s: string)
    decreases |s|
  {
    s != [] && ((s[0] == ',' && CloserAhead(s[1..])) || HasCommaBeforeCloser(s[1..]))
  }

  /** The scan finds exactly the commas the regex removes. */
  lemma {:induction false} HasCommaBeforeCloserMeaning(s: string)
    ensures HasCommaBeforeCloser(s) <==> exists i: nat :: CommaBeforeCloser(s, i)
    decreases |s|
  {
    if s != [] {
      HasCommaBeforeCloserMeaning(s[1..]);
      CommaBeforeCloserShift(s);
      if s[0] == ',' && CloserAhead(s[1..]) {
        assert CommaBeforeCloser(s, 0);
      } else if HasCommaBeforeCloser(s[1..]) {
        var i: nat :| CommaBeforeCloser(s[1..], i);
        assert CommaBeforeCloser(s, i + 1);
      } else if exists i: nat :: CommaBeforeCloser(s, i) {
        var i: nat :| CommaBeforeCloser(s, i);
        assert i > 0;
        assert CommaBeforeCloser(s[1..], i - 1);
      }
    }
  }

  /** `replace(/,(\s*[}\]])/g, '$1')`: the text is left alone exactly when no
      comma stands before a closer. */
  function DropCommasBeforeClosers(s: string): (r: string)
    ensures |r| <= |s|
    ensures r == s <==> !HasCommaBeforeCloser(s)
    decreases |s|
  {
    if s == [] then []
    else
      var rest := DropCommasBeforeClosers(s[1..]);
      if s[0] == ',' && CloserAhead(s[1..]) then
        rest
      else
        assert ([s[0]] + rest)[1..] == rest;
        [s[0]] + rest
  }

  /** Reference definition: the characters of `s` from index `k` on, except
      the commas that stand before a closer. */
  function KeptAfterCommaPass(s: string, k: nat): (r: string)
    requires k <= |s|
    ensures |r| <= |s| - k
    decreases |s| - k
  {
    if k == |s| then []
    else (if CommaBeforeCloser(s, k) then [] else [s[k]]) + KeptAfterCommaPass(s, k + 1)
  }

  /** The pass deletes exactly the commas before a closer and keeps every
      other character, other commas included, in order. */
  lemma {:induction false} DropCommasDeletesExactly(s: string)
    ensures DropCommasBeforeClosers(s) == KeptAfterCommaPass(s, 0)
    decreases |s|
  {
    if s != [] {
      DropCommasStep(s);
      KeptAfterStep(s);
      DropCommasDeletesExactly(s[1..]);
    }
  }

  /** Of the two commas in `a,b,}` only the one before the brace goes. */
  lemma TrailingCommaExample(s: string)
    requires s == "a,b,}"
    ensures DropCommasBeforeClosers(s) == "a,b}"
  {
    DropCommasDeletesExactly(s);
    TrailingCommaKept(s);
  }

  lemma TrailingCommaKept(s: string)
    requires s == "a,b,}"
    ensures KeptAfterCommaPass(s, 0) == "a,b}"
  {
    TrailingCommaMarks(s);
    assert KeptAfterCommaPass(s, 4) == "}";
    assert KeptAfterCommaPass(s, 3) == "}";
    assert KeptAfterCommaPass(s, 2) == "b}";
    assert KeptAfterCommaPass(s, 1) == ",b}";
  }

  lemma TrailingCommaMarks(s: string)
    requires s == "a,b,}"
    ensures !CommaBeforeCloser(s, 0) && !CommaBeforeCloser(s, 1) && !CommaBeforeCloser(s, 2)
    ensures CommaBeforeCloser(s, 3) && !CommaBeforeCloser(s, 4)
  {
    assert SkipSpace(s[2..], 0) == 0;
    assert SkipSpace(s[4..], 0) == 0;
  }

  lemma DropCommasStep(s: string)
    requires s != []
    ensures DropCommasBeforeClosers(s) ==
      (if CommaBeforeCloser(s, 0) then [] else [s[0]]) + DropCommasBeforeClosers(s[1..])
  {
    assert CommaBeforeCloser(s, 0) <==> s[0] == ',' && CloserAhead(s[1..]);
  }

  lemma KeptAfterStep(s: string)
    requires s != []
    ensures KeptAfterCommaPass(s, 0) ==
      (if CommaBeforeCloser(s, 0) then [] else [s[0]]) + KeptAfterCommaPass(s[1..], 0)
  {
    KeptAfterShift(s, 0);
  }

  /** Dropping the first character shifts the reference by one index. */
  lemma {:induction false} KeptAfterShift(s: string, k: nat)
    requires s != [] && k < |s|
    ensures KeptAfterCommaPass(s[1..], k) == KeptAfterCommaPass(s, k + 1)
    decreases |s| - k
  {
    if k + 1 < |s| {
      KeptAfterShift(s, k + 1);
      assert s[1..][k + 1..] == s[k + 2..];
      assert CommaBeforeCloser(s[1..], k) <==> CommaBeforeCloser(s, k + 1);
    }
  }

  /** Only commas are deleted. */
  lemma {:induction false} DropCommasDropsOnlyCommas(s: string)
    ensures Remove(DropCommasBeforeClosers(s), {','}) == Remove(s, {','})
    decreases |s|
  {
    if s != [] {
      DropCommasDropsOnlyCommas(s[1..]);
    }
  }

  lemma CommaBeforeCloserShift(s: string)
    requires s != []
    ensures forall i: nat :: CommaBeforeCloser(s[1..], i) <==> CommaBeforeCloser(s, i + 1)
  {
    forall i: nat
      ensures CommaBeforeCloser(s[1..], i) <==> CommaBeforeCloser(s, i + 1)
    {
      if i < |s| - 1 {
        assert s[1..][i + 1..] == s[i + 2..];
      }
    }
  }

  /** `s` ends with a comma followed by nothing but white space. */
  ghost predicate EndsWithComma(s: string) {
    exists i :: 0 <= i < |s| && s[i] == ',' && AllSpace(s[i + 1..])
  }

  /** `replace(/,\s*$/g, '')`. */
  function DropFinalComma(s: string): (r: string)
    ensures |r| <= |s| && r == s[..|r|]
  {
    var t := TrimEnd(s);
    if t != [] && t[|t| - 1] == ',' then t[..|t| - 1] else s
  }

  /** A final comma and the white space after it are cut off, and nothing
      else changes. */
  lemma DropFinalCommaMeaning(s: string)
    ensures DropFinalComma(s) != s <==> EndsWithComma(s)
    ensures DropFinalComma(s) != s ==>
      exists i :: 0 <= i < |s| && s[i] == ',' && AllSpace(s[i + 1..]) && DropFinalComma(s) == s[..i]
  {
    var t := TrimEnd(s);
    FinalCommaIsLastNonSpace(s, t);
  }

  lemma FinalCommaIsLastNonSpace(s: string, t: string)
    requires |t| <= |s| && t == s[..|t|] && AllSpace(s[|t|..])
    requires t == [] || !IsSpace(t[|t| - 1])
    ensures EndsWithComma(s) <==> t != [] && t[|t| - 1] == ','
  {
    if EndsWithComma(s) {
      var i :| 0 <= i < |s| && s[i] == ',' && AllSpace(s[i + 1..]);
    }
    if t != [] && t[|t| - 1] == ',' {
      assert s[|t| - 1] == ',' && s[|t|..] == s[|t| - 1 + 1..];
    }
  }

  /** The index of the first `"` in `s` at or after `from`. */
  function NextQuote(s: string, from: nat): (r: Option<nat>)
    requires from <= |s|
    ensures r.Some? ==> from <= r.value < |s| && s[r.value] == '"'
    ensures forall k :: from <= k < |s| && (r.None? || k < r.value) ==> s[k] != '"'
    decreases |s| - from
  {
    if from == |s| then None
    else if s[from] == '"' then Some(from)
    else NextQuote(s, from + 1)
  }

  /** A match of `"([^"]*)\\"([^"]*)"`: an opening quote at `i`, an escaped
      quote at `q` (its backslash at `q - 1`), a closing quote at `e`, and no
      other quote in between. */
  predicate IsEscapedQuoteMatch(s: string, i: nat, q: nat, e: nat) {
    && i + 2 <= q < e < |s|
    && s[i] == '"' && s[q - 1] == '\\' && s[q] == '"' && s[e] == '"'
    && (forall k :: i < k < q ==> s[k] != '"')
    && (forall k :: q < k < e ==> s[k] != '"')
  }

  /** The leftmost match at or after `from`, as the regex engine finds it. */
  function EscapedQuoteMatch(s: string, from: nat): (r: Option<(nat, nat, nat)>)
    requires from <= |s|
    ensures r.Some? ==> from <= r.value.0 && IsEscapedQuoteMatch(s, r.value.0, r.value.1, r.value.2)
    decreases |s| - from
  {
    if from == |s| then None
    else if s[from] != '"' then EscapedQuoteMatch(s, from + 1)
    else
      match NextQuote(s, from + 1)
      case Some(q) =>
        if q >= from + 2 && s[q - 1] == '\\' then
          match NextQuote(s, q + 1)
          case Some(e) => Some((from, q, e))
          case None => EscapedQuoteMatch(s, from + 1)
        else
          EscapedQuoteMatch(s, from + 1)
      case None => EscapedQuoteMatch(s, from + 1)
  }

  /** `replace(/"([^"]*)\\"([^"]*)"/, '"$1\\"$2"')`, first match only. The
      replacement string denotes `"$1\"$2"`, which rebuilds the matched text,
      so the step never changes anything. */
  function FixEscapedQuote(s: string): (r: string)
    ensures r == s
  {
    match EscapedQuoteMatch(s, 0)
    case None => s
    case Some((i, q, e)) =>
      RebuildsMatch(s, i, q, e);
      s[..i] + "\"" + s[i + 1..q - 1] + "\\\"" + s[q + 1..e] + "\"" + s[e + 1..]
  }

  /** Writing the groups of a match back between its quotes gives the text. */
  lemma RebuildsMatch(s: string, i: nat, q: nat, e: nat)
    requires i + 2 <= q < e < |s|
    requires s[i] == '"' && s[q - 1] == '\\' && s[q] == '"' && s[e] == '"'
    ensures s[..i] + "\"" + s[i + 1..q - 1] + "\\\"" + s[q + 1..e] + "\"" + s[e + 1..] == s
  {
    assert s[..i] + "\"" == s[..i + 1];
    assert s[..i + 1] + s[i + 1..q - 1] == s[..q - 1];
    assert s[..q - 1] + "\\\"" == s[..q + 1];
    assert s[..q + 1] + s[q + 1..e] == s[..e];
    assert s[..e] + "\"" == s[..e + 1];
    assert s[..e + 1] + s[e + 1..] == s;
  }

  /** `replace(/\.\.\./g, '')` then `replace(/…/g, '')`: no glyph is left. */
  function StripEllipses(s: string): (r: string)
    ensures EllipsisGlyph !in r
    ensures |r| <= |s|
  {
    var a := ReplaceAll(s, "...", "");
    var r := ReplaceAll(a, [EllipsisGlyph], "");
    ReplaceCharIsRemove(a, EllipsisGlyph);
    assert forall k :: 0 <= k < |r| ==> r[k] != EllipsisGlyph;
    r
  }

  /** Only dots and ellipsis glyphs are deleted. */
  lemma StripEllipsesDropsOnlyDots(s: string)
    ensures Remove(StripEllipses(s), {'.', EllipsisGlyph}) == Remove(s, {'.', EllipsisGlyph})
  {
    var a := ReplaceAll(s, "...", "");
    RemoveExtremes("...", {'.', EllipsisGlyph});
    ReplaceAllKeepsRest(s, "...", "", {'.', EllipsisGlyph});
    RemoveExtremes([EllipsisGlyph], {'.', EllipsisGlyph});
    ReplaceAllKeepsRest(a, [EllipsisGlyph], "", {'.', EllipsisGlyph});
  }

  /** Text with no run of three dots and no glyph comes out unchanged, so a
      lone dot such as the one in `1.5` survives. */
  lemma StripEllipsesKeepsPlainText(s: string)
    ensures (forall i :: !OccursAt(s, "...", i)) && EllipsisGlyph !in s ==> StripEllipses(s) == s
  {
    if (forall i :: !OccursAt(s, "...", i)) && EllipsisGlyph !in s {
      ReplaceAllNoMatch(s, "...", "");
      ReplaceCharIsRemove(s, EllipsisGlyph);
      RemoveExtremes(s, {EllipsisGlyph});
    }
  }

  /** The whole engine. Its result never contains an ellipsis glyph. */
  function Repair(passes: RegexPasses, allowPartial: bool, s: string): (r: string)
    ensures EllipsisGlyph !in r
  {
    var noBom := StripBom(s);
    var noComments := passes.stripComments(noBom);
    var unescaped := UnescapeQuotes(noComments);
    var closed := if allowPartial then CloseOddQuote(unescaped) else unescaped;
    var noCommas := DropFinalComma(DropCommasBeforeClosers(closed));
    var keysQuoted := passes.quoteKeys(noCommas);
    var doubled := passes.singleToDouble(keysQuoted);
    var literals := passes.normaliseLiterals(doubled);
    StripEllipses(FixEscapedQuote(literals))
  }

  /** Repair is not idempotent: deleting the glyph can join dots into a new
      `...`, which a second run deletes. */
  lemma EllipsisRemovalNotIdempotent()
    ensures StripEllipses(['.', '.', EllipsisGlyph, '.']) == "..."
    ensures StripEllipses("...") == ""
  {
    var s := ['.', '.', EllipsisGlyph, '.'];
    NoDotRunInGlyphText();
    ReplaceCharIsRemove(s, EllipsisGlyph);
    GlyphRemovalJoinsDots();
    assert "..."[..3] == "...";
    assert ReplaceAll("...", "...", "") == "" + ReplaceAll("", "...", "");
  }

  lemma NoDotRunInGlyphText()
    ensures ReplaceAll(['.', '.', EllipsisGlyph, '.'], "...", "") == ['.', '.', EllipsisGlyph, '.']
  {
    var s := ['.', '.', EllipsisGlyph, '.'];
    var tail := ['.', EllipsisGlyph, '.'];
    assert ReplaceAll([EllipsisGlyph, '.'], "...", "") == [EllipsisGlyph, '.'];
    assert tail[..3][1] != "..."[1];
    assert tail[1..] == [EllipsisGlyph, '.'];
    assert ReplaceAll(tail, "...", "") == tail;
    assert s[..3][2] != "..."[2];
    assert s[1..] == tail;
  }

  lemma GlyphRemovalJoinsDots()
    ensures Remove(['.', '.', EllipsisGlyph, '.'], {EllipsisGlyph}) == "..."
  {
    var s := ['.', '.', EllipsisGlyph, '.'];
    assert Remove(s[3..], {EllipsisGlyph}) == ".";
    assert Remove(s[2..], {EllipsisGlyph}) == ".";
    assert Remove(s[1..], {EllipsisGlyph}) == "..";
  }

  /** Nor is unescaping: `\\'` becomes `\'`, which a second run turns into `'`. */
  lemma UnescapingNotIdempotent()
    ensures UnescapeQuotes("\\\\'") == "\\'"
    ensures UnescapeQuotes("\\'") == "'"
  {
    var s := "\\\\'";
    assert s[..2] != "\\'" && s[1..][..2] == "\\'";
    assert ReplaceAll(s[1..], "\\'", "'") == "'";
    assert ReplaceAll(s, "\\'", "'") == "\\'";
    assert ReplaceAll("\\'", "\\\"", "\"") == "\\'";
    assert ReplaceAll("\\'", "\\'", "'") == "'";
    assert ReplaceAll("'", "\\\"", "\"") == "'";
  }
}
