/** The boundary scanner `findJsonBoundaries` (src/utils/jsonParser.ts:146-195):
    one forward pass that tracks a start index, a nesting depth, an in-string
    flag and a pending-escape flag, and cuts out the first region whose depth
    returns to zero.

    The reference semantics is declarative: `Scan(text, k)` is the state after
    the first `k` characters (as if the pass never stopped), and the region
    ends at the first index where a structural closer brings the depth back to
    zero. `FindJsonBoundaries` is the loop itself, proved equal to it. */
module Boundary {
  import opened Wrappers

  /** `start` is -1 until the first structural opener is seen, as in `findJsonBoundaries`. */
  datatype ScanState = ScanState(start: int, depth: int, inString: bool, escapeNext: bool)

  const Initial := ScanState(-1, 0, false, false)

  predicate IsOpenChar(c: char) { c == '{' || c == '[' }

  predicate IsCloseChar(c: char) { c == '}' || c == ']' }

  /** Reading `c` in state `st` may change the depth: it is not escaped, not a
      backslash or quote, and not inside a string. */
  predicate Structural(st: ScanState, c: char) {
    !st.escapeNext && c != '\\' && c != '"' && !st.inString
  }

  /** One iteration of the scanning loop at index `i`, without the early exit. */
  function Step(st: ScanState, c: char, i: int): ScanState {
    if st.escapeNext then st.(escapeNext := false)
    else if c == '\\' then st.(escapeNext := true)
    else if c == '"' then st.(inString := !st.inString)
    else if st.inString then st
    else if IsOpenChar(c) then st.(start := if st.start == -1 then i else st.start, depth := st.depth + 1)
    else if IsCloseChar(c) then st.(depth := st.depth - 1)
    else st
  }

  /** The state after reading `text[..k]`. */
  function Scan(text: string, k: nat): (st: ScanState)
    requires k <= |text|
    ensures -1 <= st.start < k
  {
    if k == 0 then Initial else Step(Scan(text, k - 1), text[k - 1], k - 1)
  }

  /** `text[i]` is a `{` or `[` outside any string and not escaped. */
  predicate OpensAt(text: string, i: nat)
    requires i < |text|
  {
    Structural(Scan(text, i), text[i]) && IsOpenChar(text[i])
  }

  /** `i` is the first structural opener of `text`. */
  predicate FirstOpener(text: string, i: nat) {
    i < |text| && OpensAt(text, i) && forall j :: 0 <= j < i ==> !OpensAt(text, j)
  }

  /** `text[i]` is a structural `}` or `]` that brings the depth to zero after
      an opener has been seen: the scanning loop stops here. */
  predicate ClosesAt(text: string, i: nat)
    requires i < |text|
  {
    && Structural(Scan(text, i), text[i]) && IsCloseChar(text[i])
    && Scan(text, i + 1).depth == 0 && Scan(text, i + 1).start != -1
  }

  /** The first index at or after `from` where the scan stops. */
  function FirstClose(text: string, from: nat): (r: Option<nat>)
    requires from <= |text|
    ensures r.Some? ==> from <= r.value < |text| && ClosesAt(text, r.value)
    ensures forall j :: from <= j < |text| && (r.None? || j < r.value) ==> !ClosesAt(text, j)
    decreases |text| - from
  {
    if from == |text| then None
    else if ClosesAt(text, from) then Some(from)
    else FirstClose(text, from + 1)
  }

  /** What the scanner returns, `None` standing for `null`: the complete region
      when the scan stopped, otherwise (under `allowPartial`) the rest of the
      text from the first opener with one `}` added while the depth is
      positive. */
  function Boundaries(text: string, allowPartial: bool): Option<string> {
    match FirstClose(text, 0)
    case Some(e) =>
      Some(text[Scan(text, e + 1).start..e + 1])
    case None =>
      var st := Scan(text, |text|);
      if allowPartial && st.start != -1 then
        Some(text[st.start..] + (if st.depth > 0 then "}" else ""))
      else
        None
  }

  /** The scanning loop as `findJsonBoundaries` writes it. */
  method FindJsonBoundaries(text: string, allowPartial: bool) returns (r: Option<string>)
    ensures r == Boundaries(text, allowPartial)
  {
    var start := -1;
    var end := -1;
    var depth := 0;
    var inString := false;
    var escapeNext := false;
    var i := 0;
    while i < |text|
      invariant 0 <= i <= |text|
      invariant ScanState(start, depth, inString, escapeNext) == Scan(text, i)
      invariant end == -1
      invariant forall j :: 0 <= j < i ==> !ClosesAt(text, j)
    {
      var c := text[i];
      if escapeNext {
        escapeNext := false;
      } else if c == '\\' {
        escapeNext := true;
      } else if c == '"' && !escapeNext {
        inString := !inString;
      } else if !inString {
        if c == '{' || c == '[' {
          if start == -1 {
            start := i;
          }
          depth := depth + 1;
        } else if c == '}' || c == ']' {
          depth := depth - 1;
          if depth == 0 && start != -1 {
            end := i + 1;
            assert ScanState(start, depth, inString, escapeNext) == Scan(text, i + 1);
            assert ClosesAt(text, i);
            assert FirstClose(text, 0) == Some(i);
            break;
          }
        }
      }
      i := i + 1;
    }

    assert end == -1 ==> FirstClose(text, 0).None? && ScanState(start, depth, inString, escapeNext) == Scan(text, |text|);
    if start != -1 && end != -1 {
      r := Some(text[start..end]);
    } else if allowPartial && start != -1 {
      r := Some(text[start..] + (if depth > 0 then "}" else ""));
    } else {
      r := None;
    }
  }

  /** The start index stays unset exactly until a structural opener has been
      read, and once set it is the first structural opener. */
  lemma {:induction false} StartIsFirstOpener(text: string, k: nat)
    requires k <= |text|
    ensures Scan(text, k).start == -1 <==> forall j :: 0 <= j < k ==> !OpensAt(text, j)
    ensures Scan(text, k).start != -1 ==> FirstOpener(text, Scan(text, k).start)
  {
    if k > 0 {
      StartIsFirstOpener(text, k - 1);
      assert Scan(text, k).start == -1 <==> Scan(text, k - 1).start == -1 && !OpensAt(text, k - 1);
      if Scan(text, k).start == -1 {
        assert forall j :: 0 <= j < k ==> !OpensAt(text, j);
      }
    }
  }

  /** Before the first opener only closers move the depth, so it is never positive. */
  lemma {:induction false} DepthBeforeOpener(text: string, k: nat)
    requires k <= |text| && Scan(text, k).start == -1
    ensures Scan(text, k).depth <= 0
  {
    if k > 0 {
      DepthBeforeOpener(text, k - 1);
    }
  }

  /** Complete case: when the scan stops, the result runs from the first
      structural opener to the first structural closer that brings the depth
      back to zero, both included. */
  lemma CompleteRegion(text: string, allowPartial: bool)
    requires exists e :: 0 <= e < |text| && ClosesAt(text, e)
    ensures exists s, e ::
      && 0 <= s <= e < |text|
      && Boundaries(text, allowPartial) == Some(text[s..e + 1])
      && FirstOpener(text, s) && IsOpenChar(text[s])
      && ClosesAt(text, e) && IsCloseChar(text[e])
      && (forall j :: 0 <= j < e ==> !ClosesAt(text, j))
  {
    var e := FirstClose(text, 0).value;
    StartIsFirstOpener(text, e + 1);
    var s := Scan(text, e + 1).start;
    assert FirstOpener(text, s);
  }

  /** Incomplete case: without a stopping point the result is `null` unless
      partial results are allowed and an opener was seen; then it is the rest
      of the text from the first opener, with one `}` appended exactly when the
      final depth is positive. */
  lemma IncompleteRegion(text: string, allowPartial: bool)
    requires forall j :: 0 <= j < |text| ==> !ClosesAt(text, j)
    ensures !allowPartial ==> Boundaries(text, allowPartial) == None
    ensures (forall j :: 0 <= j < |text| ==> !OpensAt(text, j)) ==> Boundaries(text, allowPartial) == None
    ensures forall s: nat :: FirstOpener(text, s) && allowPartial ==>
      Boundaries(text, allowPartial) == Some(text[s..] + (if Scan(text, |text|).depth > 0 then "}" else ""))
  {
    assert FirstClose(text, 0).None?;
    StartIsFirstOpener(text, |text|);
  }

  /** A text with no structural opener yields `null`, whatever the mode. */
  lemma NoOpenerIsNull(text: string, allowPartial: bool)
    requires forall j :: 0 <= j < |text| ==> !OpensAt(text, j)
    ensures Boundaries(text, allowPartial) == None
  {
    forall j | 0 <= j < |text|
      ensures !ClosesAt(text, j)
    {
      StartIsFirstOpener(text, j + 1);
    }
    IncompleteRegion(text, allowPartial);
  }

  /** Every non-null result is non-empty and begins with `{` or `[`, so it is
      never a falsy string. */
  lemma ResultStartsWithOpener(text: string, allowPartial: bool)
    ensures Boundaries(text, allowPartial).Some? ==>
      var r := Boundaries(text, allowPartial).value; |r| > 0 && IsOpenChar(r[0])
  {
    match FirstClose(text, 0)
    case Some(e) =>
      StartIsFirstOpener(text, e + 1);
    case None =>
      StartIsFirstOpener(text, |text|);
  }

  /** When no stray closer precedes the first opener, the region is balanced:
      the depth stays positive strictly inside it. */
  lemma {:induction false} BalancedRegion(text: string, s: nat, e: nat, j: nat)
    requires FirstOpener(text, s) && s < j <= e < |text|
    requires forall k :: 0 <= k < e ==> !ClosesAt(text, k)
    requires Scan(text, s).depth == 0
    ensures Scan(text, j).depth > 0
    decreases j
  {
    if j > s + 1 {
      BalancedRegion(text, s, e, j - 1);
      StartIsFirstOpener(text, j);
      assert !ClosesAt(text, j - 1);
    }
  }

  /** The depth is decremented on closers before any opener, so a stray closer
      makes the scanner stop one level early and return an unbalanced region. */
  lemma StrayCloserQuirk(a: string)
    requires a == "}{{}}"
    ensures Boundaries(a, false) == Some("{{}")
  {
    StrayCloserStops(a);
    RegionAtClose(a, 3, false);
    StrayCloserScan(a);
    assert a[1..4] == "{{}";
  }

  lemma RegionAtClose(text: string, e: nat, allowPartial: bool)
    requires e < |text| && FirstClose(text, 0) == Some(e)
    ensures Boundaries(text, allowPartial) == Some(text[Scan(text, e + 1).start..e + 1])
  {
  }

  lemma StrayCloserStops(a: string)
    requires a == "}{{}}"
    ensures FirstClose(a, 0) == Some(3)
  {
    StrayCloserScan(a);
    assert !ClosesAt(a, 0) && !ClosesAt(a, 1) && !ClosesAt(a, 2) && ClosesAt(a, 3);
    assert FirstClose(a, 3) == Some(3);
    assert FirstClose(a, 2) == Some(3);
    assert FirstClose(a, 1) == Some(3);
  }

  lemma StrayCloserScan(a: string)
    requires a == "}{{}}"
    ensures Scan(a, 1) == ScanState(-1, -1, false, false)
    ensures Scan(a, 2) == ScanState(1, 0, false, false)
    ensures Scan(a, 3) == ScanState(1, 1, false, false)
    ensures Scan(a, 4) == ScanState(1, 0, false, false)
  {
    assert a[0] == '}' && a[1] == '{' && a[2] == '{' && a[3] == '}';
    assert Scan(a, 1) == ScanState(-1, -1, false, false);
    assert Scan(a, 2) == ScanState(1, 0, false, false);
    assert Scan(a, 3) == ScanState(1, 1, false, false);
  }

  /** With only one closer after a stray one the region never closes, so it
      is reported only when partial input is allowed. */
  lemma StrayCloserHidesRegion(b: string)
    requires b == "}{}"
    ensures Boundaries(b, false) == None
    ensures Boundaries(b, true) == Some("{}")
  {
    assert b[0] == '}' && b[1] == '{' && b[2] == '}';
    assert Scan(b, 1) == ScanState(-1, -1, false, false);
    assert Scan(b, 2) == ScanState(1, 0, false, false);
    assert Scan(b, 3) == ScanState(1, -1, false, false);
    assert !ClosesAt(b, 0) && !ClosesAt(b, 1) && !ClosesAt(b, 2);
    assert FirstClose(b, 2) == None;
    assert FirstClose(b, 1) == None;
    assert FirstClose(b, 0) == None;
    assert b[1..] + "" == "{}";
  }
}
