/** The candidate extractor `extractJson` (src/utils/jsonParser.ts:87-143).
    The regular expressions of its four tiers are not modelled: each tier is
    given as the sequence of capture-group texts its pattern matches, in the
    order `exec` finds them. What is modelled is what the extractor does with
    them: trim, filter, cap at `maxBlocks`, and optionally stable-sort. */
module Extract {
  import opened Text

  /** A region believed to hold JSON, with its confidence tier (1 is best). */
  datatype Candidate = Candidate(content: string, priority: nat)

  /** The capture groups found by each pattern, in discovery order: ```json
      fences, any fences, inline spans, then the object and array patterns
      that together form tier 4. */
  datatype TierMatches = TierMatches(
    fenced: seq<string>,
    code: seq<string>,
    inline: seq<string>,
    objects: seq<string>,
    arrays: seq<string>)

  /** The content starts like a JSON object or array. */
  predicate StartsLikeJson(content: string) {
    content != [] && (content[0] == '{' || content[0] == '[')
  }

  /** The per-tier filter on a trimmed capture: non-empty for tier 1, starting
      with `{` or `[` for tiers 2 and 3, longer than ten characters for tier 4. */
  predicate Keep(tier: nat, content: string) {
    if tier == 1 then content != []
    else if tier == 4 then |content| > 10
    else StartsLikeJson(content)
  }

  /** What one match contributes: its trimmed capture, if the tier's filter
      keeps it. */
  function Admit(capture: string, tier: nat): seq<Candidate> {
    var content := Trim(capture);
    if Keep(tier, content) then [Candidate(content, tier)] else []
  }

  /** One tier's scan: before each match the cap is checked and the scan stops
      once `maxBlocks` candidates are held; otherwise the match is admitted. */
  function Collect(acc: seq<Candidate>, matches: seq<string>, tier: nat, maxBlocks: int): (r: seq<Candidate>)
    decreases |matches|
  {
    if matches == [] || |acc| >= maxBlocks then acc
    else Collect(acc + Admit(matches[0], tier), matches[1..], tier, maxBlocks)
  }

  /** All four tiers in order, sharing one cap. The cap and the tier filters
      together keep the first `maxBlocks` kept captures, in tier order. */
  function Collected(tm: TierMatches, maxBlocks: int): (r: seq<Candidate>)
    ensures r == Take(AllKept(tm), maxBlocks)
  {
    var k1 := Kept(tm.fenced, 1);
    var k2 := Kept(tm.code, 2);
    var k3 := Kept(tm.inline, 3);
    var k4 := Kept(tm.objects, 4);
    assert Take([], maxBlocks) == [];
    CollectTakes([], tm.fenced, 1, maxBlocks);
    assert [] + k1 == k1;
    CollectTakes(k1, tm.code, 2, maxBlocks);
    CollectTakes(k1 + k2, tm.inline, 3, maxBlocks);
    CollectTakes(k1 + k2 + k3, tm.objects, 4, maxBlocks);
    CollectTakes(k1 + k2 + k3 + k4, tm.arrays, 4, maxBlocks);
    var t1 := Collect([], tm.fenced, 1, maxBlocks);
    var t2 := Collect(t1, tm.code, 2, maxBlocks);
    var t3 := Collect(t2, tm.inline, 3, maxBlocks);
    var t4 := Collect(t3, tm.objects, 4, maxBlocks);
    Collect(t4, tm.arrays, 4, maxBlocks)
  }

  /** Reference definition: every capture of one tier that the filter keeps. */
  function Kept(matches: seq<string>, tier: nat): seq<Candidate> {
    if matches == [] then [] else Admit(matches[0], tier) + Kept(matches[1..], tier)
  }

  /** Reference definition: every kept capture of every tier, in tier order. */
  function AllKept(tm: TierMatches): seq<Candidate> {
    Kept(tm.fenced, 1) + Kept(tm.code, 2) + Kept(tm.inline, 3) + Kept(tm.objects, 4) + Kept(tm.arrays, 4)
  }

  /** The number of candidates a cap of `maxBlocks` lets through. */
  function Cap(maxBlocks: int): nat {
    if maxBlocks < 0 then 0 else maxBlocks
  }

  /** The first `Cap(maxBlocks)` elements of `s`, or all of `s` if it is shorter. */
  function Take(s: seq<Candidate>, maxBlocks: int): (r: seq<Candidate>)
    ensures |r| <= |s| && |r| <= Cap(maxBlocks) && r == s[..|r|]
    ensures |r| == Cap(maxBlocks) || r == s
  {
    if |s| <= Cap(maxBlocks) then s else s[..Cap(maxBlocks)]
  }

  /** Scanning one tier from a capped prefix of `prefix` yields the capped
      prefix of `prefix` followed by the tier's kept captures. */
  lemma {:induction false} CollectTakes(prefix: seq<Candidate>, matches: seq<string>, tier: nat, maxBlocks: int)
    ensures Collect(Take(prefix, maxBlocks), matches, tier, maxBlocks) == Take(prefix + Kept(matches, tier), maxBlocks)
    decreases |matches|
  {
    var acc := Take(prefix, maxBlocks);
    if matches == [] {
      assert prefix + Kept(matches, tier) == prefix;
    } else if |acc| >= maxBlocks {
      CollectTakesFull(prefix, matches, tier, maxBlocks);
    } else {
      CollectTakesStep(prefix, matches, tier, maxBlocks);
    }
  }

  lemma CollectTakesFull(prefix: seq<Candidate>, matches: seq<string>, tier: nat, maxBlocks: int)
    requires matches != [] && |Take(prefix, maxBlocks)| >= maxBlocks
    ensures Collect(Take(prefix, maxBlocks), matches, tier, maxBlocks) == Take(prefix + Kept(matches, tier), maxBlocks)
  {
    CapOfLonger(prefix, Kept(matches, tier), maxBlocks);
  }

  lemma {:induction false} CollectTakesStep(prefix: seq<Candidate>, matches: seq<string>, tier: nat, maxBlocks: int)
    requires matches != [] && |Take(prefix, maxBlocks)| < maxBlocks
    ensures Collect(Take(prefix, maxBlocks), matches, tier, maxBlocks) == Take(prefix + Kept(matches, tier), maxBlocks)
    decreases |matches|, 0
  {
    var head := Admit(matches[0], tier);
    var rest := Kept(matches[1..], tier);
    UncappedStep(prefix, matches, tier, maxBlocks);
    CollectTakes(prefix + head, matches[1..], tier, maxBlocks);
    AppendAssoc(prefix, head, rest);
  }

  lemma UncappedStep(prefix: seq<Candidate>, matches: seq<string>, tier: nat, maxBlocks: int)
    requires matches != [] && |Take(prefix, maxBlocks)| < maxBlocks
    ensures Take(prefix, maxBlocks) == prefix
    ensures Take(prefix + Admit(matches[0], tier), maxBlocks) == prefix + Admit(matches[0], tier)
    ensures Collect(prefix, matches, tier, maxBlocks) == Collect(prefix + Admit(matches[0], tier), matches[1..], tier, maxBlocks)
    ensures Kept(matches, tier) == Admit(matches[0], tier) + Kept(matches[1..], tier)
  {
  }

  lemma AppendAssoc(a: seq<Candidate>, b: seq<Candidate>, c: seq<Candidate>)
    ensures a + b + c == a + (b + c)
  {
  }

  lemma CapOfLonger(prefix: seq<Candidate>, more: seq<Candidate>, maxBlocks: int)
    requires |Take(prefix, maxBlocks)| == Cap(maxBlocks)
    ensures Take(prefix + more, maxBlocks) == Take(prefix, maxBlocks)
  {
    assert (prefix + more)[..Cap(maxBlocks)] == prefix[..Cap(maxBlocks)];
  }

  /** Priorities never decrease from one candidate to the next. */
  predicate SortedByPriority(cs: seq<Candidate>) {
    forall i :: 0 < i < |cs| ==> cs[i - 1].priority <= cs[i].priority
  }

  /** The candidates of priority `p`, in their order in `cs`. */
  function WithPriority(cs: seq<Candidate>, p: nat): seq<Candidate> {
    if cs == [] then []
    else WithPriority(cs[..|cs| - 1], p) + (if cs[|cs| - 1].priority == p then [cs[|cs| - 1]] else [])
  }

  /** Places `c` after every element whose priority is at most its own. */
  function Insert(sorted: seq<Candidate>, c: Candidate): (r: seq<Candidate>)
    requires SortedByPriority(sorted)
    ensures SortedByPriority(r)
    ensures multiset(r) == multiset(sorted) + multiset{c}
    ensures |r| == |sorted| + 1
    ensures r[|r| - 1] == c || (sorted != [] && r[|r| - 1] == sorted[|sorted| - 1])
    decreases |sorted|
  {
    if sorted == [] || sorted[|sorted| - 1].priority <= c.priority then
      sorted + [c]
    else
      var init := sorted[..|sorted| - 1];
      var last := sorted[|sorted| - 1];
      assert sorted == init + [last];
      Insert(init, c) + [last]
  }

  lemma WithPrioritySnoc(cs: seq<Candidate>, x: Candidate, p: nat)
    ensures WithPriority(cs + [x], p) == WithPriority(cs, p) + (if x.priority == p then [x] else [])
  {
    assert (cs + [x])[..|cs|] == cs;
  }

  /** Insertion keeps the order among candidates of each priority, with `c`
      last among its own. */
  lemma {:induction false} InsertKeepsTies(sorted: seq<Candidate>, c: Candidate, p: nat)
    requires SortedByPriority(sorted)
    ensures WithPriority(Insert(sorted, c), p) == WithPriority(sorted, p) + (if c.priority == p then [c] else [])
    decreases |sorted|
  {
    if sorted == [] || sorted[|sorted| - 1].priority <= c.priority {
      WithPrioritySnoc(sorted, c, p);
    } else {
      var init := sorted[..|sorted| - 1];
      var last := sorted[|sorted| - 1];
      InsertUnfold(sorted, c);
      InsertKeepsTies(init, c, p);
      WithPrioritySnoc(Insert(init, c), last, p);
      WithPrioritySnoc(init, last, p);
    }
  }

  lemma InsertUnfold(sorted: seq<Candidate>, c: Candidate)
    requires SortedByPriority(sorted)
    requires sorted != [] && sorted[|sorted| - 1].priority > c.priority
    ensures sorted == sorted[..|sorted| - 1] + [sorted[|sorted| - 1]]
    ensures SortedByPriority(sorted[..|sorted| - 1])
    ensures Insert(sorted, c) == Insert(sorted[..|sorted| - 1], c) + [sorted[|sorted| - 1]]
  {
  }

  /** `Array.prototype.sort` with the comparator `a.priority - b.priority`,
      which is stable: the result is ordered by priority, is a permutation of
      the input, and keeps the input order among equal priorities. */
  function StableSort(cs: seq<Candidate>): (r: seq<Candidate>)
    ensures SortedByPriority(r)
    ensures multiset(r) == multiset(cs)
    ensures forall p :: WithPriority(r, p) == WithPriority(cs, p)
    ensures SortedByPriority(cs) ==> r == cs
  {
    if cs == [] then []
    else
      var sortedInit := StableSort(cs[..|cs| - 1]);
      SortStep(sortedInit, cs);
      Insert(sortedInit, cs[|cs| - 1])
  }

  /** One step of the sort: inserting the last candidate into the sorted
      rest keeps every property of the sort. */
  lemma SortStep(sortedInit: seq<Candidate>, cs: seq<Candidate>)
    requires cs != []
    requires SortedByPriority(sortedInit)
    requires multiset(sortedInit) == multiset(cs[..|cs| - 1])
    requires forall p :: WithPriority(sortedInit, p) == WithPriority(cs[..|cs| - 1], p)
    requires SortedByPriority(cs[..|cs| - 1]) ==> sortedInit == cs[..|cs| - 1]
    ensures multiset(Insert(sortedInit, cs[|cs| - 1])) == multiset(cs)
    ensures forall p :: WithPriority(Insert(sortedInit, cs[|cs| - 1]), p) == WithPriority(cs, p)
    ensures SortedByPriority(cs) ==> Insert(sortedInit, cs[|cs| - 1]) == cs
  {
    var init := cs[..|cs| - 1];
    var last := cs[|cs| - 1];
    assert cs == init + [last];
    forall p ensures WithPriority(Insert(sortedInit, last), p) == WithPriority(cs, p) {
      InsertKeepsTies(sortedInit, last, p);
      WithPrioritySnoc(init, last, p);
    }
    if SortedByPriority(cs) {
      assert SortedByPriority(init);
    }
  }

  function Contents(cs: seq<Candidate>): (r: seq<string>)
    ensures |r| == |cs| && forall i :: 0 <= i < |cs| ==> r[i] == cs[i].content
  {
    if cs == [] then [] else [cs[0].content] + Contents(cs[1..])
  }

  /** Every candidate of `cs` has priority `p`. */
  predicate AllOfPriority(cs: seq<Candidate>, p: nat) {
    forall i :: 0 <= i < |cs| ==> cs[i].priority == p
  }

  /** No candidate of `cs` has a priority above `p`. */
  predicate AllAtMost(cs: seq<Candidate>, p: nat) {
    forall i :: 0 <= i < |cs| ==> cs[i].priority <= p
  }

  lemma {:induction false} KeptOfTier(matches: seq<string>, tier: nat)
    ensures AllOfPriority(Kept(matches, tier), tier)
    decreases |matches|
  {
    if matches != [] {
      var head := Admit(matches[0], tier);
      var rest := Kept(matches[1..], tier);
      KeptOfTier(matches[1..], tier);
      assert AllOfPriority(head, tier);
      assert Kept(matches, tier) == head + rest;
      SamePriorityAppend(head, rest, tier);
    }
  }

  lemma SamePriorityAppend(a: seq<Candidate>, b: seq<Candidate>, p: nat)
    requires AllOfPriority(a, p) && AllOfPriority(b, p)
    ensures AllOfPriority(a + b, p)
  {
    assert forall i :: |a| <= i < |a + b| ==> (a + b)[i] == b[i - |a|];
  }

  lemma AppendTier(a: seq<Candidate>, b: seq<Candidate>, q: nat, p: nat)
    requires SortedByPriority(a) && AllAtMost(a, q) && q <= p && AllOfPriority(b, p)
    ensures SortedByPriority(a + b) && AllAtMost(a + b, p)
  {
  }

  /** Captures are found tier by tier, so the reference sequence is already
      ordered by priority. */
  lemma AllKeptIsSorted(tm: TierMatches)
    ensures SortedByPriority(AllKept(tm))
  {
    KeptOfTier(tm.fenced, 1);
    KeptOfTier(tm.code, 2);
    KeptOfTier(tm.inline, 3);
    KeptOfTier(tm.objects, 4);
    KeptOfTier(tm.arrays, 4);
    TiersSorted(Kept(tm.fenced, 1), Kept(tm.code, 2), Kept(tm.inline, 3), Kept(tm.objects, 4), Kept(tm.arrays, 4));
  }

  lemma TiersSorted(k1: seq<Candidate>, k2: seq<Candidate>, k3: seq<Candidate>, k4: seq<Candidate>, k5: seq<Candidate>)
    requires AllOfPriority(k1, 1) && AllOfPriority(k2, 2) && AllOfPriority(k3, 3)
    requires AllOfPriority(k4, 4) && AllOfPriority(k5, 4)
    ensures SortedByPriority(k1 + k2 + k3 + k4 + k5)
  {
    AppendTier([], k1, 0, 1);
    assert [] + k1 == k1;
    AppendTier(k1, k2, 1, 2);
    AppendTier(k1 + k2, k3, 2, 3);
    AppendTier(k1 + k2 + k3, k4, 3, 4);
    AppendTier(k1 + k2 + k3 + k4, k5, 4, 4);
  }

  /** `extractJson`: the candidate texts, sorted by priority when
      `preferFirst` holds; never more than `maxBlocks` of them. */
  function ExtractJson(tm: TierMatches, maxBlocks: int, preferFirst: bool): (r: seq<string>)
    ensures |r| <= Cap(maxBlocks)
  {
    var results := Collected(tm, maxBlocks);
    SortingChangesNothing(tm, maxBlocks);
    Contents(if preferFirst then StableSort(results) else results)
  }

  /** The candidates are the first `maxBlocks` kept captures in tier order,
      each trimmed and non-empty, whichever `preferFirst` is. */
  lemma ExtractJsonMeaning(tm: TierMatches, maxBlocks: int, preferFirst: bool)
    ensures ExtractJson(tm, maxBlocks, preferFirst) == Contents(Take(AllKept(tm), maxBlocks))
    ensures forall t :: t in ExtractJson(tm, maxBlocks, preferFirst) ==> t != [] && IsTrimmed(t)
  {
    var taken := Take(AllKept(tm), maxBlocks);
    SortingChangesNothing(tm, maxBlocks);
    TakenAreWellFormed(tm, maxBlocks);
    var r := Contents(taken);
    assert ExtractJson(tm, maxBlocks, preferFirst) == r;
    forall t | t in r
      ensures t != [] && IsTrimmed(t)
    {
      var i :| 0 <= i < |r| && r[i] == t;
      assert t == taken[i].content;
    }
  }

  /** The collected candidates are already in priority order, so the stable
      sort leaves them as they are. */
  lemma SortingChangesNothing(tm: TierMatches, maxBlocks: int)
    ensures Collected(tm, maxBlocks) == Take(AllKept(tm), maxBlocks)
    ensures StableSort(Collected(tm, maxBlocks)) == Collected(tm, maxBlocks)
  {
    AllKeptIsSorted(tm);
    var taken := Take(AllKept(tm), maxBlocks);
    assert SortedByPriority(taken);
  }

  lemma TakenAreWellFormed(tm: TierMatches, maxBlocks: int)
    ensures forall i :: 0 <= i < |Take(AllKept(tm), maxBlocks)| ==>
      Take(AllKept(tm), maxBlocks)[i].content != [] && IsTrimmed(Take(AllKept(tm), maxBlocks)[i].content)
  {
    var taken := Take(AllKept(tm), maxBlocks);
    forall i | 0 <= i < |taken|
      ensures taken[i].content != [] && IsTrimmed(taken[i].content)
    {
      assert taken[i] in AllKept(tm);
      KeptCandidate(tm, taken[i]);
    }
  }

  /** Every kept candidate has a tier from 1 to 4, passes its tier's filter,
      and is trimmed and non-empty. */
  lemma KeptCandidate(tm: TierMatches, c: Candidate)
    requires c in AllKept(tm)
    ensures 1 <= c.priority <= 4 && Keep(c.priority, c.content)
    ensures IsTrimmed(c.content) && c.content != []
  {
    if c in Kept(tm.fenced, 1) {
      KeptInTier(tm.fenced, 1, c);
    } else if c in Kept(tm.code, 2) {
      KeptInTier(tm.code, 2, c);
    } else if c in Kept(tm.inline, 3) {
      KeptInTier(tm.inline, 3, c);
    } else if c in Kept(tm.objects, 4) {
      KeptInTier(tm.objects, 4, c);
    } else {
      KeptInTier(tm.arrays, 4, c);
    }
  }

  lemma {:induction false} KeptInTier(matches: seq<string>, tier: nat, c: Candidate)
    requires c in Kept(matches, tier)
    ensures c.priority == tier && Keep(tier, c.content) && IsTrimmed(c.content)
    decreases |matches|
  {
    if c !in Admit(matches[0], tier) {
      KeptInTier(matches[1..], tier, c);
    }
  }

  /** The `preferFirst` option cannot change the extractor's output. */
  lemma PreferFirstIsIrrelevant(tm: TierMatches, maxBlocks: int)
    ensures ExtractJson(tm, maxBlocks, true) == ExtractJson(tm, maxBlocks, false)
  {
    SortingChangesNothing(tm, maxBlocks);
  }
}
