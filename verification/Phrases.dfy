/** Offline grounding: longer phrases claim their span of the question first, and a claimed span answers
  * for no other metric.
  */
module Phrases {

  datatype Candidate = Candidate(metric: string, phrase: string)

  datatype Claim = Claim(metric: string, phrase: string, at: nat)

  // ---------------------------------------------------------------- occurrences

  predicate WordByte(c: char) {
    c == '_' || '0' <= c <= '9' || 'a' <= c <= 'z' || 'A' <= c <= 'Z'
  }

  predicate WordBoundary(q: string, at: nat, end: nat)
    requires at <= |q|
  {
    && (at > 0 ==> !WordByte(q[at - 1]))
    && (end < |q| ==> !WordByte(q[end]))
  }

  predicate Occurs(q: string, phrase: string, at: nat) {
    at + |phrase| <= |q| && q[at..at + |phrase|] == phrase
  }

  /** The phrase stands at this place as a whole word. */
  predicate WholeWord(q: string, phrase: string, at: nat) {
    Occurs(q, phrase, at) && WordBoundary(q, at, at + |phrase|)
  }

  predicate WordRun(q: string, i: nat, j: nat) {
    i <= j <= |q| && forall k | i <= k < j :: WordByte(q[k])
  }

  /** A phrase stands as a whole word exactly where no word runs into it from the left and none out of it to the
    * right.
    */
  lemma WholeWordsAreNotCut(q: string, phrase: string, at: nat, end: nat)
    requires end == at + |phrase|
    ensures WholeWord(q, phrase, at) <==>
              && Occurs(q, phrase, at)
              && (forall i: nat | WordRun(q, i, at) :: i == at)
              && (forall j: nat | WordRun(q, end, j) :: j == end)
  {
    if Occurs(q, phrase, at) {
      if at > 0 && WordByte(q[at - 1]) {
        assert WordRun(q, at - 1, at);
      }
      if end < |q| && WordByte(q[end]) {
        assert WordRun(q, end, end + 1);
      }
    }
  }

  predicate Overlaps(consumed: seq<bool>, at: nat, end: nat) {
    exists i :: at <= i < end && i < |consumed| && consumed[i]
  }

  predicate Admissible(q: string, phrase: string, consumed: seq<bool>, at: nat) {
    WholeWord(q, phrase, at) && !Overlaps(consumed, at, at + |phrase|)
  }

  // The first occurrence at or after `from`, or -1.
  method Index(q: string, phrase: string, from: nat) returns (at: int)
    requires from <= |q|
    ensures at == -1 || at >= from
    ensures at >= 0 ==> Occurs(q, phrase, at)
    ensures forall i: nat | from <= i && (at >= 0 ==> i < at) :: !Occurs(q, phrase, i)
  {
    var i := from;
    while i + |phrase| <= |q|
      invariant i >= from
      invariant forall j: nat | from <= j < i :: !Occurs(q, phrase, j)
    {
      if q[i..i + |phrase|] == phrase {
        return i;
      }
      i := i + 1;
    }
    return -1;
  }

  method AnyConsumed(consumed: array<bool>, at: nat, end: nat) returns (hit: bool)
    ensures hit == Overlaps(consumed[..], at, end)
  {
    var i := at;
    while i < end && i < consumed.Length
      invariant i >= at
      invariant forall j | at <= j < i && j < consumed.Length :: !consumed[j]
    {
      if consumed[i] {
        assert consumed[..][i];
        return true;
      }
      i := i + 1;
    }
    return false;
  }

  /** The leftmost place where the phrase stands as a whole word and touches no claimed span; -1 exactly
    * when there is none.
    */
  method FindSpan(q: string, phrase: string, consumed: array<bool>) returns (at: int)
    ensures at == -1 || 0 <= at < |q|
    ensures at >= 0 ==> Admissible(q, phrase, consumed[..], at)
    ensures forall i: nat | i < |q| && (at >= 0 ==> i < at) :: !Admissible(q, phrase, consumed[..], i)
  {
    var from: nat := 0;
    while from < |q|
      invariant from <= |q|
      invariant forall i: nat | i < from :: !Admissible(q, phrase, consumed[..], i)
      decreases |q| - from
    {
      at := Index(q, phrase, from);
      if at < 0 {
        return -1;
      }
      assert phrase == "" ==> Occurs(q, phrase, from);
      var end := at + |phrase|;
      var taken := AnyConsumed(consumed, at, end);
      if WordBoundary(q, at, end) && !taken {
        return;
      }
      from := at + 1;
    }
    return -1;
  }

  // ---------------------------------------------------------------- longest phrase first

  predicate LongestFirst(cs: seq<Candidate>) {
    forall i, j | 0 <= i < j < |cs| :: |cs[i].phrase| >= |cs[j].phrase|
  }

  // Before every candidate that is not longer: equal lengths keep their order.
  function InsertStable(c: Candidate, cs: seq<Candidate>): seq<Candidate> {
    if cs == [] || |cs[0].phrase| <= |c.phrase| then [c] + cs else [cs[0]] + InsertStable(c, cs[1..])
  }

  function SortStable(cs: seq<Candidate>): seq<Candidate> {
    if cs == [] then [] else InsertStable(cs[0], SortStable(cs[1..]))
  }

  function OfLength(cs: seq<Candidate>, n: nat): seq<Candidate> {
    if cs == [] then []
    else (if |cs[0].phrase| == n then [cs[0]] else []) + OfLength(cs[1..], n)
  }

  lemma {:induction false} InsertKeepsAll(c: Candidate, cs: seq<Candidate>)
    ensures multiset(InsertStable(c, cs)) == multiset(cs) + multiset{c}
    decreases |cs|
  {
    if cs != [] && |cs[0].phrase| > |c.phrase| {
      InsertKeepsAll(c, cs[1..]);
      assert cs == [cs[0]] + cs[1..];
    }
  }

  lemma InsertedIsNoLonger(c: Candidate, cs: seq<Candidate>, n: nat)
    requires |c.phrase| <= n && forall i | 0 <= i < |cs| :: |cs[i].phrase| <= n
    ensures forall r | r in InsertStable(c, cs) :: |r.phrase| <= n
  {
    InsertKeepsAll(c, cs);
    hide InsertStable;
    forall r | r in InsertStable(c, cs)
      ensures |r.phrase| <= n
    {
      assert r in multiset(InsertStable(c, cs));
      assert r == c || r in cs;
    }
  }

  lemma FrontKeepsOrder(c: Candidate, cs: seq<Candidate>)
    requires LongestFirst(cs) && forall r | r in cs :: |r.phrase| <= |c.phrase|
    ensures LongestFirst([c] + cs)
  {
    assert forall i | 0 <= i < |cs| :: cs[i] in cs;
  }

  lemma {:induction false} InsertKeepsOrder(c: Candidate, cs: seq<Candidate>)
    requires LongestFirst(cs)
    ensures LongestFirst(InsertStable(c, cs))
    decreases |cs|
  {
    if cs != [] && |cs[0].phrase| > |c.phrase| {
      InsertKeepsOrder(c, cs[1..]);
      InsertedIsNoLonger(c, cs[1..], |cs[0].phrase|);
      FrontKeepsOrder(cs[0], InsertStable(c, cs[1..]));
    }
  }

  lemma {:induction false} InsertKeepsTies(c: Candidate, cs: seq<Candidate>, n: nat)
    ensures OfLength(InsertStable(c, cs), n) == (if |c.phrase| == n then [c] else []) + OfLength(cs, n)
    decreases |cs|
  {
    hide OfLength;
    OfLengthFirst(c, cs, n);
    if cs != [] && |cs[0].phrase| > |c.phrase| {
      InsertKeepsTies(c, cs[1..], n);
      OfLengthFirst(cs[0], InsertStable(c, cs[1..]), n);
      OfLengthFirst(cs[0], cs[1..], n);
      assert cs == [cs[0]] + cs[1..];
    }
  }

  lemma OfLengthFirst(c: Candidate, cs: seq<Candidate>, n: nat)
    ensures OfLength([c] + cs, n) == (if |c.phrase| == n then [c] else []) + OfLength(cs, n)
  {
    assert ([c] + cs)[1..] == cs;
  }

  lemma OfLengthOf(cs: seq<Candidate>, n: nat)
    ensures OfLength(cs, n) ==
            if cs == [] then [] else (if |cs[0].phrase| == n then [cs[0]] else []) + OfLength(cs[1..], n)
    ensures LongestFirst([])
  {
  }

  /** Sorting keeps every candidate, puts longer phrases first and leaves ties in their order. */
  lemma {:induction false} SortStableIsRight(cs: seq<Candidate>, n: nat)
    ensures LongestFirst(SortStable(cs)) && multiset(SortStable(cs)) == multiset(cs)
    ensures OfLength(SortStable(cs), n) == OfLength(cs, n)
  {
    hide LongestFirst, InsertStable, OfLength;
    OfLengthOf(cs, n);
    if cs != [] {
      var t := SortStable(cs[1..]);
      SortStableIsRight(cs[1..], n);
      InsertKeepsAll(cs[0], t);
      InsertKeepsOrder(cs[0], t);
      InsertKeepsTies(cs[0], t, n);
      assert cs == [cs[0]] + cs[1..];
    }
  }

  // ---------------------------------------------------------------- claiming

  predicate Within(c: Claim, i: nat) {
    c.at <= i < c.at + |c.phrase|
  }

  // A claimed character lies in both.
  predicate Touches(c: Claim, at: nat, end: nat) {
    c.at < end && at < c.at + |c.phrase|
  }

  /** Claimed spans are whole-word occurrences of a candidate's phrase, pairwise disjoint, one a metric. */
  ghost predicate WellClaimed(q: string, cands: seq<Candidate>, claims: seq<Claim>) {
    && (forall i | 0 <= i < |claims| ::
          && claims[i].phrase != "" && Candidate(claims[i].metric, claims[i].phrase) in cands
          && WholeWord(q, claims[i].phrase, claims[i].at))
    && (forall i, j | 0 <= i < j < |claims| ::
          && claims[i].metric != claims[j].metric
          && !Touches(claims[i], claims[j].at, claims[j].at + |claims[j].phrase|))
  }

  ghost predicate Chosen(claims: seq<Claim>, metric: string) {
    exists i :: 0 <= i < |claims| && claims[i].metric == metric
  }

  /** A phrase that was passed over was passed over for something at least as long, wherever it stands. */
  ghost predicate Answered(q: string, c: Candidate, claims: seq<Claim>) {
    forall at: nat | at < |q| && c.phrase != "" && WholeWord(q, c.phrase, at) ::
      exists i :: 0 <= i < |claims| && |claims[i].phrase| >= |c.phrase| && Touches(claims[i], at, at + |c.phrase|)
  }

  ghost predicate Marks(consumed: seq<bool>, claims: seq<Claim>) {
    forall k: nat | k < |consumed| :: consumed[k] <==> exists i :: 0 <= i < |claims| && Within(claims[i], k)
  }

  method Mark(consumed: array<bool>, at: nat, end: nat)
    requires at <= end <= consumed.Length
    modifies consumed
    ensures forall k | 0 <= k < consumed.Length :: consumed[k] == (old(consumed[k]) || at <= k < end)
  {
    for i := at to end
      invariant forall k | 0 <= k < consumed.Length :: consumed[k] == (old(consumed[k]) || at <= k < i)
    {
      consumed[i] := true;
    }
  }

  // A new claim on an admissible place keeps the claims well formed.
  lemma ClaimKeepsWell(q: string, cands: seq<Candidate>, claims: seq<Claim>, consumed: seq<bool>, c: Claim)
    requires WellClaimed(q, cands, claims) && Marks(consumed, claims) && |consumed| == |q|
    requires c.phrase != "" && Candidate(c.metric, c.phrase) in cands && !Chosen(claims, c.metric)
    requires Admissible(q, c.phrase, consumed, c.at)
    ensures WellClaimed(q, cands, claims + [c])
  {
    forall i | 0 <= i < |claims|
      ensures !Touches(claims[i], c.at, c.at + |c.phrase|)
    {
      var k := if claims[i].at >= c.at then claims[i].at else c.at;
      assert Touches(claims[i], c.at, c.at + |c.phrase|) ==> Within(claims[i], k) && k < c.at + |c.phrase|;
      assert Within(claims[i], k) && k < |consumed| ==> consumed[k];
    }
  }

  // Where an admissible place is missing, every whole-word occurrence touches a claim.
  lemma PassedOverIsAnswered(q: string, claims: seq<Claim>, consumed: seq<bool>, c: Candidate)
    requires Marks(consumed, claims) && |consumed| == |q|
    requires forall at: nat | at < |q| :: !Admissible(q, c.phrase, consumed, at)
    requires forall i | 0 <= i < |claims| :: |claims[i].phrase| >= |c.phrase|
    ensures Answered(q, c, claims)
  {
    forall at: nat | at < |q| && c.phrase != "" && WholeWord(q, c.phrase, at)
      ensures exists i ::
                0 <= i < |claims| && |claims[i].phrase| >= |c.phrase| && Touches(claims[i], at, at + |c.phrase|)
    {
      assert !Admissible(q, c.phrase, consumed, at);
      var k :| at <= k < at + |c.phrase| && k < |consumed| && consumed[k];
      var i :| 0 <= i < |claims| && Within(claims[i], k);
      assert Touches(claims[i], at, at + |c.phrase|);
    }
  }

  lemma MoreClaimsStillAnswer(q: string, c: Candidate, claims: seq<Claim>, more: Claim)
    requires Answered(q, c, claims)
    ensures Answered(q, c, claims + [more])
  {
    forall at: nat | at < |q| && c.phrase != "" && WholeWord(q, c.phrase, at)
      ensures exists i :: 0 <= i < |claims + [more]| && |(claims + [more])[i].phrase| >= |c.phrase|
                          && Touches((claims + [more])[i], at, at + |c.phrase|)
    {
      var i :| 0 <= i < |claims| && |claims[i].phrase| >= |c.phrase| && Touches(claims[i], at, at + |c.phrase|);
      assert (claims + [more])[i] == claims[i];
    }
  }

  lemma MarksGrow(before: seq<bool>, after: seq<bool>, claims: seq<Claim>, c: Claim)
    requires Marks(before, claims) && |after| == |before|
    requires forall k | 0 <= k < |after| :: after[k] == (before[k] || Within(c, k))
    ensures Marks(after, claims + [c])
  {
    var all := claims + [c];
    forall k: nat | k < |after|
      ensures after[k] <==> exists i :: 0 <= i < |all| && Within(all[i], k)
    {
      if before[k] {
        var i :| 0 <= i < |claims| && Within(claims[i], k);
        assert Within(all[i], k);
      }
      if Within(c, k) {
        assert Within(all[|claims|], k);
      }
    }
  }

  function MetricsOf(claims: seq<Claim>): (r: seq<string>)
    ensures |r| == |claims| && forall i | 0 <= i < |r| :: r[i] == claims[i].metric
  {
    if claims == [] then [] else MetricsOf(claims[..|claims| - 1]) + [claims[|claims| - 1].metric]
  }

  // The state of the loop after its first n candidates.
  ghost predicate Progress(q: string, sorted: seq<Candidate>, n: nat, claims: seq<Claim>, consumed: seq<bool>)
    requires n <= |sorted|
  {
    && |consumed| == |q| && Marks(consumed, claims)
    && WellClaimed(q, sorted, claims)
    && (forall i, j | 0 <= i < |claims| && n <= j < |sorted| :: |claims[i].phrase| >= |sorted[j].phrase|)
    && (forall j | 0 <= j < n && !Chosen(claims, sorted[j].metric) :: Answered(q, sorted[j], claims))
  }

  lemma PassOver(q: string, sorted: seq<Candidate>, n: nat, claims: seq<Claim>, consumed: seq<bool>)
    requires n < |sorted| && Progress(q, sorted, n, claims, consumed)
    requires || sorted[n].phrase == "" || Chosen(claims, sorted[n].metric)
             || forall at: nat | at < |q| :: !Admissible(q, sorted[n].phrase, consumed, at)
    ensures Progress(q, sorted, n + 1, claims, consumed)
  {
    if sorted[n].phrase != "" && !Chosen(claims, sorted[n].metric) {
      PassedOverIsAnswered(q, claims, consumed, sorted[n]);
    }
  }

  lemma TakeSpan(q: string, sorted: seq<Candidate>, n: nat, claims: seq<Claim>, before: seq<bool>, after: seq<bool>,
                 c: Claim)
    requires n < |sorted| && Progress(q, sorted, n, claims, before) && LongestFirst(sorted)
    requires sorted[n] == Candidate(c.metric, c.phrase) && c.phrase != "" && !Chosen(claims, c.metric)
    requires Admissible(q, c.phrase, before, c.at)
    requires |after| == |before| && forall k | 0 <= k < |after| :: after[k] == (before[k] || Within(c, k))
    ensures Progress(q, sorted, n + 1, claims + [c], after)
  {
    var all := claims + [c];
    ClaimKeepsWell(q, sorted, claims, before, c);
    MarksGrow(before, after, claims, c);
    ClaimIsChosen(claims, c);
    forall j | 0 <= j < n + 1 && !Chosen(all, sorted[j].metric)
      ensures Answered(q, sorted[j], all)
    {
      MoreClaimsStillAnswer(q, sorted[j], claims, c);
    }
    forall i, j | 0 <= i < |all| && n + 1 <= j < |sorted|
      ensures |all[i].phrase| >= |sorted[j].phrase|
    {
      assert |sorted[n].phrase| >= |sorted[j].phrase|;
    }
  }

  // ---------------------------------------------------------------- greedy claiming as a function

  // The first admissible place at or after `from`, or -1.
  function Leftmost(q: string, phrase: string, consumed: seq<bool>, from: nat): (at: int)
    ensures at == -1 || (from <= at < |q| && Admissible(q, phrase, consumed, at))
    ensures forall i: nat | from <= i < |q| && (at >= 0 ==> i < at) :: !Admissible(q, phrase, consumed, i)
    decreases |q| - from
  {
    if from >= |q| then -1
    else if Admissible(q, phrase, consumed, from) then from
    else Leftmost(q, phrase, consumed, from + 1)
  }

  // Which characters of the question are claimed.
  ghost function Taken(q: string, claims: seq<Claim>): seq<bool> {
    seq(|q|, k requires k >= 0 => exists i :: 0 <= i < |claims| && Within(claims[i], k))
  }

  // The leftmost admissible place, unless the metric has a claim already.
  ghost function Claimed(q: string, before: seq<Claim>, c: Candidate): seq<Claim> {
    var at := Leftmost(q, c.phrase, Taken(q, before), 0);
    if Chosen(before, c.metric) || c.phrase == "" || at < 0 then before
    else before + [Claim(c.metric, c.phrase, at)]
  }

  /** What the first n candidates claim, each in its turn. */
  ghost function Greedy(q: string, sorted: seq<Candidate>, n: nat): seq<Claim>
    requires n <= |sorted|
  {
    if n == 0 then [] else Claimed(q, Greedy(q, sorted, n - 1), sorted[n - 1])
  }

  ghost function Claims(q: string, cands: seq<Candidate>): seq<Claim> {
    Greedy(q, SortStable(cands), |SortStable(cands)|)
  }

  lemma TakenMore(q: string, claims: seq<Claim>, c: Claim)
    ensures forall k | 0 <= k < |q| :: Taken(q, claims + [c])[k] == (Taken(q, claims)[k] || Within(c, k))
  {
    var before := Taken(q, claims);
    var after := seq(|q|, k requires 0 <= k < |q| => before[k] || Within(c, k));
    MarksGrow(before, after, claims, c);
    forall k | 0 <= k < |q|
      ensures Taken(q, claims + [c])[k] == after[k]
    {
    }
  }

  lemma {:induction false} GreedyProgress(q: string, sorted: seq<Candidate>, n: nat)
    requires LongestFirst(sorted) && n <= |sorted|
    ensures var claims := Greedy(q, sorted, n); Progress(q, sorted, n, claims, Taken(q, claims))
  {
    hide Progress, Taken, LongestFirst, Claimed;
    if n > 0 {
      GreedyProgress(q, sorted, n - 1);
      ClaimedProgress(q, sorted, n - 1, Greedy(q, sorted, n - 1));
    } else {
      NothingTakenYet(q);
      NothingClaimed(q, sorted, Taken(q, []));
    }
  }

  lemma NothingTakenYet(q: string)
    ensures |Taken(q, [])| == |q| && forall k | 0 <= k < |q| :: !Taken(q, [])[k]
  {
  }

  lemma ClaimedProgress(q: string, sorted: seq<Candidate>, n: nat, before: seq<Claim>)
    requires LongestFirst(sorted) && n < |sorted| && Progress(q, sorted, n, before, Taken(q, before))
    ensures var after := Claimed(q, before, sorted[n]); Progress(q, sorted, n + 1, after, Taken(q, after))
  {
    hide Progress, Chosen, Admissible, Taken, LongestFirst, Leftmost, Within;
    var c := sorted[n];
    var at := Leftmost(q, c.phrase, Taken(q, before), 0);
    if Chosen(before, c.metric) || c.phrase == "" || at < 0 {
      PassOver(q, sorted, n, before, Taken(q, before));
    } else {
      var claim := Claim(c.metric, c.phrase, at);
      TakenMore(q, before, claim);
      TakenLength(q, before);
      TakenLength(q, before + [claim]);
      TakeSpan(q, sorted, n, before, Taken(q, before), Taken(q, before + [claim]), claim);
    }
  }

  lemma TakenLength(q: string, claims: seq<Claim>)
    ensures |Taken(q, claims)| == |q|
  {
  }

  /** Main result: each claim is a whole-word span of its metric's phrase, no two overlap, no metric has two,
    * and a metric is left out only when every place where one of its phrases stands is taken, at least in
    * part, by a phrase no shorter.
    */
  lemma ClaimsAreRight(q: string, cands: seq<Candidate>)
    ensures var claims := Claims(q, cands);
            && WellClaimed(q, cands, claims)
            && forall c | c in cands && !Chosen(claims, c.metric) :: Answered(q, c, claims)
  {
    var sorted := SortStable(cands);
    SortStableIsRight(cands, 0);
    GreedyProgress(q, sorted, |sorted|);
    AllConsidered(q, cands, sorted, Claims(q, cands), Taken(q, Claims(q, cands)));
  }

  /** The metrics the question names, in the order they were claimed. */
  method Keyword(q: string, cands: seq<Candidate>) returns (metrics: seq<string>)
    ensures metrics == MetricsOf(Claims(q, cands))
  {
    hide Chosen, Admissible, Taken, SortStable;
    var sorted := SortStable(cands);
    var consumed := new bool[|q|](_ => false);
    metrics := [];
    var seen: set<string> := {};
    ghost var claims: seq<Claim> := [];
    NothingTaken(q, consumed[..]);
    for n := 0 to |sorted|
      invariant claims == Greedy(q, sorted, n)
      invariant metrics == MetricsOf(claims)
      invariant forall m :: m in seen <==> Chosen(claims, m)
      invariant consumed[..] == Taken(q, claims)
    {
      var c := sorted[n];
      if c.metric in seen || c.phrase == "" {
        continue;
      }
      var at := FindSpan(q, c.phrase, consumed);
      OneLeftmost(q, c.phrase, consumed[..], at);
      if at < 0 {
        continue;
      }
      ghost var was := claims;
      AdmissibleEnds(q, c.phrase, consumed[..], at);
      claims := was + [Claim(c.metric, c.phrase, at)];
      TakenMore(q, was, Claim(c.metric, c.phrase, at));
      TakenLength(q, claims);
      Mark(consumed, at, at + |c.phrase|);
      ClaimIsChosen(was, Claim(c.metric, c.phrase, at));
      metrics := metrics + [c.metric];
      seen := seen + {c.metric};
      assert claims[..|was|] == was;
    }
  }

  lemma NothingTaken(q: string, consumed: seq<bool>)
    requires |consumed| == |q| && forall k | 0 <= k < |q| :: !consumed[k]
    ensures consumed == Taken(q, []) && forall m :: !Chosen([], m)
  {
  }

  lemma OneLeftmost(q: string, phrase: string, consumed: seq<bool>, at: int)
    requires at == -1 || (0 <= at < |q| && Admissible(q, phrase, consumed, at))
    requires forall i: nat | i < |q| && (at >= 0 ==> i < at) :: !Admissible(q, phrase, consumed, i)
    ensures at == Leftmost(q, phrase, consumed, 0)
  {
    hide Admissible;
  }

  lemma NothingClaimed(q: string, sorted: seq<Candidate>, consumed: seq<bool>)
    requires |consumed| == |q| && forall k | 0 <= k < |q| :: !consumed[k]
    ensures Progress(q, sorted, 0, [], consumed) && forall m :: !Chosen([], m)
  {
  }

  lemma AllConsidered(q: string, cands: seq<Candidate>, sorted: seq<Candidate>, claims: seq<Claim>, consumed: seq<bool>)
    requires multiset(sorted) == multiset(cands) && Progress(q, sorted, |sorted|, claims, consumed)
    ensures WellClaimed(q, cands, claims)
    ensures forall c | c in cands && !Chosen(claims, c.metric) :: Answered(q, c, claims)
  {
    SameElements(sorted, cands);
    forall c | c in cands && !Chosen(claims, c.metric)
      ensures Answered(q, c, claims)
    {
      assert c in sorted;
      var j :| 0 <= j < |sorted| && sorted[j] == c;
    }
  }

  lemma SameElements(a: seq<Candidate>, b: seq<Candidate>)
    requires multiset(a) == multiset(b)
    ensures forall c :: c in a <==> c in b
  {
    forall c
      ensures c in a <==> c in b
    {
      assert c in multiset(a) <==> c in multiset(b);
    }
  }

  lemma AdmissibleEnds(q: string, phrase: string, consumed: seq<bool>, at: nat)
    requires Admissible(q, phrase, consumed, at)
    ensures at + |phrase| <= |q|
  {
  }

  lemma ClaimIsChosen(claims: seq<Claim>, c: Claim)
    ensures forall m :: Chosen(claims + [c], m) <==> Chosen(claims, m) || m == c.metric
  {
    forall m
      ensures Chosen(claims + [c], m) <==> Chosen(claims, m) || m == c.metric
    {
      var all := claims + [c];
      if Chosen(claims, m) {
        var i :| 0 <= i < |claims| && claims[i].metric == m;
        assert all[i].metric == m;
      }
      assert all[|claims|] == c;
    }
  }

  /** Nothing is chosen exactly when no candidate's phrase stands anywhere in the question. */
  lemma NothingChosenMeansNothingStands(q: string, cands: seq<Candidate>)
    ensures MetricsOf(Claims(q, cands)) == [] <==>
            forall c, at: nat | c in cands && c.phrase != "" && at < |q| :: !WholeWord(q, c.phrase, at)
  {
    hide Claims, WholeWord;
    var claims := Claims(q, cands);
    ClaimsAreRight(q, cands);
    if claims != [] {
      var c := Candidate(claims[0].metric, claims[0].phrase);
      assert c in cands && WholeWord(q, c.phrase, claims[0].at);
      WholeWordInside(q, c.phrase, claims[0].at);
    }
  }

  lemma WholeWordInside(q: string, phrase: string, at: nat)
    requires WholeWord(q, phrase, at) && phrase != ""
    ensures at < |q|
  {
  }
}
