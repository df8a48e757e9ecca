/** How many of the answers given were approved when they were given: the trail of answers is held against
  * the ledger, hash by hash.
  */
module Attest {
  import opened Basics
  import opened Registry
  import opened History

  // One row of the trail; time is None when the stored timestamp cannot be read.
  datatype Answer = Answer(hash: string, time: Option<int>)

  // A hash by the ledger: its signature, and since when it counts as approved.
  datatype Account = Account(signedBy: string, signedAt: Option<int>, promoted: bool, approvedAt: Option<int>)

  datatype Attestation = Attestation(hash: string, answers: nat, account: Account, beforeApproval: nat)

  datatype Provenance = Provenance(answers: int, approved: int, beforeApproval: int, registry: bool)

  const UNKNOWN := Account("", None, false, None)

  // ---------------------------------------------------------------- what is to be computed

  function CountIf(trail: seq<Answer>, p: Answer -> bool): (n: nat)
    ensures n <= |trail|
  {
    if trail == [] then 0 else CountIf(trail[..|trail| - 1], p) + if p(trail[|trail| - 1]) then 1 else 0
  }

  predicate ActivatedBy(entries: seq<Entry>, hash: string, time: int) {
    exists i :: 0 <= i < |entries| && IsActivation(entries[i]) && entries[i].toHash == hash && entries[i].at <= time
  }

  /** The answer's own bytes had gone live by the time it was given. */
  predicate ApprovedWhenGiven(entries: seq<Entry>, a: Answer) {
    a.hash != "" && a.time.Some? && ActivatedBy(entries, a.hash, a.time.value)
  }

  predicate EverActivated(entries: seq<Entry>, hash: string) {
    hash != "" && exists i :: 0 <= i < |entries| && IsActivation(entries[i]) && entries[i].toHash == hash
  }

  /** The answer's own bytes went live some time, but had not when it was given, as far as can be shown. */
  predicate ApprovedTooLate(entries: seq<Entry>, a: Answer) {
    EverActivated(entries, a.hash) && !ApprovedWhenGiven(entries, a)
  }

  function Late(entries: seq<Entry>): Answer -> bool {
    (a: Answer) => ApprovedTooLate(entries, a)
  }

  function LateWith(hash: string, entries: seq<Entry>): Answer -> bool {
    (a: Answer) => a.hash == hash && ApprovedTooLate(entries, a)
  }

  function LateAmong(hashes: seq<string>, entries: seq<Entry>): Answer -> bool {
    (a: Answer) => a.hash in hashes && ApprovedTooLate(entries, a)
  }

  function Approved(entries: seq<Entry>): Answer -> bool {
    (a: Answer) => ApprovedWhenGiven(entries, a)
  }

  function WithHash(hash: string): Answer -> bool {
    (a: Answer) => a.hash == hash
  }

  function ApprovedWith(hash: string, entries: seq<Entry>): Answer -> bool {
    (a: Answer) => a.hash == hash && ApprovedWhenGiven(entries, a)
  }

  function Among(hashes: seq<string>): Answer -> bool {
    (a: Answer) => a.hash in hashes
  }

  function ApprovedAmong(hashes: seq<string>, entries: seq<Entry>): Answer -> bool {
    (a: Answer) => a.hash in hashes && ApprovedWhenGiven(entries, a)
  }

  // ---------------------------------------------------------------- the ledger, one hash at a time

  function Fold(acc: Account, e: Entry): Account {
    match e.act
    case Sign => acc.(signedBy := e.who, signedAt := Some(e.at))
    case Promote => Activated(acc, e)
    case Rollback => Activated(acc, e)
    case Other(_) => acc
  }

  function Activated(acc: Account, e: Entry): Account {
    var signed := if acc.signedBy == "" then acc.(signedBy := e.who, signedAt := Some(e.at)) else acc;
    signed.(promoted := true,
            approvedAt := if acc.approvedAt.None? || e.at < acc.approvedAt.value then Some(e.at) else acc.approvedAt)
  }

  function AccountOf(entries: seq<Entry>, hash: string): Account {
    if entries == [] || hash == "" then UNKNOWN
    else
      var e, before := entries[|entries| - 1], AccountOf(entries[..|entries| - 1], hash);
      if e.toHash == hash then Fold(before, e) else before
  }

  /** A model is promoted when some activation names it, and approved since the first one that does. */
  lemma {:induction false} AccountIsFirstActivation(entries: seq<Entry>, hash: string)
    requires hash != ""
    ensures var acc := AccountOf(entries, hash);
            && acc.promoted == acc.approvedAt.Some? == EverActivated(entries, hash)
            && forall time :: ActivatedBy(entries, hash, time) <==> acc.promoted && acc.approvedAt.value <= time
  {
    if entries != [] {
      var n := |entries| - 1;
      var before, e := entries[..n], entries[n];
      AccountIsFirstActivation(before, hash);
      forall time
        ensures ActivatedBy(entries, hash, time) <==>
                ActivatedBy(before, hash, time) || (IsActivation(e) && e.toHash == hash && e.at <= time)
      {
        if ActivatedBy(before, hash, time) {
          var i :| 0 <= i < n && IsActivation(before[i]) && before[i].toHash == hash && before[i].at <= time;
          assert entries[i] == before[i];
        }
        if i :| 0 <= i < |entries| && IsActivation(entries[i]) && entries[i].toHash == hash && entries[i].at <= time {
          assert i < n ==> before[i] == entries[i];
        }
      }
      OneMoreActivates(before, e, hash);
    }
  }

  lemma OneMoreActivates(before: seq<Entry>, e: Entry, hash: string)
    requires hash != ""
    ensures EverActivated(before + [e], hash) <==> EverActivated(before, hash) || (IsActivation(e) && e.toHash == hash)
  {
    var all, n := before + [e], |before|;
    if i :| 0 <= i < n && IsActivation(before[i]) && before[i].toHash == hash {
      assert all[i] == before[i];
    }
    if i :| 0 <= i < |all| && IsActivation(all[i]) && all[i].toHash == hash {
      assert i < n ==> before[i] == all[i];
    }
    assert all[n] == e;
  }

  // A line by which somebody answers for the hash.
  predicate Speaks(e: Entry, hash: string) {
    e.toHash == hash && !e.act.Other?
  }

  /** Line i is whose signature the hash bears: no signature came later, an activation before or after it does not
    * stand against a name, and an activation counts only where the signatures before it bear none.
    */
  ghost predicate Stands(entries: seq<Entry>, hash: string, i: nat) {
    && i < |entries| && Speaks(entries[i], hash)
    && (forall j | i < j < |entries| && Speaks(entries[j], hash) :: entries[i].who != "" && entries[j].act != Sign)
    && (entries[i].act != Sign ==>
          forall j | 0 <= j < i && Speaks(entries[j], hash) && entries[j].who != "" ::
            SignedBetween(entries, hash, j, i))
  }

  ghost predicate SignedBetween(entries: seq<Entry>, hash: string, j: int, i: int) {
    exists k :: j < k < i < |entries| && 0 <= k && Speaks(entries[k], hash) && entries[k].act == Sign
  }

  /** An account bears the name and the time of the line that stands, and nobody's if no line speaks for the hash. */
  lemma {:induction false} AccountBearsSignature(entries: seq<Entry>, hash: string) returns (i: int)
    requires hash != ""
    ensures var acc := AccountOf(entries, hash);
            if i < 0 then acc == UNKNOWN && forall j | 0 <= j < |entries| :: !Speaks(entries[j], hash)
            else Stands(entries, hash, i) && acc.signedBy == entries[i].who && acc.signedAt == Some(entries[i].at)
    decreases |entries|
  {
    i := -1;
    if entries != [] {
      var n := |entries| - 1;
      var before, e := entries[..n], entries[n];
      i := AccountBearsSignature(before, hash);
      if Speaks(e, hash) && (i < 0 || e.act == Sign || before[i].who == "") {
        if i >= 0 && e.act != Sign {
          NoNameStands(entries, hash, i);
        }
        i := n;
      } else if i >= 0 {
        StandsLonger(before, e, hash, i);
        assert before + [e] == entries;
      }
    }
  }

  // Where a line without a name stands, each name was signed over.
  lemma NoNameStands(entries: seq<Entry>, hash: string, i: nat)
    requires entries != [] && Stands(entries[..|entries| - 1], hash, i) && entries[i].who == ""
    ensures forall j | 0 <= j < |entries| - 1 && Speaks(entries[j], hash) && entries[j].who != "" ::
              SignedBetween(entries, hash, j, |entries| - 1)
  {
    var n := |entries| - 1;
    var before := entries[..n];
    forall j | 0 <= j < n && Speaks(entries[j], hash) && entries[j].who != ""
      ensures SignedBetween(entries, hash, j, n)
    {
      assert before[j] == entries[j];
      if before[i].act != Sign {
        assert SignedBetween(before, hash, j, i);
        var k :| j < k < i && 0 <= k && Speaks(before[k], hash) && before[k].act == Sign;
        assert entries[k] == before[k];
      } else {
        assert entries[i] == before[i];
      }
    }
  }

  lemma StandsLonger(before: seq<Entry>, e: Entry, hash: string, i: nat)
    requires Stands(before, hash, i) && (Speaks(e, hash) ==> e.act != Sign && before[i].who != "")
    ensures Stands(before + [e], hash, i)
  {
    var all := before + [e];
    if before[i].act != Sign {
      forall j | 0 <= j < i && Speaks(all[j], hash) && all[j].who != ""
        ensures SignedBetween(all, hash, j, i)
      {
        assert SignedBetween(before, hash, j, i);
        var k :| j < k < i && 0 <= k && Speaks(before[k], hash) && before[k].act == Sign;
        assert all[k] == before[k];
      }
    }
  }

  // ---------------------------------------------------------------- the join

  predicate Before(a: Answer, approvedAt: int) {
    a.time.None? || a.time.value < approvedAt
  }

  function TooEarly(approvedAt: int): Answer -> bool {
    (a: Answer) => Before(a, approvedAt)
  }

  method CountBefore(times: seq<Answer>, approvedAt: int) returns (n: nat)
    ensures n == CountIf(times, TooEarly(approvedAt))
  {
    n := 0;
    for i := 0 to |times|
      invariant n == CountIf(times[..i], TooEarly(approvedAt))
    {
      assert times[..i + 1][..i] == times[..i];
      if Before(times[i], approvedAt) {
        n := n + 1;
      }
    }
    assert times[..|times|] == times;
  }

  function OfHash(trail: seq<Answer>, hash: string): (r: seq<Answer>) {
    if trail == [] then []
    else
      var rest := OfHash(trail[..|trail| - 1], hash);
      if trail[|trail| - 1].hash == hash then rest + [trail[|trail| - 1]] else rest
  }

  lemma OneMoreOfHash(trail: seq<Answer>, i: nat)
    requires i < |trail|
    ensures forall h :: OfHash(trail[..i + 1], h) ==
                        OfHash(trail[..i], h) + if trail[i].hash == h then [trail[i]] else []
  {
    assert trail[..i + 1][..i] == trail[..i];
  }

  lemma NoneOfHash(trail: seq<Answer>)
    requires trail == []
    ensures forall h :: OfHash(trail, h) == []
  {
  }

  method GroupTrail(trail: seq<Answer>) returns (rows: map<string, seq<Answer>>)
    ensures forall h :: h in rows <==> exists i :: 0 <= i < |trail| && trail[i].hash == h
    ensures forall h | h in rows :: rows[h] == OfHash(trail, h)
    ensures forall h :: h !in rows ==> OfHash(trail, h) == []
  {
    hide OfHash;
    rows := map[];
    assert forall h :: OfHash(trail[..0], h) == [] by {
      NoneOfHash(trail[..0]);
    }
    for i := 0 to |trail|
      invariant forall h :: h in rows <==> exists j :: 0 <= j < i && trail[j].hash == h
      invariant forall h | h in rows :: rows[h] == OfHash(trail[..i], h)
      invariant forall h :: h !in rows ==> OfHash(trail[..i], h) == []
    {
      var a := trail[i];
      OneMoreOfHash(trail, i);
      rows := rows[a.hash := (if a.hash in rows then rows[a.hash] else []) + [a]];
    }
    assert trail[..|trail|] == trail;
  }

  method ReadLedger(entries: seq<Entry>) returns (signed: map<string, Account>)
    ensures forall h :: AccountOf(entries, h) == if h in signed then signed[h] else UNKNOWN
  {
    signed := map[];
    for i := 0 to |entries|
      invariant "" !in signed
      invariant forall h :: AccountOf(entries[..i], h) == if h in signed then signed[h] else UNKNOWN
    {
      var e := entries[i];
      assert entries[..i + 1][..i] == entries[..i];
      if e.toHash == "" {
        continue;
      }
      signed := signed[e.toHash := Fold(if e.toHash in signed then signed[e.toHash] else UNKNOWN, e)];
    }
    assert entries[..|entries|] == entries;
  }

  function HashesOf(out: seq<Attestation>): seq<string> {
    seq(|out|, i requires 0 <= i < |out| => out[i].hash)
  }

  predicate DistinctHashes(out: seq<Attestation>) {
    forall i, j | 0 <= i < j < |out| :: out[i].hash != out[j].hash
  }

  // The attestation of one hash, as the trail and the ledger determine it.
  predicate Attested(trail: seq<Answer>, entries: seq<Entry>, a: Attestation) {
    var acc := AccountOf(entries, a.hash);
    && a.account == acc
    && a.answers == |OfHash(trail, a.hash)|
    && a.beforeApproval ==
       if acc.promoted && acc.approvedAt.Some?
       then CountIf(OfHash(trail, a.hash), TooEarly(acc.approvedAt.value)) else 0
  }

  /** For each hash in the trail its answers, its signature and the answers given before it was approved. */
  method AttestAll(trail: seq<Answer>, entries: seq<Entry>) returns (out: seq<Attestation>)
    ensures DistinctHashes(out)
    ensures forall i | 0 <= i < |out| :: Attested(trail, entries, out[i])
    ensures forall h :: h in HashesOf(out) <==> exists i :: 0 <= i < |trail| && trail[i].hash == h
  {
    var rows := GroupTrail(trail);
    var signed := ReadLedger(entries);
    out := [];
    var todo := rows.Keys;
    while todo != {}
      invariant todo <= rows.Keys
      invariant DistinctHashes(out)
      invariant forall i | 0 <= i < |out| :: out[i].hash !in todo && Attested(trail, entries, out[i])
      invariant forall h :: h in HashesOf(out) <==> h in rows.Keys - todo
      decreases todo
    {
      var h :| h in todo;
      var acc := if h in signed then signed[h] else UNKNOWN;
      var before := 0;
      if acc.promoted && acc.approvedAt.Some? {
        before := CountBefore(rows[h], acc.approvedAt.value);
      }
      ghost var was := out;
      out := out + [Attestation(h, |rows[h]|, acc, before)];
      todo := todo - {h};
      assert HashesOf(out) == HashesOf(was) + [h];
    }
  }

  // ---------------------------------------------------------------- totals

  function SumAnswers(out: seq<Attestation>): int {
    if out == [] then 0 else SumAnswers(out[..|out| - 1]) + out[|out| - 1].answers
  }

  function ApprovedOf(a: Attestation): int {
    if a.account.promoted then a.answers - a.beforeApproval else 0
  }

  function SumApproved(out: seq<Attestation>): int {
    if out == [] then 0 else SumApproved(out[..|out| - 1]) + ApprovedOf(out[|out| - 1])
  }

  function BeforeOf(a: Attestation): int {
    if a.account.promoted then a.beforeApproval else 0
  }

  function SumBefore(out: seq<Attestation>): int {
    if out == [] then 0 else SumBefore(out[..|out| - 1]) + BeforeOf(out[|out| - 1])
  }

  method Total(models: seq<Attestation>) returns (p: Provenance)
    ensures p.answers == SumAnswers(models) && p.approved == SumApproved(models)
    ensures p.beforeApproval == SumBefore(models)
    ensures p.registry <==> exists i :: 0 <= i < |models| && models[i].account.promoted
  {
    p := Provenance(0, 0, 0, false);
    for i := 0 to |models|
      invariant p.answers == SumAnswers(models[..i]) && p.approved == SumApproved(models[..i])
      invariant p.beforeApproval == SumBefore(models[..i])
      invariant p.registry <==> exists j :: 0 <= j < i && models[j].account.promoted
    {
      var m := models[i];
      assert models[..i + 1][..i] == models[..i];
      p := p.(answers := p.answers + m.answers);
      if m.account.promoted {
        p := p.(approved := p.approved + (m.answers - m.beforeApproval),
                beforeApproval := p.beforeApproval + m.beforeApproval, registry := true);
      }
    }
    assert models[..|models|] == models;
  }

  // Counting a union of disjoint kinds of rows is adding.
  lemma {:induction false} CountDisjoint(trail: seq<Answer>, p: Answer -> bool, q: Answer -> bool, r: Answer -> bool)
    requires forall i | 0 <= i < |trail| ::
               !(p(trail[i]) && q(trail[i])) && (r(trail[i]) <==> p(trail[i]) || q(trail[i]))
    ensures CountIf(trail, r) == CountIf(trail, p) + CountIf(trail, q)
  {
    if trail != [] {
      CountDisjoint(trail[..|trail| - 1], p, q, r);
    }
  }

  lemma {:induction false} CountAll(trail: seq<Answer>, p: Answer -> bool)
    ensures (forall i | 0 <= i < |trail| :: p(trail[i])) ==> CountIf(trail, p) == |trail|
    ensures (forall i | 0 <= i < |trail| :: !p(trail[i])) ==> CountIf(trail, p) == 0
  {
    if trail != [] {
      CountAll(trail[..|trail| - 1], p);
    }
  }

  lemma {:induction false} CountSame(trail: seq<Answer>, p: Answer -> bool, q: Answer -> bool)
    requires forall i | 0 <= i < |trail| :: p(trail[i]) == q(trail[i])
    ensures CountIf(trail, p) == CountIf(trail, q)
  {
    if trail != [] {
      CountSame(trail[..|trail| - 1], p, q);
    }
  }

  // One model's approved answers are its rows that were approved when given.
  lemma {:induction false} ApprovedPerHash(trail: seq<Answer>, entries: seq<Entry>, h: string)
    ensures |OfHash(trail, h)| == CountIf(trail, WithHash(h))
    ensures var acc := AccountOf(entries, h);
            acc.promoted ==>
              && acc.approvedAt.Some?
              && |OfHash(trail, h)| - CountIf(OfHash(trail, h), TooEarly(acc.approvedAt.value))
                 == CountIf(trail, ApprovedWith(h, entries))
    ensures !AccountOf(entries, h).promoted ==>
              CountIf(trail, ApprovedWith(h, entries)) == 0
    ensures var acc := AccountOf(entries, h);
            CountIf(trail, LateWith(h, entries)) ==
            if acc.promoted then CountIf(OfHash(trail, h), TooEarly(acc.approvedAt.value)) else 0
  {
    if h != "" {
      AccountIsFirstActivation(entries, h);
    }
    if trail != [] {
      ApprovedPerHash(trail[..|trail| - 1], entries, h);
      var a, rest := trail[|trail| - 1], OfHash(trail[..|trail| - 1], h);
      assert (rest + [a])[..|rest|] == rest;
    }
  }

  lemma {:induction false} SumsCountRows(trail: seq<Answer>, entries: seq<Entry>, out: seq<Attestation>)
    requires DistinctHashes(out) && forall i | 0 <= i < |out| :: Attested(trail, entries, out[i])
    ensures SumAnswers(out) == CountIf(trail, Among(HashesOf(out)))
    ensures SumApproved(out) == CountIf(trail, ApprovedAmong(HashesOf(out), entries))
    ensures SumBefore(out) == CountIf(trail, LateAmong(HashesOf(out), entries))
  {
    if out == [] {
      CountAll(trail, Among(HashesOf(out)));
      CountAll(trail, ApprovedAmong(HashesOf(out), entries));
      CountAll(trail, LateAmong(HashesOf(out), entries));
    } else {
      var n := |out| - 1;
      var m, before := out[n], out[..n];
      SumsCountRows(trail, entries, before);
      ApprovedPerHash(trail, entries, m.hash);
      assert HashesOf(out) == HashesOf(before) + [m.hash];
      assert m.hash !in HashesOf(before);
      CountDisjoint(trail, Among(HashesOf(before)), WithHash(m.hash), Among(HashesOf(out)));
      CountDisjoint(trail, ApprovedAmong(HashesOf(before), entries),
                    ApprovedWith(m.hash, entries),
                    ApprovedAmong(HashesOf(out), entries));
      CountDisjoint(trail, LateAmong(HashesOf(before), entries), LateWith(m.hash, entries),
                    LateAmong(HashesOf(out), entries));
    }
  }

  // What a query returns: no more rows than the warehouse's cap, and nothing said about the rest.
  function Returned<T>(rows: seq<T>, maxRows: nat): seq<T> {
    rows[..Min(maxRows, |rows|)]
  }

  /** Main result: the report accounts for every answer that is returned of the trail, and counts as approved
    * exactly those with a readable time whose own bytes had been activated by then, and as approved too late the
    * others whose bytes were ever activated, as far as the ledger is returned.
    */
  method Provenances(audit: seq<Answer>, ledger: seq<Entry>, maxRows: nat) returns (p: Provenance)
    ensures p.answers == |Returned(audit, maxRows)|
    ensures p.approved == CountIf(Returned(audit, maxRows), Approved(Returned(ledger, maxRows)))
    ensures p.beforeApproval == CountIf(Returned(audit, maxRows), Late(Returned(ledger, maxRows)))
    ensures p.registry <==>
              exists a :: a in Returned(audit, maxRows) && EverActivated(Returned(ledger, maxRows), a.hash)
  {
    var trail, entries := Returned(audit, maxRows), Returned(ledger, maxRows);
    var models := AttestAll(trail, entries);
    p := Total(models);
    SumsCountRows(trail, entries, models);
    CountAll(trail, Among(HashesOf(models)));
    CountSame(trail, ApprovedAmong(HashesOf(models), entries), Approved(entries));
    CountSame(trail, LateAmong(HashesOf(models), entries), Late(entries));
    InUse(trail, entries, models);
  }

  // The registry is in use when it has activated a model that answered.
  lemma InUse(trail: seq<Answer>, entries: seq<Entry>, models: seq<Attestation>)
    requires forall i | 0 <= i < |models| :: Attested(trail, entries, models[i])
    requires forall h :: h in HashesOf(models) <==> exists i :: 0 <= i < |trail| && trail[i].hash == h
    ensures (exists i :: 0 <= i < |models| && models[i].account.promoted) <==>
            exists a :: a in trail && EverActivated(entries, a.hash)
  {
    forall i | 0 <= i < |models|
      ensures models[i].account.promoted <==> EverActivated(entries, models[i].hash)
      ensures HashesOf(models)[i] == models[i].hash
    {
      if models[i].hash != "" {
        AccountIsFirstActivation(entries, models[i].hash);
      }
    }
    if i :| 0 <= i < |models| && models[i].account.promoted {
      assert models[i].hash in HashesOf(models);
      var k :| 0 <= k < |trail| && trail[k].hash == models[i].hash;
      assert trail[k] in trail;
    }
    if a :| a in trail && EverActivated(entries, a.hash) {
      assert a.hash in HashesOf(models);
      var i :| 0 <= i < |models| && HashesOf(models)[i] == a.hash;
    }
  }

  // The counts of a report, by what is returned, are those of the tables.
  predicate Whole(audit: seq<Answer>, ledger: seq<Entry>, maxRows: nat) {
    && |Returned(audit, maxRows)| == |audit|
    && CountIf(Returned(audit, maxRows), Approved(Returned(ledger, maxRows))) == CountIf(audit, Approved(ledger))
    && CountIf(Returned(audit, maxRows), Late(Returned(ledger, maxRows))) == CountIf(audit, Late(ledger))
  }

  // The ledger is read in the order of its times.
  predicate InTime(ledger: seq<Entry>) {
    forall i, j | 0 <= i < j < |ledger| :: ledger[i].at <= ledger[j].at
  }

  ghost predicate AlwaysWhole(n: nat, k: nat, maxRows: nat) {
    forall audit, ledger | |audit| <= n && |ledger| <= k && InTime(ledger) :: Whole(audit, ledger, maxRows)
  }

  /** Main result: for every trail of at most n answers and every ledger of at most k lines the report is that of
    * the tables if and only if the cap cuts neither.
    */
  lemma WholeExactly(n: nat, k: nat, maxRows: nat)
    ensures AlwaysWhole(n, k, maxRows) <==> n <= maxRows && (n == 0 || k <= maxRows)
  {
    if n > maxRows {
      var audit := seq(n, i => Answer("", None));
      assert InTime([]) && !Whole(audit, [], maxRows);
    } else if n > 0 && k > maxRows {
      LateActivationIsCut(maxRows);
      assert !Whole([Answer("h", Some(maxRows))], LateActivation(maxRows), maxRows);
    } else {
      forall audit, ledger: seq<Entry> | |audit| <= n && |ledger| <= k && InTime(ledger)
        ensures Whole(audit, ledger, maxRows)
      {
        assert Returned(audit, maxRows) == audit;
        assert audit == [] || Returned(ledger, maxRows) == ledger;
      }
    }
  }

  // So many signatures, and then the activation.
  function LateActivation(n: nat): seq<Entry> {
    seq(n, i => Entry(i, Sign, "m", "w", "", "h")) + [Entry(n, Promote, "m", "w", "", "h")]
  }

  lemma LateActivationIsCut(maxRows: nat)
    requires maxRows > 0
    ensures InTime(LateActivation(maxRows)) && |LateActivation(maxRows)| == maxRows + 1
    ensures !Whole([Answer("h", Some(maxRows))], LateActivation(maxRows), maxRows)
  {
    var audit, ledger := [Answer("h", Some(maxRows))], LateActivation(maxRows);
    assert Returned(audit, maxRows) == audit && audit[..0] == [];
    var cut := Returned(ledger, maxRows);
    assert forall i | 0 <= i < |cut| :: cut[i].act == Sign;
    assert !ActivatedBy(cut, "h", maxRows);
    assert IsActivation(ledger[maxRows]) && ledger[maxRows].toHash == "h" && ledger[maxRows].at <= maxRows;
    assert ActivatedBy(ledger, "h", maxRows);
    assert CountIf(audit, Approved(cut)) == CountIf([], Approved(cut));
    assert CountIf(audit, Approved(ledger)) == CountIf([], Approved(ledger)) + 1;
  }

  lemma LaterLinesDoNotActivate(entries: seq<Entry>, more: seq<Entry>, hash: string, time: int)
    requires forall i | 0 <= i < |more| :: more[i].at > time
    ensures ActivatedBy(entries + more, hash, time) == ActivatedBy(entries, hash, time)
  {
    var all := entries + more;
    if i :| 0 <= i < |entries| && IsActivation(entries[i]) && entries[i].toHash == hash && entries[i].at <= time {
      assert all[i] == entries[i];
    }
    if i :| 0 <= i < |all| && IsActivation(all[i]) && all[i].toHash == hash && all[i].at <= time {
      assert all[i] == if i < |entries| then entries[i] else more[i - |entries|];
    }
  }

  // Activations dated after an answer never make it approved.
  lemma LaterActivationsDoNotApprove(entries: seq<Entry>, more: seq<Entry>, trail: seq<Answer>)
    requires forall i, j | 0 <= i < |more| && 0 <= j < |trail| && trail[j].time.Some? ::
               more[i].at > trail[j].time.value
    ensures CountIf(trail, Approved(entries + more)) == CountIf(trail, Approved(entries))
  {
    forall j | 0 <= j < |trail|
      ensures ApprovedWhenGiven(entries + more, trail[j]) == ApprovedWhenGiven(entries, trail[j])
    {
      if trail[j].time.Some? {
        LaterLinesDoNotActivate(entries, more, trail[j].hash, trail[j].time.value);
      }
    }
    CountSame(trail, Approved(entries + more), Approved(entries));
  }
}
