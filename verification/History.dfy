/** The change ledger as a history: which line rests on which, and what the lines say about the
  * registry that wrote them.
  */
module History {
  import opened Basics
  import opened Registry
  import Operations

  predicate IsActivation(e: Entry) {
    e.act == Promote || e.act == Rollback
  }

  // The questions the mirror asks of the ledger.
  datatype Query =
    | SignOf(name: string, hash: string)
    | ActivationOf(hash: string)
    | AnyActivation
    | Line(act: Act, name: string, hash: string)

  predicate Matches(q: Query, e: Entry) {
    match q
    case SignOf(name, hash) => e.act == Sign && e.name == name && e.toHash == hash
    case ActivationOf(hash) => IsActivation(e) && e.toHash == hash
    case AnyActivation => IsActivation(e)
    case Line(act, name, hash) => e.act == act && e.name == name && e.toHash == hash
  }

  // skip == |entries| stands for "skip nothing".
  predicate Eligible(entries: seq<Entry>, skip: nat, q: Query, j: int) {
    && 0 <= j < |entries|
    && j != skip
    && Matches(q, entries[j])
    && (skip < |entries| ==> entries[j].at <= entries[skip].at)
  }

  // Later in the ledger's order: by timestamp, then by position.
  predicate NoLater(entries: seq<Entry>, j: int, k: int)
    requires 0 <= j < |entries| && 0 <= k < |entries|
  {
    entries[j].at < entries[k].at || (entries[j].at == entries[k].at && j <= k)
  }

  /** `best` is the newest eligible line, or -1 when there is none. */
  ghost predicate IsLatest(entries: seq<Entry>, skip: nat, q: Query, best: int) {
    if best == -1 then forall j | 0 <= j < |entries| :: !Eligible(entries, skip, q, j)
    else
      && Eligible(entries, skip, q, best)
      && forall j | 0 <= j < |entries| && Eligible(entries, skip, q, j) :: NoLater(entries, j, best)
  }

  lemma LatestIsUnique(entries: seq<Entry>, skip: nat, q: Query, a: int, b: int)
    requires IsLatest(entries, skip, q, a) && IsLatest(entries, skip, q, b)
    ensures a == b
  {
  }

  // The newest eligible line among the first n.
  function LatestAmong(entries: seq<Entry>, skip: nat, q: Query, n: nat): (best: int)
    requires n <= |entries|
    ensures -1 <= best < n
    ensures best == -1 ==> forall j | 0 <= j < n :: !Eligible(entries, skip, q, j)
    ensures best >= 0 ==> Eligible(entries, skip, q, best)
    ensures best >= 0 ==>
              forall j | 0 <= j < n && Eligible(entries, skip, q, j) :: NoLater(entries, j, best)
  {
    if n == 0 then -1
    else
      var best := LatestAmong(entries, skip, q, n - 1);
      if Eligible(entries, skip, q, n - 1) && (best < 0 || entries[best].at <= entries[n - 1].at)
      then n - 1 else best
  }

  function LatestOf(entries: seq<Entry>, skip: nat, q: Query): (best: int)
    ensures -1 <= best < |entries|
    ensures IsLatest(entries, skip, q, best)
  {
    LatestAmong(entries, skip, q, |entries|)
  }

  method Latest(entries: seq<Entry>, skip: nat, q: Query) returns (best: int)
    ensures -1 <= best < |entries|
    ensures IsLatest(entries, skip, q, best)
    ensures best == LatestOf(entries, skip, q)
    ensures best >= 0 ==>
              best != skip && Matches(q, entries[best]) && (skip < |entries| ==> entries[best].at <= entries[skip].at)
    ensures forall j | 0 <= j < |entries| && j != skip && Matches(q, entries[j])
                       && (skip < |entries| ==> entries[j].at <= entries[skip].at) ::
              best >= 0 && (entries[j].at < entries[best].at || (entries[j].at == entries[best].at && j <= best))
  {
    best := -1;
    for j := 0 to |entries|
      invariant best == LatestAmong(entries, skip, q, j)
    {
      var x := entries[j];
      if j == skip || !Matches(q, x) {
        continue;
      }
      if skip < |entries| && x.at > entries[skip].at {
        continue;
      }
      if best < 0 || entries[best].at <= x.at {
        best := j;
      }
    }
    LatestMeans(entries, skip, q, best);
  }

  lemma LatestMeans(entries: seq<Entry>, skip: nat, q: Query, best: int)
    requires -1 <= best < |entries| && IsLatest(entries, skip, q, best)
    ensures best >= 0 ==>
              best != skip && Matches(q, entries[best]) && (skip < |entries| ==> entries[best].at <= entries[skip].at)
    ensures forall j | 0 <= j < |entries| && j != skip && Matches(q, entries[j])
                       && (skip < |entries| ==> entries[j].at <= entries[skip].at) ::
              best >= 0 && (entries[j].at < entries[best].at || (entries[j].at == entries[best].at && j <= best))
  {
    forall j | 0 <= j < |entries| && j != skip && Matches(q, entries[j])
               && (skip < |entries| ==> entries[j].at <= entries[skip].at)
      ensures best >= 0 && (entries[j].at < entries[best].at || (entries[j].at == entries[best].at && j <= best))
    {
      assert Eligible(entries, skip, q, j);
    }
  }

  // ---------------------------------------------------------------- what each line points at

  function BasedOn(entries: seq<Entry>, i: nat): (j: int)
    requires i < |entries|
    ensures -1 <= j < |entries|
  {
    if IsActivation(entries[i]) then LatestOf(entries, i, SignOf(entries[i].name, entries[i].toHash)) else -1
  }

  function Supersedes(entries: seq<Entry>, i: nat): (j: int)
    requires i < |entries|
    ensures -1 <= j < |entries|
  {
    var e := entries[i];
    if e.act == Promote && e.fromHash != "" then LatestOf(entries, i, ActivationOf(e.fromHash))
    else if e.act == Rollback then LatestOf(entries, i, AnyActivation)
    else -1
  }

  ghost predicate Strict(entries: seq<Entry>) {
    forall i, j | 0 <= i < j < |entries| :: entries[i].at < entries[j].at
  }

  // With distinct timestamps a line only ever points at earlier lines.
  lemma PointsBackwards(entries: seq<Entry>, i: nat)
    requires Strict(entries) && i < |entries|
    ensures BasedOn(entries, i) < i && Supersedes(entries, i) < i
  {
  }

  // The last activation line, or -1.
  function LastActivation(entries: seq<Entry>): (j: int)
    ensures -1 <= j < |entries|
    ensures j >= 0 ==> IsActivation(entries[j])
    ensures forall k | j < k < |entries| :: !IsActivation(entries[k])
  {
    if entries == [] then -1
    else if IsActivation(entries[|entries| - 1]) then |entries| - 1
    else LastActivation(entries[..|entries| - 1])
  }

  // ---------------------------------------------------------------- the ledger tells the truth

  ghost predicate HasSign(entries: seq<Entry>, name: string, hash: string) {
    exists j :: 0 <= j < |entries| && Matches(SignOf(name, hash), entries[j])
  }

  /** What line i records is what the lines before it account for: an activation was signed for, a
    * promotion replaces the model that the previous activation put in force, and a rollback goes back
    * from some activation.
    */
  ghost predicate Accounted(entries: seq<Entry>, i: nat)
    requires i < |entries|
  {
    var e, before := entries[i], entries[..i];
    var last := LastActivation(before);
    && e.toHash != "" && !e.act.Other?
    && (IsActivation(e) ==> HasSign(before, e.name, e.toHash))
    && (e.act == Promote && e.fromHash != "" ==> last >= 0 && before[last].toHash == e.fromHash)
    && (e.act == Rollback ==> last >= 0)
  }

  ghost predicate AllAccounted(entries: seq<Entry>) {
    forall i | 0 <= i < |entries| :: Accounted(entries, i)
  }

  /** The link between the registry and its ledger: whoever is active is what the last activation line
    * names, whoever was ever active left an activation line, and whoever is signed left a sign line.
    */
  ghost predicate Recorded(s: Store) {
    var last := LastActivation(s.ledger);
    && AllAccounted(s.ledger)
    && (forall v | v in s.versions && v.signedHash != "" :: HasSign(s.ledger, v.name, v.signedHash))
    && (forall v | v in s.versions && (v.status == Active || v.status == Retired) :: last >= 0)
    && (forall v | v in s.versions && v.status == Active :: last >= 0 && s.ledger[last].toHash == v.hash)
  }

  lemma AppendKeepsAccounts(entries: seq<Entry>, e: Entry)
    requires AllAccounted(entries)
    ensures AllAccounted(entries + [e]) <==> Accounted(entries + [e], |entries|)
    ensures forall name, hash :: HasSign(entries, name, hash) ==> HasSign(entries + [e], name, hash)
    ensures LastActivation(entries + [e]) == if IsActivation(e) then |entries| else LastActivation(entries)
  {
    var all := entries + [e];
    assert all[..|entries|] == entries;
    forall i | 0 <= i < |entries|
      ensures Accounted(all, i)
    {
      assert all[..i] == entries[..i];
      assert Accounted(entries, i);
    }
    forall name, hash | HasSign(entries, name, hash)
      ensures HasSign(all, name, hash)
    {
      var j :| 0 <= j < |entries| && Matches(SignOf(name, hash), entries[j]);
      assert Matches(SignOf(name, hash), all[j]);
    }
  }

  // A save that invents neither a signature nor an activation.
  lemma SaveKeepsRecord(s: Store, v: Version)
    requires Recorded(s)
    requires v.signedHash != "" ==> HasSign(s.ledger, v.name, v.signedHash)
    requires v.status == Retired ==> LastActivation(s.ledger) >= 0
    requires v.status == Active ==>
               LastActivation(s.ledger) >= 0 && s.ledger[LastActivation(s.ledger)].toHash == v.hash
    ensures Recorded(Apply(s, Save(v)))
  {
    RemoveMembers(s.versions, v.name);
  }

  lemma {:induction false} DemotionsKeepRecord(s: Store, vs: seq<Version>, except: Option<string>)
    requires Recorded(s)
    requires forall v | v in vs && v.signedHash != "" :: HasSign(s.ledger, v.name, v.signedHash)
    ensures Recorded(Exec(s, Demotions(vs, except)))
    decreases |vs|
  {
    if vs != [] {
      var ws := Demotions(vs, except);
      if Demotable(vs[0], except) {
        var w := Save(Demoted(vs[0]));
        assert vs[0] in vs;
        SaveKeepsRecord(s, Demoted(vs[0]));
        DemotionsKeepRecord(Apply(s, w), vs[1..], except);
        assert ws == [w] + Demotions(vs[1..], except);
        assert ws[1..] == Demotions(vs[1..], except);
      } else {
        DemotionsKeepRecord(s, vs[1..], except);
        assert ws == Demotions(vs[1..], except);
      }
    }
  }

  // Activating a signed version when nothing is active, and writing the line.
  lemma ActivationKeepsRecord(s: Store, v: Version, act: Act, from: string, at: int)
    requires Recorded(s) && IsActivation(Entry(at, act, v.name, v.signedBy, from, v.signedHash))
    requires v.signedHash != "" && v.signedHash == v.hash && HasSign(s.ledger, v.name, v.signedHash)
    requires forall w | w in s.versions && w.status == Active :: w.name == v.name
    requires act == Promote && from != "" ==>
               LastActivation(s.ledger) >= 0 && s.ledger[LastActivation(s.ledger)].toHash == from
    requires act == Rollback ==> LastActivation(s.ledger) >= 0
    ensures Recorded(Exec(s, Activation(v, act, from, at)))
  {
    var ws := Activation(v, act, from, at);
    ExecTwo(s, ws[0], ws[1]);
    RemoveMembers(s.versions, v.name);
    var e := ws[1].entry;
    AppendKeepsAccounts(s.ledger, e);
    var all := s.ledger + [e];
    assert all[..|s.ledger|] == s.ledger;
    assert Accounted(all, |s.ledger|);
  }

  lemma PromoteKeepsRecord(s: Store, name: string, io: Env)
    requires Safe(s) && Recorded(s) && io.activeRead
    ensures Recorded(Exec(s, PromotePlan(s, name, io).writes))
  {
    var plan := PromotePlan(s, name, io);
    if plan.err.None? {
      var cand := Find(s.versions, name).value;
      assert SoundlySigned(cand);
      match ActiveSeen(s, io)
      case None => ActivationKeepsRecord(s, cand, Promote, "", io.at);
      case Some(prev) =>
        assert SoundlySigned(prev);
        var w := Save(prev.(status := Retired));
        SaveKeepsRecord(s, w.version);
        RemoveMembers(s.versions, prev.name);
        ActivationKeepsRecord(Apply(s, w), cand, Promote, prev.hash, io.at);
        ExecTwo(s, w, w);
        ExecAppend(s, [w], Activation(cand, Promote, prev.hash, io.at));
    }
  }

  lemma RollbackKeepsRecord(s: Store, io: Env)
    requires Safe(s) && Recorded(s) && io.activeRead
    ensures Recorded(Exec(s, RollbackPlan(s, io).writes))
  {
    var demote := Demotions(s.versions, None);
    DemotionsKeepRecord(s, s.versions, None);
    if ActiveSeen(Exec(s, demote), io).None? && FirstWith(s.versions, Retired).Some? {
      var v := FirstWith(s.versions, Retired).value;
      assert SoundlySigned(v);
      DemotedStore(s, None);
      ActivationKeepsRecord(Exec(s, demote), v, Rollback, "", io.at);
      ExecAppend(s, demote, Activation(v, Rollback, "", io.at));
    }
  }

  lemma CanaryKeepsRecord(s: Store, name: string, pct: int)
    requires Safe(s) && Recorded(s)
    ensures Recorded(Exec(s, CanaryPlan(s, name, pct).writes))
  {
    var demote := Demotions(s.versions, Some(name));
    DemotionsKeepRecord(s, s.versions, Some(name));
    if 0 <= pct <= 100 && Find(Exec(s, demote).versions, name).Some? {
      var v := Find(Exec(s, demote).versions, name).value;
      var w := Save(v.(status := Canary, canaryPct := pct));
      DemotedStore(s, Some(name));
      SaveKeepsRecord(Exec(s, demote), w.version);
      ExecTwo(Exec(s, demote), w, w);
      ExecAppend(s, demote, [w]);
    }
  }

  // The sign line lands right after the signature it records, so the two are taken together.
  lemma SignKeepsRecord(s: Store, name: string, readHash: string, who: string, io: Env)
    requires Safe(s) && Recorded(s)
    ensures Recorded(Exec(s, SignPlan(s, name, readHash, who, io).writes))
  {
    hide AllAccounted, HasSign, LastActivation, UniqueNames;
    var plan := SignPlan(s, name, readHash, who, io);
    if plan.err.None? {
      var v := Find(s.versions, name).value;
      var ws := plan.writes;
      ExecTwo(s, ws[0], ws[1]);
      RemoveMembers(s.versions, v.name);
      SignIsAccounted(s.ledger, ws[1].entry);
    }
  }

  lemma SignIsAccounted(entries: seq<Entry>, e: Entry)
    requires AllAccounted(entries) && e.act == Sign && e.toHash != ""
    ensures var all := entries + [e];
            && AllAccounted(all) && HasSign(all, e.name, e.toHash) && LastActivation(all) == LastActivation(entries)
            && (forall name, hash :: HasSign(entries, name, hash) ==> HasSign(all, name, hash))
  {
    var all := entries + [e];
    AppendKeepsAccounts(entries, e);
    assert Accounted(all, |entries|);
    assert Matches(SignOf(e.name, e.toHash), all[|entries|]);
  }

  lemma OperationKeepsRecord(s: Store, op: Op, io: Env)
    requires Safe(s) && Recorded(s) && io.activeRead
    ensures Recorded(Exec(s, PlanOf(s, op, io).writes))
  {
    match op
    case DoRegister(name, path) =>
      var plan := RegisterPlan(name, path, io);
      if plan.err.None? {
        ExecTwo(s, plan.writes[0], plan.writes[0]);
        SaveKeepsRecord(s, plan.writes[0].version);
      }
    case DoSign(name, readHash, who) => SignKeepsRecord(s, name, readHash, who, io);
    case DoCanary(name, pct) => CanaryKeepsRecord(s, name, pct);
    case DoPromote(name) => PromoteKeepsRecord(s, name, io);
    case DoRollback => RollbackKeepsRecord(s, io);
  }

  // ---------------------------------------------------------------- whole runs

  predicate WellFormed(e: Entry) {
    e.toHash != "" && !e.act.Other?
  }

  // Only the last write of an operation is a ledger line, and it is a well-formed one.
  ghost predicate Tidy(ws: seq<Write>, at: int) {
    forall i | 0 <= i < |ws| && ws[i].Append? ::
      i == |ws| - 1 && WellFormed(ws[i].entry) && ws[i].entry.at == at
  }

  ghost predicate GrowsBy(before: seq<Entry>, after: seq<Entry>, at: int) {
    || after == before
    || (exists e :: after == before + [e] && WellFormed(e) && e.at == at)
  }

  lemma {:induction false} DemotionsOnlySave(vs: seq<Version>, except: Option<string>)
    ensures forall i | 0 <= i < |Demotions(vs, except)| :: Demotions(vs, except)[i].Save?
  {
    if vs != [] {
      DemotionsOnlySave(vs[1..], except);
    }
  }

  lemma PlansAreTidy(s: Store, op: Op, io: Env)
    requires AllSound(s.versions)
    ensures Tidy(PlanOf(s, op, io).writes, io.at)
  {
    match op
    case DoRegister(name, path) =>
    case DoSign(name, readHash, who) =>
    case DoCanary(name, pct) => DemotionsOnlySave(s.versions, Some(name));
    case DoPromote(name) =>
    case DoRollback =>
      DemotionsOnlySave(s.versions, None);
      if FirstWith(s.versions, Retired).Some? {
        assert SoundlySigned(FirstWith(s.versions, Retired).value);
      }
  }

  lemma {:induction false} TidyGrowsLedger(s: Store, ws: seq<Write>, at: int)
    requires Tidy(ws, at)
    ensures GrowsBy(s.ledger, Exec(s, ws).ledger, at)
    decreases ws
  {
    if ws != [] {
      if ws[0].Append? {
        ExecTwo(s, ws[0], ws[0]);
        assert ws == [ws[0]];
      } else {
        TidyGrowsLedger(Apply(s, ws[0]), ws[1..], at);
      }
    }
  }

  // However many of its writes land, an operation adds at most one line, stamped with its own time.
  lemma StepGrowsLedger(s: Store, e: Event)
    requires AllSound(s.versions)
    ensures GrowsBy(s.ledger, Step(s, e).ledger, e.io.at)
  {
    PlansAreTidy(s, e.op, e.io);
    TidyGrowsLedger(s, Landed(s, e), e.io.at);
  }

  // Nothing fails: the active version can be read and every planned write lands.
  ghost predicate Undisturbed(events: seq<Event>) {
    forall i | 0 <= i < |events| ::
      && events[i].io.activeRead
      && |PlanOf(Run(EMPTY, events[..i]), events[i].op, events[i].io).writes| <= events[i].io.writesOk
  }

  ghost predicate ClockRuns(events: seq<Event>) {
    forall i, j | 0 <= i < j < |events| :: events[i].io.at < events[j].io.at
  }

  ghost predicate AllBy(entries: seq<Entry>, at: int) {
    forall i | 0 <= i < |entries| :: entries[i].at <= at
  }

  lemma GrowingKeepsOrder(before: seq<Entry>, after: seq<Entry>, at: int)
    requires GrowsBy(before, after, at) && Strict(before) && AllBy(before, at - 1)
    ensures Strict(after) && AllBy(after, at)
  {
  }

  /** Every run, crashes and lost reads included, keeps the ledger in strict order and every line well formed. */
  lemma {:induction false} LedgerStaysInOrder(events: seq<Event>)
    requires ClockRuns(events)
    ensures var entries := Run(EMPTY, events).ledger;
            && Strict(entries) && (forall e | e in entries :: WellFormed(e))
            && (if events == [] then entries == [] else AllBy(entries, events[|events| - 1].io.at))
  {
    if events != [] {
      var n := |events| - 1;
      var e, s := events[n], Run(EMPTY, events[..n]);
      LedgerStaysInOrder(events[..n]);
      RunStaysSound(events[..n]);
      StepGrowsLedger(s, e);
      assert AllBy(s.ledger, e.io.at - 1) by {
        if n > 0 {
          assert events[n - 1].io.at < e.io.at;
        }
      }
      GrowingKeepsOrder(s.ledger, Step(s, e).ledger, e.io.at);
    }
  }

  lemma {:induction false} RunIsRecorded(events: seq<Event>)
    requires Undisturbed(events) && ClockRuns(events)
    ensures var s := Run(EMPTY, events); Safe(s) && Recorded(s) && Strict(s.ledger)
  {
    hide PlanOf, Strict, ClockRuns;
    EveryRunIsSafe(events);
    LedgerStaysInOrder(events);
    if events != [] {
      hide Recorded;
      var n := |events| - 1;
      var e, s := events[n], Run(EMPTY, events[..n]);
      UndisturbedFront(events, n);
      RunIsRecorded(events[..n]);
      var ws := PlanOf(s, e.op, e.io).writes;
      assert ws[..|ws|] == ws;
      OperationKeepsRecord(s, e.op, e.io);
    }
  }

  // Line i of an accounted ledger supersedes the activation right before it, or nothing.
  lemma SupersedesPrevious(entries: seq<Entry>, i: nat)
    requires Strict(entries) && AllAccounted(entries) && i < |entries|
    ensures IsActivation(entries[i]) ==> 0 <= BasedOn(entries, i) < i
    ensures Supersedes(entries, i) ==
            if entries[i].act == Rollback || (entries[i].act == Promote && entries[i].fromHash != "")
            then LastActivation(entries[..i]) else -1
  {
    var e, before := entries[i], entries[..i];
    assert Accounted(entries, i);
    if IsActivation(e) {
      var j :| 0 <= j < i && Matches(SignOf(e.name, e.toHash), before[j]);
      assert Eligible(entries, i, SignOf(e.name, e.toHash), j);
    }
    if e.act == Rollback || (e.act == Promote && e.fromHash != "") {
      var q := if e.act == Rollback then AnyActivation else ActivationOf(e.fromHash);
      var last := LastActivation(before);
      assert before[last] == entries[last];
      assert Eligible(entries, i, q, last);
      var best := LatestOf(entries, i, q);
      assert NoLater(entries, last, best);
      assert before[best] == entries[best];
    }
  }

  // ---------------------------------------------------------------- lines and the events that wrote them

  // Event n of the run wrote line i.
  ghost predicate WrittenBy(events: seq<Event>, n: nat, i: nat) {
    var entries := Run(EMPTY, events).ledger;
    && n < |events| && i < |entries|
    && Run(EMPTY, events[..n]).ledger == entries[..i] && Run(EMPTY, events[..n + 1]).ledger == entries[..i + 1]
  }

  lemma {:induction false} EventOfLine(events: seq<Event>, i: nat) returns (n: nat)
    requires i < |Run(EMPTY, events).ledger|
    ensures WrittenBy(events, n, i)
    decreases |events|
  {
    var m := |events| - 1;
    var before, entries := Run(EMPTY, events[..m]).ledger, Run(EMPTY, events).ledger;
    RunStaysSound(events[..m]);
    StepGrowsLedger(Run(EMPTY, events[..m]), events[m]);
    if i < |before| {
      n := EventOfLine(events[..m], i);
      assert events[..m][..n] == events[..n] && events[..m][..n + 1] == events[..n + 1];
      assert before[..i] == entries[..i] && before[..i + 1] == entries[..i + 1];
    } else {
      n := m;
      assert events[..m + 1] == events && entries[..i] == before && entries[..i + 1] == entries;
    }
  }

  predicate NothingActive(s: Store) {
    forall v | v in s.versions :: v.status != Active
  }

  /** What a promotion writes about the model it replaces: in every undisturbed run the line bears the hash of the
    * version that was active before the event, and none if and only if nothing was.
    */
  lemma PromotionNamesActive(events: seq<Event>, n: nat, i: nat)
    requires Undisturbed(events) && ClockRuns(events) && WrittenBy(events, n, i)
    requires Run(EMPTY, events).ledger[i].act == Promote
    ensures var s, e := Run(EMPTY, events[..n]), Run(EMPTY, events).ledger[i];
            && (forall v | v in s.versions && v.status == Active :: e.fromHash == v.hash)
            && (e.fromHash == "" <==> NothingActive(s))
  {
    hide Run, PlanOf, Exec, Safe;
    PlanThatWrote(events, n, i);
    PromoteWritesActive(Run(EMPTY, events[..n]), events[n].op, events[n].io, Run(EMPTY, events).ledger[i]);
  }

  lemma PlanThatWrote(events: seq<Event>, n: nat, i: nat)
    requires Undisturbed(events) && ClockRuns(events) && WrittenBy(events, n, i)
    ensures var s, e := Run(EMPTY, events[..n]), events[n];
            && Safe(s) && e.io.activeRead
            && Exec(s, PlanOf(s, e.op, e.io).writes).ledger == s.ledger + [Run(EMPTY, events).ledger[i]]
  {
    hide Exec, PlanOf, Safe, Recorded, Strict, Run, ClockRuns;
    var s := Run(EMPTY, events[..n]);
    UndisturbedFront(events, n);
    RunIsRecorded(events[..n]);
    WholePlanLands(events, n);
    var entries := Run(EMPTY, events).ledger;
    assert entries[..i + 1] == s.ledger + [entries[i]];
  }

  lemma WholePlanLands(events: seq<Event>, n: nat)
    requires Undisturbed(events) && n < |events|
    ensures var s, e := Run(EMPTY, events[..n]), events[n];
            Run(EMPTY, events[..n + 1]) == Exec(s, PlanOf(s, e.op, e.io).writes)
  {
    hide Exec, PlanOf;
    var ws := PlanOf(Run(EMPTY, events[..n]), events[n].op, events[n].io).writes;
    assert events[..n + 1][..n] == events[..n] && ws[..|ws|] == ws;
  }

  lemma UndisturbedFront(events: seq<Event>, n: nat)
    requires Undisturbed(events) && ClockRuns(events) && n < |events|
    ensures Undisturbed(events[..n]) && ClockRuns(events[..n])
  {
    assert forall i | 0 <= i < n :: events[..n][..i] == events[..i];
  }

  lemma NothingWritten(s: Store)
    ensures Exec(s, []) == s
  {
  }

  lemma SignWritesSign(s: Store, name: string, readHash: string, who: string, io: Env, line: Entry)
    requires UniqueNames(s.versions)
    requires Exec(s, SignPlan(s, name, readHash, who, io).writes).ledger == s.ledger + [line]
    ensures line.act == Sign
  {
    hide Exec, SignPlan, UniqueNames, Operations.Becomes;
    NothingWritten(s);
    Operations.SignDoes(s, name, readHash, who, io);
    assert line == Exec(s, SignPlan(s, name, readHash, who, io).writes).ledger[|s.ledger|];
  }

  lemma PromoteWritesOf(s: Store, name: string, io: Env, line: Entry)
    requires Safe(s) && io.activeRead && Exec(s, PromotePlan(s, name, io).writes).ledger == s.ledger + [line]
    ensures Operations.IsActiveHash(s, line.fromHash)
  {
    hide Exec, PromotePlan, UniqueNames, Operations.Becomes, Operations.IsActiveHash;
    NothingWritten(s);
    Operations.PromoteDoes(s, name, io);
    assert line == Exec(s, PromotePlan(s, name, io).writes).ledger[|s.ledger|];
  }

  lemma RollbackWritesRollback(s: Store, io: Env, line: Entry)
    requires Safe(s) && io.activeRead && Exec(s, RollbackPlan(s, io).writes).ledger == s.ledger + [line]
    ensures line.act == Rollback
  {
    hide Exec, RollbackPlan, UniqueNames, Operations.Becomes, Operations.FirstRetired;
    Operations.RollbackDoes(s, io);
    assert line == Exec(s, RollbackPlan(s, io).writes).ledger[|s.ledger|];
  }

  // Only a promotion writes such a line, and this is what it writes.
  lemma PromoteWritesActive(s: Store, op: Op, io: Env, line: Entry)
    requires Safe(s) && io.activeRead && line.act == Promote
    requires Exec(s, PlanOf(s, op, io).writes).ledger == s.ledger + [line]
    ensures Operations.IsActiveHash(s, line.fromHash)
  {
    hide Exec, RegisterPlan, SignPlan, CanaryPlan, PromotePlan, RollbackPlan, UniqueNames,
         Operations.Becomes, Operations.IsActiveHash;
    NothingWritten(s);
    match op
    case DoRegister(name, path) => Operations.RegisterDoes(s, name, path, io);
    case DoSign(name, readHash, who) =>
      SignWritesSign(s, name, readHash, who, io, line);
    case DoCanary(name, pct) => Operations.CanaryDoes(s, name, pct);
    case DoPromote(name) =>
      PromoteWritesOf(s, name, io, line);
    case DoRollback =>
      RollbackWritesRollback(s, io, line);
  }

  /** Main result: in every undisturbed run with distinct timestamps, each activation rests on an earlier signature
    * of its name over its bytes. A promotion made while nothing was active supersedes nothing; every other one, and
    * every rollback, supersedes exactly the activation immediately before it, which is that of the version active
    * at the time if there was one.
    */
  lemma HistoryIsFaithful(events: seq<Event>, i: nat) returns (n: nat)
    requires Undisturbed(events) && ClockRuns(events)
    requires var entries := Run(EMPTY, events).ledger; i < |entries| && IsActivation(entries[i])
    ensures WrittenBy(events, n, i)
    ensures var entries, s := Run(EMPTY, events).ledger, Run(EMPTY, events[..n]);
            && 0 <= BasedOn(entries, i) < i
            && Matches(SignOf(entries[i].name, entries[i].toHash), entries[BasedOn(entries, i)])
            && (Supersedes(entries, i) < 0 <==> entries[i].act == Promote && NothingActive(s))
            && (Supersedes(entries, i) >= 0 ==> Supersedes(entries, i) == LastActivation(entries[..i]))
            && forall v | v in s.versions && v.status == Active ::
                 Supersedes(entries, i) >= 0 && entries[Supersedes(entries, i)].toHash == v.hash
  {
    RunIsRecorded(events);
    var entries := Run(EMPTY, events).ledger;
    n := EventOfLine(events, i);
    var s := Run(EMPTY, events[..n]);
    SupersedesPrevious(entries, i);
    assert Accounted(entries, i);
    if entries[i].act == Promote {
      PromotionNamesActive(events, n, i);
    }
    UndisturbedFront(events, n);
    RunIsRecorded(events[..n]);
    LastIsOfActive(s, entries, i);
  }

  lemma LastIsOfActive(s: Store, entries: seq<Entry>, i: nat)
    requires Recorded(s) && i <= |entries| && s.ledger == entries[..i]
    ensures forall v | v in s.versions && v.status == Active ::
              LastActivation(entries[..i]) >= 0 && entries[LastActivation(entries[..i])].toHash == v.hash
  {
  }

  // Following supersedes back from line i.
  function Walk(entries: seq<Entry>, i: nat): seq<nat>
    requires i < |entries|
    decreases i
  {
    var j := Supersedes(entries, i);
    if 0 <= j < i then [j] + Walk(entries, j) else []
  }

  // Every activation before line i, newest first.
  function ActivationsBefore(entries: seq<Entry>, i: nat): (r: seq<nat>)
    requires i <= |entries|
    ensures forall k | 0 <= k < |r| :: r[k] < i && IsActivation(entries[r[k]])
    ensures forall j | 0 <= j < i && IsActivation(entries[j]) :: j in r
    decreases i
  {
    var j := LastActivation(entries[..i]);
    if j < 0 then [] else [j] + ActivationsBefore(entries, j)
  }

  // The line at which a walk ends.
  function WalkEnd(entries: seq<Entry>, i: nat): (j: nat)
    requires i < |entries|
    ensures j <= i
    decreases i
  {
    var j := Supersedes(entries, i);
    if 0 <= j < i then WalkEnd(entries, j) else i
  }

  lemma {:induction false} WalkIsPrefix(entries: seq<Entry>, i: nat)
    requires Strict(entries) && AllAccounted(entries) && i < |entries| && IsActivation(entries[i])
    ensures Walk(entries, i) <= ActivationsBefore(entries, i)
    ensures var end := entries[WalkEnd(entries, i)];
            IsActivation(end) &&
            (Walk(entries, i) != ActivationsBefore(entries, i) ==> end.act == Promote && end.fromHash == "")
    decreases i
  {
    SupersedesPrevious(entries, i);
    assert Accounted(entries, i);
    var j := Supersedes(entries, i);
    if j >= 0 {
      assert entries[..i][j] == entries[j];
      WalkIsPrefix(entries, j);
    }
  }

  /** Main result: in every undisturbed run, walking supersedes back from any activation replays the activations
    * before it in order, newest first and none skipped, and can only stop early at a promotion made while nothing
    * was active.
    */
  lemma WalkReplaysHistory(events: seq<Event>, i: nat)
    requires Undisturbed(events) && ClockRuns(events)
    requires var entries := Run(EMPTY, events).ledger; i < |entries| && IsActivation(entries[i])
    ensures var entries := Run(EMPTY, events).ledger;
            && Walk(entries, i) <= ActivationsBefore(entries, i)
            && (Walk(entries, i) != ActivationsBefore(entries, i) ==>
                  && entries[WalkEnd(entries, i)].act == Promote
                  && exists n: nat ::
                       WrittenBy(events, n, WalkEnd(entries, i)) && NothingActive(Run(EMPTY, events[..n])))
  {
    RunIsRecorded(events);
    var entries := Run(EMPTY, events).ledger;
    WalkIsPrefix(entries, i);
    if Walk(entries, i) != ActivationsBefore(entries, i) {
      var n := EventOfLine(events, WalkEnd(entries, i));
      PromotionNamesActive(events, n, WalkEnd(entries, i));
    }
  }
}
