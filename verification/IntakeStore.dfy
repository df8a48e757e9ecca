/** Signed intake plans and their ledger: what a signature binds, over every run. */
module IntakeStore {
  import opened Basics
  import opened IntakePlan

  datatype PlanState = Draft | Signed | Superseded

  datatype Plan = Plan(id: string, source: string, driver: string, columns: seq<Treatment>, hash: string,
                       state: PlanState, createdBy: string, signedBy: string, supersedes: string, note: string)

  datatype Act = ProposeAct | AmendAct | SignAct | SupersedeAct

  datatype Entry = Entry(act: Act, plan: string, source: string, who: string, from: string, to: string, note: string)

  datatype Store = Store(plans: map<string, Plan>, ledger: seq<Entry>)

  datatype Error = NoPlan | NotDraft | Tampered | StaleHash | Unnamed | BadTreatment | NotClassified | NothingToCover
                 | Unsigned | Drifted | WriteFailed

  // The text of a canonical form's hash.
  type Digest = Canonical -> string

  function HashOf(digest: Digest, p: Plan): string {
    digest(CanonicalOf(p.source, p.driver, p.columns))
  }

  predicate Verified(digest: Digest, p: Plan) {
    p.hash == HashOf(digest, p)
  }

  // ---------------------------------------------------------------- what the ledger says

  datatype Standing = Standing(source: string, state: PlanState, hash: string)

  predicate InForce(m: map<string, Standing>, source: string, id: string) {
    id in m && m[id].source == source && m[id].state == Signed
  }

  // Whether the line can follow what the lines before it left: its hashes continue theirs.
  predicate Follows(m: map<string, Standing>, e: Entry) {
    match e.act
    case ProposeAct => e.plan !in m && e.from == ""
    case AmendAct => e.plan in m && m[e.plan].state == Draft && e.source == m[e.plan].source && e.from == m[e.plan].hash
    case SignAct => e.plan in m && m[e.plan].state == Draft && e.source == m[e.plan].source
      && e.from == "" && e.to == m[e.plan].hash && forall id | id in m :: !InForce(m, e.source, id)
    case SupersedeAct => InForce(m, e.source, e.plan) && e.from == e.to == m[e.plan].hash
  }

  function After(m: map<string, Standing>, e: Entry): map<string, Standing> {
    var state := match e.act case SignAct => Signed case SupersedeAct => Superseded case _ => Draft;
    m[e.plan := Standing(e.source, state, e.to)]
  }

  /** Reading a ledger from its first line: where each plan stands, or nothing if a line does not follow. */
  function Replay(ledger: seq<Entry>): Option<map<string, Standing>> {
    if ledger == [] then Some(map[])
    else
      var e := ledger[|ledger| - 1];
      match Replay(ledger[..|ledger| - 1])
      case None => None
      case Some(m) => if Follows(m, e) then Some(After(m, e)) else None
  }

  function Standings(plans: map<string, Plan>): map<string, Standing> {
    map id | id in plans :: Standing(plans[id].source, plans[id].state, plans[id].hash)
  }

  /** The ledger and the plans tell the same story. */
  predicate Accounted(s: Store) {
    && (forall id | id in s.plans :: s.plans[id].id == id)
    && Replay(s.ledger) == Some(Standings(s.plans))
  }

  predicate OneInForce(m: map<string, Standing>) {
    forall a, b | a in m && b in m && m[a].source == m[b].source ::
      m[a].state == Signed && m[b].state == Signed ==> a == b
  }

  /** After any ledger that can be read, no source has two plans in force. */
  lemma {:induction false} LedgerKeepsOneInForce(ledger: seq<Entry>)
    requires Replay(ledger).Some?
    ensures OneInForce(Replay(ledger).value)
    decreases |ledger|
  {
    if ledger != [] {
      var rest := ledger[..|ledger| - 1];
      LedgerKeepsOneInForce(rest);
      var m := Replay(rest).value;
      assert forall id | id in m :: m[id].state == Signed ==> InForce(m, m[id].source, id);
    }
  }

  lemma ReplayOneMore(ledger: seq<Entry>, e: Entry)
    ensures Replay(ledger + [e]) ==
            match Replay(ledger)
            case None => None
            case Some(m) => if Follows(m, e) then Some(After(m, e)) else None
  {
    assert (ledger + [e])[..|ledger|] == ledger;
  }

  // Lines about one plan, with none about it between them.
  predicate Consecutive(ledger: seq<Entry>, i: nat, j: nat) {
    && i < j < |ledger| && ledger[i].plan == ledger[j].plan
    && forall k | i < k < j :: ledger[k].plan != ledger[i].plan
  }

  lemma {:induction false} StandsSince(ledger: seq<Entry>, i: nat)
    requires Replay(ledger).Some? && i < |ledger|
    requires forall k | i < k < |ledger| :: ledger[k].plan != ledger[i].plan
    ensures var m := Replay(ledger).value; var e := ledger[i];
            e.plan in m && m[e.plan] == After(map[], e)[e.plan]
    decreases |ledger|
  {
    var n := |ledger| - 1;
    if i < n {
      assert ledger[..n][i] == ledger[i];
      StandsSince(ledger[..n], i);
    }
  }

  lemma {:induction false} ReplayPrefix(ledger: seq<Entry>, n: nat)
    requires Replay(ledger).Some? && n <= |ledger|
    ensures Replay(ledger[..n]).Some?
    decreases |ledger|
  {
    if n < |ledger| {
      assert ledger[..|ledger| - 1][..n] == ledger[..n];
      ReplayPrefix(ledger[..|ledger| - 1], n);
    } else {
      assert ledger[..n] == ledger;
    }
  }

  /** Between one line about a plan and the next, the hashes join up and the acts come in their order: amend
    * or sign after propose or amend, supersede only after sign, nothing after supersede.
    */
  lemma HashesJoinUp(ledger: seq<Entry>, i: nat, j: nat)
    requires Replay(ledger).Some? && Consecutive(ledger, i, j)
    ensures var a, b := ledger[i], ledger[j];
            && b.act != ProposeAct && a.act != SupersedeAct && a.source == b.source
            && (b.act == AmendAct ==> b.from == a.to && (a.act == ProposeAct || a.act == AmendAct))
            && (b.act == SignAct ==> b.to == a.to && (a.act == ProposeAct || a.act == AmendAct))
            && (b.act == SupersedeAct ==> b.from == b.to == a.to && a.act == SignAct)
  {
    ReplayPrefix(ledger, j + 1);
    ReplayPrefix(ledger, j);
    assert ledger[..j + 1][..j] == ledger[..j];
    assert ledger[..j][i] == ledger[i];
    StandsSince(ledger[..j], i);
  }

  // ---------------------------------------------------------------- what the operations do

  // Edit is somebody rewriting the stored treatments behind the store's back.
  datatype Event =
    | Propose(id: string, source: string, driver: string, columns: seq<Treatment>, who: string, note: string)
    | Amend(id: string, changes: seq<Change>, who: string, note: string)
    | Sign(id: string, hash: string, who: string, note: string)
    | Edit(id: string, columns: seq<Treatment>)

  predicate IsInForce(plans: map<string, Plan>, source: string, id: string) {
    id in plans && plans[id].source == source && plans[id].state == Signed
  }

  ghost function Current(plans: map<string, Plan>, source: string): (r: Option<string>)
    ensures r.Some? ==> IsInForce(plans, source, r.value)
    ensures r.None? ==> forall id :: !IsInForce(plans, source, id)
  {
    if exists id :: IsInForce(plans, source, id) then
      var id :| IsInForce(plans, source, id);
      Some(id)
    else None
  }

  // The hash a signer names: at least twelve digits of the plan's own.
  predicate Names(hash: string, p: Plan) {
    |hash| >= 12 && hash <= p.hash
  }

  function Outcome(digest: Digest, s: Store, e: Event): Option<Error> {
    match e
    case Propose(id, _, _, columns, _, _) => if columns == [] then Some(NothingToCover) else None
    case Amend(id, changes, who, _) =>
      if who == "" then Some(Unnamed)
      else if id !in s.plans then Some(NoPlan)
      else if s.plans[id].state != Draft then Some(NotDraft)
      else if !Verified(digest, s.plans[id]) then Some(Tampered)
      else
        (match Amended(s.plans[id].columns, changes, who).1
         case None => None
         case Some(NotATreatment) => Some(BadTreatment)
         case Some(NotCovered) => Some(NotClassified))
    case Sign(id, hash, who, _) =>
      if who == "" then Some(Unnamed)
      else if id !in s.plans then Some(NoPlan)
      else if s.plans[id].state != Draft then Some(NotDraft)
      else if !Verified(digest, s.plans[id]) then Some(Tampered)
      else if !Names(hash, s.plans[id]) then Some(StaleHash)
      else None
    case Edit(_, _) => None
  }

  function Proposed(digest: Digest, e: Event): Plan
    requires e.Propose?
  {
    Plan(e.id, e.source, e.driver, e.columns, digest(CanonicalOf(e.source, e.driver, e.columns)), Draft, e.who, "", "",
         e.note)
  }

  function AmendedPlan(digest: Digest, p: Plan, changes: seq<Change>, who: string): Plan {
    var columns := Amended(p.columns, changes, who).0;
    p.(columns := columns, hash := digest(CanonicalOf(p.source, p.driver, columns)))
  }

  function Line(act: Act, p: Plan, who: string, from: string, note: string): Entry {
    Entry(act, p.id, p.source, who, from, p.hash, note)
  }

  ghost function Superseding(s: Store, p: Plan, who: string): Store {
    match Current(s.plans, p.source)
    case None => s
    case Some(prev) =>
      Store(s.plans[prev := s.plans[prev].(state := Superseded)],
            s.ledger + [Line(SupersedeAct, s.plans[prev], who, s.plans[prev].hash, "superseded by " + p.id)])
  }

  ghost function SignedPlan(s: Store, p: Plan, who: string, note: string): Plan {
    var prev := Current(s.plans, p.source);
    p.(state := Signed, signedBy := who, supersedes := if prev.Some? then prev.value else p.supersedes,
       note := if note != "" then note else p.note)
  }

  /** The store after an act: nothing if it is refused, plans and ledger together if it is not. */
  ghost function Step(digest: Digest, s: Store, e: Event): Store {
    if Outcome(digest, s, e).Some? then s
    else
      match e
      case Propose(id, _, _, _, who, note) =>
        var p := Proposed(digest, e);
        Store(s.plans[id := p], s.ledger + [Line(ProposeAct, p, who, "", note)])
      case Amend(id, changes, who, note) =>
        var p := AmendedPlan(digest, s.plans[id], changes, who);
        if p.hash == s.plans[id].hash then s
        else Store(s.plans[id := p], s.ledger + [Line(AmendAct, p, who, s.plans[id].hash, note)])
      case Sign(id, _, who, note) =>
        var p := SignedPlan(s, s.plans[id], who, note);
        var t := Superseding(s, s.plans[id], who);
        Store(t.plans[id := p], t.ledger + [Line(SignAct, p, who, "", note)])
      case Edit(id, columns) =>
        if id in s.plans then s.(plans := s.plans[id := s.plans[id].(columns := columns)]) else s
  }

  // Identifiers are minted: no two proposals share one.
  predicate FreshId(s: Store, e: Event) {
    e.Propose? ==> e.id !in s.plans
  }

  lemma SupersedingAccounted(s: Store, p: Plan, who: string)
    requires Accounted(s) && p.id in s.plans && s.plans[p.id] == p && p.state == Draft
    ensures var t := Superseding(s, p, who);
            Accounted(t) && p.id in t.plans && t.plans[p.id] == p && Current(t.plans, p.source).None?
  {
    var t := Superseding(s, p, who);
    var prev := Current(s.plans, p.source);
    if prev.Some? {
      var e := Line(SupersedeAct, s.plans[prev.value], who, s.plans[prev.value].hash, "superseded by " + p.id);
      ReplayOneMore(s.ledger, e);
      LedgerKeepsOneInForce(s.ledger);
      assert InForce(Standings(s.plans), p.source, prev.value);
      assert After(Standings(s.plans), e) == Standings(t.plans);
      forall id
        ensures !IsInForce(t.plans, p.source, id)
      {
        if id in s.plans && id != prev.value {
          assert !InForce(Standings(s.plans), p.source, id);
        }
      }
    }
  }

  // A plan put into the store together with its line.
  lemma OneLineMore(s: Store, p: Plan, line: Entry)
    requires Accounted(s) && Follows(Standings(s.plans), line)
    requires line.plan == p.id && line.source == p.source && line.to == p.hash
    requires After(Standings(s.plans), line)[p.id].state == p.state
    ensures Accounted(Store(s.plans[p.id := p], s.ledger + [line]))
  {
    hide Follows;
    ReplayOneMore(s.ledger, line);
    assert After(Standings(s.plans), line) == Standings(s.plans[p.id := p]);
  }

  /** Every act keeps the ledger and the plans in step. */
  lemma StepKeepsAccounted(digest: Digest, s: Store, e: Event)
    requires Accounted(s) && FreshId(s, e)
    ensures Accounted(Step(digest, s, e))
  {
    hide Replay, Amended, CanonicalOf, Verified, Names;
    if Outcome(digest, s, e).None? {
      match e {
        case Propose(id, _, _, _, who, note) =>
          var p := Proposed(digest, e);
          OneLineMore(s, p, Line(ProposeAct, p, who, "", note));
        case Amend(id, changes, who, note) =>
          var p := AmendedPlan(digest, s.plans[id], changes, who);
          OneLineMore(s, p, Line(AmendAct, p, who, s.plans[id].hash, note));
        case Sign(id, _, who, note) =>
          SignKeepsAccounted(s, s.plans[id], who, note);
        case Edit(id, columns) =>
          assert Standings(Step(digest, s, e).plans) == Standings(s.plans);
      }
    }
  }

  lemma SignKeepsAccounted(s: Store, p: Plan, who: string, note: string)
    requires Accounted(s) && p.id in s.plans && s.plans[p.id] == p && p.state == Draft
    ensures var signed := SignedPlan(s, p, who, note);
            var t := Superseding(s, p, who);
            Accounted(Store(t.plans[p.id := signed], t.ledger + [Line(SignAct, signed, who, "", note)]))
  {
    hide Replay, Current, Superseding;
    SupersedingAccounted(s, p, who);
    var t := Superseding(s, p, who);
    NoneInForce(t.plans, p.source);
    var signed := SignedPlan(s, p, who, note);
    OneLineMore(t, signed, Line(SignAct, signed, who, "", note));
  }

  lemma NoneInForce(plans: map<string, Plan>, source: string)
    requires Current(plans, source).None?
    ensures forall id | id in Standings(plans) :: !InForce(Standings(plans), source, id)
  {
    forall id | id in Standings(plans)
      ensures !InForce(Standings(plans), source, id)
    {
      assert !IsInForce(plans, source, id);
    }
  }

  // ---------------------------------------------------------------- whole runs

  ghost function Run(digest: Digest, events: seq<Event>): Store {
    if events == [] then Store(map[], [])
    else Step(digest, Run(digest, events[..|events| - 1]), events[|events| - 1])
  }

  ghost predicate FreshRun(digest: Digest, events: seq<Event>) {
    forall k | 0 <= k < |events| :: FreshId(Run(digest, events[..k]), events[k])
  }

  /** Main result: after every run, edits included, the ledger reads without a gap and says where each plan
    * stands and what its hash is; at most one plan is in force per source.
    */
  lemma {:induction false} EveryRunIsAccounted(digest: Digest, events: seq<Event>)
    requires FreshRun(digest, events)
    ensures var s := Run(digest, events); Accounted(s) && OneInForce(Standings(s.plans))
    decreases |events|
  {
    if events != [] {
      var n := |events| - 1;
      ShorterRunIsFresh(digest, events);
      EveryRunIsAccounted(digest, events[..n]);
      StepKeepsAccounted(digest, Run(digest, events[..n]), events[n]);
    }
    LedgerKeepsOneInForce(Run(digest, events).ledger);
  }

  lemma ShorterRunIsFresh(digest: Digest, events: seq<Event>)
    requires FreshRun(digest, events) && events != []
    ensures FreshRun(digest, events[..|events| - 1])
  {
    var rest := events[..|events| - 1];
    forall k | 0 <= k < |rest|
      ensures FreshId(Run(digest, rest[..k]), rest[k])
    {
      assert rest[..k] == events[..k] && rest[k] == events[k];
    }
  }

  /** A plan that is no longer a draft never becomes one, is never dropped, and keeps its hash and database;
    * its treatments change only by an edit behind the store's back. The ledger only grows.
    */
  lemma StepKeepsSigned(digest: Digest, s: Store, e: Event, id: string)
    requires Accounted(s) && FreshId(s, e) && id in s.plans
    ensures var t := Step(digest, s, e);
            && s.ledger <= t.ledger
            && id in t.plans && t.plans[id].id == s.plans[id].id
            && t.plans[id].source == s.plans[id].source && t.plans[id].driver == s.plans[id].driver
            && (s.plans[id].state != Draft ==>
                  && t.plans[id].state != Draft && t.plans[id].hash == s.plans[id].hash
                  && t.plans[id].signedBy == s.plans[id].signedBy && t.plans[id].supersedes == s.plans[id].supersedes
                  && (t.plans[id].columns == s.plans[id].columns || (e.Edit? && e.id == id)))
  {
  }

  /** Without an edit, a plan's recorded hash is the hash of its treatments. */
  lemma {:induction false} UneditedIsVerified(digest: Digest, events: seq<Event>, id: string)
    requires FreshRun(digest, events) && id in Run(digest, events).plans
    requires forall k | 0 <= k < |events| :: !(events[k].Edit? && events[k].id == id)
    ensures Verified(digest, Run(digest, events).plans[id])
    decreases |events|
  {
    var n := |events| - 1;
    var rest := events[..n];
    ShorterRunIsFresh(digest, events);
    if id in Run(digest, rest).plans {
      assert forall k | 0 <= k < |rest| :: rest[k] == events[k];
      UneditedIsVerified(digest, rest, id);
    }
  }

  // The act, as it came about, that signed the plan in these words.
  ghost predicate SignedAt(digest: Digest, events: seq<Event>, k: nat, p: Plan) {
    && k < |events| && events[k].Sign? && events[k].id == p.id && events[k].who != ""
    && var s := Run(digest, events[..k]);
       && Outcome(digest, s, events[k]).None?
       && p.id in s.plans && Verified(digest, s.plans[p.id]) && s.plans[p.id].hash == p.hash && Names(events[k].hash, p)
       && s.plans[p.id].source == p.source && s.plans[p.id].driver == p.driver
       && p.signedBy == events[k].who
       && forall q | IsInForce(s.plans, p.source, q) :: p.supersedes == q
  }

  lemma {:induction false} SignedOnce(digest: Digest, events: seq<Event>, id: string) returns (k: nat)
    requires FreshRun(digest, events) && id in Run(digest, events).plans && Run(digest, events).plans[id].state != Draft
    ensures SignedAt(digest, events, k, Run(digest, events).plans[id])
    decreases |events|
  {
    hide Step, Outcome, Verified, Accounted;
    var n := |events| - 1;
    var rest := events[..n];
    var s := Run(digest, rest);
    ShorterRunIsFresh(digest, events);
    EveryRunIsAccounted(digest, rest);
    if id in s.plans && s.plans[id].state != Draft {
      k := SignedOnce(digest, rest, id);
      assert events[..k] == rest[..k] && events[k] == rest[k];
      StepKeepsSigned(digest, s, events[n], id);
    } else {
      k := n;
      BecomesSigned(digest, s, events[n], id);
    }
  }

  // A plan leaves the draft state only by being signed.
  lemma BecomesSigned(digest: Digest, s: Store, e: Event, id: string)
    requires Accounted(s) && FreshId(s, e) && (id in s.plans ==> s.plans[id].state == Draft)
    requires var t := Step(digest, s, e); id in t.plans && t.plans[id].state != Draft
    ensures e.Sign? && e.id == id && e.who != "" && Outcome(digest, s, e).None?
    ensures id in s.plans && s.plans[id].id == id && Verified(digest, s.plans[id])
    ensures var p, q := s.plans[id], Step(digest, s, e).plans[id];
            && p.hash == q.hash && Names(e.hash, q) && p.source == q.source && p.driver == q.driver && q.id == id
            && q.signedBy == e.who && forall x | IsInForce(s.plans, q.source, x) :: q.supersedes == x
  {
    hide Replay, Standings, CanonicalOf, Amended;
    if id in s.plans && Current(s.plans, s.plans[id].source).Some? {
      forall x | IsInForce(s.plans, s.plans[id].source, x)
        ensures Current(s.plans, s.plans[id].source) == Some(x)
      {
        OnlyOneInForce(s, s.plans[id].source, x);
      }
    }
  }

  ghost predicate Injective(digest: Digest) {
    forall a, b :: digest(a) == digest(b) ==> a == b
  }

  /** Main result: whatever was edited in between, a signed plan that still hashes to its recorded hash
    * decides about every column exactly what it decided when somebody signed it by that hash.
    */
  lemma VerifiedIsWhatWasSigned(digest: Digest, events: seq<Event>, id: string) returns (k: nat)
    requires Injective(digest) && FreshRun(digest, events)
    requires id in Run(digest, events).plans && Run(digest, events).plans[id].state != Draft
    requires Verified(digest, Run(digest, events).plans[id])
    ensures SignedAt(digest, events, k, Run(digest, events).plans[id])
    ensures var now := Run(digest, events).plans[id];
            var was := Run(digest, events[..k]).plans[now.id];
            && now.id == id
            && multiset(Decisions(now.columns)) == multiset(Decisions(was.columns))
            && (OneEach(now.columns) && OneEach(was.columns) ==> DecideAlike(now.columns, was.columns))
  {
    k := SignedOnce(digest, events, id);
    EveryRunIsAccounted(digest, events);
    var p := Run(digest, events).plans[id];
    assert p.id == id;
    var was := Run(digest, events[..k]).plans[id];
    assert CanonicalOf(p.source, p.driver, p.columns) == CanonicalOf(was.source, was.driver, was.columns);
    SortIsRight(Decisions(p.columns));
    SortIsRight(Decisions(was.columns));
    if OneEach(p.columns) && OneEach(was.columns) {
      SameFormSameDecisions(p.source, p.driver, p.columns, was.source, was.driver, was.columns);
    }
  }

  // ---------------------------------------------------------------- the gate

  ghost predicate GateOpens(digest: Digest, s: Store, source: string, schema: seq<Table>) {
    && Current(s.plans, source).Some?
    && var p := s.plans[Current(s.plans, source).value];
       && Verified(digest, p)
       && forall l | l in Live(schema) :: exists t :: t in p.columns && t.table == l.0 && t.column == l.1.name
  }

  // A catalogue's columns, each with the classifier's first word on it.
  function FirstPass(personal: string -> bool, live: seq<(string, Column)>): seq<Treatment> {
    seq(|live|, i requires 0 <= i < |live| => Classified(personal, live[i].0, live[i].1))
  }

  /** Proposing from a catalogue and signing by the printed hash opens the gate for that catalogue: under that plan
    * the columns whose names read as personal are masked and the others kept.
    */
  lemma ProposeThenSignOpens(digest: Digest, s: Store, e: Event, schema: seq<Table>, personal: string -> bool,
                             who: string, note: string)
    requires Accounted(s) && e.Propose? && e.id !in s.plans && who != ""
    requires multiset(e.columns) == multiset(FirstPass(personal, Live(schema))) && e.columns != []
    requires |Proposed(digest, e).hash| >= 12
    ensures var t := Step(digest, s, e);
            var sign := Sign(e.id, t.plans[e.id].hash[..12], who, note);
            && Outcome(digest, t, sign).None?
            && GateOpens(digest, Step(digest, t, sign), e.source, schema)
            && Current(Step(digest, t, sign).plans, e.source) == Some(e.id)
            && forall l | l in Live(schema) ::
                 Decision(l.0, l.1.name, l.1.kind, personal(l.1.name), if personal(l.1.name) then Mask else Keep)
                 in Decisions(Step(digest, t, sign).plans[e.id].columns)
  {
    hide Replay, Current, Standings, CanonicalOf, FirstPass, Superseding, Live;
    var t := Step(digest, s, e);
    StepKeepsAccounted(digest, s, e);
    var sign := Sign(e.id, t.plans[e.id].hash[..12], who, note);
    assert Names(sign.hash, t.plans[e.id]);
    var u := Step(digest, t, sign);
    StepKeepsAccounted(digest, t, sign);
    OnlyOneInForce(u, e.source, e.id);
    FirstPassCovers(personal, Live(schema), e.columns);
    FirstPassMasks(personal, Live(schema), e.columns);
  }

  lemma OnlyOneInForce(s: Store, source: string, id: string)
    requires Accounted(s) && IsInForce(s.plans, source, id)
    ensures Current(s.plans, source) == Some(id)
  {
    hide Replay;
    LedgerKeepsOneInForce(s.ledger);
    var c := Current(s.plans, source).value;
    assert InForce(Standings(s.plans), source, id) && InForce(Standings(s.plans), source, c);
  }

  lemma FirstPassCovers(personal: string -> bool, live: seq<(string, Column)>, columns: seq<Treatment>)
    requires multiset(columns) == multiset(FirstPass(personal, live))
    ensures forall l | l in live :: exists t :: t in columns && t.table == l.0 && t.column == l.1.name
  {
    forall l | l in live
      ensures exists t :: t in columns && t.table == l.0 && t.column == l.1.name
    {
      var i :| 0 <= i < |live| && live[i] == l;
      var f := FirstPass(personal, live)[i];
      assert f in multiset(FirstPass(personal, live));
      assert f in columns;
    }
  }

  // The first pass masks the columns whose names read as personal, and keeps the others.
  lemma FirstPassMasks(personal: string -> bool, live: seq<(string, Column)>, columns: seq<Treatment>)
    requires multiset(columns) == multiset(FirstPass(personal, live))
    ensures forall l | l in live ::
              Decision(l.0, l.1.name, l.1.kind, personal(l.1.name), if personal(l.1.name) then Mask else Keep)
              in Decisions(columns)
  {
    forall l | l in live
      ensures Decision(l.0, l.1.name, l.1.kind, personal(l.1.name), if personal(l.1.name) then Mask else Keep)
              in Decisions(columns)
    {
      var i :| 0 <= i < |live| && live[i] == l;
      var f := FirstPass(personal, live)[i];
      assert f in multiset(FirstPass(personal, live));
      var j :| 0 <= j < |columns| && columns[j] == f;
      assert Decisions(columns)[j] == DecisionOf(f);
    }
  }

  /** The store over a database whose transactions may fail to commit. */
  class IntakeStore {
    const digest: Digest
    var plans: map<string, Plan>
    var ledger: seq<Entry>

    constructor (digest: Digest)
      ensures this.digest == digest && State() == Store(map[], [])
      ensures Accounted(State())
    {
      this.digest, plans, ledger := digest, map[], [];
    }

    function State(): Store
      reads this
    {
      Store(plans, ledger)
    }

    // Commits both tables or neither.
    method Commit(next: Store) returns (err: Option<Error>)
      modifies this
      ensures err.None? ==> State() == next
      ensures err.Some? ==> err == Some(WriteFailed) && State() == old(State())
    {
      var lost := *;
      if lost {
        return Some(WriteFailed);
      }
      plans, ledger := next.plans, next.ledger;
      err := None;
    }

    method Propose(id: string, source: string, driver: string, columns: seq<Treatment>, who: string, note: string)
      returns (err: Option<Error>)
      requires Accounted(State()) && id !in plans
      modifies this
      ensures var e := Event.Propose(id, source, driver, columns, who, note);
              && (err == Outcome(digest, old(State()), e) || err == Some(WriteFailed))
              && State() == if err.Some? then old(State()) else Step(digest, old(State()), e)
      ensures Accounted(State())
    {
      ghost var e := Event.Propose(id, source, driver, columns, who, note);
      StepKeepsAccounted(digest, State(), e);
      if columns == [] {
        return Some(NothingToCover);
      }
      var form := CanonicalPlan(source, driver, columns);
      var p := Plan(id, source, driver, columns, digest(form), Draft, who, "", "", note);
      err := Commit(Store(plans[id := p], ledger + [Line(ProposeAct, p, who, "", note)]));
    }

    method Amend(id: string, changes: seq<Change>, who: string, note: string) returns (err: Option<Error>)
      requires Accounted(State())
      modifies this
      ensures var e := Event.Amend(id, changes, who, note);
              && (err == Outcome(digest, old(State()), e) || err == Some(WriteFailed))
              && State() == if err.Some? then old(State()) else Step(digest, old(State()), e)
      ensures Accounted(State())
    {
      ghost var e := Event.Amend(id, changes, who, note);
      StepKeepsAccounted(digest, State(), e);
      if who == "" {
        return Some(Unnamed);
      }
      if id !in plans {
        return Some(NoPlan);
      }
      var p := plans[id];
      if p.state != Draft {
        return Some(NotDraft);
      }
      if digest(CanonicalOf(p.source, p.driver, p.columns)) != p.hash {
        return Some(Tampered);
      }
      var columns := new Treatment[|p.columns|](i requires 0 <= i < |p.columns| => p.columns[i]);
      assert columns[..] == p.columns;
      var refused := IntakePlan.Amend(columns, changes, who);
      if refused.Some? {
        return Some(if refused.value.NotATreatment? then BadTreatment else NotClassified);
      }
      var form := CanonicalPlan(p.source, p.driver, columns[..]);
      var next := p.(columns := columns[..], hash := digest(form));
      if next.hash == p.hash {
        return None;
      }
      err := Commit(Store(plans[id := next], ledger + [Line(AmendAct, next, who, p.hash, note)]));
    }

    method Sign(id: string, hash: string, who: string, note: string) returns (err: Option<Error>)
      requires Accounted(State())
      modifies this
      ensures var e := Event.Sign(id, hash, who, note);
              && (err == Outcome(digest, old(State()), e) || err == Some(WriteFailed))
              && State() == if err.Some? then old(State()) else Step(digest, old(State()), e)
      ensures Accounted(State())
    {
      ghost var e := Event.Sign(id, hash, who, note);
      StepKeepsAccounted(digest, State(), e);
      if who == "" {
        return Some(Unnamed);
      }
      if id !in plans {
        return Some(NoPlan);
      }
      var p := plans[id];
      if p.state != Draft {
        return Some(NotDraft);
      }
      if digest(CanonicalOf(p.source, p.driver, p.columns)) != p.hash {
        return Some(Tampered);
      }
      if |hash| < 12 || !(hash <= p.hash) {
        return Some(StaleHash);
      }
      var next := State();
      var prev := Find(p.source);
      if prev.Some? {
        var was := plans[prev.value];
        next := Store(next.plans[prev.value := was.(state := Superseded)],
                      next.ledger + [Line(SupersedeAct, was, who, was.hash, "superseded by " + id)]);
        p := p.(supersedes := prev.value);
      }
      p := p.(state := Signed, signedBy := who, note := if note != "" then note else p.note);
      err := Commit(Store(next.plans[id := p], next.ledger + [Line(SignAct, p, who, "", note)]));
    }

    // The plan in force; the ledger leaves no choice.
    method Find(source: string) returns (id: Option<string>)
      requires Accounted(State())
      ensures id == Current(plans, source)
    {
      var left := plans.Keys;
      id := None;
      while left != {}
        invariant left <= plans.Keys
        invariant id.Some? ==> IsInForce(plans, source, id.value)
        invariant id.None? ==> forall k | k in plans && k !in left :: !IsInForce(plans, source, k)
        decreases |left|
      {
        var k :| k in left;
        left := left - {k};
        if plans[k].source == source && plans[k].state == Signed {
          id := Some(k);
        }
      }
      if id.Some? {
        OnlyOneInForce(State(), source, id.value);
      }
    }

    /** The gate a command passes before it reads rows. */
    method Require(source: string, schema: seq<Table>) returns (plan: Option<Plan>, err: Option<Error>)
      requires Accounted(State())
      ensures err.None? <==> GateOpens(digest, State(), source, schema)
      ensures err.None? ==> plan == Some(plans[Current(plans, source).value])
      ensures err == Some(Unsigned) <==> Current(plans, source).None?
      ensures err == Some(Tampered) <==>
                Current(plans, source).Some? && !Verified(digest, plans[Current(plans, source).value])
    {
      var id := Find(source);
      if id.None? {
        return None, Some(Unsigned);
      }
      var p := plans[id.value];
      if digest(CanonicalOf(p.source, p.driver, p.columns)) != p.hash {
        return None, Some(Tampered);
      }
      var drift := FindDrift(p.columns, schema);
      AllClassifiedExactly(p.columns, Live(schema));
      if |drift.unclassified| > 0 {
        return None, Some(Drifted);
      }
      return Some(p), None;
    }
  }
}
