/** The model-version registry: what is stored, what each operation writes, and in which order.
  *
  * Every operation is described by the sequence of atomic writes it performs, so a crash after any
  * number of them is a prefix of that sequence. A file is known only by the hash of its bytes.
  */
module Registry {
  import opened Basics

  type Hash = s: string | s != "" witness "0"

  datatype Status = Candidate | Canary | Active | Retired

  // signedHash == "" means that nobody has signed this version.
  datatype Version = Version(
    name: string, path: string, hash: Hash, status: Status, canaryPct: int,
    signedHash: string, signedBy: string)

  datatype Act = Sign | Promote | Rollback | Other(text: string)

  datatype Entry = Entry(at: int, act: Act, name: string, who: string, fromHash: string, toHash: string)

  // versions lists the newest save first, which is the order List returns them in.
  datatype Store = Store(versions: seq<Version>, ledger: seq<Entry>)

  datatype Write = Save(version: Version) | Append(entry: Entry)

  datatype Error =
    | BadPercentage | NotRegistered | Unsigned | Unreadable | InvalidModel | NoSigner
    | ChangedOnDisk | ReadAnotherHash | WriteFailed

  /** What the outside world does during one operation.
    *
    * `disk` is the hash of every readable file, `at` the ledger's clock, `activeRead` whether the
    * query behind Active answers, `loads` whether the model files still parse, and `writesOk` how many
    * writes land before the store fails.
    */
  datatype Env = Env(disk: map<string, Hash>, at: int, activeRead: bool, loads: bool, writesOk: nat)

  datatype Plan = Plan(writes: seq<Write>, err: Option<Error>)

  function Remove(vs: seq<Version>, name: string): (r: seq<Version>) {
    if vs == [] then []
    else if vs[0].name == name then Remove(vs[1..], name)
    else [vs[0]] + Remove(vs[1..], name)
  }

  function SaveTo(vs: seq<Version>, v: Version): seq<Version> {
    [v] + Remove(vs, v.name)
  }

  function Apply(s: Store, w: Write): Store {
    match w
    case Save(v) => s.(versions := SaveTo(s.versions, v))
    case Append(e) => s.(ledger := s.ledger + [e])
  }

  function Exec(s: Store, ws: seq<Write>): Store
    decreases ws
  {
    if ws == [] then s else Exec(Apply(s, ws[0]), ws[1..])
  }

  function Find(vs: seq<Version>, name: string): (r: Option<Version>)
    ensures r.Some? ==> r.value in vs && r.value.name == name
    ensures r.None? ==> forall v | v in vs :: v.name != name
  {
    if vs == [] then None
    else if vs[0].name == name then Some(vs[0])
    else Find(vs[1..], name)
  }

  function FirstWith(vs: seq<Version>, status: Status): (r: Option<Version>)
    ensures r.Some? ==> r.value in vs && r.value.status == status
    ensures r.None? ==> forall v | v in vs :: v.status != status
  {
    if vs == [] then None
    else if vs[0].status == status then Some(vs[0])
    else FirstWith(vs[1..], status)
  }

  // ---------------------------------------------------------------- what each operation writes

  datatype Op =
    | DoRegister(name: string, path: string)
    | DoSign(name: string, readHash: string, who: string)
    | DoCanary(name: string, pct: int)
    | DoPromote(name: string)
    | DoRollback

  function Demoted(v: Version): Version {
    v.(status := Candidate, canaryPct := 0)
  }

  // One save per canary other than `except`, in list order.
  function Demotions(vs: seq<Version>, except: Option<string>): seq<Write> {
    if vs == [] then []
    else (if vs[0].status == Canary && except != Some(vs[0].name) then [Save(Demoted(vs[0]))] else [])
         + Demotions(vs[1..], except)
  }

  function RegisterPlan(name: string, path: string, io: Env): Plan {
    if path !in io.disk then Plan([], Some(Unreadable))
    else if !io.loads then Plan([], Some(InvalidModel))
    else Plan([Save(Version(name, path, io.disk[path], Candidate, 0, "", ""))], None)
  }

  function SignPlan(s: Store, name: string, readHash: string, who: string, io: Env): Plan {
    if who == "" then Plan([], Some(NoSigner))
    else match Find(s.versions, name)
      case None => Plan([], Some(NotRegistered))
      case Some(v) =>
        if v.path !in io.disk then Plan([], Some(Unreadable))
        else if io.disk[v.path] != v.hash then Plan([], Some(ChangedOnDisk))
        else if readHash != "" && readHash != io.disk[v.path] then Plan([], Some(ReadAnotherHash))
        else
          Plan([Save(v.(signedHash := io.disk[v.path], signedBy := who)),
                Append(Entry(io.at, Sign, v.name, who, "", io.disk[v.path]))], None)
  }

  function CanaryPlan(s: Store, name: string, pct: int): Plan {
    if pct < 0 || pct > 100 then Plan([], Some(BadPercentage))
    else
      var demote := Demotions(s.versions, Some(name));
      match Find(Exec(s, demote).versions, name)
      case None => Plan(demote, Some(NotRegistered))
      case Some(v) => Plan(demote + [Save(v.(status := Canary, canaryPct := pct))], None)
  }

  // The gate Promote runs before anything is written.
  function SignatureError(v: Version, io: Env): Option<Error> {
    if v.signedHash == "" then Some(Unsigned)
    else if v.path !in io.disk then Some(Unreadable)
    else if io.disk[v.path] != v.signedHash then Some(ChangedOnDisk)
    else None
  }

  // A failed read of the active version is taken for "there is none".
  function ActiveSeen(s: Store, io: Env): Option<Version> {
    if io.activeRead then FirstWith(s.versions, Active) else None
  }

  function PromotePlan(s: Store, name: string, io: Env): Plan {
    match Find(s.versions, name)
    case None => Plan([], Some(NotRegistered))
    case Some(cand) =>
      var gate := SignatureError(cand, io);
      if gate.Some? then Plan([], gate)
      else
        match ActiveSeen(s, io)
        case None => Plan(Activation(cand, Promote, "", io.at), None)
        case Some(prev) =>
          if !io.loads then Plan([], Some(InvalidModel))
          else Plan([Save(prev.(status := Retired))] + Activation(cand, Promote, prev.hash, io.at), None)
  }

  function Activated(v: Version, act: Act): Version {
    if act == Promote then v.(status := Active, canaryPct := 0) else v.(status := Active)
  }

  function Activation(v: Version, act: Act, from: string, at: int): seq<Write> {
    [Save(Activated(v, act)), Append(Entry(at, act, v.name, v.signedBy, from, v.signedHash))]
  }

  function RollbackPlan(s: Store, io: Env): Plan {
    var demote := Demotions(s.versions, None);
    if ActiveSeen(Exec(s, demote), io).Some? then Plan(demote, None)
    else match FirstWith(s.versions, Retired)
      case None => Plan(demote, None)
      case Some(v) => Plan(demote + Activation(v, Rollback, "", io.at), None)
  }

  function PlanOf(s: Store, op: Op, io: Env): Plan {
    match op
    case DoRegister(name, path) => RegisterPlan(name, path, io)
    case DoSign(name, readHash, who) => SignPlan(s, name, readHash, who, io)
    case DoCanary(name, pct) => CanaryPlan(s, name, pct)
    case DoPromote(name) => PromotePlan(s, name, io)
    case DoRollback => RollbackPlan(s, io)
  }

  // ---------------------------------------------------------------- safety at every write

  ghost predicate UniqueNames(vs: seq<Version>) {
    forall i, j | 0 <= i < j < |vs| :: vs[i].name != vs[j].name
  }

  // At most one version has this status.
  ghost predicate AtMostOne(vs: seq<Version>, status: Status) {
    forall v, w | v in vs && w in vs && v.status == status && w.status == status :: v == w
  }

  predicate SoundlySigned(v: Version) {
    && (v.signedHash != "" ==> v.signedHash == v.hash)
    && (v.status == Active || v.status == Retired ==> v.signedHash != "")
  }

  ghost predicate Safe(s: Store) {
    && UniqueNames(s.versions)
    && AtMostOne(s.versions, Active)
    && AtMostOne(s.versions, Canary)
    && forall v | v in s.versions :: SoundlySigned(v)
  }

  const EMPTY := Store([], [])

  lemma RemoveMembers(vs: seq<Version>, name: string)
    ensures forall v :: v in Remove(vs, name) <==> v in vs && v.name != name
    ensures UniqueNames(vs) ==> UniqueNames(Remove(vs, name))
  {
    if vs != [] {
      RemoveMembers(vs[1..], name);
      assert forall v :: v in vs <==> v == vs[0] || v in vs[1..];
      var r := Remove(vs[1..], name);
      if UniqueNames(vs) && vs[0].name != name {
        assert UniqueNames(vs[1..]);
        forall i | 0 <= i < |r|
          ensures r[i].name != vs[0].name
        {
          assert r[i] in vs[1..];
        }
        assert UniqueNames([vs[0]] + r);
      }
    }
  }

  // A save that keeps the store safe: consistent in itself, and no rival holds its status.
  ghost predicate LegalSave(vs: seq<Version>, v: Version) {
    && SoundlySigned(v)
    && (v.status == Active || v.status == Canary ==>
          forall w | w in vs && w.name != v.name :: w.status != v.status)
  }

  ghost predicate LegalWrite(s: Store, w: Write) {
    w.Save? ==> LegalSave(s.versions, w.version)
  }

  lemma LegalWriteKeepsSafe(s: Store, w: Write)
    requires Safe(s) && LegalWrite(s, w)
    ensures Safe(Apply(s, w))
  {
    if w.Save? {
      RemoveMembers(s.versions, w.version.name);
      var r := Remove(s.versions, w.version.name);
      forall i | 0 <= i < |r|
        ensures r[i].name != w.version.name
      {
        assert r[i] in r;
      }
    }
  }

  ghost predicate LegalPlan(s: Store, ws: seq<Write>)
    decreases ws
  {
    ws != [] ==> LegalWrite(s, ws[0]) && LegalPlan(Apply(s, ws[0]), ws[1..])
  }

  // Every prefix of a legal plan leaves a safe store.
  lemma {:induction false} LegalPlanIsSafe(s: Store, ws: seq<Write>, k: nat)
    requires Safe(s) && LegalPlan(s, ws) && k <= |ws|
    ensures Safe(Exec(s, ws[..k]))
    decreases k
  {
    if k > 0 {
      LegalWriteKeepsSafe(s, ws[0]);
      LegalPlanIsSafe(Apply(s, ws[0]), ws[1..], k - 1);
      assert ws[..k][1..] == ws[1..][..k - 1];
    }
  }

  lemma {:induction false} ExecAppend(s: Store, a: seq<Write>, b: seq<Write>)
    ensures Exec(s, a + b) == Exec(Exec(s, a), b)
    ensures LegalPlan(s, a + b) <==> LegalPlan(s, a) && LegalPlan(Exec(s, a), b)
    decreases a
  {
    if a == [] {
      assert a + b == b;
    } else {
      assert (a + b)[1..] == a[1..] + b;
      ExecAppend(Apply(s, a[0]), a[1..], b);
    }
  }

  lemma ExecTwo(s: Store, a: Write, b: Write)
    ensures Exec(s, [a]) == Apply(s, a)
    ensures Exec(s, [a, b]) == Apply(Apply(s, a), b)
  {
    ExecAppend(s, [a], [b]);
    assert [a] + [b] == [a, b];
    assert [a][1..] == [] && [b][1..] == [];
    assert Exec(s, [a]) == Exec(Apply(s, a), []);
    assert Exec(Apply(s, a), [b]) == Exec(Apply(Apply(s, a), b), []);
  }

  // ---------------------------------------------------------------- the plans are legal

  ghost predicate Demotable(v: Version, except: Option<string>) {
    v.status == Canary && except != Some(v.name)
  }

  ghost predicate DemotesName(vs: seq<Version>, except: Option<string>, name: string) {
    exists v | v in vs :: Demotable(v, except) && v.name == name
  }

  ghost predicate DemotesInto(vs: seq<Version>, except: Option<string>, w: Version) {
    exists v | v in vs :: Demotable(v, except) && w == Demoted(v)
  }

  lemma {:induction false} DemotionsAreLegal(s: Store, vs: seq<Version>, except: Option<string>)
    requires forall v | v in vs :: SoundlySigned(v)
    ensures LegalPlan(s, Demotions(vs, except))
    decreases |vs|
  {
    if vs != [] {
      var ws := Demotions(vs, except);
      if Demotable(vs[0], except) {
        var w := Save(Demoted(vs[0]));
        assert SoundlySigned(vs[0]);
        DemotionsAreLegal(Apply(s, w), vs[1..], except);
        assert ws == [w] + Demotions(vs[1..], except);
        assert ws[1..] == Demotions(vs[1..], except);
      } else {
        DemotionsAreLegal(s, vs[1..], except);
        assert ws == Demotions(vs[1..], except);
      }
    }
  }

  // What a run of demotions leaves: a demoted version replaces the one of its name, the rest stays.
  lemma {:induction false} DemotionsReplace(s: Store, vs: seq<Version>, except: Option<string>)
    requires UniqueNames(vs)
    ensures var t := Exec(s, Demotions(vs, except));
            && t.ledger == s.ledger
            && forall w :: w in t.versions <==>
                 (w in s.versions && !DemotesName(vs, except, w.name)) || DemotesInto(vs, except, w)
    decreases |vs|
  {
    if vs != [] {
      assert UniqueNames(vs[1..]);
      assert forall v :: v in vs <==> v == vs[0] || v in vs[1..];
      assert forall v | v in vs[1..] :: v.name != vs[0].name;
      var ws := Demotions(vs, except);
      if Demotable(vs[0], except) {
        var w := Save(Demoted(vs[0]));
        assert ws == [w] + Demotions(vs[1..], except);
        assert ws[1..] == Demotions(vs[1..], except);
        RemoveMembers(s.versions, vs[0].name);
        DemotionsReplace(Apply(s, w), vs[1..], except);
      } else {
        assert ws == Demotions(vs[1..], except);
        DemotionsReplace(s, vs[1..], except);
      }
    }
  }

  // After demoting a store's own canaries, no version gained a status and only `except` is a canary.
  lemma DemotedStore(s: Store, except: Option<string>)
    requires UniqueNames(s.versions)
    ensures var t := Exec(s, Demotions(s.versions, except));
            && t.ledger == s.ledger
            && (forall w | w in t.versions && w.status != Candidate :: w in s.versions)
            && (forall w | w in t.versions && w.status == Canary :: except == Some(w.name))
            && (forall w | w in s.versions && w.status != Canary :: w in t.versions)
  {
    DemotionsReplace(s, s.versions, except);
    var t := Exec(s, Demotions(s.versions, except));
    forall w | w in s.versions && w.status != Canary
      ensures w in t.versions
    {
      forall v | v in s.versions && v.name == w.name
        ensures v == w
      {
        SameName(s.versions, v, w);
      }
    }
    forall w | w in t.versions && w.status == Canary
      ensures except == Some(w.name)
    {
      assert !DemotesName(s.versions, except, w.name);
      assert !Demotable(w, except);
    }
  }

  lemma SameName(vs: seq<Version>, v: Version, w: Version)
    requires UniqueNames(vs) && v in vs && w in vs && v.name == w.name
    ensures v == w
  {
    var i, j :| 0 <= i < |vs| && 0 <= j < |vs| && vs[i] == v && vs[j] == w;
    assert i == j;
  }

  /** Whether an operation goes on to activate a version: a signed one is found, or a retired one, while
    * another version is active.
    */
  predicate ActiveReadMatters(s: Store, op: Op, io: Env) {
    match op
    case DoPromote(name) =>
      && Find(s.versions, name).Some? && SignatureError(Find(s.versions, name).value, io).None?
      && exists w | w in s.versions :: w.status == Active && w.name != name
    case DoRollback =>
      && FirstWith(s.versions, Retired).Some?
      && FirstWith(s.versions, Active).Some?
    case _ => false
  }

  // The active version can be read, or it does not matter.
  predicate Harmless(s: Store, op: Op, io: Env) {
    io.activeRead || !ActiveReadMatters(s, op, io)
  }

  lemma PromoteIsLegal(s: Store, name: string, io: Env)
    requires Safe(s) && Harmless(s, DoPromote(name), io)
    ensures LegalPlan(s, PromotePlan(s, name, io).writes)
  {
    var plan := PromotePlan(s, name, io);
    if plan.err.None? {
      var cand := Find(s.versions, name).value;
      match ActiveSeen(s, io)
      case None =>
        assert LegalSave(s.versions, Activated(cand, Promote));
      case Some(prev) =>
        var w := Save(prev.(status := Retired));
        RemoveMembers(s.versions, prev.name);
        var t := Apply(s, w);
        assert LegalSave(s.versions, w.version);
        assert forall v | v in t.versions :: v.status != Active;
        assert LegalPlan(t, Activation(cand, Promote, prev.hash, io.at));
        ExecAppend(s, [w], Activation(cand, Promote, prev.hash, io.at));
    }
  }

  lemma RollbackIsLegal(s: Store, io: Env)
    requires Safe(s) && Harmless(s, DoRollback, io)
    ensures LegalPlan(s, RollbackPlan(s, io).writes)
  {
    var demote := Demotions(s.versions, None);
    var t := Exec(s, demote);
    DemotionsAreLegal(s, s.versions, None);
    if ActiveSeen(t, io).None? && FirstWith(s.versions, Retired).Some? {
      var v := FirstWith(s.versions, Retired).value;
      DemotedStore(s, None);
      assert forall w | w in t.versions :: w.status != Active;
      assert LegalPlan(t, Activation(v, Rollback, "", io.at));
      ExecAppend(s, demote, Activation(v, Rollback, "", io.at));
    }
  }

  lemma CanaryIsLegal(s: Store, name: string, pct: int)
    requires Safe(s)
    ensures LegalPlan(s, CanaryPlan(s, name, pct).writes)
  {
    var demote := Demotions(s.versions, Some(name));
    var t := Exec(s, demote);
    DemotionsAreLegal(s, s.versions, Some(name));
    if 0 <= pct <= 100 && Find(t.versions, name).Some? {
      var v := Find(t.versions, name).value;
      LegalPlanIsSafe(s, demote, |demote|);
      assert demote[..|demote|] == demote;
      DemotedStore(s, Some(name));
      forall w | w in t.versions && w.name != name
        ensures w.status != Canary
      {
      }
      ExecAppend(s, demote, [Save(v.(status := Canary, canaryPct := pct))]);
    }
  }

  lemma SignIsLegal(s: Store, name: string, readHash: string, who: string, io: Env)
    requires Safe(s)
    ensures LegalPlan(s, SignPlan(s, name, readHash, who, io).writes)
  {
    var plan := SignPlan(s, name, readHash, who, io);
    if plan.err.None? {
      var v := Find(s.versions, name).value;
      var signed := v.(signedHash := io.disk[v.path], signedBy := who);
      forall w | w in s.versions && w.name != v.name && (v.status == Active || v.status == Canary)
        ensures w.status != v.status
      {
      }
      assert LegalSave(s.versions, signed);
    }
  }

  lemma HarmlessIsLegal(s: Store, op: Op, io: Env)
    requires Safe(s) && Harmless(s, op, io)
    ensures LegalPlan(s, PlanOf(s, op, io).writes)
  {
    match op
    case DoRegister(name, path) =>
    case DoSign(name, readHash, who) => SignIsLegal(s, name, readHash, who, io);
    case DoCanary(name, pct) => CanaryIsLegal(s, name, pct);
    case DoPromote(name) => PromoteIsLegal(s, name, io);
    case DoRollback => RollbackIsLegal(s, io);
  }

  // With the read lost and a rival active, the completed operation leaves two active versions.
  lemma LostReadActivatesTwo(s: Store, op: Op, io: Env)
    requires Safe(s) && !Harmless(s, op, io)
    ensures !AtMostOne(Exec(s, PlanOf(s, op, io).writes).versions, Active)
  {
    match op
    case DoPromote(name) =>
      var cand := Find(s.versions, name).value;
      var rival :| rival in s.versions && rival.status == Active && rival.name != name;
      var ws := Activation(cand, Promote, "", io.at);
      RemoveMembers(s.versions, name);
      var t := Exec(s, ws);
      ExecTwo(s, ws[0], ws[1]);
      assert rival in t.versions && Activated(cand, Promote) in t.versions;
    case DoRollback =>
      var v := FirstWith(s.versions, Retired).value;
      var rival := FirstWith(s.versions, Active).value;
      var demote := Demotions(s.versions, None);
      var ws := Activation(v, Rollback, "", io.at);
      DemotedStore(s, None);
      ExecAppend(s, demote, ws);
      var t := Exec(s, demote);
      assert rival in t.versions;
      RemoveMembers(t.versions, v.name);
      ExecTwo(t, ws[0], ws[1]);
      assert rival in Exec(t, ws).versions && Activated(v, Rollback) in Exec(t, ws).versions;
  }

  /** Main result: from a safe store, every store an operation passes through, whichever write is the
    * last to land, is safe if and only if no lost read hides an active rival.
    */
  lemma SafeAtEveryWrite(s: Store, op: Op, io: Env)
    requires Safe(s)
    ensures Harmless(s, op, io) <==>
            forall k: nat | k <= |PlanOf(s, op, io).writes| :: Safe(Exec(s, PlanOf(s, op, io).writes[..k]))
  {
    var ws := PlanOf(s, op, io).writes;
    if Harmless(s, op, io) {
      HarmlessIsLegal(s, op, io);
      forall k: nat | k <= |ws|
        ensures Safe(Exec(s, ws[..k]))
      {
        LegalPlanIsSafe(s, ws, k);
      }
    } else {
      LostReadActivatesTwo(s, op, io);
      assert ws[..|ws|] == ws;
    }
  }

  // ---------------------------------------------------------------- whole runs

  datatype Event = Event(op: Op, io: Env)

  function Landed(s: Store, e: Event): seq<Write> {
    var ws := PlanOf(s, e.op, e.io).writes;
    ws[..Min(e.io.writesOk, |ws|)]
  }

  function Step(s: Store, e: Event): Store {
    Exec(s, Landed(s, e))
  }

  function Run(s: Store, events: seq<Event>): Store {
    if events == [] then s else Step(Run(s, events[..|events| - 1]), events[|events| - 1])
  }

  // No operation of the run activates a version while a lost read hides an active rival.
  ghost predicate HarmlessRun(events: seq<Event>) {
    forall i | 0 <= i < |events| :: Harmless(Run(EMPTY, events[..i]), events[i].op, events[i].io)
  }

  /** Every harmless run of operations, crashes and unreadable files included, reaches only safe stores. */
  lemma {:induction false} HarmlessRunIsSafe(events: seq<Event>)
    requires HarmlessRun(events)
    ensures Safe(Run(EMPTY, events))
  {
    if events != [] {
      var n := |events| - 1;
      assert forall i | 0 <= i < n :: events[..n][..i] == events[..i];
      HarmlessRunIsSafe(events[..n]);
      SafeAtEveryWrite(Run(EMPTY, events[..n]), events[n].op, events[n].io);
    }
  }

  // In particular when the active version can always be read.
  lemma EveryRunIsSafe(events: seq<Event>)
    requires forall i | 0 <= i < |events| :: events[i].io.activeRead
    ensures Safe(Run(EMPTY, events))
  {
    HarmlessRunIsSafe(events);
  }

  // ---------------------------------------------------------------- what holds even when a read is lost

  /** Every version is soundly signed: kept by every write, however the reads of the active version turn out. */
  predicate AllSound(vs: seq<Version>) {
    forall v | v in vs :: SoundlySigned(v)
  }

  predicate SoundWrites(ws: seq<Write>) {
    forall i | 0 <= i < |ws| && ws[i].Save? :: SoundlySigned(ws[i].version)
  }

  lemma {:induction false} SoundWritesKeepSound(s: Store, ws: seq<Write>)
    requires AllSound(s.versions) && SoundWrites(ws)
    ensures AllSound(Exec(s, ws).versions)
    decreases ws
  {
    if ws != [] {
      if ws[0].Save? {
        RemoveMembers(s.versions, ws[0].version.name);
      }
      SoundWritesKeepSound(Apply(s, ws[0]), ws[1..]);
    }
  }

  lemma {:induction false} DemotionsAreSound(vs: seq<Version>, except: Option<string>)
    requires AllSound(vs)
    ensures SoundWrites(Demotions(vs, except))
  {
    if vs != [] {
      DemotionsAreSound(vs[1..], except);
      var rest, ws := Demotions(vs[1..], except), Demotions(vs, except);
      assert SoundlySigned(vs[0]) && SoundlySigned(Demoted(vs[0]));
      forall i | 0 <= i < |ws| && ws[i].Save?
        ensures SoundlySigned(ws[i].version)
      {
        assert ws[i] == Save(Demoted(vs[0])) || ws[i] in rest;
      }
    }
  }

  lemma PlansAreSound(s: Store, op: Op, io: Env)
    requires AllSound(s.versions)
    ensures SoundWrites(PlanOf(s, op, io).writes)
  {
    match op
    case DoRegister(name, path) =>
    case DoSign(name, readHash, who) =>
    case DoCanary(name, pct) =>
      DemotionsAreSound(s.versions, Some(name));
      SoundWritesKeepSound(s, Demotions(s.versions, Some(name)));
    case DoPromote(name) =>
    case DoRollback =>
      DemotionsAreSound(s.versions, None);
  }

  lemma {:induction false} RunStaysSound(events: seq<Event>)
    ensures AllSound(Run(EMPTY, events).versions)
  {
    if events != [] {
      var n := |events| - 1;
      RunStaysSound(events[..n]);
      PlansAreSound(Run(EMPTY, events[..n]), events[n].op, events[n].io);
      SoundWritesKeepSound(Run(EMPTY, events[..n]), Landed(Run(EMPTY, events[..n]), events[n]));
    }
  }

  // What goes live is the file somebody signed: the bytes on disk, the signature, the registered
  // hash and the ledger line agree.
  lemma PromotedAsSigned(s: Store, name: string, io: Env)
    requires AllSound(s.versions) && PromotePlan(s, name, io).err.None?
    ensures var ws := PromotePlan(s, name, io).writes;
            && |ws| >= 2 && ws[|ws| - 2].Save? && ws[|ws| - 1].Append?
            && var live := ws[|ws| - 2].version;
            && live.name == name && live.status == Active && live.path in io.disk
            && io.disk[live.path] == live.signedHash == live.hash == ws[|ws| - 1].entry.toHash
  {
    var cand := Find(s.versions, name).value;
    assert SoundlySigned(cand);
  }
}
