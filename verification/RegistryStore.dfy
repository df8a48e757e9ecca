/** The registry as it runs: versions and ledger in the warehouse, their copy in the brain. */
module RegistryStore {
  import opened Basics
  import Registry
  import opened History
  import opened Mirror

  type Version = Registry.Version
  type Entry = Registry.Entry
  type Env = Registry.Env
  type Error = Registry.Error

  function Indices(n: nat): (r: set<nat>)
    ensures forall i: nat :: i in r <==> i < n
  {
    if n == 0 then {} else Indices(n - 1) + {n - 1}
  }

  // `after` adds to `before` only decisions of the first upTo lines.
  ghost predicate Grew(entries: seq<Entry>, before: Brain, after: Brain, upTo: nat) {
    && before.decisions.Keys <= after.decisions.Keys
    && forall i | upTo <= i < |entries| && IdOf(entries[i]) in after.decisions ::
         IdOf(entries[i]) in before.decisions
  }

  ghost predicate Above(visiting: set<nat>, i: int) {
    forall v | v in visiting :: i < v
  }

  class RegistryStore {
    var versions: seq<Version>  // newest save first
    var ledger: seq<Entry>
    var brain: Brain
    var brainFails: bool        // whether calls to the brain may fail at the moment
    ghost var neverWrong: bool  // whether the brain was faithful after each write it received

    constructor ()
      ensures State() == Registry.EMPTY && brain == EMPTY_BRAIN && neverWrong
    {
      versions, ledger, brain, brainFails := [], [], EMPTY_BRAIN, false;
      neverWrong := true;
    }

    function State(): Registry.Store
      reads this
    {
      Registry.Store(versions, ledger)
    }

    // ---------------------------------------------------------------- the warehouse

    // The n-th write of an operation lands if the store has not failed by then.
    method Save(v: Version, n: nat, io: Env) returns (ok: bool)
      modifies this`versions
      ensures ok == (n < io.writesOk)
      ensures State() == if ok then Registry.Apply(old(State()), Registry.Save(v)) else old(State())
    {
      ok := n < io.writesOk;
      if ok {
        versions := Registry.SaveTo(versions, v);
      }
    }

    method Record(e: Entry, n: nat, io: Env) returns (ok: bool)
      modifies this`ledger
      ensures ok == (n < io.writesOk)
      ensures State() == if ok then Registry.Apply(old(State()), Registry.Append(e)) else old(State())
    {
      ok := n < io.writesOk;
      if ok {
        ledger := ledger + [e];
      }
    }

    // ---------------------------------------------------------------- the brain

    // A failed read looks like an absent node.
    method Holds(id: DecisionId) returns (h: bool)
      ensures h ==> id in brain.decisions
      ensures !brainFails ==> h == (id in brain.decisions)
    {
      var answered := *;
      h := (answered || !brainFails) && id in brain.decisions;
    }

    method EnsureModelNode(hash: string) returns (err: bool)
      modifies this`brain, this`neverWrong
      ensures brain == old(brain) || brain == old(brain).(modelNodes := old(brain).modelNodes + {hash})
      ensures !err ==> hash in brain.modelNodes
      ensures neverWrong == (old(neverWrong) && Faithful(ledger, brain))
      ensures !brainFails ==> !err
    {
      var landed, answered := *, *;
      if landed || !brainFails {
        brain := brain.(modelNodes := brain.modelNodes + {hash});
      }
      err := brainFails && !(landed && answered);
      neverWrong := neverWrong && Faithful(ledger, brain);
    }

    // The write may be lost, and it may land although an error comes back.
    method RecordDecision(d: Decision) returns (err: bool)
      modifies this`brain, this`neverWrong
      ensures brain == old(brain) || Records(old(brain), brain, d)
      ensures !err ==> Records(old(brain), brain, d)
      ensures neverWrong == (old(neverWrong) && Faithful(ledger, brain))
      ensures !brainFails ==> !err
    {
      var landed, answered := *, *;
      if landed || !brainFails {
        brain := brain.(decisions := brain.decisions[d.id := d]);
      }
      err := brainFails && !(landed && answered);
      neverWrong := neverWrong && Faithful(ledger, brain);
    }

    // ---------------------------------------------------------------- the mirror

    /** The ledger can be copied, and the copy has been faithful at every instant so far. */
    ghost predicate Sound()
      reads this
    {
      && Mirrorable(ledger)
      && Faithful(ledger, brain)
      && neverWrong
    }

    // Which lines entry i points at; known is false for an act the mirror cannot read.
    method Targets(i: nat) returns (basedOn: int, supersedes: int, known: bool)
      requires i < |ledger|
      ensures -1 <= basedOn < |ledger| && -1 <= supersedes < |ledger|
      ensures known == !ledger[i].act.Other?
      ensures known ==> basedOn == BasedOn(ledger, i) && supersedes == Supersedes(ledger, i)
    {
      var e := ledger[i];
      basedOn, supersedes, known := -1, -1, true;
      match e.act {
        case Sign =>
        case Promote =>
          basedOn := Latest(ledger, i, SignOf(e.name, e.toHash));
          if e.fromHash != "" {
            supersedes := Latest(ledger, i, ActivationOf(e.fromHash));
          }
        case Rollback =>
          basedOn := Latest(ledger, i, SignOf(e.name, e.toHash));
          supersedes := Latest(ledger, i, AnyActivation);
        case Other(_) =>
          known := false;
      }
    }

    // Writes the decision of line i, after the node of the model it is about.
    method WriteDecision(i: nat, premise: Option<DecisionId>, supersedes: Option<DecisionId>)
      returns (err: bool)
      requires i < |ledger|
      modifies this`brain, this`neverWrong
      ensures !brainFails ==> !err
      ensures (&& old(Sound()) && EdgeHeld(old(brain), premise) && EdgeHeld(old(brain), supersedes)
               && premise == EdgeTo(ledger, BasedOn(ledger, i))
               && supersedes == EdgeTo(ledger, Supersedes(ledger, i))) ==> Sound()
      ensures brain.decisions == old(brain).decisions
              || brain.decisions.Keys == old(brain).decisions.Keys + {IdOf(ledger[i])}
      ensures !err ==> IdOf(ledger[i]) in brain.decisions
    {
      var e := ledger[i];
      var d := Decision(IdOf(e), e.who, e.toHash, premise, supersedes);
      hide Faithful, Mirrorable, BasedOn, Supersedes, EdgeTo, EdgeHeld, IdOf, Records;
      ghost var sound := old(Sound());
      ghost var own := && sound && EdgeHeld(brain, premise) && EdgeHeld(brain, supersedes)
                       && premise == EdgeTo(ledger, BasedOn(ledger, i))
                       && supersedes == EdgeTo(ledger, Supersedes(ledger, i));
      ghost var b0 := brain;
      err := EnsureModelNode(e.toHash);
      ghost var b1 := brain;
      if sound {
        NodeKeepsFaithful(ledger, i, b0, b1);
      }
      if err {
        return;
      }
      err := RecordDecision(d);
      if own {
        EdgesStayHeld(b0, b1, premise, supersedes);
        DecisionKeepsFaithful(ledger, i, d, b1, brain);
      }
      RecordedOne(b1, brain, d);
    }

    /** Writes the decision of a ledger line after those it has edges to, as far as they are missing. No line is
      * visited twice on the way down, so that it ends on every ledger, ties included.
      */
    method MirrorEntry(i: nat, visiting: set<nat>) returns (written: nat, err: bool)
      requires i < |ledger| && i !in visiting && visiting <= Indices(|ledger|)
      modifies this`brain, this`neverWrong
      ensures old(Sound()) && Above(visiting, i) ==>
                && Sound() && Grew(ledger, old(brain), brain, i + 1)
                && (!err ==> IdOf(ledger[i]) in brain.decisions)
                && (!brainFails ==> !err)
                && (!brainFails && IdOf(ledger[i]) !in old(brain).decisions ==>
                      written == |brain.decisions| - |old(brain).decisions|)
      decreases Indices(|ledger|) - visiting, 0
    {
      hide Faithful, BasedOn, Supersedes;
      written, err := 0, false;
      assert ledger[i] in ledger;
      if ledger[i].toHash == "" {
        return;
      }
      var basedOn, supersedes, known := Targets(i);
      if !known {
        return 0, true;
      }
      ghost var deep := old(Sound()) && Above(visiting, i);
      if deep {
        PointsBackwards(ledger, i);
      }
      var premise, superseded, n;
      premise, written, err := Dependency(i, basedOn, visiting + {i});
      if err {
        return;
      }
      ghost var b1 := brain;
      superseded, n, err := Dependency(i, supersedes, visiting + {i});
      written := written + n;
      if err {
        return;
      }
      ghost var b2 := brain;
      assert deep ==> Grew(ledger, old(brain), b2, i);
      err := WriteDecision(i, premise, superseded);
      if err {
        return;
      }
      written := written + 1;
      assert deep && IdOf(ledger[i]) !in old(brain).decisions ==>
          |brain.decisions| == |b2.decisions| + 1 by {
        if deep && IdOf(ledger[i]) !in old(brain).decisions {
          assert IdOf(ledger[i]) !in b2.decisions;
          OneMoreKey(b2.decisions, brain.decisions, IdOf(ledger[i]));
        }
      }
    }

    // The id of the line an edge points at, recording that line first when the brain lacks it.
    method Dependency(ghost i: nat, j: int, visiting: set<nat>)
      returns (edge: Option<DecisionId>, written: nat, err: bool)
      requires -1 <= j < |ledger| && visiting <= Indices(|ledger|)
      modifies this`brain, this`neverWrong
      ensures old(Sound()) && j < i && Above(visiting, i - 1) ==>
                && Sound() && Grew(ledger, old(brain), brain, i)
                && (!err ==> edge == EdgeTo(ledger, j) && EdgeHeld(brain, edge))
                && (!brainFails ==> !err && written == |brain.decisions| - |old(brain).decisions|)
      decreases Indices(|ledger|) - visiting, 1
    {
      hide Faithful, Strict, BasedOn, Supersedes, DecisionOf;
      edge, written, err := None, 0, false;
      if j < 0 || j in visiting {
        return;
      }
      var id := IdOf(ledger[j]);
      var held := Holds(id);
      if held {
        return Some(id), 0, false;
      }
      written, err := MirrorEntry(j, visiting);
      if !err {
        edge := Some(id);
      }
    }

    /** Mirrors every line that is missing. Whatever the brain lacked, a run without an error leaves exactly the
      * ledger's full copy, and with a brain that answers, n is the number of decisions added: none the second
      * time.
      */
    method Resync() returns (n: nat, err: bool)
      modifies this`brain, this`neverWrong
      ensures old(Sound()) ==>
                && Sound() && old(brain).decisions.Keys <= brain.decisions.Keys
                && (!err ==> Complete(ledger, brain) && brain == FullCopy(ledger))
                && (!brainFails ==> !err && n == |brain.decisions| - |old(brain).decisions|)
      ensures old(Sound()) && !brainFails && Complete(ledger, old(brain)) ==> n == 0 && brain == old(brain)
    {
      hide Faithful, Strict, FullCopy, DecisionOf;
      n, err := 0, false;
      for i := 0 to |ledger|
        invariant !err
        invariant old(Sound()) ==>
                    && Sound() && old(brain).decisions.Keys <= brain.decisions.Keys
                    && (forall j | 0 <= j < i :: IdOf(ledger[j]) in brain.decisions)
                    && (!brainFails ==> n == |brain.decisions| - |old(brain).decisions|)
        invariant old(Sound()) && !brainFails && Complete(ledger, old(brain)) ==> n == 0 && brain == old(brain)
      {
        var e := ledger[i];
        assert e in ledger;
        if e.toHash == "" {
          continue;
        }
        var held := Holds(IdOf(e));
        if held {
          continue;
        }
        var written;
        written, err := MirrorEntry(i, {});
        n := n + written;
        if err {
          return;
        }
      }
      if old(Sound()) {
        CompleteIsFullCopy(ledger, brain);
      }
    }

    // The newest line about an act is mirrored; should that fail, the act stands.
    method MirrorLine(act: Registry.Act, name: string, hash: string) returns (reported: bool)
      modifies this`brain, this`neverWrong
      ensures old(Sound()) ==> Sound() && old(brain).decisions.Keys <= brain.decisions.Keys
      ensures old(Sound()) && !brainFails && |ledger| > 0
              && Matches(Line(act, name, hash), ledger[|ledger| - 1]) ==>
                !reported && IdOf(ledger[|ledger| - 1]) in brain.decisions
    {
      hide Faithful, Strict, IsLatest, Matches;
      var i := Latest(ledger, |ledger|, Line(act, name, hash));
      if old(Sound()) && |ledger| > 0 && Matches(Line(act, name, hash), ledger[|ledger| - 1]) {
        LastLineIsLatest(ledger, Line(act, name, hash));
      }
      if i < 0 {
        return true;
      }
      var written;
      written, reported := MirrorEntry(i, {});
    }

    // ---------------------------------------------------------------- the operations

    /** Appending a line by an operation leaves the brain sound; the line's own decision reaches it
      * unless the brain fails.
      */
    method MirrorAppended(e: Entry, ghost before: seq<Entry>) returns (reported: bool)
      requires ledger == before + [e]
      modifies this`brain, this`neverWrong
      ensures Mirrorable(before) && Faithful(before, old(brain)) && old(neverWrong) && Mirrorable(ledger) ==>
                Sound() && (!brainFails ==> !reported && IdOf(e) in brain.decisions)
    {
      hide Faithful;
      if Mirrorable(before) && Faithful(before, brain) && Mirrorable(ledger) {
        GrowingKeepsFaithful(before, e, brain);
      }
      assert Matches(Line(e.act, e.name, e.toHash), ledger[|ledger| - 1]);
      reported := MirrorLine(e.act, e.name, e.toHash);
    }

    // How the error of an operation follows from its plan.
    static function Outcome(plan: Registry.Plan, io: Env): Option<Error> {
      if |plan.writes| > io.writesOk then Some(Registry.WriteFailed) else plan.err
    }

    method Register(name: string, path: string, io: Env) returns (err: Option<Error>)
      modifies this`versions
      ensures var op := Registry.DoRegister(name, path);
              && State() == Registry.Step(old(State()), Registry.Event(op, io))
              && err == Outcome(Registry.PlanOf(old(State()), op, io), io)
    {
      if path !in io.disk {
        return Some(Registry.Unreadable);
      }
      if !io.loads {
        return Some(Registry.InvalidModel);
      }
      var v := Registry.Version(name, path, io.disk[path], Registry.Candidate, 0, "", "");
      ghost var ws := [Registry.Save(v)];
      Registry.ExecTwo(State(), ws[0], ws[0]);
      assert ws[..1] == ws && ws[..0] == [];
      var ok := Save(v, 0, io);
      err := if ok then None else Some(Registry.WriteFailed);
    }

    // Demotes every canary but `except`, one save each; n counts the saves that landed.
    method DemoteCanaries(except: Option<string>, io: Env) returns (n: nat, ok: bool)
      modifies this`versions
      ensures var demote := Registry.Demotions(old(versions), except);
              && ok == (|demote| <= io.writesOk)
              && n == Min(io.writesOk, |demote|)
              && State() == Registry.Exec(old(State()), demote[..n])
    {
      hide Registry.Apply, Registry.Exec, Registry.Demotions;
      var all := versions;
      ghost var start := State();
      n, ok := 0, true;
      NoDemotionYet(start, all, except);
      for i := 0 to |all|
        invariant ok && n == |Registry.Demotions(all[..i], except)| <= io.writesOk
        invariant State() == Registry.Exec(start, Registry.Demotions(all[..i], except))
      {
        var v := all[i];
        DemoteNext(start, all, i, except);
        if v.status == Registry.Canary && except != Some(v.name) {
          ok := Save(Registry.Demoted(v), n, io);
          if !ok {
            assert Registry.Demotions(all, except)[..n] == Registry.Demotions(all[..i], except);
            return;
          }
          n := n + 1;
        }
      }
      assert all[..|all|] == all;
      assert Registry.Demotions(all, except)[..n] == Registry.Demotions(all, except);
    }

    method Canary(name: string, pct: int, io: Env) returns (err: Option<Error>)
      modifies this`versions
      ensures var op := Registry.DoCanary(name, pct);
              && State() == Registry.Step(old(State()), Registry.Event(op, io))
              && err == Outcome(Registry.PlanOf(old(State()), op, io), io)
    {
      if pct < 0 || pct > 100 {
        return Some(Registry.BadPercentage);
      }
      ghost var s := State();
      ghost var demote := Registry.Demotions(versions, Some(name));
      ghost var ws := Registry.CanaryPlan(s, name, pct).writes;
      assert demote <= ws;
      var n, ok := DemoteCanaries(Some(name), io);
      if !ok {
        assert ws[..n] == demote[..n];
        return Some(Registry.WriteFailed);
      }
      assert demote[..n] == demote;
      match Registry.Find(versions, name) {
        case None =>
          assert ws[..n] == demote;
          return Some(Registry.NotRegistered);
        case Some(v) =>
          var w := Registry.Save(v.(status := Registry.Canary, canaryPct := pct));
          assert ws == demote + [w];
          Registry.ExecAppend(s, demote, [w]);
          Registry.ExecTwo(State(), w, w);
          assert ws[..n] == demote && ws[..|ws|] == ws;
          ok := Save(w.version, n, io);
          err := if ok then None else Some(Registry.WriteFailed);
      }
    }

    /** What each of the three recorded operations promises about the brain: it stays sound, and the
      * line just written is in it unless the brain fails.
      */
    twostate predicate LineMirrored()
      reads this
    {
      old(Sound()) && Mirrorable(ledger) ==>
        && Sound()
        && (!brainFails && |ledger| > |old(ledger)| ==> IdOf(ledger[|ledger| - 1]) in brain.decisions)
    }

    // The last two writes of a promotion or a rollback, and the mirror after them.
    method Activate(v: Version, act: Registry.Act, from: string, n: nat, io: Env) returns (ok: bool)
      requires IsActivation(Registry.Entry(io.at, act, v.name, v.signedBy, from, v.signedHash))
      modifies this`versions, this`ledger, this`brain, this`neverWrong
      ensures var ws := Registry.Activation(v, act, from, io.at);
              && ok == (n + 2 <= io.writesOk)
              && State() == Registry.Exec(old(State()), ws[..if ok then 2 else if n < io.writesOk then 1 else 0])
      ensures LineMirrored()
    {
      hide Faithful;
      ghost var s := State();
      ghost var ws := Registry.Activation(v, act, from, io.at);
      Registry.ExecTwo(s, ws[0], ws[1]);
      assert ws[..2] == ws && ws[..1] == [ws[0]] && ws[..0] == [];
      ok := Save(Registry.Activated(v, act), n, io);
      if !ok {
        return;
      }
      var e := Registry.Entry(io.at, act, v.name, v.signedBy, from, v.signedHash);
      ok := Record(e, n + 1, io);
      if !ok {
        return;
      }
      var reported := MirrorAppended(e, s.ledger);
    }

    /** Who approved the file, bound to the hash of its bytes. */
    method Sign(name: string, readHash: string, who: string, io: Env) returns (err: Option<Error>)
      modifies this`versions, this`ledger, this`brain, this`neverWrong
      ensures var op := Registry.DoSign(name, readHash, who);
              && State() == Registry.Step(old(State()), Registry.Event(op, io))
              && err == Outcome(Registry.PlanOf(old(State()), op, io), io)
      ensures LineMirrored()
    {
      hide Faithful;
      if who == "" {
        return Some(Registry.NoSigner);
      }
      match Registry.Find(versions, name) {
        case None =>
          return Some(Registry.NotRegistered);
        case Some(v) =>
          if v.path !in io.disk {
            return Some(Registry.Unreadable);
          }
          var onDisk := io.disk[v.path];
          if onDisk != v.hash {
            return Some(Registry.ChangedOnDisk);
          }
          if readHash != "" && readHash != onDisk {
            return Some(Registry.ReadAnotherHash);
          }
          var e := Registry.Entry(io.at, Registry.Sign, v.name, who, "", onDisk);
          ghost var s := State();
          ghost var ws := Registry.SignPlan(s, name, readHash, who, io).writes;
          assert ws[1] == Registry.Append(e);
          Registry.ExecTwo(s, ws[0], ws[1]);
          assert ws[..2] == ws && ws[..1] == [ws[0]] && ws[..0] == [];
          var ok := Save(v.(signedHash := onDisk, signedBy := who), 0, io);
          if !ok {
            return Some(Registry.WriteFailed);
          }
          ok := Record(e, 1, io);
          if !ok {
            return Some(Registry.WriteFailed);
          }
          var reported := MirrorAppended(e, s.ledger);
          err := None;
      }
    }

    method Promote(name: string, io: Env) returns (err: Option<Error>)
      modifies this`versions, this`ledger, this`brain, this`neverWrong
      ensures var op := Registry.DoPromote(name);
              && State() == Registry.Step(old(State()), Registry.Event(op, io))
              && err == Outcome(Registry.PlanOf(old(State()), op, io), io)
      ensures LineMirrored()
    {
      hide Faithful;
      match Registry.Find(versions, name) {
        case None =>
          return Some(Registry.NotRegistered);
        case Some(cand) =>
          var gate := Registry.SignatureError(cand, io);
          if gate.Some? {
            return gate;
          }
          ghost var s := State();
          ghost var ws := Registry.PromotePlan(s, name, io).writes;
          var ok;
          match Registry.ActiveSeen(State(), io) {
            case None =>
              ok := Activate(cand, Registry.Promote, "", 0, io);
            case Some(prev) =>
              if !io.loads {
                return Some(Registry.InvalidModel);
              }
              var w := Registry.Save(prev.(status := Registry.Retired));
              ghost var rest := Registry.Activation(cand, Registry.Promote, prev.hash, io.at);
              Registry.ExecTwo(s, w, w);
              assert ws == [w] + rest && ws[..0] == [] && ws[..1] == [w] + rest[..0];
              assert ws[..2] == [w] + rest[..1] && ws[..3] == [w] + rest[..2];
              ok := Save(w.version, 0, io);
              if !ok {
                return Some(Registry.WriteFailed);
              }
              ghost var k := if io.writesOk >= 3 then 2 else if io.writesOk == 2 then 1 else 0;
              Registry.ExecAppend(s, [w], rest[..k]);
              ok := Activate(cand, Registry.Promote, prev.hash, 1, io);
          }
          err := if ok then None else Some(Registry.WriteFailed);
      }
    }

    method Rollback(io: Env) returns (err: Option<Error>)
      modifies this`versions, this`ledger, this`brain, this`neverWrong
      ensures State() == Registry.Step(old(State()), Registry.Event(Registry.DoRollback, io))
      ensures err == Outcome(Registry.PlanOf(old(State()), Registry.DoRollback, io), io)
      ensures LineMirrored()
    {
      hide Faithful, Mirrorable, Registry.Demotions, Registry.Exec, Registry.FirstWith;
      ghost var s := State();
      var all := versions;
      ghost var demote := Registry.Demotions(all, None);
      ghost var ws := Registry.RollbackPlan(s, io).writes;
      assert demote <= ws;
      var n, ok := DemoteCanaries(None, io);
      if !ok {
        assert ws[..n] == demote[..n];
        return Some(Registry.WriteFailed);
      }
      assert demote[..n] == demote;
      if Registry.ActiveSeen(State(), io).Some? {
        assert ws[..n] == demote;
        return None;
      }
      match Registry.FirstWith(all, Registry.Retired) {
        case None =>
          assert ws[..n] == demote;
          return None;
        case Some(v) =>
          ghost var rest := Registry.Activation(v, Registry.Rollback, "", io.at);
          assert ws == demote + rest;
          ghost var k := if io.writesOk >= n + 2 then 2 else if io.writesOk == n + 1 then 1 else 0;
          assert ws[..n + k] == demote + rest[..k];
          Registry.ExecAppend(s, demote, rest[..k]);
          ok := Activate(v, Registry.Rollback, "", n, io);
          err := if ok then None else Some(Registry.WriteFailed);
      }
    }

    // Any operation, on a brain that may answer or fail.
    method Do(e: Registry.Event) returns (err: Option<Error>)
      modifies this`versions, this`ledger, this`brain, this`neverWrong
      ensures State() == Registry.Step(old(State()), e)
      ensures LineMirrored()
    {
      match e.op {
        case DoRegister(name, path) => err := Register(name, path, e.io);
        case DoSign(name, readHash, who) => err := Sign(name, readHash, who, e.io);
        case DoCanary(name, pct) => err := Canary(name, pct, e.io);
        case DoPromote(name) => err := Promote(name, e.io);
        case DoRollback => err := Rollback(e.io);
      }
    }

    /** A whole run from empty stores, the brain failing and being replayed into whenever it may: the stores come
      * to what the run comes to, the brain was never wrong, and a successful replay at the end leaves exactly the
      * full copy of the ledger, whatever was lost on the way.
      */
    method Relive(events: seq<Registry.Event>) returns (copied: bool)
      requires State() == Registry.EMPTY && brain == EMPTY_BRAIN && neverWrong && ClockRuns(events)
      modifies this
      ensures State() == Registry.Run(Registry.EMPTY, events) && Sound()
      ensures copied ==> brain == FullCopy(ledger)
      ensures !brainFails ==> copied
    {
      hide Faithful, FullCopy, Registry.Step;
      assert Sound() by { NothingToCopy(); }
      for i := 0 to |events|
        invariant State() == Registry.Run(Registry.EMPTY, events[..i]) && Sound()
      {
        brainFails := *;
        assert events[..i + 1][..i] == events[..i];
        RegistryLedgerIsMirrorable(events[..i + 1]);
        var err := Do(events[i]);
        var replay := *;
        if replay {
          var n, failed := Resync();
        }
      }
      assert events[..|events|] == events;
      brainFails := *;
      var n, failed := Resync();
      copied := !failed;
    }
  }


  lemma NothingToCopy()
    ensures Mirrorable([]) && Faithful([], EMPTY_BRAIN)
  {
  }

  lemma {:induction false} DemotionsSplit(vs: seq<Version>, i: nat, except: Option<string>)
    requires i <= |vs|
    ensures Registry.Demotions(vs, except)
         == Registry.Demotions(vs[..i], except) + Registry.Demotions(vs[i..], except)
  {
    if i > 0 {
      DemotionsSplit(vs[1..], i - 1, except);
      assert vs[1..][..i - 1] == vs[..i][1..] && vs[1..][i - 1..] == vs[i..];
    } else {
      assert vs[..0] == [] && vs[0..] == vs;
    }
  }

  lemma NoDemotionYet(start: Registry.Store, all: seq<Version>, except: Option<string>)
    ensures Registry.Demotions(all[..0], except) == []
    ensures Registry.Exec(start, []) == start
  {
  }

  // The demotions of one version more, and the store they make.
  lemma DemoteNext(start: Registry.Store, all: seq<Version>, i: nat, except: Option<string>)
    requires i < |all|
    ensures var v, done := all[i], Registry.Demotions(all[..i], except);
            var w := Registry.Save(Registry.Demoted(v));
            var next := Registry.Demotions(all[..i + 1], except);
            && next <= Registry.Demotions(all, except)
            && done <= Registry.Demotions(all, except)
            && if v.status == Registry.Canary && except != Some(v.name)
               then next == done + [w] && Registry.Exec(start, next) == Registry.Apply(Registry.Exec(start, done), w)
               else next == done
  {
    hide Registry.Apply, Registry.Exec;
    var v, done := all[i], Registry.Demotions(all[..i], except);
    DemotionsSplit(all[..i + 1], i, except);
    DemotionsSplit(all, i, except);
    DemotionsSplit(all, i + 1, except);
    assert all[..i + 1][..i] == all[..i] && all[..i + 1][i..] == [v] && [v][1..] == [];
    if v.status == Registry.Canary && except != Some(v.name) {
      var w := Registry.Save(Registry.Demoted(v));
      assert Registry.Demotions([v], except) == [w];
      Registry.ExecAppend(start, done, [w]);
      Registry.ExecTwo(Registry.Exec(start, done), w, w);
    }
  }

  lemma LastLineIsLatest(entries: seq<Entry>, q: Query)
    requires Strict(entries) && entries != [] && Matches(q, entries[|entries| - 1])
    ensures LatestOf(entries, |entries|, q) == |entries| - 1
  {
    assert IsLatest(entries, |entries|, q, |entries| - 1);
    LatestIsUnique(entries, |entries|, q, |entries| - 1, LatestOf(entries, |entries|, q));
  }

  lemma NodeKeepsFaithful(entries: seq<Entry>, i: nat, b: Brain, b': Brain)
    requires i < |entries| && Faithful(entries, b)
    requires b' == b || b' == b.(modelNodes := b.modelNodes + {entries[i].toHash})
    ensures Faithful(entries, b')
  {
    if b' != b {
      assert BrainWrite(entries, b, b');
      BrainWriteKeepsFaithful(entries, b, b');
    }
  }

  lemma EdgesStayHeld(b: Brain, b': Brain, premise: Option<DecisionId>, supersedes: Option<DecisionId>)
    requires b'.decisions == b.decisions && EdgeHeld(b, premise) && EdgeHeld(b, supersedes)
    ensures EdgeHeld(b', premise) && EdgeHeld(b', supersedes)
  {
  }

  lemma RecordedOne(b: Brain, b': Brain, d: Decision)
    ensures Records(b, b', d) ==> b'.decisions.Keys == b.decisions.Keys + {d.id} && d.id in b'.decisions
  {
  }

  lemma DecisionKeepsFaithful(entries: seq<Entry>, i: nat, d: Decision, b: Brain, b': Brain)
    requires i < |entries| && Faithful(entries, b) && entries[i].toHash in b.modelNodes
    requires EdgeHeld(b, EdgeTo(entries, BasedOn(entries, i))) && EdgeHeld(b, EdgeTo(entries, Supersedes(entries, i)))
    requires d == Decision(IdOf(entries[i]), entries[i].who, entries[i].toHash,
                           EdgeTo(entries, BasedOn(entries, i)), EdgeTo(entries, Supersedes(entries, i)))
    requires b' == b || Records(b, b', d)
    ensures Faithful(entries, b')
  {
    assert d == DecisionOf(entries, i);
    hide DecisionOf;
    if b' != b {
      assert BrainWrite(entries, b, b');
      BrainWriteKeepsFaithful(entries, b, b');
    }
  }

  lemma OneMoreKey<K, V>(m: map<K, V>, m': map<K, V>, k: K)
    requires k !in m && m'.Keys == m.Keys + {k}
    ensures |m'| == |m| + 1
  {
    assert |m'.Keys| == |m.Keys| + 1;
    assert |m'| == |m'.Keys| && |m| == |m.Keys|;
  }
}
