/** What each registry operation comes to, version by version, when nothing fails: told without its writes. */
module Operations {
  import opened Basics
  import opened Registry

  // The versions of t are those of s, each changed in this way.
  ghost predicate Becomes(s: Store, t: Store, change: Version -> Version) {
    forall v :: v in t.versions <==> exists w :: w in s.versions && v == change(w)
  }

  // The hash of the active version, or nothing where none is active.
  ghost predicate IsActiveHash(s: Store, from: string) {
    && (forall v | v in s.versions && v.status == Active :: from == v.hash)
    && ((forall v | v in s.versions :: v.status != Active) ==> from == "")
  }

  function AfterCanary(name: string, pct: int): Version -> Version {
    (w: Version) =>
      if w.name == name then w.(status := Canary, canaryPct := pct)
      else if w.status == Canary then w.(status := Candidate, canaryPct := 0)
      else w
  }

  function AfterSign(name: string, who: string): Version -> Version {
    (w: Version) => if w.name == name then w.(signedHash := w.hash, signedBy := who) else w
  }

  function AfterPromote(name: string): Version -> Version {
    (w: Version) =>
      if w.name == name then w.(status := Active, canaryPct := 0)
      else if w.status == Active then w.(status := Retired)
      else w
  }

  function AfterDemotion(except: Option<string>): Version -> Version {
    (w: Version) =>
      if w.status == Canary && except != Some(w.name) then w.(status := Candidate, canaryPct := 0) else w
  }

  function WithStatus(name: string, status: Status, pct: Option<int>): Version -> Version {
    (w: Version) =>
      if w.name != name then w
      else w.(status := status, canaryPct := if pct.Some? then pct.value else w.canaryPct)
  }

  predicate NoneNamed(s: Store, name: string) {
    forall v | v in s.versions :: v.name != name
  }

  function AfterRestoring(name: string): Version -> Version {
    (w: Version) =>
      if w.name == name then w.(status := Active)
      else if w.status == Canary then w.(status := Candidate, canaryPct := 0)
      else w
  }

  /** A registration stores the file's hash as an unsigned candidate in place of any version of that name, unless
    * the file cannot be read or is no model.
    */
  lemma RegisterDoes(s: Store, name: string, path: string, io: Env)
    ensures var plan := RegisterPlan(name, path, io);
            var t := Exec(s, plan.writes);
            if path !in io.disk then plan == Plan([], Some(Unreadable))
            else if !io.loads then plan == Plan([], Some(InvalidModel))
            else
              && plan.err.None? && t.ledger == s.ledger
              && forall v :: v in t.versions <==>
                   || v == Version(name, path, io.disk[path], Candidate, 0, "", "")
                   || (v in s.versions && v.name != name)
  {
    var plan := RegisterPlan(name, path, io);
    RemoveMembers(s.versions, name);
    if plan.err.None? {
      ExecTwo(s, plan.writes[0], plan.writes[0]);
    }
  }

  /** A signature is put on the version and into the ledger: the hash the file has, which must be the registered
    * one, and the one that was read if it was named.
    */
  lemma SignDoes(s: Store, name: string, readHash: string, who: string, io: Env)
    requires UniqueNames(s.versions)
    ensures var plan := SignPlan(s, name, readHash, who, io);
            var t := Exec(s, plan.writes);
            if who == "" then plan == Plan([], Some(NoSigner))
            else if NoneNamed(s, name) then plan == Plan([], Some(NotRegistered))
            else
              exists v | v in s.versions && v.name == name ::
                if v.path !in io.disk then plan == Plan([], Some(Unreadable))
                else if io.disk[v.path] != v.hash then plan == Plan([], Some(ChangedOnDisk))
                else if readHash != "" && readHash != v.hash then plan == Plan([], Some(ReadAnotherHash))
                else
                  && plan.err.None? && Becomes(s, t, AfterSign(name, who))
                  && t.ledger == s.ledger + [Entry(io.at, Sign, name, who, "", v.hash)]
  {
    var plan := SignPlan(s, name, readHash, who, io);
    if Find(s.versions, name).Some? {
      var v := Find(s.versions, name).value;
      assert v in s.versions && v.name == name;
      if plan.err.None? {
        ExecTwo(s, plan.writes[0], plan.writes[1]);
        OneReplaced(s, plan.writes[0].version, AfterSign(name, who));
      }
    }
  }

  // Saving the changed version of a name, the change leaving the other names alone.
  lemma OneReplaced(s: Store, v: Version, change: Version -> Version)
    requires UniqueNames(s.versions)
    requires exists w | w in s.versions :: w.name == v.name && v == change(w)
    requires forall w | w in s.versions && w.name != v.name :: change(w) == w
    ensures Becomes(s, Apply(s, Save(v)), change)
  {
    var w :| w in s.versions && w.name == v.name && v == change(w);
    RemoveMembers(s.versions, v.name);
    forall u | u in s.versions && u.name == v.name
      ensures u == w
    {
      SameName(s.versions, u, w);
    }
  }

  // The demotions of the canaries but one.
  lemma DemotionsDo(s: Store, except: Option<string>)
    requires UniqueNames(s.versions)
    ensures var t := Exec(s, Demotions(s.versions, except));
            t.ledger == s.ledger && Becomes(s, t, AfterDemotion(except)) && UniqueNames(t.versions)
  {
    DemotionsReplace(s, s.versions, except);
    StaysUnique(s, Demotions(s.versions, except));
    hide Exec, Demotions, UniqueNames;
    forall v
      ensures (v in s.versions && !DemotesName(s.versions, except, v.name)) || DemotesInto(s.versions, except, v)
         <==> exists w :: w in s.versions && v == AfterDemotion(except)(w)
    {
      DemotedOrLeft(s, except, v);
    }
  }

  lemma DemotedOrLeft(s: Store, except: Option<string>, v: Version)
    requires UniqueNames(s.versions)
    ensures (v in s.versions && !DemotesName(s.versions, except, v.name)) || DemotesInto(s.versions, except, v)
       <==> exists w :: w in s.versions && v == AfterDemotion(except)(w)
  {
    if v in s.versions && !DemotesName(s.versions, except, v.name) {
      assert !Demotable(v, except);
      assert v == AfterDemotion(except)(v);
    }
    if DemotesInto(s.versions, except, v) {
      var w :| w in s.versions && Demotable(w, except) && v == Demoted(w);
      assert v == AfterDemotion(except)(w);
    }
    if w :| w in s.versions && v == AfterDemotion(except)(w) {
      if !Demotable(w, except) {
        forall u | u in s.versions && u.name == v.name
          ensures u == w
        {
          SameName(s.versions, u, w);
        }
      }
    }
  }

  lemma {:induction false} StaysUnique(s: Store, ws: seq<Write>)
    requires UniqueNames(s.versions)
    ensures UniqueNames(Exec(s, ws).versions)
    decreases ws
  {
    if ws != [] {
      if ws[0].Save? {
        RemoveMembers(s.versions, ws[0].version.name);
        var r := Remove(s.versions, ws[0].version.name);
        forall i | 0 <= i < |r|
          ensures r[i].name != ws[0].version.name
        {
          assert r[i] in r;
        }
      }
      StaysUnique(Apply(s, ws[0]), ws[1..]);
    }
  }

  /** A canary serves the percentage asked for, and every other canary becomes a candidate again, also when there
    * is no version of that name; a percentage out of range does nothing.
    */
  lemma CanaryDoes(s: Store, name: string, pct: int)
    requires UniqueNames(s.versions)
    ensures var plan := CanaryPlan(s, name, pct);
            var t := Exec(s, plan.writes);
            if !(0 <= pct <= 100) then plan == Plan([], Some(BadPercentage))
            else
              && t.ledger == s.ledger && Becomes(s, t, AfterCanary(name, pct))
              && plan.err == if NoneNamed(s, name) then Some(NotRegistered) else None
  {
    if 0 <= pct <= 100 {
      hide Exec, Demotions, UniqueNames, Becomes;
      var demote := Demotions(s.versions, Some(name));
      var t := Exec(s, demote);
      DemotionsDo(s, Some(name));
      NamesStay(s, t, Some(name), name);
      if NoneNamed(s, name) {
        SameChange(s, t, AfterDemotion(Some(name)), AfterCanary(name, pct));
      } else {
        CanaryServes(s, t, name, pct);
        var v := Find(t.versions, name).value;
        ExecAppend(s, demote, [Save(v.(status := Canary, canaryPct := pct))]);
        ExecTwo(t, Save(v.(status := Canary, canaryPct := pct)), Save(v));
      }
    }
  }

  lemma CanaryServes(s: Store, t: Store, name: string, pct: int)
    requires UniqueNames(t.versions) && Becomes(s, t, AfterDemotion(Some(name))) && Find(t.versions, name).Some?
    ensures var v := Find(t.versions, name).value;
            Becomes(s, Apply(t, Save(v.(status := Canary, canaryPct := pct))), AfterCanary(name, pct))
  {
    hide Becomes, UniqueNames, Apply;
    var v := Find(t.versions, name).value;
    var w := v.(status := Canary, canaryPct := pct);
    assert w == WithStatus(name, Canary, Some(pct))(v);
    OneReplaced(t, w, WithStatus(name, Canary, Some(pct)));
    TwoChanges(s, t, Apply(t, Save(w)), AfterDemotion(Some(name)), WithStatus(name, Canary, Some(pct)),
               AfterCanary(name, pct));
  }

  lemma NamesStay(s: Store, t: Store, except: Option<string>, name: string)
    requires Becomes(s, t, AfterDemotion(except))
    ensures NoneNamed(t, name) <==> NoneNamed(s, name)
  {
    forall w | w in s.versions
      ensures AfterDemotion(except)(w) in t.versions
    {
    }
  }

  lemma SameChange(s: Store, t: Store, first: Version -> Version, second: Version -> Version)
    requires Becomes(s, t, first) && forall w | w in s.versions :: first(w) == second(w)
    ensures Becomes(s, t, second)
  {
  }

  // One change after another.
  lemma TwoChanges(s: Store, t: Store, u: Store, first: Version -> Version, second: Version -> Version,
                   both: Version -> Version)
    requires Becomes(s, t, first) && Becomes(t, u, second)
    requires forall w | w in s.versions :: second(first(w)) == both(w)
    ensures Becomes(s, u, both)
  {
    forall w | w in s.versions
      ensures first(w) in t.versions && both(w) in u.versions
    {
    }
  }

  /** Main result: a promotion makes the version the active one and retires the one that was; the ledger line
    * bears its signer, its signed hash, and the hash of the model it replaces, which is empty if and only if none
    * was active. It is refused, and nothing is written, when the version is not registered, not signed, or its
    * file cannot be read or is not what was signed, and when there is a model to compare it with and one of the
    * two is none.
    */
  lemma PromoteDoes(s: Store, name: string, io: Env)
    requires Safe(s) && io.activeRead
    ensures var plan := PromotePlan(s, name, io);
            var t := Exec(s, plan.writes);
            if NoneNamed(s, name) then plan == Plan([], Some(NotRegistered))
            else
              exists v | v in s.versions && v.name == name ::
                if v.signedHash == "" then plan == Plan([], Some(Unsigned))
                else if v.path !in io.disk then plan == Plan([], Some(Unreadable))
                else if io.disk[v.path] != v.signedHash then plan == Plan([], Some(ChangedOnDisk))
                else if !io.loads && exists w | w in s.versions :: w.status == Active then
                  plan == Plan([], Some(InvalidModel))
                else
                  && plan.err.None? && Becomes(s, t, AfterPromote(name))
                  && exists from | IsActiveHash(s, from) ::
                       t.ledger == s.ledger + [Entry(io.at, Promote, name, v.signedBy, from, v.signedHash)]
  {
    var plan := PromotePlan(s, name, io);
    if Find(s.versions, name).Some? {
      var v := Find(s.versions, name).value;
      assert v in s.versions && v.name == name;
      if plan.err.None? {
        match FirstWith(s.versions, Active)
        case None =>
          ExecTwo(s, plan.writes[0], plan.writes[1]);
          OneReplaced(s, plan.writes[0].version, AfterPromote(name));
          assert IsActiveHash(s, "");
        case Some(prev) =>
          PromoteReplaces(s, name, v, prev, io.at);
          assert IsActiveHash(s, prev.hash);
      }
    }
  }

  lemma PromoteReplaces(s: Store, name: string, v: Version, prev: Version, at: int)
    requires Safe(s) && v in s.versions && v.name == name && prev in s.versions && prev.status == Active
    ensures var t := Exec(s, [Save(prev.(status := Retired))] + Activation(v, Promote, prev.hash, at));
            && Becomes(s, t, AfterPromote(name))
            && t.ledger == s.ledger + [Entry(at, Promote, name, v.signedBy, prev.hash, v.signedHash)]
  {
    hide Exec, UniqueNames, Becomes;
    var w, ws := Save(prev.(status := Retired)), Activation(v, Promote, prev.hash, at);
    var t := Apply(s, w);
    ExecTwo(s, w, w);
    ExecAppend(s, [w], ws);
    ExecTwo(t, ws[0], ws[1]);
    OneReplaced(s, w.version, WithStatus(prev.name, Retired, None));
    StaysUnique(s, [w]);
    Retires(s, t, v, prev);
    PromoteActivates(s, t, name, v, prev);
    assert ws == [ws[0], ws[1]];
    LineApart(s, Apply(t, ws[0]), ws[1].entry, AfterPromote(name));
  }

  // A ledger line changes no version.
  lemma LineApart(s: Store, t: Store, e: Entry, change: Version -> Version)
    requires Becomes(s, t, change)
    ensures Becomes(s, Apply(t, Append(e)), change)
  {
  }

  lemma Retires(s: Store, t: Store, v: Version, prev: Version)
    requires Becomes(s, t, WithStatus(prev.name, Retired, None)) && v in s.versions
    ensures WithStatus(prev.name, Retired, None)(v) in t.versions
  {
  }

  lemma PromoteActivates(s: Store, t: Store, name: string, v: Version, prev: Version)
    requires Safe(s) && v in s.versions && v.name == name && prev in s.versions && prev.status == Active
    requires UniqueNames(t.versions) && Becomes(s, t, WithStatus(prev.name, Retired, None))
    requires WithStatus(prev.name, Retired, None)(v) in t.versions
    ensures Becomes(s, Apply(t, Save(Activated(v, Promote))), AfterPromote(name))
  {
    var active, was := Activated(v, Promote), WithStatus(prev.name, Retired, None)(v);
    assert active == WithStatus(name, Active, Some(0))(was);
    forall u | u in s.versions
      ensures WithStatus(name, Active, Some(0))(WithStatus(prev.name, Retired, None)(u)) == AfterPromote(name)(u)
    {
      if u.name == prev.name {
        SameName(s.versions, u, prev);
      }
    }
    hide Becomes, UniqueNames, Apply;
    OneReplaced(t, active, WithStatus(name, Active, Some(0)));
    TwoChanges(s, t, Apply(t, Save(active)), WithStatus(prev.name, Retired, None), WithStatus(name, Active, Some(0)),
               AfterPromote(name));
  }

  // This version is the first retired one, in the order of the saves.
  ghost predicate FirstRetired(s: Store, v: Version) {
    exists i :: 0 <= i < |s.versions| && s.versions[i] == v && v.status == Retired
             && forall j | 0 <= j < i :: s.versions[j].status != Retired
  }

  lemma {:induction false} FirstWithIsFirst(vs: seq<Version>, ledger: seq<Entry>)
    requires FirstWith(vs, Retired).Some?
    ensures FirstRetired(Store(vs, ledger), FirstWith(vs, Retired).value)
  {
    if vs[0].status != Retired {
      FirstWithIsFirst(vs[1..], ledger);
      var v := FirstWith(vs, Retired).value;
      var i :| 0 <= i < |vs[1..]| && vs[1..][i] == v && forall j | 0 <= j < i :: vs[1..][j].status != Retired;
      assert vs[i + 1] == v && forall j | 0 < j < i + 1 :: vs[j] == vs[1..][j - 1];
    }
  }

  /** A rollback makes every canary a candidate again. If none is active and some are retired, it also restores the
    * one saved last, and writes a line with its signer and its signed hash.
    */
  lemma RollbackDoes(s: Store, io: Env)
    requires Safe(s) && io.activeRead
    ensures var plan := RollbackPlan(s, io);
            var t := Exec(s, plan.writes);
            && plan.err.None?
            && if || (exists v | v in s.versions :: v.status == Active)
                  || (forall v | v in s.versions :: v.status != Retired)
               then t.ledger == s.ledger && Becomes(s, t, AfterDemotion(None))
               else
                 exists v | v in s.versions && FirstRetired(s, v) ::
                   && Becomes(s, t, AfterRestoring(v.name))
                   && t.ledger == s.ledger + [Entry(io.at, Rollback, v.name, v.signedBy, "", v.signedHash)]
  {
    hide Exec, Demotions, UniqueNames, Becomes, FirstRetired;
    var demote := Demotions(s.versions, None);
    var t := Exec(s, demote);
    DemotionsDo(s, None);
    ActiveStays(s, t);
    if FirstWith(t.versions, Active).None? && FirstWith(s.versions, Retired).Some? {
      var v := FirstWith(s.versions, Retired).value;
      FirstWithIsFirst(s.versions, s.ledger);
      var ws := Activation(v, Rollback, "", io.at);
      ExecAppend(s, demote, ws);
      ExecTwo(t, ws[0], ws[1]);
      RollbackRestores(s, t, v);
      assert ws == [ws[0], ws[1]];
      LineApart(s, Apply(t, ws[0]), ws[1].entry, AfterRestoring(v.name));
      assert v in s.versions && FirstRetired(s, v);
    }
  }

  lemma RollbackRestores(s: Store, t: Store, v: Version)
    requires UniqueNames(s.versions) && UniqueNames(t.versions) && v in s.versions && v.status == Retired
    requires Becomes(s, t, AfterDemotion(None))
    ensures Becomes(s, Apply(t, Save(Activated(v, Rollback))), AfterRestoring(v.name))
  {
    assert AfterDemotion(None)(v) == v && v in t.versions;
    assert Activated(v, Rollback) == WithStatus(v.name, Active, None)(v);
    forall u | u in s.versions
      ensures WithStatus(v.name, Active, None)(AfterDemotion(None)(u)) == AfterRestoring(v.name)(u)
    {
      if u.name == v.name {
        SameName(s.versions, u, v);
      }
    }
    hide Becomes, UniqueNames, Apply;
    OneReplaced(t, Activated(v, Rollback), WithStatus(v.name, Active, None));
    TwoChanges(s, t, Apply(t, Save(Activated(v, Rollback))), AfterDemotion(None), WithStatus(v.name, Active, None),
               AfterRestoring(v.name));
  }

  lemma ActiveStays(s: Store, t: Store)
    requires Becomes(s, t, AfterDemotion(None))
    ensures (exists v | v in t.versions :: v.status == Active) <==> exists v | v in s.versions :: v.status == Active
  {
    forall v | v in s.versions
      ensures AfterDemotion(None)(v) in t.versions
    {
    }
  }
}
