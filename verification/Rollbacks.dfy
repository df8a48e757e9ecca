/** Which version a rollback restores, told from the history of operations. */
module Rollbacks {
  import opened Basics
  import opened Registry

  function StatusOf(vs: seq<Version>, name: string): Option<Status> {
    match Find(vs, name)
    case None => None
    case Some(v) => Some(v.status)
  }

  predicate IsRetired(vs: seq<Version>, name: string) {
    StatusOf(vs, name) == Some(Retired)
  }

  // The operation takes the version out of service.
  predicate Retires(s: Store, e: Event, name: string) {
    !IsRetired(s.versions, name) && IsRetired(Step(s, e).versions, name)
  }

  // The operation is a signature of the version, and it lands.
  predicate Signs(s: Store, e: Event, name: string) {
    match e.op
    case DoSign(n, readHash, who) => n == name && SignPlan(s, n, readHash, who, e.io).err.None? && e.io.writesOk > 0
    case _ => false
  }

  // The last operation that retired the version, or -1.
  function LastRetirement(events: seq<Event>, name: string): (k: int)
    ensures -1 <= k < |events|
  {
    if events == [] then -1
    else
      var n := |events| - 1;
      if Retires(Run(EMPTY, events[..n]), events[n], name) then n else LastRetirement(events[..n], name)
  }

  // The last operation that signed it, or -1.
  function LastSignature(events: seq<Event>, name: string): (k: int)
    ensures -1 <= k < |events|
  {
    if events == [] then -1
    else
      var n := |events| - 1;
      if Signs(Run(EMPTY, events[..n]), events[n], name) then n else LastSignature(events[..n], name)
  }

  function Later(a: int, b: int): int {
    if a >= b then a else b
  }

  function LastTouched(events: seq<Event>, name: string): int {
    Later(LastRetirement(events, name), LastSignature(events, name))
  }

  // ---------------------------------------------------------------- the order of saves

  ghost predicate Listed(vs: seq<Version>, name: string) {
    exists i :: 0 <= i < |vs| && vs[i].name == name
  }

  // Both are listed, a first.
  ghost predicate Before(vs: seq<Version>, a: string, b: string) {
    exists i, j :: 0 <= i < j < |vs| && vs[i].name == a && vs[j].name == b
  }

  ghost predicate SavedBy(ws: seq<Write>, name: string) {
    exists i :: 0 <= i < |ws| && ws[i].Save? && ws[i].version.name == name
  }

  lemma OneFirst(vs: seq<Version>, a: string, b: string)
    requires UniqueNames(vs) && Listed(vs, a) && Listed(vs, b) && a != b
    ensures Before(vs, a, b) <==> !Before(vs, b, a)
  {
    var i :| 0 <= i < |vs| && vs[i].name == a;
    var j :| 0 <= j < |vs| && vs[j].name == b;
  }

  lemma FoundIsListed(vs: seq<Version>, name: string)
    ensures Find(vs, name).Some? <==> Listed(vs, name)
  {
    if v :| v in vs && v.name == name {
      var i :| 0 <= i < |vs| && vs[i] == v;
    }
  }

  lemma {:induction false} RemovedOrder(vs: seq<Version>, gone: string, a: string, b: string)
    requires a != gone && b != gone
    ensures Before(Remove(vs, gone), a, b) <==> Before(vs, a, b)
    ensures Listed(Remove(vs, gone), a) <==> Listed(vs, a)
    ensures Find(Remove(vs, gone), a) == Find(vs, a)
    decreases |vs|
  {
    if vs != [] {
      RemovedOrder(vs[1..], gone, a, b);
      RemovedOrder(vs[1..], gone, b, a);
      FirstOrTail(vs, a, b);
      if vs[0].name != gone {
        var r := Remove(vs, gone);
        assert r[1..] == Remove(vs[1..], gone);
        FirstOrTail(r, a, b);
      }
    }
  }

  lemma FirstOrTail(vs: seq<Version>, a: string, b: string)
    requires vs != []
    ensures Listed(vs, a) <==> vs[0].name == a || Listed(vs[1..], a)
    ensures Before(vs, a, b) <==> (vs[0].name == a && Listed(vs[1..], b)) || Before(vs[1..], a, b)
  {
    var rest := vs[1..];
    if i :| 0 <= i < |rest| && rest[i].name == a {
      assert vs[i + 1].name == a;
    }
    if i :| 0 <= i < |vs| && vs[i].name == a {
      assert i > 0 ==> rest[i - 1].name == a;
    }
    if j :| 0 <= j < |rest| && rest[j].name == b && vs[0].name == a {
      assert vs[j + 1].name == b;
    }
    if i, j :| 0 <= i < j < |rest| && rest[i].name == a && rest[j].name == b {
      assert vs[i + 1].name == a && vs[j + 1].name == b;
    }
    if i, j :| 0 <= i < j < |vs| && vs[i].name == a && vs[j].name == b {
      assert rest[j - 1].name == b && (i > 0 ==> rest[i - 1].name == a);
    }
  }

  // Saving a version lists it first and leaves the order of the others.
  lemma SavedFirst(vs: seq<Version>, v: Version, a: string, b: string)
    requires b != v.name
    ensures Listed(SaveTo(vs, v), b) <==> Listed(vs, b)
    ensures a == v.name && Listed(vs, b) ==> Before(SaveTo(vs, v), a, b)
    ensures a != v.name ==> (Before(SaveTo(vs, v), a, b) <==> Before(vs, a, b))
    ensures Find(SaveTo(vs, v), b) == Find(vs, b) && Find(SaveTo(vs, v), v.name) == Some(v)
  {
    var t := SaveTo(vs, v);
    assert t[1..] == Remove(vs, v.name);
    FirstOrTail(t, b, a);
    FirstOrTail(t, a, b);
    if a != v.name {
      RemovedOrder(vs, v.name, a, b);
    }
    RemovedOrder(vs, v.name, b, b);
  }

  lemma SavedAtOnceOrLater(ws: seq<Write>, name: string)
    requires ws != []
    ensures SavedBy(ws, name) <==> (ws[0].Save? && ws[0].version.name == name) || SavedBy(ws[1..], name)
  {
    var rest := ws[1..];
    if i :| 0 <= i < |ws| && ws[i].Save? && ws[i].version.name == name {
      assert i > 0 ==> rest[i - 1] == ws[i];
    }
    if i :| 0 <= i < |rest| && rest[i].Save? && rest[i].version.name == name {
      assert ws[i + 1] == rest[i];
    }
  }

  // What was written last is listed before what was not written at all.
  lemma {:induction false} WrittenFirst(s: Store, ws: seq<Write>, a: string, b: string)
    requires !SavedBy(ws, b)
    ensures Find(Exec(s, ws).versions, b) == Find(s.versions, b)
    ensures Listed(Exec(s, ws).versions, b) <==> Listed(s.versions, b)
    ensures SavedBy(ws, a) && Listed(s.versions, b) ==> Before(Exec(s, ws).versions, a, b)
    ensures !SavedBy(ws, a) ==> (Before(Exec(s, ws).versions, a, b) <==> Before(s.versions, a, b))
    decreases ws
  {
    if ws != [] {
      var t, rest := Apply(s, ws[0]), ws[1..];
      SavedAtOnceOrLater(ws, a);
      SavedAtOnceOrLater(ws, b);
      WrittenFirst(t, rest, a, b);
      if ws[0].Save? {
        SavedFirst(s.versions, ws[0].version, a, b);
      }
    }
  }

  // A version that was written is as it was written last.
  lemma {:induction false} AsWritten(s: Store, ws: seq<Write>, name: string) returns (i: nat)
    requires SavedBy(ws, name)
    ensures i < |ws| && ws[i].Save? && Find(Exec(s, ws).versions, name) == Some(ws[i].version)
    decreases ws
  {
    var rest := ws[1..];
    if SavedBy(rest, name) {
      i := AsWritten(Apply(s, ws[0]), rest, name);
      i := i + 1;
    } else {
      i := 0;
      SavedAtOnceOrLater(ws, name);
      WrittenFirst(Apply(s, ws[0]), rest, name, name);
    }
  }

  // ---------------------------------------------------------------- which operations save a retired version

  lemma {:induction false} DemotionsDemote(vs: seq<Version>, except: Option<string>)
    ensures forall i | 0 <= i < |Demotions(vs, except)| ::
              Demotions(vs, except)[i].Save? && Demotions(vs, except)[i].version.status == Candidate
  {
    if vs != [] {
      DemotionsDemote(vs[1..], except);
    }
  }

  // Only the first write of a promotion or a signature saves a retired version.
  lemma RetiredSaves(s: Store, op: Op, io: Env, i: nat)
    requires UniqueNames(s.versions)
    requires var ws := PlanOf(s, op, io).writes; i < |ws| && ws[i].Save? && ws[i].version.status == Retired
    ensures i == 0
    ensures var name := PlanOf(s, op, io).writes[0].version.name;
            || (op.DoSign? && op.name == name && SignPlan(s, op.name, op.readHash, op.who, io).err.None?)
            || (op.DoPromote? && StatusOf(s.versions, name) == Some(Active))
  {
    match op
    case DoRegister(name, path) =>
    case DoSign(name, readHash, who) =>
    case DoCanary(name, pct) => DemotionsDemote(s.versions, Some(name));
    case DoPromote(name) =>
      if ActiveSeen(s, io).Some? {
        var prev := ActiveSeen(s, io).value;
        SameName(s.versions, prev, Find(s.versions, prev.name).value);
      }
    case DoRollback => DemotionsDemote(s.versions, None);
  }

  // A retired version is touched by an operation exactly when the operation retires or signs it.
  lemma TouchedMeansSaved(s: Store, e: Event, name: string)
    requires UniqueNames(s.versions) && IsRetired(Step(s, e).versions, name)
    ensures SavedBy(Landed(s, e), name) <==> Retires(s, e, name) || Signs(s, e, name)
    ensures !SavedBy(Landed(s, e), name) ==> IsRetired(s.versions, name)
    ensures SavedBy(Landed(s, e), name) ==>
              |Landed(s, e)| > 0 && Landed(s, e)[0].Save? && Landed(s, e)[0].version.name == name
  {
    var ws := Landed(s, e);
    if SavedBy(ws, name) {
      var i := AsWritten(s, ws, name);
      RetiredSaves(s, e.op, e.io, i);
    } else {
      WrittenFirst(s, ws, name, name);
      SignatureIsSaved(s, e, name);
    }
  }

  lemma SignatureIsSaved(s: Store, e: Event, name: string)
    ensures Signs(s, e, name) ==> SavedBy(Landed(s, e), name)
  {
    if Signs(s, e, name) {
      assert Landed(s, e)[0].Save? && Landed(s, e)[0].version.name == name;
    }
  }

  lemma {:induction false} WritesKeepNames(s: Store, ws: seq<Write>)
    requires UniqueNames(s.versions)
    ensures UniqueNames(Exec(s, ws).versions)
    decreases ws
  {
    if ws != [] {
      if ws[0].Save? {
        RemoveMembers(s.versions, ws[0].version.name);
        var r := Remove(s.versions, ws[0].version.name);
        assert forall i | 0 <= i < |r| :: r[i] in r;
      }
      WritesKeepNames(Apply(s, ws[0]), ws[1..]);
    }
  }

  // ---------------------------------------------------------------- whole runs

  ghost predicate InOrder(events: seq<Event>, a: string, b: string) {
    Before(Run(EMPTY, events).versions, a, b) <==> LastTouched(events, a) > LastTouched(events, b)
  }

  /** Retired versions are listed in the order in which they were last retired or signed, newest first. */
  lemma {:induction false} RetiredByLastTouched(events: seq<Event>, a: string, b: string)
    requires a != b && IsRetired(Run(EMPTY, events).versions, a) && IsRetired(Run(EMPTY, events).versions, b)
    ensures UniqueNames(Run(EMPTY, events).versions) && InOrder(events, a, b)
    decreases |events|
  {
    hide Before, UniqueNames, Listed, SavedBy, IsRetired, Retires, Signs;
    assert events != [] by { NothingRetired(a); }
    var n := |events| - 1;
    var s, e := Run(EMPTY, events[..n]), events[n];
    NamesStayUnique(events[..n]);
    NamesStayUnique(events);
    var t := Step(s, e);
    TouchedMeansSaved(s, e, a);
    TouchedMeansSaved(s, e, b);
    var ws := Landed(s, e);
    RetiredIsListed(t.versions, a);
    RetiredIsListed(t.versions, b);
    RetiredIsListed(s.versions, a);
    RetiredIsListed(s.versions, b);
    OneFirst(t.versions, a, b);
    if !SavedBy(ws, b) {
      WrittenFirst(s, ws, a, b);
      if !SavedBy(ws, a) {
        RetiredByLastTouched(events[..n], a, b);
      }
    } else {
      WrittenFirst(s, ws, b, a);
    }
  }

  lemma NothingRetired(name: string)
    ensures !IsRetired(Run(EMPTY, []).versions, name)
  {
  }

  lemma RetiredIsListed(vs: seq<Version>, name: string)
    ensures IsRetired(vs, name) ==> Listed(vs, name)
  {
    FoundIsListed(vs, name);
  }

  lemma {:induction false} NamesStayUnique(events: seq<Event>)
    ensures UniqueNames(Run(EMPTY, events).versions)
  {
    if events != [] {
      var n := |events| - 1;
      NamesStayUnique(events[..n]);
      WritesKeepNames(Run(EMPTY, events[..n]), Landed(Run(EMPTY, events[..n]), events[n]));
    }
  }

  // Of the versions still retired, this is the one that was retired last.
  ghost predicate RetiredLast(events: seq<Event>, name: string) {
    var vs := Run(EMPTY, events).versions;
    && IsRetired(vs, name)
    && forall other | other != name && IsRetired(vs, other) ::
         LastRetirement(events, other) < LastRetirement(events, name)
  }

  // No other version still retired was signed after this one's retirement and its own last signature.
  ghost predicate NoLaterSignature(events: seq<Event>, name: string) {
    forall other | other != name && IsRetired(Run(EMPTY, events).versions, other) ::
      LastSignature(events, other) < LastTouched(events, name)
  }

  lemma FirstIsBefore(vs: seq<Version>, name: string)
    requires UniqueNames(vs) && FirstWith(vs, Retired).Some? && name != FirstWith(vs, Retired).value.name
    requires IsRetired(vs, name)
    ensures Before(vs, FirstWith(vs, Retired).value.name, name)
    ensures IsRetired(vs, FirstWith(vs, Retired).value.name)
    decreases |vs|
  {
    var first := FirstWith(vs, Retired).value;
    SameName(vs, first, Find(vs, first.name).value);
    FoundIsListed(vs, name);
    FirstOrTail(vs, first.name, name);
    if vs[0].status != Retired {
      assert UniqueNames(vs[1..]);
      FirstIsBefore(vs[1..], name);
    }
  }

  /** Main result: after every run of operations, crashes and lost reads included, a rollback that restores a
    * version restores the one that was retired last if and only if no other version still retired was signed
    * after that.
    */
  lemma RestoresRetiredLastExactly(events: seq<Event>, name: string, io: Env)
    requires RetiredLast(events, name)
    requires !io.activeRead || FirstWith(Run(EMPTY, events).versions, Active).None?
    ensures var ws := RollbackPlan(Run(EMPTY, events), io).writes;
            && |ws| > 0 && ws[|ws| - 1].Append? && ws[|ws| - 1].entry.act == Rollback
            && (ws[|ws| - 1].entry.name == name <==> NoLaterSignature(events, name))
  {
    hide Run, LastRetirement, LastSignature, Before, UniqueNames;
    var s := Run(EMPTY, events);
    NamesStayUnique(events);
    DemotedStore(s, None);
    var first := FirstWith(s.versions, Retired).value;
    if first.name != name {
      FirstIsBefore(s.versions, name);
      RetiredByLastTouched(events, first.name, name);
    } else {
      forall other | other != name && IsRetired(s.versions, other)
        ensures LastSignature(events, other) < LastTouched(events, name)
      {
        FirstIsBefore(s.versions, other);
        RetiredByLastTouched(events, name, other);
      }
    }
  }
}
