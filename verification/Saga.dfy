/** Workflow steps as effects on a database, and why undoing them in reverse restores it. */
module Saga {
  import opened Basics

  // What a run remembers between steps, by key.
  type Value = seq<map<string, string>>
  type State = map<string, Value>

  datatype Effect<Db> = Effect(state: State, db: Db, ok: bool)

  type Action<!Db> = (State, Db) -> Effect<Db>

  // A human step has neither action; its forward action is never called.
  datatype Step<!Db> = Step(name: string, human: bool, forward: Action<Db>, undo: Option<Action<Db>>)

  // ---------------------------------------------------------------- running forward and back

  /** The state and database after the first n steps, if none of them fails. */
  function Forward<Db>(steps: seq<Step<Db>>, n: nat, state: State, db: Db): (r: Option<(State, Db)>)
    requires n <= |steps|
  {
    if n == 0 then Some((state, db))
    else
      match Forward(steps, n - 1, state, db)
      case None => None
      case Some((s, d)) =>
        if steps[n - 1].human then Some((s, d))
        else
          var e := steps[n - 1].forward(s, d);
          if e.ok then Some((e.state, e.db)) else None
  }

  /** Undoing the first n steps, last one first; an undo that fails stops it. */
  function UndoAll<Db>(steps: seq<Step<Db>>, n: nat, state: State, db: Db): Effect<Db>
    requires n <= |steps|
  {
    if n == 0 then Effect(state, db, true)
    else
      match steps[n - 1].undo
      case None => UndoAll(steps, n - 1, state, db)
      case Some(undo) =>
        var e := undo(state, db);
        if e.ok then UndoAll(steps, n - 1, e.state, e.db) else e
  }

  // ---------------------------------------------------------------- what a well-behaved step does

  // The keys a step keeps its memory under.
  function OwnKeys(name: string): set<string> {
    {name + ".before", name + ".rows"}
  }

  predicate SameOn(keys: set<string>, s: State, t: State) {
    forall k | k in keys :: (k in s <==> k in t) && (k in s ==> s[k] == t[k])
  }

  // Nothing but the step's own memory changes.
  ghost predicate KeepsToItself(name: string, s: State, t: State) {
    forall k :: k !in OwnKeys(name) ==> (k in s <==> k in t) && (k in s ==> s[k] == t[k])
  }

  /** At this state and database undo takes the step back: it left-inverts forward as long as the step's own
    * memory is intact, a step without undo leaves the database alone, and so does a forward action that fails.
    */
  ghost predicate TakenBackAt<Db(!new)>(step: Step<Db>, s: State, d: Db) {
    && (step.human ==> step.undo.None?)
    && (!step.human ==>
          && KeepsToItself(step.name, s, step.forward(s, d).state)
          && (!step.forward(s, d).ok || step.undo.None? ==> step.forward(s, d).db == d))
    && (step.undo.Some? && step.forward(s, d).ok ==>
          forall t: State | SameOn(OwnKeys(step.name), step.forward(s, d).state, t) ::
            var e := step.undo.value(t, step.forward(s, d).db);
            e.ok && e.db == d && KeepsToItself(step.name, t, e.state))
  }

  ghost predicate Reversible<Db(!new)>(step: Step<Db>) {
    forall s: State, d: Db :: TakenBackAt(step, s, d)
  }

  predicate DistinctNames<Db>(steps: seq<Step<Db>>) {
    forall i, j | 0 <= i < j < |steps| :: steps[i].name != steps[j].name
  }

  ghost predicate AllReversible<Db(!new)>(steps: seq<Step<Db>>) {
    (forall i | 0 <= i < |steps| :: Reversible(steps[i])) && DistinctNames(steps)
  }

  // The i-th step can be taken back where a run from (s0, d0) meets it, if it does.
  ghost predicate TakenBackWhereMet<Db(!new)>(steps: seq<Step<Db>>, i: nat, s0: State, d0: Db)
    requires i < |steps|
  {
    match Forward(steps, i, s0, d0)
    case None => true
    case Some((s, d)) => TakenBackAt(steps[i], s, d)
  }

  /** Each of the first n steps can be taken back where a run from (s0, d0) meets it. */
  ghost predicate TakenBackAlong<Db(!new)>(steps: seq<Step<Db>>, n: nat, s0: State, d0: Db)
    requires n <= |steps|
  {
    forall i | 0 <= i < n :: TakenBackWhereMet(steps, i, s0, d0)
  }

  // Every one of the first n steps still finds its own memory.
  ghost predicate MemoryIntact<Db>(steps: seq<Step<Db>>, n: nat, s: State, t: State)
    requires n <= |steps|
  {
    forall i | 0 <= i < n :: SameOn(OwnKeys(steps[i].name), s, t)
  }

  lemma OwnKeysApart(a: string, b: string)
    requires a != b
    ensures OwnKeys(a) !! OwnKeys(b)
  {
    SuffixApart(a, b, ".before");
    SuffixApart(a, b, ".rows");
    assert (a + ".before")[|a + ".before"| - 1] == 'e' && (b + ".rows")[|b + ".rows"| - 1] == 's';
    assert (b + ".before")[|b + ".before"| - 1] == 'e' && (a + ".rows")[|a + ".rows"| - 1] == 's';
  }

  lemma SuffixApart(a: string, b: string, suffix: string)
    requires a != b
    ensures a + suffix != b + suffix
  {
    assert (a + suffix)[..|a|] == a && (b + suffix)[..|b|] == b;
  }

  // A step that keeps to itself leaves the memory of the steps before it alone.
  lemma OthersIntact<Db(!new)>(steps: seq<Step<Db>>, n: nat, s: State, t: State)
    requires DistinctNames(steps) && n < |steps| && KeepsToItself(steps[n].name, s, t)
    ensures MemoryIntact(steps, n, s, t)
  {
    forall i | 0 <= i < n
      ensures SameOn(OwnKeys(steps[i].name), s, t)
    {
      OwnKeysApart(steps[i].name, steps[n].name);
    }
  }

  lemma IntactTwice<Db>(steps: seq<Step<Db>>, n: nat, s: State, t: State, u: State)
    requires n <= |steps| && MemoryIntact(steps, n, s, t) && MemoryIntact(steps, n, t, u)
    ensures MemoryIntact(steps, n, s, u)
  {
    forall i | 0 <= i < n
      ensures SameOn(OwnKeys(steps[i].name), s, u)
    {
      assert SameOn(OwnKeys(steps[i].name), s, t) && SameOn(OwnKeys(steps[i].name), t, u);
    }
  }

  // The step before the n-th is undone to where it began, and the memory of those before it is left alone.
  lemma UndoOne<Db(!new)>(steps: seq<Step<Db>>, n: nat, s1: State, d1: Db, t: State) returns (u: State)
    requires n < |steps| && DistinctNames(steps) && TakenBackAt(steps[n], s1, d1)
    requires !steps[n].human && steps[n].forward(s1, d1).ok
    requires MemoryIntact(steps, n + 1, steps[n].forward(s1, d1).state, t)
    ensures MemoryIntact(steps, n, s1, u)
    ensures UndoAll(steps, n + 1, t, steps[n].forward(s1, d1).db) == UndoAll(steps, n, u, d1)
  {
    hide OwnKeys, KeepsToItself, SameOn;
    var step := steps[n];
    var e := step.forward(s1, d1);
    OthersIntact(steps, n, s1, e.state);
    IntactTwice(steps, n, s1, e.state, t);
    u := t;
    if step.undo.Some? {
      assert SameOn(OwnKeys(steps[n].name), e.state, t);
      u := step.undo.value(t, e.db).state;
      OthersIntact(steps, n, t, u);
      IntactTwice(steps, n, s1, t, u);
    }
  }

  /** Main result: undoing what was done, with every step's memory intact, succeeds and gives back the
    * database the run started from.
    */
  lemma {:induction false} UndoRestores<Db(!new)>(steps: seq<Step<Db>>, n: nat, s0: State, d0: Db,
                                                  s: State, d: Db, t: State)
    requires n <= |steps| && DistinctNames(steps) && TakenBackAlong(steps, n, s0, d0)
    requires Forward(steps, n, s0, d0) == Some((s, d)) && MemoryIntact(steps, n, s, t)
    ensures var e := UndoAll(steps, n, t, d); e.ok && e.db == d0
    decreases n
  {
    if n > 0 {
      var (s1, d1) := Forward(steps, n - 1, s0, d0).value;
      assert TakenBackWhereMet(steps, n - 1, s0, d0);
      assert steps[n - 1].human ==> steps[n - 1].undo.None?;
      hide TakenBackAt, TakenBackWhereMet;
      var u := t;
      if steps[n - 1].human {
        assert MemoryIntact(steps, n - 1, s1, u);
      } else {
        u := UndoOne(steps, n - 1, s1, d1, t);
      }
      UndoRestores(steps, n - 1, s0, d0, s1, d1, u);
    }
  }

  // A step that fails half-way through has touched at most its own memory.
  lemma FailedStepRestores<Db(!new)>(steps: seq<Step<Db>>, n: nat, s0: State, d0: Db, s: State, d: Db)
    requires n < |steps| && !steps[n].human && DistinctNames(steps) && TakenBackAlong(steps, n + 1, s0, d0)
    requires Forward(steps, n, s0, d0) == Some((s, d)) && !steps[n].forward(s, d).ok
    ensures var f := steps[n].forward(s, d);
            var e := UndoAll(steps, n, f.state, f.db); e.ok && e.db == d0
  {
    assert TakenBackWhereMet(steps, n, s0, d0);
    var f := steps[n].forward(s, d);
    OthersIntact(steps, n, s, f.state);
    UndoRestores(steps, n, s0, d0, s, d, f.state);
  }

  lemma ReversibleAlong<Db(!new)>(steps: seq<Step<Db>>, n: nat, s0: State, d0: Db)
    requires AllReversible(steps) && n <= |steps|
    ensures DistinctNames(steps) && TakenBackAlong(steps, n, s0, d0)
  {
    forall i | 0 <= i < n
      ensures TakenBackWhereMet(steps, i, s0, d0)
    {
      assert Reversible(steps[i]);
    }
  }
}
