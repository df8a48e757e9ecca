/** The workflow engine: runs steps in order, pauses for people, journals every run and compensates. */
module FlowEngine {
  import opened Basics
  import opened FlowRun
  import opened Saga

  // Every stored run is well formed, and no further on than what was done of it.
  predicate AllWellStored<Db>(flows: map<string, seq<Step<Db>>>, runs: map<string, Run>, done: map<string, nat>) {
    forall id | id in runs ::
      && runs[id].id == id && runs[id].flow in flows && id in done
      && WellFormedRun(flows[runs[id].flow], runs[id]) && runs[id].cursor <= done[id]
  }

  lemma OneRunStored<Db>(flows: map<string, seq<Step<Db>>>, id: string, runs: map<string, Run>, done: map<string, nat>,
                         runs': map<string, Run>, done': map<string, nat>)
    requires AllWellStored(flows, runs, done) && runs' - {id} == runs - {id} && done' - {id} == done - {id}
    requires id in runs' ==>
               && runs'[id].id == id && runs'[id].flow in flows && id in done'
               && WellFormedRun(flows[runs'[id].flow], runs'[id]) && runs'[id].cursor <= done'[id]
    ensures AllWellStored(flows, runs', done')
  {
    hide WellFormedRun;
    forall other | other in runs' && other != id
      ensures other in runs && runs'[other] == runs[other] && other in done' && done'[other] == done[other]
    {
      assert other in runs' - {id} && other in runs - {id};
      assert other in done - {id} && other in done' - {id};
      assert runs'[other] == (runs' - {id})[other] && done'[other] == (done' - {id})[other];
    }
  }

  class Engine<Db(!new)> {
    const flows: map<string, seq<Step<Db>>>
    var runs: map<string, Run>          // the runs as stored
    var db: Db
    var luck: Luck                      // saves the store will still take, undo actions before the process dies
    ghost var done: map<string, nat>    // steps each run has got through, saved or not
    ghost var lost: set<string>         // the runs of which a save was lost
    ghost var cut: set<string>          // the runs of which a compensation was cut short

    constructor (flows: map<string, seq<Step<Db>>>, db: Db, luck: Luck)
      ensures Valid() && this.flows == flows && this.db == db && this.luck == luck
      ensures runs == map[] && lost == {} && cut == {}
    {
      this.flows, this.db, this.luck, runs := flows, db, luck, map[];
      done, lost, cut := map[], {}, {};
    }

    ghost predicate Valid()
      reads this
    {
      AllWellStored(flows, runs, done)
    }

    /** What one run's operations see and change. */
    ghost function WorldOf(id: string): World<Db>
      reads this
    {
      World(if id in runs then Some(runs[id]) else None, db, if id in done then done[id] else 0, luck, id in lost,
            id in cut)
    }

    // What they leave alone.
    ghost function Others(id: string): (map<string, Run>, map<string, nat>, set<string>, set<string>)
      reads this
    {
      (runs - {id}, done - {id}, lost - {id}, cut - {id})
    }

    method Save(run: Run, ghost reached: nat) returns (ok: bool)
      modifies this`runs, this`luck, this`done, this`lost
      ensures WorldOf(run.id) == Saved(old(WorldOf(run.id)).(done := reached), run)
      ensures ok == (old(luck.lands) > 0) && run.id in done
      ensures Others(run.id) == old(Others(run.id))
    {
      ok := luck.lands > 0;
      done := done[run.id := reached];
      if ok {
        runs, luck := runs[run.id := run], luck.(lands := luck.lands - 1);
      } else {
        lost := lost + {run.id};
      }
      assert done - {run.id} == old(done) - {run.id} && runs - {run.id} == old(runs) - {run.id};
      assert lost - {run.id} == old(lost) - {run.id};
    }

    ghost method Cut(id: string)
      modifies this`cut, this`done
      ensures WorldOf(id) == old(WorldOf(id)).(cut := true) && Others(id) == old(Others(id)) && id in done
    {
      done := done[id := if id in done then done[id] else 0];
      cut := cut + {id};
      assert done - {id} == old(done) - {id} && cut - {id} == old(cut) - {id};
    }

    // Undoes the steps before the cursor, last first, journaling each; stops at the first that fails, and when the
    // process dies.
    method Compensate(run: Run) returns (after: Run, ok: bool, died: bool)
      requires run.flow in flows && run.cursor <= |flows[run.flow]|
      modifies this`db
      ensures (db, died) == UndoneUntil(flows[run.flow], run.cursor, run.state, old(db), luck.undos)
      ensures !died ==>
                && after == Undone(flows[run.flow], run, old(db))
                && Effect(after.state, db, ok) == UndoAll(flows[run.flow], run.cursor, run.state, old(db))
    {
      var steps, left := flows[run.flow], luck.undos;
      after, died := run, false;
      var i := run.cursor;
      while i > 0
        invariant 0 <= i <= run.cursor
        invariant after == run.(state := after.state, journal := after.journal)
        invariant UndoneUntil(steps, i, after.state, db, left)
               == UndoneUntil(steps, run.cursor, run.state, old(db), luck.undos)
        invariant UndoAll(steps, i, after.state, db) == UndoAll(steps, run.cursor, run.state, old(db))
        invariant after.journal + UndoRecords(steps, i, after.state, db)
               == run.journal + UndoRecords(steps, run.cursor, run.state, old(db))
      {
        i := i - 1;
        var step := steps[i];
        if step.undo.None? {
          continue;
        }
        if left == 0 {
          return after, false, true;
        }
        left := left - 1;
        var e := step.undo.value(after.state, db);
        db := e.db;
        after := after.(state := e.state);
        if !e.ok {
          after := after.(journal := after.journal + [StepRecord(step.name, StepFailed)]);
          return after, false, false;
        }
        after := after.(journal := after.journal + [StepRecord(step.name, Compensated)]);
      }
      ok := true;
    }

    // Performs the step at the cursor; one that fails is compensated for and marks the run failed.
    method Perform(run: Run) returns (after: Run, err: Option<Error>)
      requires run.flow in flows && run.cursor < |flows[run.flow]| && !flows[run.flow][run.cursor].human
      modifies this`runs, this`db, this`luck, this`done, this`lost, this`cut
      ensures var steps := flows[run.flow];
              Advanced(steps, run, old(WorldOf(run.id))) ==
                if err.None? && after.cursor <= |steps| then Advanced(steps, after, WorldOf(run.id))
                else Reply(WorldOf(run.id), Some(after), err)
      ensures err.None? ==> after.id == run.id && after.flow == run.flow && after.cursor == run.cursor + 1
      ensures Others(run.id) == old(Others(run.id)) && run.id in done
    {
      hide UndoAll, UndoRecords, UndoneUntil;
      var steps := flows[run.flow];
      var step := steps[run.cursor];
      ghost var w := WorldOf(run.id);
      var e := step.forward(run.state, db);
      db := e.db;
      if e.ok {
        after := Noted(run.(state := e.state, cursor := run.cursor + 1), step.name, Done);
        var ok := Save(after, Larger(w.done, after.cursor));
        err := if ok then None else Some(SaveFailed);
      } else {
        var noted := Noted(run.(state := e.state), step.name, StepFailed);
        var ok, died;
        after, ok, died := Compensate(noted);
        if died {
          Cut(run.id);
          return run, Some(Died);
        }
        after := after.(status := Failed);
        ok := Save(after, w.done);
        err := Some(StepError);
      }
    }

    // Runs from the cursor to the next pause, the end or a failure, saving after each step.
    method Advance(run: Run) returns (after: Run, err: Option<Error>)
      requires run.flow in flows && run.cursor <= |flows[run.flow]|
      modifies this`runs, this`db, this`luck, this`done, this`lost, this`cut
      ensures Reply(WorldOf(run.id), Some(after), err) == Advanced(flows[run.flow], run, old(WorldOf(run.id)))
      ensures Others(run.id) == old(Others(run.id)) && run.id in done
    {
      hide UndoAll, Undone;
      var steps := flows[run.flow];
      after := run;
      while after.cursor < |steps|
        invariant after.id == run.id && after.flow == run.flow && after.cursor <= |steps|
        invariant Advanced(steps, after, WorldOf(run.id)) == Advanced(steps, run, old(WorldOf(run.id)))
        invariant Others(run.id) == old(Others(run.id))
        decreases |steps| - after.cursor
      {
        if steps[after.cursor].human {
          after := after.(status := Awaiting);
          var ok := Save(after, WorldOf(run.id).done);
          return after, if ok then None else Some(SaveFailed);
        }
        after, err := Perform(after);
        if err.Some? {
          return;
        }
      }
      after := after.(status := Completed);
      var ok := Save(after, WorldOf(run.id).done);
      err := if ok then None else Some(SaveFailed);
    }

    // What keeps the engine valid after an operation on one run.
    twostate lemma StaysValid(id: string)
      requires old(Valid()) && Others(id) == old(Others(id)) && id in done
      requires MovedOn(old(WorldOf(id)), WorldOf(id))
      requires id in runs ==>
                 runs[id].id == id && runs[id].flow in flows && WellStored(flows[runs[id].flow], WorldOf(id))
      ensures Valid()
    {
      hide MovedOn;
      OneRunStored(flows, id, old(runs), old(done), runs, done);
    }

    /** A new run, stored and then advanced. */
    method Start(flow: string, state: State, id: string) returns (run: Option<Run>, err: Option<Error>)
      requires Valid() && id !in runs && id !in lost + cut
      modifies this`runs, this`db, this`luck, this`done, this`lost, this`cut
      ensures Valid() && Others(id) == old(Others(id))
      ensures if flow in flows
              then Reply(WorldOf(id), run, err) == Started(flows[flow], flow, id, state, old(WorldOf(id)))
              else run.None? && err == Some(UnknownFlow) && WorldOf(id) == old(WorldOf(id))
    {
      if flow !in flows {
        return None, Some(UnknownFlow);
      }
      hide Advanced, WellStored, MovedOn;
      StartedKeeps(flows[flow], flow, id, state, WorldOf(id));
      StartedIsNamed(flows[flow], flow, id, state, WorldOf(id));
      var started := Run(id, flow, Running, 0, state, []);
      var ok := Save(started, 0);
      if ok {
        var after;
        after, err := Advance(started);
        run := Some(after);
      } else {
        run, err := None, Some(SaveFailed);
      }
      StaysValid(id);
    }

    /** A waiting run goes on behind its question. */
    method Approve(id: string) returns (run: Option<Run>, err: Option<Error>)
      requires Valid()
      modifies this`runs, this`db, this`luck, this`done, this`lost, this`cut
      ensures Valid() && Others(id) == old(Others(id))
      ensures Reply(WorldOf(id), run, err) == old(Answer(Act.Approve, id))
    {
      if id !in runs {
        return None, Some(NotFound);
      }
      var before := runs[id];
      if before.status != Awaiting {
        return None, Some(NotAwaiting);
      }
      hide Advanced, MovedOn;
      var steps := flows[before.flow];
      ApprovedKeeps(steps, WorldOf(id));
      var next := Noted(before.(cursor := before.cursor + 1, status := Running), steps[before.cursor].name, Approved);
      hide WellStored, WellFormedRun, ForwardJournal;
      var ok := Save(next, Larger(WorldOf(id).done, next.cursor));
      if ok {
        var after;
        after, err := Advance(next);
        run := Some(after);
      } else {
        run, err := None, Some(SaveFailed);
      }
      StaysValid(id);
    }

    /** A waiting run ends, its steps undone. */
    method Reject(id: string) returns (run: Option<Run>, err: Option<Error>)
      requires Valid()
      modifies this`runs, this`db, this`luck, this`done, this`lost, this`cut
      ensures Valid() && Others(id) == old(Others(id))
      ensures Reply(WorldOf(id), run, err) == old(Answer(Act.Reject, id))
    {
      if id !in runs {
        return None, Some(NotFound);
      }
      var before := runs[id];
      if before.status != Awaiting {
        return None, Some(NotAwaiting);
      }
      var noted := Noted(before, flows[before.flow][before.cursor].name, StepRejected);
      run, err := Finish(noted, Rejected);
    }

    /** Undoes a run, whatever its status: there is no guard. */
    method Rollback(id: string) returns (run: Option<Run>, err: Option<Error>)
      requires Valid()
      modifies this`runs, this`db, this`luck, this`done, this`lost, this`cut
      ensures Valid() && Others(id) == old(Others(id))
      ensures Reply(WorldOf(id), run, err) == old(Answer(Act.Rollback, id))
    {
      if id !in runs {
        return None, Some(NotFound);
      }
      run, err := Finish(runs[id], RolledBack);
    }

    // Compensates a run and stores it with its last status; a failed undo stores nothing.
    method Finish(run: Run, status: Status) returns (after: Option<Run>, err: Option<Error>)
      requires Valid() && run.id in runs && !GoingForward(status)
      requires run == runs[run.id].(journal := run.journal) && runs[run.id].journal <= run.journal
      modifies this`runs, this`db, this`luck, this`done, this`lost, this`cut
      ensures Valid() && Others(run.id) == old(Others(run.id))
      ensures run.flow in flows && run.cursor <= |flows[run.flow]|
      ensures Reply(WorldOf(run.id), after, err) == Ended(flows[run.flow], run, status, old(WorldOf(run.id)))
    {
      hide MovedOn, UndoAll, UndoRecords, Undone, UndoneUntil;
      EndedKeeps(flows[run.flow], run, status, WorldOf(run.id));
      hide WellStored, WellFormedRun;
      var undone, ok, died := Compensate(run);
      if died {
        Cut(run.id);
        undone, err := run, Some(Died);
      } else if ok {
        undone := undone.(status := status);
        ok := Save(undone, WorldOf(run.id).done);
        err := if ok then None else Some(SaveFailed);
      } else {
        err := Some(UndoError);
      }
      after := Some(undone);
      UndoneIsNamed(flows[run.flow], run, old(db));
      StaysValid(run.id);
    }

    // What an act on a run answers; for a run nobody knows, that there is none.
    ghost function Answer(act: Act, id: string): Reply<Db>
      requires Valid()
      reads this
    {
      if id in runs then ActReply(flows[runs[id].flow], act, WorldOf(id)) else Reply(WorldOf(id), None, Some(NotFound))
    }

    method Do(act: Act, id: string) returns (run: Option<Run>, err: Option<Error>)
      requires Valid()
      modifies this`runs, this`db, this`luck, this`done, this`lost, this`cut
      ensures Valid() && Others(id) == old(Others(id))
      ensures Reply(WorldOf(id), run, err) == old(Answer(act, id))
    {
      match act {
        case Approve => run, err := Approve(id);
        case Reject => run, err := Reject(id);
        case Rollback => run, err := Rollback(id);
      }
    }

    /** A whole history of one run, meeting with what is given: what the engine comes to is its History. */
    method Relive(b: Beginning<Db>, events: seq<Event>)
      requires Valid() && b.flow in flows && b.id !in runs && b.id !in lost + cut && b.db == db
      modifies this`runs, this`db, this`luck, this`done, this`lost, this`cut
      ensures Valid() && Others(b.id) == old(Others(b.id))
      ensures WorldOf(b.id) == History(flows[b.flow], b, events)
    {
      hide WellStored, AllWellStored, History, Started, ActReply;
      luck, done := b.luck, done[b.id := 0];
      assert done - {b.id} == old(done) - {b.id};
      OneRunStored(flows, b.id, runs, old(done), runs, done);
      HistoryBegins(flows[b.flow], b);
      var run, err := Start(b.flow, b.state, b.id);
      for i := 0 to |events|
        invariant Valid() && Others(b.id) == old(Others(b.id))
        invariant WorldOf(b.id) == History(flows[b.flow], b, events[..i])
      {
        luck := events[i].luck;
        assert events[..i + 1][..i] == events[..i];
        HistoryContinues(flows[b.flow], b, events[..i], events[i], WorldOf(b.id));
        assert events[..i + 1] == events[..i] + [events[i]];
        run, err := Do(events[i].act, b.id);
      }
      assert events[..|events|] == events;
    }
  }

  lemma HistoryBegins<Db>(steps: seq<Step<Db>>, b: Beginning<Db>)
    ensures var w := World(None, b.db, 0, b.luck, false, false);
            History(steps, b, []) == Started(steps, b.flow, b.id, b.state, w).world
  {
  }

  lemma HistoryContinues<Db>(steps: seq<Step<Db>>, b: Beginning<Db>, events: seq<Event>, e: Event, w: World<Db>)
    requires w == History(steps, b, events).(luck := e.luck)
    ensures WellStored(steps, w)
    ensures History(steps, b, events + [e]) == ActReply(steps, e.act, w).world
    ensures w.stored.Some? ==> w.stored.value.flow == b.flow
    ensures w.stored.None? ==> ActReply(steps, e.act, w) == Reply(w, None, Some(NotFound))
  {
    assert (events + [e])[..|events|] == events;
    HistoryIsNamed(steps, b, events);
    hide WellFormedRun;
  }

  lemma {:induction false} HistoryIsNamed<Db>(steps: seq<Step<Db>>, b: Beginning<Db>, events: seq<Event>)
    ensures var s := History(steps, b, events).stored; s.Some? ==> s.value.flow == b.flow
    decreases |events|
  {
    if events == [] {
      StartedIsNamed(steps, b.flow, b.id, b.state, World(None, b.db, 0, b.luck, false, false));
    } else {
      var n := |events| - 1;
      var w := History(steps, b, events[..n]);
      HistoryIsNamed(steps, b, events[..n]);
      ActKeeps(steps, events[n].act, w.(luck := events[n].luck));
      hide ActReply;
      if w.stored.None? {
        NothingStored(steps, events[n].act, w.(luck := events[n].luck));
      }
    }
  }

  lemma NothingStored<Db>(steps: seq<Step<Db>>, act: Act, w: World<Db>)
    requires w.stored.None?
    ensures ActReply(steps, act, w) == Reply(w, None, Some(NotFound))
  {
  }

  // An advancing run keeps its name and its flow.
  lemma {:induction false} AdvancedIsNamed<Db>(steps: seq<Step<Db>>, run: Run, w: World<Db>)
    requires run.cursor <= |steps|
    requires w.stored.Some? ==> w.stored.value.id == run.id && w.stored.value.flow == run.flow
    ensures var s := Advanced(steps, run, w).world.stored; s.Some? ==> s.value.id == run.id && s.value.flow == run.flow
    decreases |steps| - run.cursor
  {
    if run.cursor < |steps| && !steps[run.cursor].human {
      var step := steps[run.cursor];
      var e := step.forward(run.state, w.db);
      if e.ok && w.luck.lands > 0 {
        var next := Noted(run.(state := e.state, cursor := run.cursor + 1), step.name, Done);
        AdvancedIsNamed(steps, next, Saved(w.(db := e.db, done := Larger(w.done, next.cursor)), next));
      }
    }
  }

  lemma StartedIsNamed<Db>(steps: seq<Step<Db>>, flow: string, id: string, state: State, w: World<Db>)
    requires w.stored.None?
    ensures var s := Started(steps, flow, id, state, w).world.stored;
            s.Some? ==> s.value.id == id && s.value.flow == flow
  {
    var run := Run(id, flow, Running, 0, state, []);
    AdvancedIsNamed(steps, run, Saved(w.(done := 0), run));
  }

  lemma UndoneIsNamed<Db>(steps: seq<Step<Db>>, run: Run, db: Db)
    requires run.cursor <= |steps|
    ensures var r := Undone(steps, run, db); r.id == run.id && r.flow == run.flow && r.cursor == run.cursor
  {
  }
}
