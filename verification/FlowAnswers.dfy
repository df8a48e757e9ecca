/** What an operation on a run answers: where the run comes to a stop, and what its journal says then. */
module FlowAnswers {
  import opened Basics
  import opened Saga
  import opened FlowRun

  // ---------------------------------------------------------------- where a run stops

  // The next question at or after the cursor, or the end.
  ghost predicate IsStop<Db>(steps: seq<Step<Db>>, cursor: nat, stop: nat) {
    && cursor <= stop <= |steps|
    && (forall i | cursor <= i < stop :: !steps[i].human)
    && (stop < |steps| ==> steps[stop].human)
  }

  // What the steps from here to there make of the memory and the database, if none of them fails.
  function Through<Db>(steps: seq<Step<Db>>, cursor: nat, n: nat, state: State, db: Db): Option<(State, Db)>
    requires cursor + n <= |steps|
  {
    Forward(steps[cursor..], n, state, db)
  }

  lemma {:induction false} FirstStepFirst<Db>(steps: seq<Step<Db>>, cursor: nat, n: nat, state: State, db: Db)
    requires cursor + n <= |steps| && n > 0 && !steps[cursor].human
    ensures var e := steps[cursor].forward(state, db);
            Through(steps, cursor, n, state, db) ==
            if e.ok then Through(steps, cursor + 1, n - 1, e.state, e.db) else None
  {
    var rest, next := steps[cursor..], steps[cursor + 1..];
    assert rest[0] == steps[cursor];
    if n > 1 {
      FirstStepFirst(steps, cursor, n - 1, state, db);
      assert rest[n - 1] == next[n - 2];
    } else {
      assert Forward(rest, 0, state, db) == Some((state, db));
    }
  }

  // The first k steps from here succeed, and the next one fails.
  ghost predicate FailsAfter<Db>(steps: seq<Step<Db>>, cursor: nat, k: nat, state: State, db: Db) {
    && cursor + k < |steps|
    && Through(steps, cursor, k, state, db).Some? && Through(steps, cursor, k + 1, state, db).None?
  }

  // One entry for each of these steps.
  function Entries<Db>(steps: seq<Step<Db>>, cursor: nat, n: nat): seq<StepRecord>
    requires cursor + n <= |steps|
  {
    seq(n, i requires 0 <= i < n => StepRecord(steps[cursor + i].name, Done))
  }

  // Where the advance began.
  datatype Point<Db> = Point(cursor: nat, state: State, db: Db, journal: seq<StepRecord>, lands: nat)

  function PointOf<Db>(run: Run, w: World<Db>): Point<Db> {
    Point(run.cursor, run.state, w.db, run.journal, w.luck.lands)
  }

  /** Without an error the run is stored at the stop, waiting or completed: its memory and the database are what
    * the steps before make of them, and each has its entry.
    */
  predicate StopsThere<Db(==)>(steps: seq<Step<Db>>, p: Point<Db>, stop: nat, r: Reply<Db>)
    requires p.cursor <= stop <= |steps|
  {
    && r.run.Some? && r.world.stored == r.run
    && r.run.value.cursor == stop
    && r.run.value.status == (if stop < |steps| then Awaiting else Completed)
    && Through(steps, p.cursor, stop - p.cursor, p.state, p.db) == Some((r.run.value.state, r.world.db))
    && r.run.value.journal == p.journal + Entries(steps, p.cursor, stop - p.cursor)
  }

  /** The step k further on failed: the run is a failed one in front of it, and its journal says that the steps
    * before were done, that this one failed, and what was undone then.
    */
  predicate FailedThere<Db>(steps: seq<Step<Db>>, p: Point<Db>, k: nat, r: Reply<Db>)
    requires p.cursor + k < |steps| && Through(steps, p.cursor, k, p.state, p.db).Some?
  {
    var (s, d) := Through(steps, p.cursor, k, p.state, p.db).value;
    var step := steps[p.cursor + k];
    var e := step.forward(s, d);
    && r.run.Some? && r.run.value.status == Failed && r.run.value.cursor == p.cursor + k
    && r.run.value.journal == p.journal + Entries(steps, p.cursor, k) + [StepRecord(step.name, StepFailed)]
                              + UndoRecords(steps, p.cursor + k, e.state, e.db)
    && (p.lands > k ==> r.world.stored == r.run)
  }

  // Some step before the stop fails, the saves up to it landing.
  ghost predicate FailsBefore<Db>(steps: seq<Step<Db>>, p: Point<Db>, n: nat) {
    exists k :: 0 <= k < n && k <= p.lands && FailsAfter(steps, p.cursor, k, p.state, p.db)
  }

  ghost predicate FailedBefore<Db>(steps: seq<Step<Db>>, p: Point<Db>, n: nat, r: Reply<Db>) {
    exists k :: 0 <= k < n && FailsAfter(steps, p.cursor, k, p.state, p.db) && FailedThere(steps, p, k, r)
  }

  /** Exactly how an advance ends. It answers without an error if and only if no step up to the next stop fails
    * and every save on the way lands. A step that fails, with the saves before it landed, fails the run, unless
    * the process dies undoing it; and otherwise a save was lost.
    */
  ghost predicate EndsExactly<Db>(steps: seq<Step<Db>>, p: Point<Db>, stop: nat, r: Reply<Db>)
    requires p.cursor <= stop <= |steps|
  {
    var n := stop - p.cursor;
    && (r.err.None? <==> Through(steps, p.cursor, n, p.state, p.db).Some? && p.lands > n)
    && (r.err.None? ==> StopsThere(steps, p, stop, r))
    && (r.err == Some(StepError) || r.err == Some(Died) <==>
          FailsBefore(steps, p, n))
    && (r.err == Some(StepError) ==> FailedBefore(steps, p, n, r))
    && (r.err.Some? ==> r.err.value in {StepError, Died, SaveFailed})
  }

  lemma {:induction false} AdvanceEndsExactly<Db>(steps: seq<Step<Db>>, run: Run, w: World<Db>, stop: nat)
    requires IsStop(steps, run.cursor, stop)
    ensures EndsExactly(steps, PointOf(run, w), stop, Advanced(steps, run, w))
    decreases stop - run.cursor
  {
    hide UndoAll, UndoRecords, UndoneUntil, EndsExactly;
    if stop == run.cursor {
      StopsHere(steps, run, w);
    } else {
      var step := steps[run.cursor];
      var e := step.forward(run.state, w.db);
      if e.ok && w.luck.lands > 0 {
        var next := Noted(run.(state := e.state, cursor := run.cursor + 1), step.name, Done);
        var after := Saved(w.(db := e.db, done := Larger(w.done, next.cursor)), next);
        AdvanceEndsExactly(steps, next, after, stop);
        OneStepBack(steps, PointOf(run, w), stop, Advanced(steps, next, after));
      } else {
        EndsHere(steps, run, w, stop);
      }
    }
  }

  // At the stop itself all that is left is the save.
  lemma StopsHere<Db>(steps: seq<Step<Db>>, run: Run, w: World<Db>)
    requires IsStop(steps, run.cursor, run.cursor)
    ensures EndsExactly(steps, PointOf(run, w), run.cursor, Advanced(steps, run, w))
  {
    assert Through(steps, run.cursor, 0, run.state, w.db) == Some((run.state, w.db));
    assert run.journal + Entries(steps, run.cursor, 0) == run.journal;
  }

  // A step that fails, or whose save is lost, ends the advance.
  lemma EndsHere<Db>(steps: seq<Step<Db>>, run: Run, w: World<Db>, stop: nat)
    requires run.cursor < stop && IsStop(steps, run.cursor, stop)
    requires !steps[run.cursor].forward(run.state, w.db).ok || w.luck.lands == 0
    ensures EndsExactly(steps, PointOf(run, w), stop, Advanced(steps, run, w))
  {
    var c, p := run.cursor, PointOf(run, w);
    var e := steps[c].forward(run.state, w.db);
    assert Through(steps, c, 0, run.state, w.db) == Some((run.state, w.db));
    FirstStepFirst(steps, c, 1, run.state, w.db);
    FirstStepFirst(steps, c, stop - c, run.state, w.db);
    if e.ok {
      assert Through(steps, c + 1, 0, e.state, e.db) == Some((e.state, e.db));
      assert !FailsAfter(steps, c, 0, run.state, w.db);
    } else {
      FailsNow(steps, run, w, stop);
    }
  }

  lemma FailsNow<Db>(steps: seq<Step<Db>>, run: Run, w: World<Db>, stop: nat)
    requires run.cursor < stop && IsStop(steps, run.cursor, stop)
    requires !steps[run.cursor].forward(run.state, w.db).ok
    ensures var p, r := PointOf(run, w), Advanced(steps, run, w);
            && FailsBefore(steps, p, stop - run.cursor)
            && (r.err == Some(StepError) ==> FailedBefore(steps, p, stop - run.cursor, r))
  {
    hide UndoAll, UndoRecords, UndoneUntil;
    var c, p, r := run.cursor, PointOf(run, w), Advanced(steps, run, w);
    assert Through(steps, c, 0, run.state, w.db) == Some((run.state, w.db));
    FirstStepFirst(steps, c, 1, run.state, w.db);
    assert FailsAfter(steps, c, 0, run.state, w.db);
    assert run.journal + Entries(steps, c, 0) == run.journal;
    if r.err == Some(StepError) {
      assert FailedThere(steps, p, 0, r);
    }
  }

  // One step done and saved.
  function NextPoint<Db>(steps: seq<Step<Db>>, p: Point<Db>): Point<Db>
    requires p.cursor < |steps| && p.lands > 0
  {
    var e := steps[p.cursor].forward(p.state, p.db);
    Point(p.cursor + 1, e.state, e.db, p.journal + [StepRecord(steps[p.cursor].name, Done)], p.lands - 1)
  }

  ghost predicate Succeeds<Db>(steps: seq<Step<Db>>, p: Point<Db>) {
    p.cursor < |steps| && p.lands > 0 && !steps[p.cursor].human && steps[p.cursor].forward(p.state, p.db).ok
  }

  lemma OneFewer<Db>(steps: seq<Step<Db>>, p: Point<Db>, k: nat)
    requires Succeeds(steps, p) && 0 < k && p.cursor + k <= |steps|
    ensures var q := NextPoint(steps, p);
            && p.journal + Entries(steps, p.cursor, k) == q.journal + Entries(steps, q.cursor, k - 1)
            && Through(steps, p.cursor, k, p.state, p.db) == Through(steps, q.cursor, k - 1, q.state, q.db)
            && (FailsAfter(steps, p.cursor, k, p.state, p.db) <==>
                FailsAfter(steps, q.cursor, k - 1, q.state, q.db))
  {
    FirstStepFirst(steps, p.cursor, k, p.state, p.db);
    if p.cursor + k < |steps| {
      FirstStepFirst(steps, p.cursor, k + 1, p.state, p.db);
    }
    assert Entries(steps, p.cursor, k) ==
           [StepRecord(steps[p.cursor].name, Done)] + Entries(steps, p.cursor + 1, k - 1);
    hide Through;
  }

  lemma NotAtOnce<Db>(steps: seq<Step<Db>>, p: Point<Db>)
    requires Succeeds(steps, p)
    ensures !FailsAfter(steps, p.cursor, 0, p.state, p.db)
  {
    FirstStepFirst(steps, p.cursor, 1, p.state, p.db);
  }

  lemma FailsLater<Db>(steps: seq<Step<Db>>, p: Point<Db>, n: nat)
    requires Succeeds(steps, p) && 0 < n && p.cursor + n <= |steps|
    ensures FailsBefore(steps, p, n) <==> FailsBefore(steps, NextPoint(steps, p), n - 1)
  {
    hide FailsAfter, Through;
    var q := NextPoint(steps, p);
    NotAtOnce(steps, p);
    if k :| 0 <= k < n && k <= p.lands && FailsAfter(steps, p.cursor, k, p.state, p.db) {
      OneFewer(steps, p, k);
      assert FailsAfter(steps, q.cursor, k - 1, q.state, q.db);
    }
    if FailsBefore(steps, q, n - 1) {
      var k :| 0 <= k < n - 1 && k <= q.lands && FailsAfter(steps, q.cursor, k, q.state, q.db);
      OneFewer(steps, p, k + 1);
      assert FailsAfter(steps, p.cursor, k + 1, p.state, p.db);
    }
  }

  lemma FailedLater<Db>(steps: seq<Step<Db>>, p: Point<Db>, n: nat, r: Reply<Db>)
    requires Succeeds(steps, p) && 0 < n && p.cursor + n <= |steps|
    requires FailedBefore(steps, NextPoint(steps, p), n - 1, r)
    ensures FailedBefore(steps, p, n, r)
  {
    var q := NextPoint(steps, p);
    hide Entries, FailedThere;
    var k :| 0 <= k < n - 1 && FailsAfter(steps, q.cursor, k, q.state, q.db) && FailedThere(steps, q, k, r);
    OneFewer(steps, p, k + 1);
    FailedOneLater(steps, p, k, r);
  }

  lemma FailedOneLater<Db>(steps: seq<Step<Db>>, p: Point<Db>, k: nat, r: Reply<Db>)
    requires Succeeds(steps, p) && p.cursor + 1 + k < |steps|
    requires var q := NextPoint(steps, p);
             && Through(steps, q.cursor, k, q.state, q.db).Some? && FailedThere(steps, q, k, r)
    ensures Through(steps, p.cursor, k + 1, p.state, p.db).Some? && FailedThere(steps, p, k + 1, r)
  {
    OneFewer(steps, p, k + 1);
    hide Through, Entries, UndoRecords, FailsAfter;
  }

  // How the advance ends from the next step is how it ends from this one, which is done and saved.
  lemma OneStepBack<Db>(steps: seq<Step<Db>>, p: Point<Db>, stop: nat, r: Reply<Db>)
    requires Succeeds(steps, p) && p.cursor < stop <= |steps|
    requires EndsExactly(steps, NextPoint(steps, p), stop, r)
    ensures EndsExactly(steps, p, stop, r)
  {
    hide Through, Entries, FailsBefore, FailedBefore;
    var n := stop - p.cursor;
    OneFewer(steps, p, n);
    FailsLater(steps, p, n);
    if r.err == Some(StepError) {
      FailedLater(steps, p, n, r);
    }
  }

  // ---------------------------------------------------------------- what the operations answer

  /** A start: a first save, and then the advance from the first step. */
  lemma StartEndsExactly<Db>(steps: seq<Step<Db>>, flow: string, id: string, state: State, w: World<Db>, stop: nat)
    requires IsStop(steps, 0, stop)
    ensures var r := Started(steps, flow, id, state, w);
            if w.luck.lands == 0 then r.err == Some(SaveFailed) && r.world.stored == w.stored && r.world.db == w.db
            else EndsExactly(steps, Point(0, state, w.db, [], w.luck.lands - 1), stop, r)
  {
    hide Advanced, EndsExactly;
    var run := Run(id, flow, Running, 0, state, []);
    if w.luck.lands > 0 {
      AdvanceEndsExactly(steps, run, Saved(w.(done := 0), run), stop);
    }
  }

  /** Main result: an approval refuses a run nobody knows and one that does not wait; otherwise the question is
    * noted as approved, and the run goes on from the step behind it.
    */
  lemma ApprovalEndsExactly<Db>(steps: seq<Step<Db>>, w: World<Db>, stop: nat)
    requires WellStored(steps, w)
    requires w.stored.Some? && w.stored.value.status == Awaiting ==> IsStop(steps, w.stored.value.cursor + 1, stop)
    ensures var r := ApprovedReply(steps, w);
            match w.stored
            case None => r == Reply(w, None, Some(NotFound))
            case Some(run) =>
              if run.status != Awaiting then r == Reply(w, None, Some(NotAwaiting))
              else if w.luck.lands == 0 then
                r.err == Some(SaveFailed) && r.world.stored == w.stored && r.world.db == w.db
              else
                EndsExactly(steps, Point(run.cursor + 1, run.state, w.db,
                                         run.journal + [StepRecord(steps[run.cursor].name, Approved)],
                                         w.luck.lands - 1), stop, r)
  {
    hide Advanced, EndsExactly, ForwardJournal;
    if w.stored.Some? && w.stored.value.status == Awaiting && w.luck.lands > 0 {
      var run := w.stored.value;
      var next := Noted(run.(cursor := run.cursor + 1, status := Running), steps[run.cursor].name, Approved);
      var after := Saved(w.(done := Larger(w.done, next.cursor)), next);
      AdvanceEndsExactly(steps, next, after, stop);
    }
  }

  // The steps before the n-th that can be undone, last first.
  function Undoable<Db>(steps: seq<Step<Db>>, n: nat): (r: seq<nat>)
    requires n <= |steps|
    ensures forall i: nat :: i in r <==> i < n && steps[i].undo.Some?
    ensures forall x, y | 0 <= x < y < |r| :: r[x] > r[y]
  {
    if n == 0 then []
    else
      var rest := Undoable(steps, n - 1);
      assert forall x | 0 <= x < |rest| :: rest[x] in rest;
      if steps[n - 1].undo.Some? then [n - 1] + rest else rest
  }

  // An entry for each step before the n-th that can be undone, last first, as far as the entries go; the last
  // entry is of one that failed unless all went well, and then none is missing.
  ghost predicate Written<Db>(steps: seq<Step<Db>>, n: nat, ok: bool, recs: seq<StepRecord>)
    requires n <= |steps|
  {
    var all := Undoable(steps, n);
    && |recs| <= |all| && (ok ==> |recs| == |all|) && (!ok ==> |recs| > 0)
    && forall i | 0 <= i < |recs| ::
         all[i] in all
         && recs[i] == StepRecord(steps[all[i]].name, if !ok && i == |recs| - 1 then StepFailed else Compensated)
  }

  lemma OneMoreWritten<Db>(steps: seq<Step<Db>>, n: nat, ok: bool, recs: seq<StepRecord>)
    requires n < |steps| && Written(steps, n, ok, recs)
    ensures steps[n].undo.None? ==> Written(steps, n + 1, ok, recs)
    ensures steps[n].undo.Some? ==> Written(steps, n + 1, ok, [StepRecord(steps[n].name, Compensated)] + recs)
  {
    if steps[n].undo.Some? {
      var more := [StepRecord(steps[n].name, Compensated)] + recs;
      var all, before := Undoable(steps, n + 1), Undoable(steps, n);
      assert all == [n] + before;
      hide Undoable;
      forall x | 0 <= x < |more|
        ensures all[x] in all
        ensures more[x] == StepRecord(steps[all[x]].name, if !ok && x == |more| - 1 then StepFailed else Compensated)
      {
        if x > 0 {
          assert more[x] == recs[x - 1] && all[x] == before[x - 1];
        }
      }
    }
  }

  lemma OneFailedWritten<Db>(steps: seq<Step<Db>>, n: nat)
    requires n < |steps| && steps[n].undo.Some?
    ensures Written(steps, n + 1, false, [StepRecord(steps[n].name, StepFailed)])
  {
    assert Undoable(steps, n + 1)[0] == n;
  }

  lemma NothingWritten<Db>(steps: seq<Step<Db>>)
    ensures Written(steps, 0, true, [])
  {
  }

  /** What a compensation writes: an entry for each undo action that ran, last step first. All of them are
    * compensated if it succeeds, and then none is missing; if it does not, it is the last one that failed.
    */
  lemma {:induction false} UndoWrites<Db>(steps: seq<Step<Db>>, n: nat, state: State, db: Db)
    requires n <= |steps|
    ensures Written(steps, n, UndoAll(steps, n, state, db).ok, UndoRecords(steps, n, state, db))
  {
    hide Written, UndoAll, UndoRecords;
    UndoneLast(steps, n, state, db);
    if n == 0 {
      NothingWritten(steps);
    } else {
      var undo := steps[n - 1].undo;
      var e := if undo.None? then Effect(state, db, true) else undo.value(state, db);
      if e.ok {
        UndoWrites(steps, n - 1, e.state, e.db);
        OneMoreWritten(steps, n - 1, UndoAll(steps, n - 1, e.state, e.db).ok, UndoRecords(steps, n - 1, e.state, e.db));
      } else {
        OneFailedWritten(steps, n - 1);
      }
    }
  }

  lemma UndoneLast<Db>(steps: seq<Step<Db>>, n: nat, state: State, db: Db)
    requires n <= |steps|
    ensures n == 0 ==> UndoAll(steps, n, state, db).ok && UndoRecords(steps, n, state, db) == []
    ensures n > 0 && steps[n - 1].undo.None? ==>
              && UndoAll(steps, n, state, db) == UndoAll(steps, n - 1, state, db)
              && UndoRecords(steps, n, state, db) == UndoRecords(steps, n - 1, state, db)
    ensures n > 0 && steps[n - 1].undo.Some? ==>
              var e := steps[n - 1].undo.value(state, db);
              && UndoAll(steps, n, state, db) == (if e.ok then UndoAll(steps, n - 1, e.state, e.db) else e)
              && UndoRecords(steps, n, state, db) ==
                 if e.ok then
                   [StepRecord(steps[n - 1].name, Compensated)] + UndoRecords(steps, n - 1, e.state, e.db)
                 else [StepRecord(steps[n - 1].name, StepFailed)]
  {
  }

  /** A rejection refuses like an approval; otherwise it notes the question as rejected, undoes what was done, and
    * stores the run as rejected where it stood.
    */
  lemma RejectionEndsExactly<Db>(steps: seq<Step<Db>>, w: World<Db>)
    requires WellStored(steps, w)
    ensures var r := RejectedReply(steps, w);
            match w.stored
            case None => r == Reply(w, None, Some(NotFound))
            case Some(run) =>
              if run.status != Awaiting then r == Reply(w, None, Some(NotAwaiting))
              else
                EndedExactly(steps, run, run.journal + [StepRecord(steps[run.cursor].name, StepRejected)], Rejected,
                             w, r)
  {
  }

  /** A rollback does the same with a run of any status, and stores it as rolled back. */
  lemma RollbackEndsExactly<Db>(steps: seq<Step<Db>>, w: World<Db>)
    requires WellStored(steps, w)
    ensures var r := RolledBackReply(steps, w);
            match w.stored
            case None => r == Reply(w, None, Some(NotFound))
            case Some(run) => EndedExactly(steps, run, run.journal, RolledBack, w, r)
  {
  }

  // The compensation with its entries, then the save; nothing is stored when an undo fails or the process dies.
  predicate EndedExactly<Db(==)>(steps: seq<Step<Db>>, run: Run, journal: seq<StepRecord>, status: Status,
                                 w: World<Db>, r: Reply<Db>)
    requires run.cursor <= |steps|
  {
    var e := UndoAll(steps, run.cursor, run.state, w.db);
    var died := UndoneUntil(steps, run.cursor, run.state, w.db, w.luck.undos).1;
    && (r.err == Some(Died) <==> died)
    && (r.err == Some(UndoError) <==> !died && !e.ok)
    && (r.err == Some(SaveFailed) <==> !died && e.ok && w.luck.lands == 0)
    && (r.err.Some? ==> r.world.stored == w.stored && r.err.value in {Died, UndoError, SaveFailed})
    && (!died ==> r.world.db == e.db)
    && (r.err.None? ==>
          r.world.stored == Some(run.(status := status, state := e.state,
                                      journal := journal + UndoRecords(steps, run.cursor, run.state, w.db))))
  }
}
