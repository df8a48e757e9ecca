/** What each workflow operation does to one run, its stored copy and the database, with every save that may be
  * lost and every compensation that may be cut short; and which runs a rollback takes back to their start.
  */
module FlowRun {
  import opened Basics
  import opened Saga

  datatype Status = Running | Awaiting | Completed | Rejected | RolledBack | Failed

  datatype RecordStatus = Done | Approved | StepRejected | StepFailed | Compensated

  datatype StepRecord = StepRecord(name: string, status: RecordStatus)

  // cursor is the index of the next step to run.
  datatype Run = Run(id: string, flow: string, status: Status, cursor: nat, state: State, journal: seq<StepRecord>)

  datatype Error = UnknownFlow | NotFound | NotAwaiting | SaveFailed | StepError | UndoError | Died

  // How many saves will still land, and how many undo actions the process carries out before it dies.
  datatype Luck = Luck(lands: nat, undos: nat)

  /** A run as the store has it, the database, the number of steps it has got through, saved or not, what the
    * operation at hand will meet with, whether a save of this run was ever lost, and whether the process ever
    * died between two of its undo actions.
    */
  datatype World<Db> = World(stored: Option<Run>, db: Db, done: nat, luck: Luck, lost: bool, cut: bool)

  datatype Reply<Db> = Reply(world: World<Db>, run: Option<Run>, err: Option<Error>)

  predicate GoingForward(status: Status) {
    status == Running || status == Awaiting || status == Completed
  }

  function Larger(a: nat, b: nat): nat {
    if a >= b then a else b
  }

  // ---------------------------------------------------------------- the operations

  function Saved<Db>(w: World<Db>, run: Run): World<Db> {
    if w.luck.lands > 0 then w.(stored := Some(run), luck := w.luck.(lands := w.luck.lands - 1)) else w.(lost := true)
  }

  // The last save of an operation.
  function Stopped<Db>(w: World<Db>, run: Run): Reply<Db> {
    Reply(Saved(w, run), Some(run), if w.luck.lands > 0 then None else Some(SaveFailed))
  }

  // The database when undoing the first n steps ends, and whether the process died before that: it does so in
  // front of an undo action for which it has no more left.
  function UndoneUntil<Db>(steps: seq<Step<Db>>, n: nat, state: State, db: Db, left: nat): (Db, bool)
    requires n <= |steps|
  {
    if n == 0 then (db, false)
    else
      match steps[n - 1].undo
      case None => UndoneUntil(steps, n - 1, state, db, left)
      case Some(undo) =>
        if left == 0 then (db, true)
        else
          var e := undo(state, db);
          if e.ok then UndoneUntil(steps, n - 1, e.state, e.db, left - 1) else (e.db, false)
  }

  // What undoing the first n steps writes into the journal.
  function UndoRecords<Db>(steps: seq<Step<Db>>, n: nat, state: State, db: Db): seq<StepRecord>
    requires n <= |steps|
  {
    if n == 0 then []
    else
      match steps[n - 1].undo
      case None => UndoRecords(steps, n - 1, state, db)
      case Some(undo) =>
        var e := undo(state, db);
        if e.ok then [StepRecord(steps[n - 1].name, Compensated)] + UndoRecords(steps, n - 1, e.state, e.db)
        else [StepRecord(steps[n - 1].name, StepFailed)]
  }

  // The run after compensation, which leaves the cursor where it was.
  function Undone<Db>(steps: seq<Step<Db>>, run: Run, db: Db): Run
    requires run.cursor <= |steps|
  {
    run.(state := UndoAll(steps, run.cursor, run.state, db).state,
         journal := run.journal + UndoRecords(steps, run.cursor, run.state, db))
  }

  function Noted(run: Run, name: string, status: RecordStatus): Run {
    run.(journal := run.journal + [StepRecord(name, status)])
  }

  // From the cursor to the next human step, the end, a failure or a lost save.
  function Advanced<Db>(steps: seq<Step<Db>>, run: Run, w: World<Db>): Reply<Db>
    requires run.cursor <= |steps|
    decreases |steps| - run.cursor
  {
    if run.cursor == |steps| then Stopped(w, run.(status := Completed))
    else
      var step := steps[run.cursor];
      if step.human then Stopped(w, run.(status := Awaiting))
      else
        var e := step.forward(run.state, w.db);
        if e.ok then
          var next := Noted(run.(state := e.state, cursor := run.cursor + 1), step.name, Done);
          var after := Saved(w.(db := e.db, done := Larger(w.done, next.cursor)), next);
          if w.luck.lands == 0 then Reply(after, Some(next), Some(SaveFailed)) else Advanced(steps, next, after)
        else
          var noted := Noted(run.(state := e.state), step.name, StepFailed);
          var failed := Undone(steps, noted, e.db).(status := Failed);
          var (db, died) := UndoneUntil(steps, run.cursor, e.state, e.db, w.luck.undos);
          if died then Reply(w.(db := db, cut := true), Some(run), Some(Died))
          else Reply(Saved(w.(db := db), failed), Some(failed), Some(StepError))
  }

  function Started<Db>(steps: seq<Step<Db>>, flow: string, id: string, state: State, w: World<Db>): Reply<Db> {
    var run := Run(id, flow, Running, 0, state, []);
    var after := Saved(w.(done := 0), run);
    if w.luck.lands == 0 then Reply(after, None, Some(SaveFailed)) else Advanced(steps, run, after)
  }

  function ApprovedReply<Db>(steps: seq<Step<Db>>, w: World<Db>): Reply<Db>
    requires WellStored(steps, w)
  {
    match w.stored
    case None => Reply(w, None, Some(NotFound))
    case Some(run) =>
      if run.status != Awaiting then Reply(w, None, Some(NotAwaiting))
      else
        var next := Noted(run.(cursor := run.cursor + 1, status := Running), steps[run.cursor].name, Approved);
        var after := Saved(w.(done := Larger(w.done, next.cursor)), next);
        if w.luck.lands == 0 then Reply(after, None, Some(SaveFailed)) else Advanced(steps, next, after)
  }

  // Compensates the run and stores it with its last status; an undo that fails stores nothing, and neither
  // does a process that dies before it is through.
  function Ended<Db>(steps: seq<Step<Db>>, run: Run, status: Status, w: World<Db>): Reply<Db>
    requires run.cursor <= |steps|
  {
    var e := UndoAll(steps, run.cursor, run.state, w.db);
    var after := Undone(steps, run, w.db);
    var (db, died) := UndoneUntil(steps, run.cursor, run.state, w.db, w.luck.undos);
    if died then Reply(w.(db := db, cut := true), Some(run), Some(Died))
    else if e.ok then Stopped(w.(db := e.db), after.(status := status))
    else Reply(w.(db := e.db), Some(after), Some(UndoError))
  }

  function RejectedReply<Db>(steps: seq<Step<Db>>, w: World<Db>): Reply<Db>
    requires WellStored(steps, w)
  {
    match w.stored
    case None => Reply(w, None, Some(NotFound))
    case Some(run) =>
      if run.status != Awaiting then Reply(w, None, Some(NotAwaiting))
      else Ended(steps, Noted(run, steps[run.cursor].name, StepRejected), Rejected, w)
  }

  // There is no guard on the status.
  function RolledBackReply<Db>(steps: seq<Step<Db>>, w: World<Db>): Reply<Db>
    requires WellStored(steps, w)
  {
    match w.stored
    case None => Reply(w, None, Some(NotFound))
    case Some(run) => Ended(steps, run, RolledBack, w)
  }

  // ---------------------------------------------------------------- what a stored run looks like

  // One entry per finished step.
  function ForwardJournal<Db>(steps: seq<Step<Db>>, n: nat): seq<StepRecord>
    requires n <= |steps|
  {
    if n == 0 then []
    else ForwardJournal(steps, n - 1) + [StepRecord(steps[n - 1].name, if steps[n - 1].human then Approved else Done)]
  }

  /** Going forward, the journal is exactly the steps before the cursor; afterwards it only grew from there. */
  predicate WellFormedRun<Db>(steps: seq<Step<Db>>, run: Run) {
    && run.cursor <= |steps|
    && (run.status == Awaiting ==> run.cursor < |steps| && steps[run.cursor].human)
    && (run.status == Completed ==> run.cursor == |steps|)
    && (if GoingForward(run.status) then run.journal == ForwardJournal(steps, run.cursor)
        else ForwardJournal(steps, run.cursor) <= run.journal)
  }

  // The stored cursor never exceeds the steps the run has got through.
  predicate WellStored<Db>(steps: seq<Step<Db>>, w: World<Db>) {
    w.stored.Some? ==> WellFormedRun(steps, w.stored.value) && w.stored.value.cursor <= w.done
  }

  /** The run is not lost or set back, and once it has left the forward phase it never returns to it. */
  predicate MovedOn<Db>(w: World<Db>, w': World<Db>) {
    && (w.lost ==> w'.lost) && (w.cut ==> w'.cut)
    && (w.stored.Some? ==>
          && w'.stored.Some?
          && var run, run' := w.stored.value, w'.stored.value;
             && run'.id == run.id && run'.flow == run.flow && run.cursor <= run'.cursor
             && (GoingForward(run'.status) ==> GoingForward(run.status)))
  }

  // The run is further on than what is stored of it.
  predicate InHand<Db>(steps: seq<Step<Db>>, run: Run, w: World<Db>) {
    && WellStored(steps, w) && WellFormedRun(steps, run) && run.cursor <= w.done
    && (w.stored.Some? ==>
          && w.stored.value.id == run.id && w.stored.value.flow == run.flow && w.stored.value.cursor <= run.cursor
          && (GoingForward(run.status) ==> GoingForward(w.stored.value.status)))
  }

  lemma SavedKeeps<Db>(steps: seq<Step<Db>>, run: Run, w: World<Db>)
    requires InHand(steps, run, w)
    ensures WellStored(steps, Saved(w, run)) && MovedOn(w, Saved(w, run)) && InHand(steps, run, Saved(w, run))
  {
    hide WellFormedRun;
  }

  lemma MovedOnTwice<Db>(a: World<Db>, b: World<Db>, c: World<Db>)
    requires MovedOn(a, b) && MovedOn(b, c)
    ensures MovedOn(a, c)
  {
  }

  lemma {:induction false} AdvancedKeeps<Db>(steps: seq<Step<Db>>, run: Run, w: World<Db>)
    requires InHand(steps, run, w) && run.status == Running
    ensures var r := Advanced(steps, run, w);
            WellStored(steps, r.world) && MovedOn(w, r.world) && r.run.Some? && InHand(steps, r.run.value, r.world)
    decreases |steps| - run.cursor
  {
    if run.cursor == |steps| {
      SavedKeeps(steps, run.(status := Completed), w);
    } else if steps[run.cursor].human {
      SavedKeeps(steps, run.(status := Awaiting), w);
    } else {
      var step := steps[run.cursor];
      var e := step.forward(run.state, w.db);
      if e.ok {
        var next := Noted(run.(state := e.state, cursor := run.cursor + 1), step.name, Done);
        var before := w.(db := e.db, done := Larger(w.done, next.cursor));
        NextIsWellFormed(steps, run, next);
        SavedKeeps(steps, next, before);
        hide WellStored, WellFormedRun, ForwardJournal, UndoAll, UndoRecords, UndoneUntil;
        if w.luck.lands > 0 {
          AdvancedKeeps(steps, next, Saved(before, next));
          MovedOnTwice(before, Saved(before, next), Advanced(steps, next, Saved(before, next)).world);
        }
      } else {
        FailureKeeps(steps, run, w);
      }
    }
  }

  lemma FailureKeeps<Db>(steps: seq<Step<Db>>, run: Run, w: World<Db>)
    requires InHand(steps, run, w) && run.status == Running
    requires run.cursor < |steps| && !steps[run.cursor].human && !steps[run.cursor].forward(run.state, w.db).ok
    ensures var r := Advanced(steps, run, w);
            WellStored(steps, r.world) && MovedOn(w, r.world) && r.run.Some? && InHand(steps, r.run.value, r.world)
  {
    hide UndoRecords, UndoAll, UndoneUntil;
    var e := steps[run.cursor].forward(run.state, w.db);
    var noted := Noted(run.(state := e.state), steps[run.cursor].name, StepFailed);
    var failed := Undone(steps, noted, e.db).(status := Failed);
    assert run.journal <= noted.journal <= failed.journal;
    SavedKeeps(steps, failed, w.(db := UndoneUntil(steps, run.cursor, e.state, e.db, w.luck.undos).0));
  }

  // A step done or approved is one more entry and one step further.
  lemma NextIsWellFormed<Db>(steps: seq<Step<Db>>, run: Run, next: Run)
    requires WellFormedRun(steps, run) && GoingForward(run.status) && run.cursor < |steps|
    requires next.status == Running && next.cursor == run.cursor + 1
    requires next.journal == run.journal + [StepRecord(steps[run.cursor].name,
                                                       if steps[run.cursor].human then Approved else Done)]
    ensures WellFormedRun(steps, next)
  {
  }

  // ---------------------------------------------------------------- every operation keeps it

  lemma StartedKeeps<Db>(steps: seq<Step<Db>>, flow: string, id: string, state: State, w: World<Db>)
    requires w.stored.None?
    ensures var r := Started(steps, flow, id, state, w); WellStored(steps, r.world) && MovedOn(w, r.world)
  {
    var run := Run(id, flow, Running, 0, state, []);
    SavedKeeps(steps, run, w.(done := 0));
    if w.luck.lands > 0 {
      AdvancedKeeps(steps, run, Saved(w.(done := 0), run));
    }
  }

  lemma ApprovedKeeps<Db>(steps: seq<Step<Db>>, w: World<Db>)
    requires WellStored(steps, w)
    ensures var r := ApprovedReply(steps, w); WellStored(steps, r.world) && MovedOn(w, r.world)
  {
    if w.stored.Some? && w.stored.value.status == Awaiting {
      var run := w.stored.value;
      var next := Noted(run.(cursor := run.cursor + 1, status := Running), steps[run.cursor].name, Approved);
      var before := w.(done := Larger(w.done, next.cursor));
      NextIsWellFormed(steps, run, next);
      SavedKeeps(steps, next, before);
      hide WellFormedRun, Advanced;
      if w.luck.lands > 0 {
        AdvancedKeeps(steps, next, Saved(before, next));
        MovedOnTwice(before, Saved(before, next), Advanced(steps, next, Saved(before, next)).world);
      }
    }
  }

  lemma EndedKeeps<Db>(steps: seq<Step<Db>>, run: Run, status: Status, w: World<Db>)
    requires WellStored(steps, w) && w.stored.Some? && !GoingForward(status)
    requires run == w.stored.value.(journal := run.journal) && w.stored.value.journal <= run.journal
    ensures var r := Ended(steps, run, status, w); WellStored(steps, r.world) && MovedOn(w, r.world)
  {
    hide UndoRecords, UndoAll, UndoneUntil;
    var e := UndoAll(steps, run.cursor, run.state, w.db);
    var after := Undone(steps, run, w.db).(status := status);
    assert w.stored.value.journal <= run.journal <= after.journal;
    assert ForwardJournal(steps, run.cursor) <= w.stored.value.journal;
    SavedKeeps(steps, after, w.(db := e.db));
  }

  lemma RejectedKeeps<Db>(steps: seq<Step<Db>>, w: World<Db>)
    requires WellStored(steps, w)
    ensures var r := RejectedReply(steps, w); WellStored(steps, r.world) && MovedOn(w, r.world)
  {
    if w.stored.Some? && w.stored.value.status == Awaiting {
      var run := w.stored.value;
      EndedKeeps(steps, Noted(run, steps[run.cursor].name, StepRejected), Rejected, w);
    }
  }

  lemma RolledBackKeeps<Db>(steps: seq<Step<Db>>, w: World<Db>)
    requires WellStored(steps, w)
    ensures var r := RolledBackReply(steps, w); WellStored(steps, r.world) && MovedOn(w, r.world)
  {
    if w.stored.Some? {
      EndedKeeps(steps, w.stored.value, RolledBack, w);
    }
  }

  // ---------------------------------------------------------------- whole histories of one run

  datatype Act = Approve | Reject | Rollback

  // An act, and what it meets with.
  datatype Event = Event(act: Act, luck: Luck)

  function ActReply<Db>(steps: seq<Step<Db>>, act: Act, w: World<Db>): Reply<Db>
    requires WellStored(steps, w)
  {
    match act
    case Approve => ApprovedReply(steps, w)
    case Reject => RejectedReply(steps, w)
    case Rollback => RolledBackReply(steps, w)
  }

  lemma ActKeeps<Db>(steps: seq<Step<Db>>, act: Act, w: World<Db>)
    requires WellStored(steps, w)
    ensures var r := ActReply(steps, act, w); WellStored(steps, r.world) && MovedOn(w, r.world)
  {
    match act
    case Approve => ApprovedKeeps(steps, w);
    case Reject => RejectedKeeps(steps, w);
    case Rollback => RolledBackKeeps(steps, w);
  }

  datatype Beginning<Db> = Beginning(flow: string, id: string, state: State, db: Db, luck: Luck)

  /** Where a run has come to: started, then acted upon, each time with some of the saves lost and
    * perhaps with a compensation cut short.
    */
  function History<Db>(steps: seq<Step<Db>>, b: Beginning<Db>, events: seq<Event>): (w: World<Db>)
    ensures WellStored(steps, w)
    decreases |events|
  {
    if events == [] then
      var w := World(None, b.db, 0, b.luck, false, false);
      StartedKeeps(steps, b.flow, b.id, b.state, w);
      Started(steps, b.flow, b.id, b.state, w).world
    else
      var n := |events| - 1;
      var w := History(steps, b, events[..n]).(luck := events[n].luck);
      ActKeeps(steps, events[n].act, w);
      ActReply(steps, events[n].act, w).world
  }

  /** A flow whose steps have different names and can each be taken back where a run from here meets it. */
  ghost predicate TakenBackFrom<Db(!new)>(steps: seq<Step<Db>>, s0: State, d0: Db) {
    DistinctNames(steps) && TakenBackAlong(steps, |steps|, s0, d0)
  }

  // The database is where the steps before the stored cursor bring it from the beginning.
  predicate InStep<Db(==)>(steps: seq<Step<Db>>, w: World<Db>, s0: State, d0: Db) {
    w.stored.Some? && w.stored.value.cursor <= |steps|
    && Forward(steps, w.stored.value.cursor, s0, d0) == Some((w.stored.value.state, w.db))
  }

  predicate Intact<Db>(w: World<Db>) {
    w.stored.Some? && GoingForward(w.stored.value.status) && !w.lost && !w.cut
  }

  // A compensation that is not cut short is the whole of it.
  lemma {:induction false} UncutIsAll<Db>(steps: seq<Step<Db>>, n: nat, state: State, db: Db, left: nat)
    requires n <= |steps|
    ensures var (after, died) := UndoneUntil(steps, n, state, db, left);
            (!died ==> after == UndoAll(steps, n, state, db).db) && (n <= left ==> !died)
  {
    if n > 0 {
      match steps[n - 1].undo
      case None => UncutIsAll(steps, n - 1, state, db, left);
      case Some(undo) =>
        var e := undo(state, db);
        if left > 0 && e.ok {
          UncutIsAll(steps, n - 1, e.state, e.db, left - 1);
        }
    }
  }

  lemma FailureRestores<Db(!new)>(steps: seq<Step<Db>>, run: Run, w: World<Db>, s0: State, d0: Db)
    requires run.cursor < |steps| && TakenBackFrom(steps, s0, d0) && !steps[run.cursor].human
    requires Forward(steps, run.cursor, s0, d0) == Some((run.state, w.db))
    requires !steps[run.cursor].forward(run.state, w.db).ok
    ensures var e := steps[run.cursor].forward(run.state, w.db);
            UndoAll(steps, run.cursor, e.state, e.db).db == d0
  {
    FailedStepRestores(steps, run.cursor, s0, d0, run.state, w.db);
  }

  // What an advance answers: the run where its steps bring it, back to the beginning when a step fails, and
  // otherwise that a save was lost or the process died.
  predicate RunsTrue<Db(==)>(steps: seq<Step<Db>>, r: Reply<Db>, s0: State, d0: Db) {
    && r.run.Some? && (r.err.None? || r.err.value in {StepError, SaveFailed, Died})
    && (r.err.None? ==> r.world.stored == r.run)
    && (r.err == Some(StepError) ==>
          r.world.db == d0 && r.run.value.status == Failed && (!r.world.lost ==> r.world.stored == r.run))
    && (r.err == Some(SaveFailed) ==> r.world.lost)
    && (r.err == Some(Died) ==> r.world.cut)
    && (r.err.None? || r.err == Some(SaveFailed) ==>
          && r.run.value.cursor <= |steps|
          && Forward(steps, r.run.value.cursor, s0, d0) == Some((r.run.value.state, r.world.db)))
  }

  /** A run that advances from where it began does what the steps say: a step that fails brings the database back
    * to where the run began, unless the process dies on the way.
    */
  lemma {:induction false} AdvancedInStep<Db(!new)>(steps: seq<Step<Db>>, run: Run, w: World<Db>, s0: State, d0: Db)
    requires run.cursor <= |steps| && TakenBackFrom(steps, s0, d0)
    requires Forward(steps, run.cursor, s0, d0) == Some((run.state, w.db))
    ensures RunsTrue(steps, Advanced(steps, run, w), s0, d0)
    decreases |steps| - run.cursor
  {
    hide TakenBackFrom, UndoAll, UndoRecords, UndoneUntil;
    if run.cursor < |steps| && !steps[run.cursor].human {
      var step := steps[run.cursor];
      var e := step.forward(run.state, w.db);
      if e.ok {
        var next := Noted(run.(state := e.state, cursor := run.cursor + 1), step.name, Done);
        var after := Saved(w.(db := e.db, done := Larger(w.done, next.cursor)), next);
        if w.luck.lands > 0 {
          hide RunsTrue;
          AdvancedInStep(steps, next, after, s0, d0);
        }
      } else {
        FailureInStep(steps, run, w, s0, d0);
      }
    }
  }

  lemma FailureInStep<Db(!new)>(steps: seq<Step<Db>>, run: Run, w: World<Db>, s0: State, d0: Db)
    requires run.cursor < |steps| && TakenBackFrom(steps, s0, d0) && !steps[run.cursor].human
    requires Forward(steps, run.cursor, s0, d0) == Some((run.state, w.db))
    requires !steps[run.cursor].forward(run.state, w.db).ok
    ensures RunsTrue(steps, Advanced(steps, run, w), s0, d0)
  {
    hide TakenBackFrom, UndoAll, UndoRecords, UndoneUntil, Forward;
    var e := steps[run.cursor].forward(run.state, w.db);
    FailureRestores(steps, run, w, s0, d0);
    UncutIsAll(steps, run.cursor, e.state, e.db, w.luck.undos);
  }

  lemma EndedInStep<Db(!new)>(steps: seq<Step<Db>>, run: Run, status: Status, w: World<Db>, s0: State, d0: Db)
    requires run.cursor <= |steps| && TakenBackFrom(steps, s0, d0)
    requires Forward(steps, run.cursor, s0, d0) == Some((run.state, w.db))
    ensures var r := Ended(steps, run, status, w);
            if r.err == Some(Died) then r.world.cut && r.world.stored == w.stored && w.luck.undos < |steps|
            else
              && r.world.db == d0
              && (r.world.lost || (r.world.stored.Some? && r.world.stored.value.status == status))
  {
    UndoRestores(steps, run.cursor, s0, d0, run.state, w.db, run.state);
    UncutIsAll(steps, run.cursor, run.state, w.db, w.luck.undos);
    hide UndoAll, UndoneUntil, UndoRecords, Forward;
  }

  lemma ActStaysInStep<Db(!new)>(steps: seq<Step<Db>>, act: Act, w: World<Db>, s0: State, d0: Db)
    requires WellStored(steps, w) && TakenBackFrom(steps, s0, d0) && (Intact(w) ==> InStep(steps, w, s0, d0))
    ensures var w' := ActReply(steps, act, w).world; Intact(w') ==> InStep(steps, w', s0, d0)
  {
    hide TakenBackFrom, Forward, Advanced, Ended, ForwardJournal;
    ActKeeps(steps, act, w);
    if w.stored.Some? && Intact(w) {
      var run := w.stored.value;
      match act
      case Approve => ApprovalStaysInStep(steps, w, s0, d0);
      case Reject =>
        if run.status == Awaiting {
          EndedInStep(steps, Noted(run, steps[run.cursor].name, StepRejected), Rejected, w, s0, d0);
        }
      case Rollback =>
        EndedInStep(steps, run, RolledBack, w, s0, d0);
    }
  }

  lemma ApprovalStaysInStep<Db(!new)>(steps: seq<Step<Db>>, w: World<Db>, s0: State, d0: Db)
    requires WellStored(steps, w) && TakenBackFrom(steps, s0, d0) && InStep(steps, w, s0, d0)
    ensures var w' := ApprovedReply(steps, w).world; Intact(w') ==> InStep(steps, w', s0, d0)
  {
    hide TakenBackFrom, Forward, Advanced, ForwardJournal;
    var run := w.stored.value;
    if run.status == Awaiting {
      var next := Noted(run.(cursor := run.cursor + 1, status := Running), steps[run.cursor].name, Approved);
      HumanInStep(steps, run, s0, d0);
      var after := Saved(w.(done := Larger(w.done, next.cursor)), next);
      AdvancedInStep(steps, next, after, s0, d0);
    }
  }

  // A human step does nothing to the database.
  lemma HumanInStep<Db>(steps: seq<Step<Db>>, run: Run, s0: State, d0: Db)
    requires WellFormedRun(steps, run) && run.status == Awaiting
    ensures run.cursor < |steps| && Forward(steps, run.cursor + 1, s0, d0) == Forward(steps, run.cursor, s0, d0)
  {
  }

  /** While a run goes forward, with no save lost and no compensation cut short, it is in step with the database. */
  lemma {:induction false} IntactIsInStep<Db(!new)>(steps: seq<Step<Db>>, b: Beginning<Db>, events: seq<Event>)
    requires TakenBackFrom(steps, b.state, b.db)
    ensures var w := History(steps, b, events); Intact(w) ==> InStep(steps, w, b.state, b.db)
    decreases |events|
  {
    hide TakenBackFrom;
    if events == [] {
      StartedInStep(steps, b);
    } else {
      var n := |events| - 1;
      IntactIsInStep(steps, b, events[..n]);
      hide ActReply, Forward;
      ActStaysInStep(steps, events[n].act, History(steps, b, events[..n]).(luck := events[n].luck), b.state, b.db);
    }
  }

  lemma StartedInStep<Db(!new)>(steps: seq<Step<Db>>, b: Beginning<Db>)
    requires TakenBackFrom(steps, b.state, b.db)
    ensures var w := History(steps, b, []); Intact(w) ==> InStep(steps, w, b.state, b.db)
  {
    hide TakenBackFrom, Advanced;
    var run := Run(b.id, b.flow, Running, 0, b.state, []);
    var w := World(None, b.db, 0, b.luck, false, false);
    AdvancedInStep(steps, run, Saved(w.(done := 0), run), b.state, b.db);
    assert History(steps, b, []) == Started(steps, b.flow, b.id, b.state, w).world;
  }

  // Rolling back the run as it is stored, by a process that lives, gives back the database it began with.
  predicate Restored<Db(==)>(steps: seq<Step<Db>>, b: Beginning<Db>, events: seq<Event>) {
    RolledBackReply(steps, History(steps, b, events).(luck := Luck(1, |steps|))).world.db == b.db
  }

  /** On any database: a run that goes forward, with no save lost and no compensation cut short, is taken back,
    * as long as each of its steps can be where the run meets it.
    */
  lemma IntactIsRestored<Db(!new)>(steps: seq<Step<Db>>, b: Beginning<Db>, events: seq<Event>)
    requires TakenBackFrom(steps, b.state, b.db) && Intact(History(steps, b, events))
    ensures Restored(steps, b, events)
  {
    hide TakenBackFrom, Forward, History, Ended;
    IntactIsInStep(steps, b, events);
    var w := History(steps, b, events).(luck := Luck(1, |steps|));
    EndedInStep(steps, w.stored.value, RolledBack, w, b.state, b.db);
  }

  predicate HasEnded<Db>(w: World<Db>) {
    w.stored.Some? && !GoingForward(w.stored.value.status)
  }

  /** However such a run first leaves the forward phase, by a step that fails, a rejection or a rollback, the
    * database is back where the run began.
    */
  lemma EndingRestores<Db(!new)>(steps: seq<Step<Db>>, b: Beginning<Db>, events: seq<Event>, e: Event)
    requires TakenBackFrom(steps, b.state, b.db)
    ensures HasEnded(History(steps, b, [])) ==> History(steps, b, []).db == b.db
    ensures Intact(History(steps, b, events)) && HasEnded(History(steps, b, events + [e])) ==>
              History(steps, b, events + [e]).db == b.db
  {
    StartEndingRestores(steps, b);
    assert (events + [e])[..|events|] == events;
    var w := History(steps, b, events).(luck := e.luck);
    if Intact(w) {
      IntactIsInStep(steps, b, events);
      hide History, TakenBackFrom;
      ActEndingRestores(steps, e.act, w, b.state, b.db);
    }
  }

  lemma StartEndingRestores<Db(!new)>(steps: seq<Step<Db>>, b: Beginning<Db>)
    requires TakenBackFrom(steps, b.state, b.db)
    ensures HasEnded(History(steps, b, [])) ==> History(steps, b, []).db == b.db
  {
    hide TakenBackFrom, Advanced;
    var run := Run(b.id, b.flow, Running, 0, b.state, []);
    var after := Saved(World(None, b.db, 0, b.luck, false, false), run);
    AdvancedInStep(steps, run, after, b.state, b.db);
    AdvancedEnds(steps, run, after);
  }

  lemma ActEndingRestores<Db(!new)>(steps: seq<Step<Db>>, act: Act, w: World<Db>, s0: State, d0: Db)
    requires WellStored(steps, w) && TakenBackFrom(steps, s0, d0) && Intact(w) && InStep(steps, w, s0, d0)
    ensures var w' := ActReply(steps, act, w).world; HasEnded(w') ==> w'.db == d0
  {
    hide TakenBackFrom, Forward, Advanced, Ended, ForwardJournal;
    var run := w.stored.value;
    match act
    case Approve =>
      if run.status == Awaiting {
        var next := Noted(run.(cursor := run.cursor + 1, status := Running), steps[run.cursor].name, Approved);
        var after := Saved(w.(done := Larger(w.done, next.cursor)), next);
        HumanInStep(steps, run, s0, d0);
        AdvancedInStep(steps, next, after, s0, d0);
        AdvancedEnds(steps, next, after);
      }
    case Reject =>
      if run.status == Awaiting {
        EndedInStep(steps, Noted(run, steps[run.cursor].name, StepRejected), Rejected, w, s0, d0);
      }
    case Rollback =>
      EndedInStep(steps, run, RolledBack, w, s0, d0);
  }

  // An advancing run leaves the forward phase only by a step that fails.
  lemma {:induction false} AdvancedEnds<Db>(steps: seq<Step<Db>>, run: Run, w: World<Db>)
    requires run.cursor <= |steps| && run.status == Running && !HasEnded(w)
    ensures var r := Advanced(steps, run, w); HasEnded(r.world) ==> r.err == Some(StepError)
    decreases |steps| - run.cursor
  {
    if run.cursor < |steps| && !steps[run.cursor].human {
      var step := steps[run.cursor];
      var e := step.forward(run.state, w.db);
      if e.ok && w.luck.lands > 0 {
        var next := Noted(run.(state := e.state, cursor := run.cursor + 1), step.name, Done);
        AdvancedEnds(steps, next, Saved(w.(db := e.db, done := Larger(w.done, next.cursor)), next));
      }
    }
  }

  // What has become of a run: its status, whether one of its saves was lost, and whether the process died between
  // two of its undo actions.
  datatype Fate = Fate(status: Status, lost: bool, cut: bool)

  predicate EndsIn<Db>(steps: seq<Step<Db>>, b: Beginning<Db>, events: seq<Event>, fate: Fate) {
    var w := History(steps, b, events);
    w.stored.Some? && Fate(w.stored.value.status, w.lost, w.cut) == fate
  }

  /** Whatever flow a run was of, each step of it such that it can be taken back where the run meets it, and
    * whatever was done to it, this fate is enough for a rollback to take it back.
    */
  ghost predicate AlwaysRestored(fate: Fate) {
    forall steps: seq<Step<int>>, b: Beginning<int>, events |
         TakenBackFrom(steps, b.state, b.db) && EndsIn(steps, b, events, fate) :: Restored(steps, b, events)
  }

  /** Main result: a rollback is sure to take a run back to its start if and only if the run is still in the
    * forward phase, every save of it has landed and no compensation of it was cut short.
    */
  lemma RollbackRestoresExactly(fate: Fate)
    ensures AlwaysRestored(fate) <==> GoingForward(fate.status) && !fate.lost && !fate.cut
  {
    if GoingForward(fate.status) && !fate.lost && !fate.cut {
      forall steps: seq<Step<int>>, b: Beginning<int>, events
           | TakenBackFrom(steps, b.state, b.db) && EndsIn(steps, b, events, fate)
        ensures Restored(steps, b, events)
      {
        IntactIsRestored(steps, b, events);
      }
    } else {
      var steps, b, events := NotRestored(fate);
      ReversibleAlong(steps, |steps|, b.state, b.db);
    }
  }

  // ---------------------------------------------------------------- runs that are not taken back

  function Plus(n: int): Action<int> {
    (s: State, d: int) => Effect(s, d + n, true)
  }

  function Refuse(): Action<int> {
    (s: State, d: int) => Effect(s, d, false)
  }

  const ONE := Step("one", false, Plus(1), Some(Plus(-1)))
  const TWO := Step("two", false, Plus(1), Some(Plus(-1)))
  const ASK := Step("ask", true, Plus(0), None)
  const FAIL := Step("fail", false, Refuse(), None)

  // Two steps that count up by one, and then the end, a question, or a step that fails.
  function Counting(more: seq<Step<int>>): seq<Step<int>> {
    [ONE, TWO] + more
  }

  ghost predicate OneMore(more: seq<Step<int>>) {
    more == [] || more == [ASK] || more == [FAIL]
  }

  lemma CountingIsReversible(more: seq<Step<int>>)
    requires OneMore(more)
    ensures AllReversible(Counting(more))
  {
    assert Reversible(ONE);
    assert Reversible(TWO);
    assert Reversible(ASK);
    assert Reversible(FAIL);
  }

  const FINE := Luck(9, 9)

  // What a counting run is followed by, started with and put through to come to its fate.
  function MoreFor(fate: Fate): seq<Step<int>> {
    if fate.status == Awaiting || fate.status == Rejected then [ASK]
    else if fate.status == Failed || (fate.status == Running && fate.cut) then [FAIL]
    else []
  }

  function BeginningFor(fate: Fate): Beginning<int> {
    Beginning("flow", "run", map[], 0,
              if fate.status != Running then FINE else if fate.cut then Luck(9, 1) else Luck(1, 9))
  }

  function EventsFor(fate: Fate): seq<Event> {
    (if fate.status == Rejected then [Event(Reject, FINE)]
     else if fate.status == RolledBack then [Event(Rollback, FINE)] else [])
    + (if fate.cut && fate.status != Running then [Event(Rollback, Luck(9, 1))] else [])
    + (if fate.lost && (fate.status != Running || fate.cut) then [Event(Rollback, Luck(0, 9))] else [])
  }

  /** A run that comes to this and is not taken back: undone already, wholly or in part, or stored behind what it
    * did.
    */
  lemma NotRestored(fate: Fate) returns (steps: seq<Step<int>>, b: Beginning<int>, events: seq<Event>)
    requires !(GoingForward(fate.status) && !fate.lost && !fate.cut)
    ensures AllReversible(steps) && EndsIn(steps, b, events, fate) && !Restored(steps, b, events)
  {
    hide History, AllReversible, RolledBackReply, Counting, WellStored;
    var more := MoreFor(fate);
    steps, b, events := Counting(more), BeginningFor(fate), EventsFor(fate);
    CountingIsReversible(more);
    CountedUp(more, b);
    var first, second := if fate.status == Rejected then [Event(Reject, FINE)]
                         else if fate.status == RolledBack then [Event(Rollback, FINE)] else [],
                         if fate.cut && fate.status != Running then [Event(Rollback, Luck(9, 1))] else [];
    var third := if fate.lost && (fate.status != Running || fate.cut) then [Event(Rollback, Luck(0, 9))] else [];
    assert events == first + second + third && [] + first == first;
    OneAct(more, b, [], first);
    OneAct(more, b, first, second);
    OneAct(more, b, first + second, third);
    OneLess(more, b, events);
  }

  // Where a counting run stands after its start.
  lemma CountedUp(more: seq<Step<int>>, b: Beginning<int>)
    requires OneMore(more)
    requires b.luck == FINE || (b.luck == Luck(9, 1) && more == [FAIL]) || (b.luck == Luck(1, 9) && more == [])
    ensures var w := History(Counting(more), b, []);
            && w.stored.Some? && w.lost == (b.luck == Luck(1, 9)) && w.cut == (b.luck == Luck(9, 1))
            && w.stored.value.cursor == (if w.lost then 0 else 2)
            && w.stored.value.status == (if w.lost || w.cut then Running else if more == [] then Completed
                                         else if more == [ASK] then Awaiting else Failed)
            && w.db == b.db + if w.lost || w.cut then 1 else if more == [FAIL] then 0 else 2
  {
    var steps := Counting(more);
    var run := Run(b.id, b.flow, Running, 0, b.state, []);
    var w := Saved(World(None, b.db, 0, b.luck, false, false), run);
    assert steps[0] == ONE && steps[1] == TWO && (more != [] ==> steps[2] == more[0]);
    var next := Noted(run.(cursor := 1), "one", Done);
    var after := Saved(w.(db := b.db + 1, done := 1), next);
    assert Advanced(steps, run, w)
        == if w.luck.lands == 0 then Reply(after, Some(next), Some(SaveFailed)) else Advanced(steps, next, after);
    if b.luck.lands == 9 {
      var last := Noted(next.(cursor := 2), "two", Done);
      var landed := Saved(after.(db := b.db + 2, done := 2), last);
      assert Advanced(steps, next, after) == Advanced(steps, last, landed);
      UndoesBoth(more, b.state, b.db + 2, b.luck.undos);
      hide UndoAll, UndoneUntil, UndoRecords;
    }
  }

  lemma UndoesBoth(more: seq<Step<int>>, s: State, d: int, left: nat)
    ensures UndoAll(Counting(more), 2, s, d) == Effect(s, d - 2, true)
    ensures UndoAll(Counting(more), 0, s, d) == Effect(s, d, true)
    ensures UndoneUntil(Counting(more), 2, s, d, left) ==
            if left == 0 then (d, true) else if left == 1 then (d - 1, true) else (d - 2, false)
    ensures UndoneUntil(Counting(more), 0, s, d, left) == (d, false)
  {
    var steps := Counting(more);
    assert steps[0] == ONE && steps[1] == TWO;
    assert UndoAll(steps, 1, s, d - 1) == Effect(s, d - 2, true);
    if left > 0 {
      assert UndoneUntil(steps, 1, s, d - 1, left - 1) == if left == 1 then (d - 1, true) else (d - 2, false);
    }
  }

  // Undoing a counting run once more takes away two, or one if the process dies, whether or not it is stored.
  lemma OneAct(more: seq<Step<int>>, b: Beginning<int>, events: seq<Event>, one: seq<Event>)
    requires one == [] || (|one| == 1 && one[0].act != Approve && one[0].luck.undos in {1, 9})
    requires one != [] ==>
               var w := History(Counting(more), b, events);
               && w.stored.Some? && w.stored.value.cursor == 2
               && (one[0].act == Reject ==> w.stored.value.status == Awaiting)
    ensures var w, w' := History(Counting(more), b, events), History(Counting(more), b, events + one);
            if one == [] then w' == w
            else if one[0].luck.undos == 1 then
              w'.db == w.db - 1 && w'.stored == w.stored && w'.lost == w.lost && w'.cut
            else
              && w'.db == w.db - 2 && w'.stored.Some? && w'.stored.value.cursor == 2
              && w'.stored.value.status == (if one[0].luck.lands == 0 then w.stored.value.status
                                            else if one[0].act == Reject then Rejected else RolledBack)
              && w'.lost == (w.lost || one[0].luck.lands == 0) && w'.cut == w.cut
  {
    if one == [] {
      assert events + one == events;
    } else {
      assert (events + one)[..|events|] == events;
      var w := History(Counting(more), b, events);
      UndoesBoth(more, w.stored.value.state, w.db, one[0].luck.undos);
      hide UndoAll, UndoneUntil, History, WellStored, UndoRecords;
    }
  }

  lemma OneLess(more: seq<Step<int>>, b: Beginning<int>, events: seq<Event>)
    requires var w := History(Counting(more), b, events); w.stored.Some? && w.stored.value.cursor in {0, 2}
    ensures var w := History(Counting(more), b, events);
            Restored(Counting(more), b, events) <==> w.db - w.stored.value.cursor == b.db
  {
    var w := History(Counting(more), b, events);
    UndoesBoth(more, w.stored.value.state, w.db, |Counting(more)|);
    hide UndoAll, UndoneUntil, History, UndoRecords;
  }
}
