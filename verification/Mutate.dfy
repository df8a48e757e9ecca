/** Steps that keep their own undo information: snapshot rows, change them, write the snapshot back. */
module Mutate {
  import opened Basics
  import opened Saga
  import FlowRun

  // What a database hands over for a cell. A time is its clock reading and its zone.
  datatype Cell =
    | Null
    | Text(text: string)
    | Whole(number: int)
    | Bytes(bytes: seq<nat>)
    | Time(clock: string, zone: string)

  // A row's cells by column, and a table's rows by primary key; the key itself is not among the cells.
  type Row = map<string, Cell>
  type Table = map<string, Row>

  // picked gives the keys of the rows the snapshot query returns, columns what it selects of each. apply is
  // one statement: it takes effect or fails. The restore statement writes the restored columns of the row
  // whose key the snapshot holds under `key`; takes is what a column makes of a text, if it takes it.
  datatype Mutation = Mutation(name: string, key: string, columns: set<string>, picked: Table -> Option<seq<string>>,
                               apply: Table -> Option<Table>, restored: set<string>,
                               takes: (string, string) -> Option<Cell>)

  // ---------------------------------------------------------------- cells as text

  function Spaced(ns: seq<nat>): string {
    if ns == [] then ""
    else if |ns| == 1 then Digits(ns[0])
    else Digits(ns[0]) + " " + Spaced(ns[1..])
  }

  // A cell as it is put into the snapshot, by the formatting verb %v: always text.
  function Rendered(cell: Cell): string {
    match cell
    case Null => "<nil>"
    case Text(t) => t
    case Whole(n) => Decimal(n)
    case Bytes(bs) => "[" + Spaced(bs) + "]"
    case Time(clock, zone) => clock + " " + zone
  }

  // ---------------------------------------------------------------- the step

  function CellOf(table: Table, k: string, c: string): Cell {
    if k in table && c in table[k] then table[k][c] else Null
  }

  function SnapshotRow(m: Mutation, table: Table, k: string): map<string, string> {
    map c | c in m.columns :: if c == m.key then k else Rendered(CellOf(table, k, c))
  }

  function Snapshot(m: Mutation, table: Table, keys: seq<string>): Value {
    seq(|keys|, i requires 0 <= i < |keys| => SnapshotRow(m, table, keys[i]))
  }

  // A token that names no column of the snapshot is bound to NULL, any other to text.
  function Bound(m: Mutation, saved: map<string, string>, c: string): Option<Cell> {
    if c in saved then m.takes(c, saved[c]) else Some(Null)
  }

  predicate Accepted(m: Mutation, saved: map<string, string>) {
    forall c | c in m.restored :: Bound(m, saved, c).Some?
  }

  function Restored(m: Mutation, saved: map<string, string>, row: Row): Row
    requires Accepted(m, saved)
  {
    map c | c in row :: if c in m.restored then Bound(m, saved, c).value else row[c]
  }

  // A text that a column does not take fails the statement, whether or not it matches a row.
  function RestoreRow(m: Mutation, saved: map<string, string>, table: Table): Option<Table> {
    if !Accepted(m, saved) then None
    else if m.key in saved && saved[m.key] in table then
      Some(table[saved[m.key] := Restored(m, saved, table[saved[m.key]])])
    else Some(table)
  }

  /** Writing one saved row back is refused exactly when some saved cell is not taken by its column; otherwise each
    * restored cell of the row with that key becomes what the column makes of the saved text, or NULL if none was
    * saved for it, and no other cell and no other row changes.
    */
  lemma RestoreWrites(m: Mutation, saved: map<string, string>, table: Table)
    ensures RestoreRow(m, saved, table).None? <==>
              exists c :: c in m.restored && c in saved && m.takes(c, saved[c]).None?
    ensures RestoreRow(m, saved, table).Some? ==>
              var after := RestoreRow(m, saved, table).value;
              && after.Keys == table.Keys
              && (forall k | k in table && !(m.key in saved && k == saved[m.key]) :: after[k] == table[k])
              && (m.key in saved && saved[m.key] in table ==>
                    var k := saved[m.key];
                    && after[k].Keys == table[k].Keys
                    && forall c | c in table[k] ::
                         if c !in m.restored then after[k][c] == table[k][c]
                         else if c in saved then m.takes(c, saved[c]) == Some(after[k][c])
                         else after[k][c] == Null)
  {
  }

  // Row by row, up to the first statement that fails.
  function RestoreAll(m: Mutation, rows: Value, table: Table): (Table, bool) {
    if rows == [] then (table, true)
    else
      var n := |rows| - 1;
      var (before, ok) := RestoreAll(m, rows[..n], table);
      if !ok then (before, false)
      else
        match RestoreRow(m, rows[n], before)
        case None => (before, false)
        case Some(after) => (after, true)
  }

  function Saved(m: Mutation, state: State): Value {
    if m.name + ".before" in state then state[m.name + ".before"] else []
  }

  function MutateDo(m: Mutation): Action<Table> {
    (s: State, t: Table) =>
      match m.picked(t)
      case None => Effect(s, t, false)
      case Some(keys) =>
        var noted := s[m.name + ".before" := Snapshot(m, t, keys)];
        match m.apply(t)
        case None => Effect(noted, t, false)
        case Some(changed) => Effect(noted, changed, true)
  }

  function MutateUndo(m: Mutation): Action<Table> {
    (s: State, t: Table) => var (after, ok) := RestoreAll(m, Saved(m, s), t); Effect(s, after, ok)
  }

  function MutateStep(m: Mutation): Step<Table> {
    Step(m.name, false, MutateDo(m), Some(MutateUndo(m)))
  }

  lemma {:induction false} StopsAtFailure(m: Mutation, rows: Value, i: nat, table: Table)
    requires i <= |rows| && !RestoreAll(m, rows[..i], table).1
    ensures RestoreAll(m, rows, table) == RestoreAll(m, rows[..i], table)
    decreases |rows|
  {
    if i < |rows| {
      var n := |rows| - 1;
      assert rows[..n][..i] == rows[..i];
      StopsAtFailure(m, rows[..n], i, table);
    } else {
      assert rows[..i] == rows;
    }
  }

  /** What a step is handed: the run's memory and the warehouse. */
  class RunContext {
    var state: State
    var table: Table

    constructor (state: State, table: Table)
      ensures this.state == state && this.table == table
    {
      this.state, this.table := state, table;
    }

    method Do(m: Mutation) returns (ok: bool)
      modifies this
      ensures Effect(state, table, ok) == MutateDo(m)(old(state), old(table))
    {
      var keys := m.picked(table);
      if keys.None? {
        return false;
      }
      var before: Value := [];
      for i := 0 to |keys.value|
        invariant before == Snapshot(m, table, keys.value)[..i]
        invariant state == old(state) && table == old(table)
      {
        before := before + [SnapshotRow(m, table, keys.value[i])];
      }
      assert before == Snapshot(m, table, keys.value);
      state := state[m.name + ".before" := before];
      var changed := m.apply(table);
      if changed.None? {
        return false;
      }
      table := changed.value;
      ok := true;
    }

    method Undo(m: Mutation) returns (ok: bool)
      modifies this`table
      ensures Effect(state, table, ok) == MutateUndo(m)(old(state), old(table))
    {
      var before := Saved(m, state);
      for i := 0 to |before|
        invariant (table, true) == RestoreAll(m, before[..i], old(table))
      {
        assert before[..i + 1][..i] == before[..i];
        var row := RestoreRow(m, before[i], table);
        if row.None? {
          StopsAtFailure(m, before, i + 1, old(table));
          return false;
        }
        table := row.value;
      }
      assert before[..|before|] == before;
      ok := true;
    }
  }

  // ---------------------------------------------------------------- what comes back

  /** The change stays within what the snapshot saved: no row appears or disappears, rows outside it are
    * untouched, and within it only restored columns change.
    */
  predicate Covered(m: Mutation, before: Table, keys: seq<string>, changed: Table) {
    && changed.Keys == before.Keys
    && forall k | k in before ::
         StaysWithin(m, before[k], changed[k]) && (k !in keys ==> changed[k] == before[k])
  }

  predicate StaysWithin(m: Mutation, before: Row, row: Row) {
    row.Keys == before.Keys && forall c | c in before && c !in m.restored :: row[c] == before[c]
  }

  // What is written back for a saved cell is taken, and is that cell if there is one.
  predicate ReadsBack(m: Mutation, before: Table, k: string, c: string) {
    var read := Bound(m, SnapshotRow(m, before, k), c);
    && read.Some?
    && (k in before && c in before[k] ==> read.value == before[k][c])
  }

  predicate AllReadBack(m: Mutation, before: Table, keys: seq<string>) {
    forall k, c | k in keys && c in m.restored :: ReadsBack(m, before, k, c)
  }

  // Row by row, what restoring a snapshot comes to.
  lemma {:induction false} RestoreReaches(m: Mutation, before: Table, keys: seq<string>, now: Table)
    requires m.key in m.columns
    ensures var (r, ok) := RestoreAll(m, Snapshot(m, before, keys), now);
            && (ok <==> forall k | k in keys :: Accepted(m, SnapshotRow(m, before, k)))
            && (ok ==> Reached(m, before, keys, now, r))
    decreases |keys|
  {
    hide Accepted, Restored;
    if keys != [] {
      var n := |keys| - 1;
      var rows, saved := Snapshot(m, before, keys), SnapshotRow(m, before, keys[n]);
      assert rows[..n] == Snapshot(m, before, keys[..n]) && rows[n] == saved;
      RestoreReaches(m, before, keys[..n], now);
      assert keys == keys[..n] + [keys[n]];
      var (r, ok) := RestoreAll(m, rows[..n], now);
      if ok && Accepted(m, saved) {
        OneMoreReached(m, before, keys, now, r);
      }
    }
  }

  ghost predicate Reached(m: Mutation, before: Table, keys: seq<string>, now: Table, r: Table) {
    r.Keys == now.Keys && forall k | k in now :: RowReached(m, before, k, k in keys, now[k], r[k])
  }

  predicate RowReached(m: Mutation, before: Table, k: string, picked: bool, was: Row, row: Row) {
    if !picked then row == was
    else
      Accepted(m, SnapshotRow(m, before, k)) && row == Restored(m, SnapshotRow(m, before, k), was)
  }

  lemma OneMoreReached(m: Mutation, before: Table, keys: seq<string>, now: Table, r: Table)
    requires keys != [] && m.key in m.columns && Reached(m, before, keys[..|keys| - 1], now, r)
    requires Accepted(m, SnapshotRow(m, before, keys[|keys| - 1]))
    ensures var after := RestoreRow(m, SnapshotRow(m, before, keys[|keys| - 1]), r);
            after.Some? && Reached(m, before, keys, now, after.value)
  {
    var n := |keys| - 1;
    var k, saved := keys[n], SnapshotRow(m, before, keys[n]);
    assert saved[m.key] == k;
    hide Accepted, Restored, SnapshotRow, RowReached;
    assert keys == keys[..n] + [k];
    if k in now {
      RowReachedAgain(m, before, k, k in keys[..n], now[k], r[k]);
    }
  }

  lemma RowReachedAgain(m: Mutation, before: Table, k: string, picked: bool, was: Row, row: Row)
    requires RowReached(m, before, k, picked, was, row) && Accepted(m, SnapshotRow(m, before, k))
    ensures RowReached(m, before, k, true, was, Restored(m, SnapshotRow(m, before, k), row))
  {
    hide Accepted, Restored, SnapshotRow;
    if picked {
      RestoredTwice(m, SnapshotRow(m, before, k), was);
    }
  }

  lemma RestoredTwice(m: Mutation, saved: map<string, string>, row: Row)
    requires Accepted(m, saved)
    ensures Restored(m, saved, Restored(m, saved, row)) == Restored(m, saved, row)
  {
  }

  /** Main result: writing the snapshot back succeeds and gives back the table as it was if and only if the
    * change stayed within what the snapshot saved and every saved cell that is restored reads back from its
    * text.
    */
  lemma RestoresExactly(m: Mutation, before: Table, keys: seq<string>, changed: Table)
    requires m.key in m.columns
    ensures RestoreAll(m, Snapshot(m, before, keys), changed) == (before, true) <==>
            Covered(m, before, keys, changed) && AllReadBack(m, before, keys)
  {
    hide Accepted, Restored, RowReadsBack, SnapshotRow, StaysWithin, RestoreAll;
    RestoreReaches(m, before, keys, changed);
    var (r, ok) := RestoreAll(m, Snapshot(m, before, keys), changed);
    assert ok ==> forall k | k in changed :: RowReached(m, before, k, k in keys, changed[k], r[k]);
    forall k
      ensures RowReadsBack(m, before, k) ==> Accepted(m, SnapshotRow(m, before, k))
      ensures k !in before ==> (RowReadsBack(m, before, k) <==> Accepted(m, SnapshotRow(m, before, k)))
      ensures ok && k in before && k in changed ==>
                (r[k] == before[k] <==>
                 if k in keys then RowReadsBack(m, before, k) && StaysWithin(m, before[k], changed[k])
                 else changed[k] == before[k])
      ensures k in before && k in changed && changed[k] == before[k] ==> StaysWithin(m, before[k], changed[k])
    {
      RowComesBack(m, before, k, if k in changed then changed[k] else map[]);
      SameStaysWithin(m, if k in before then before[k] else map[]);
    }
    RowsReadBack(m, before, keys);
    if ok && r == before {
      assert forall k | k in keys :: RowReadsBack(m, before, k);
    }
    if Covered(m, before, keys, changed) && AllReadBack(m, before, keys) {
      assert forall k | k in before :: r[k] == before[k];
    }
  }

  lemma RowsReadBack(m: Mutation, before: Table, keys: seq<string>)
    ensures AllReadBack(m, before, keys) <==> forall k | k in keys :: RowReadsBack(m, before, k)
  {
    hide ReadsBack;
  }

  lemma SameStaysWithin(m: Mutation, row: Row)
    ensures StaysWithin(m, row, row)
  {
  }

  predicate RowReadsBack(m: Mutation, before: Table, k: string) {
    forall c | c in m.restored :: ReadsBack(m, before, k, c)
  }

  lemma RowComesBack(m: Mutation, before: Table, k: string, row: Row)
    ensures RowReadsBack(m, before, k) ==> Accepted(m, SnapshotRow(m, before, k))
    ensures k !in before ==> (RowReadsBack(m, before, k) <==> Accepted(m, SnapshotRow(m, before, k)))
    ensures k in before && Accepted(m, SnapshotRow(m, before, k)) ==>
              (Restored(m, SnapshotRow(m, before, k), row) == before[k] <==>
               RowReadsBack(m, before, k) && StaysWithin(m, before[k], row))
  {
  }

  // ---------------------------------------------------------------- which cells read back

  // What a column is declared to hold.
  datatype Kind = Texts | Wholes | Binary | Times

  const UTC := "+0000 UTC"

  predicate Digit(c: char) {
    '0' <= c <= '9'
  }

  function ReadDigits(s: string): (r: Option<nat>) {
    if s == "" || !Digit(s[|s| - 1]) then None
    else
      var last := s[|s| - 1] as int - '0' as int;
      if |s| == 1 then Some(last)
      else
        match ReadDigits(s[..|s| - 1])
        case None => None
        case Some(n) => Some(10 * n + last)
  }

  function ReadWhole(s: string): Option<int> {
    if s != "" && s[0] == '-' then Negated(ReadDigits(s[1..])) else ReadDigits(s)
  }

  function Negated(n: Option<int>): Option<int> {
    if n.None? then None else Some(-n.value)
  }

  // A date and a time of day: digits and what separates them.
  predicate IsClock(s: string) {
    s != "" && forall c | c in s :: Digit(c) || c == '-' || c == ':' || c == '.' || c == ' '
  }

  /** What a column makes of a text it is given. A binary column takes its characters for bytes; a backslash
    * would begin an escape, which no text of rendered bytes holds. A time is taken from a clock reading alone.
    */
  function ReadAs(kind: Kind, s: string): Option<Cell> {
    match kind
    case Texts => Some(Text(s))
    case Wholes => var n := ReadWhole(s); if n.None? then None else Some(Whole(n.value))
    case Binary => if '\\' in s then None else Some(Bytes(seq(|s|, i requires 0 <= i < |s| => s[i] as int)))
    case Times => if IsClock(s) then Some(Time(s, UTC)) else None
  }

  // What a column of the kind may hold.
  predicate Holds(kind: Kind, cell: Cell) {
    cell == Null || (match kind
                     case Texts => cell.Text?
                     case Wholes => cell.Whole?
                     case Binary => cell.Bytes?
                     case Times => cell.Time? && IsClock(cell.clock) && cell.zone == UTC)
  }

  lemma {:induction false} DigitsRead(n: nat)
    ensures Digits(n) != "" && Digit(Digits(n)[0]) && ReadDigits(Digits(n)) == Some(n)
  {
    if n >= 10 {
      DigitsRead(n / 10);
      var s := Digits(n);
      assert s[..|s| - 1] == Digits(n / 10);
      assert s[|s| - 1] as int - '0' as int == n % 10;
    }
  }

  // A list of bytes takes more characters than it has bytes.
  lemma {:induction false} SpacedIsLong(ns: seq<nat>)
    ensures |Spaced(ns)| >= |ns|
  {
    if ns != [] {
      DigitsRead(ns[0]);
      SpacedIsLong(ns[1..]);
    }
  }

  /** Text and whole numbers come back from a column of their kind; NULL, bytes and times never do: NULL is
    * written back as a text, bytes as the characters of a list, and a time in a form that is refused.
    */
  lemma ReadsBackByKind(kind: Kind, cell: Cell)
    requires Holds(kind, cell)
    ensures ReadAs(kind, Rendered(cell)) == Some(cell) <==> cell.Text? || cell.Whole?
  {
    match cell
    case Null => NilIsNothing();
    case Text(t) =>
    case Whole(n) => WholeReads(n);
    case Bytes(bs) => SpacedIsLong(bs);
    case Time(clock, zone) => ZoneIsRefused(clock);
  }

  lemma NilIsNothing()
    ensures ReadWhole("<nil>").None? && !IsClock("<nil>")
  {
    assert 'n' in "<nil>";
  }

  lemma WholeReads(n: int)
    ensures ReadWhole(Decimal(n)) == Some(n)
  {
    DigitsRead(if n < 0 then -n else n);
    assert ("-" + Digits(if n < 0 then -n else n))[1..] == Digits(if n < 0 then -n else n);
  }

  lemma ZoneIsRefused(clock: string)
    ensures !IsClock(clock + " " + UTC)
  {
    var s := clock + " " + UTC;
    assert s[|clock| + 7] == UTC[6] == 'U' && s[|clock| + 7] in s;
  }

  // A table whose columns are of these kinds.
  predicate OfKinds(kinds: map<string, Kind>, table: Table) {
    forall k | k in table :: table[k].Keys == kinds.Keys && forall c | c in kinds :: Holds(kinds[c], table[k][c])
  }

  /** On a table with columns of known kinds: a change within the snapshot is taken back if and only if no saved
    * cell that is restored was NULL, bytes or a time.
    */
  lemma RestoresByKind(m: Mutation, kinds: map<string, Kind>, before: Table, keys: seq<string>, changed: Table)
    requires m.key in m.columns && m.key !in m.restored && m.restored <= m.columns * kinds.Keys
    requires m.takes == ((c, s) => if c in kinds then ReadAs(kinds[c], s) else None)
    requires OfKinds(kinds, before) && Covered(m, before, keys, changed) && forall k | k in keys :: k in before
    ensures RestoreAll(m, Snapshot(m, before, keys), changed) == (before, true) <==>
            forall k, c | k in keys && c in m.restored :: before[k][c].Text? || before[k][c].Whole?
  {
    hide Covered, RestoreAll, Snapshot, ReadAs, Rendered;
    RestoresExactly(m, before, keys, changed);
    forall k, c | k in keys && c in m.restored
      ensures ReadsBack(m, before, k, c) <==> before[k][c].Text? || before[k][c].Whole?
    {
      ReadsBackByKind(kinds[c], before[k][c]);
    }
  }

  // ---------------------------------------------------------------- a mutation as a step of a flow

  predicate Succeeds(m: Mutation, table: Table) {
    m.picked(table).Some? && m.apply(table).Some?
  }

  /** On this table the change stays within the snapshot, and what the snapshot saves reads back. */
  predicate ComesBackAt(m: Mutation, t: Table) {
    Succeeds(m, t) ==> Covered(m, t, m.picked(t).value, m.apply(t).value) && AllReadBack(m, t, m.picked(t).value)
  }

  lemma MemorySaved(m: Mutation, s: State, t: Table, later: State)
    requires Succeeds(m, t) && SameOn(OwnKeys(m.name), MutateDo(m)(s, t).state, later)
    ensures Saved(m, later) == Snapshot(m, t, m.picked(t).value)
  {
    assert m.name + ".before" in OwnKeys(m.name);
  }

  /** A mutation can be taken back on a table exactly when its change stays within the snapshot there and what
    * the snapshot saves reads back; one that fails changes nothing.
    */
  lemma TakenBackExactly(m: Mutation, s: State, t: Table)
    requires m.key in m.columns
    ensures TakenBackAt(MutateStep(m), s, t) <==> ComesBackAt(m, t)
  {
    hide Covered, AllReadBack, RestoreAll;
    var step := MutateStep(m);
    var did := step.forward(s, t);
    assert m.name + ".before" in OwnKeys(m.name);
    if Succeeds(m, t) {
      var keys := m.picked(t).value;
      RestoresExactly(m, t, keys, m.apply(t).value);
      forall later: State | SameOn(OwnKeys(m.name), did.state, later)
        ensures step.undo.value(later, did.db)
             == var (after, ok) := RestoreAll(m, Snapshot(m, t, keys), m.apply(t).value); Effect(later, after, ok)
      {
        MemorySaved(m, s, t, later);
      }
      assert SameOn(OwnKeys(m.name), did.state, did.state);
    }
  }

  // ---------------------------------------------------------------- several statements in one step

  type Statement<!Db> = Db -> Option<Db>

  /** Statement after statement, stopping at the first that fails; what the earlier ones did stays. */
  function ExecMulti<Db>(statements: seq<Statement<Db>>, db: Db): (Db, bool) {
    if statements == [] then (db, true)
    else
      match statements[0](db)
      case None => (db, false)
      case Some(next) => ExecMulti(statements[1..], next)
  }

  function SqlAction<Db>(statements: seq<Statement<Db>>): Action<Db> {
    (s: State, d: Db) => var (after, ok) := ExecMulti(statements, d); Effect(s, after, ok)
  }

  // With no undo text the step still has an undo action, which does nothing.
  function SqlStep<Db>(name: string, forward: seq<Statement<Db>>, back: seq<Statement<Db>>): Step<Db> {
    Step(name, false, SqlAction(forward), Some(SqlAction(back)))
  }

  // The statement that refuses first, when they are executed from here.
  function FirstRefusal<Db>(statements: seq<Statement<Db>>, db: Db): (i: nat)
    ensures i <= |statements|
  {
    if statements == [] then 0
    else
      match statements[0](db)
      case None => 0
      case Some(next) => 1 + FirstRefusal(statements[1..], next)
  }

  /** What a step of statements leaves is what those before the first that refuses have done: it fails without
    * effect exactly when these take the database back to itself.
    */
  lemma {:induction false} LeavesWhatWasDone<Db>(statements: seq<Statement<Db>>, db: Db)
    ensures var i := FirstRefusal(statements, db);
            && ExecMulti(statements, db).1 == (i == |statements|)
            && ExecMulti(statements[..i], db) == (ExecMulti(statements, db).0, true)
            && (ExecMulti(statements, db) == (db, false) <==>
                  i < |statements| && ExecMulti(statements[..i], db).0 == db)
    decreases |statements|
  {
    var i := FirstRefusal(statements, db);
    if statements != [] && statements[0](db).Some? {
      LeavesWhatWasDone(statements[1..], statements[0](db).value);
      assert statements[..i][1..] == statements[1..][..i - 1];
    }
  }

  ghost predicate TakenBack<Db(!new)>(forward: seq<Statement<Db>>, back: seq<Statement<Db>>) {
    forall d: Db | ExecMulti(forward, d).1 :: ExecMulti(back, ExecMulti(forward, d).0) == (d, true)
  }

  // Every step of n statements with an undo that takes it back is reversible.
  ghost predicate StepsOfAreReversible(n: nat) {
    forall name: string, forward: seq<Statement<int>>, back: seq<Statement<int>>
         | |forward| == n && TakenBack(forward, back) ::
      Reversible(SqlStep(name, forward, back))
  }

  /** Main result: an undo that takes the whole step back makes it reversible if the step is one statement,
    * and for every larger number of statements there is one that fails half done.
    */
  lemma OneStatementIsSafeExactly(n: nat)
    ensures StepsOfAreReversible(n) <==> n <= 1
  {
    if n <= 1 {
      forall name: string, forward: seq<Statement<int>>, back: seq<Statement<int>>
           | |forward| == n && TakenBack(forward, back)
        ensures Reversible(SqlStep(name, forward, back))
      {
        ShortStepIsReversible(name, forward, back);
      }
    } else {
      HalfDoneStaysDone(n, [], 0);
      assert |HalfDone(n)| == n && TakenBack(HalfDone(n), []);
    }
  }

  /** On any database: a step of at most one statement is reversible if its undo takes it back. */
  lemma ShortStepIsReversible<Db(!new)>(name: string, forward: seq<Statement<Db>>, back: seq<Statement<Db>>)
    requires |forward| <= 1 && TakenBack(forward, back)
    ensures Reversible(SqlStep(name, forward, back))
  {
    var step := SqlStep(name, forward, back);
    forall s: State, d: Db
      ensures TakenBackAt(step, s, d)
    {
      LeavesWhatWasDone(forward, d);
      assert forward[..0] == [];
      assert |forward| == 1 ==> forward[1..] == [];
      assert step.forward(s, d) == Effect(s, ExecMulti(forward, d).0, ExecMulti(forward, d).1);
    }
  }

  function AddOne(): Statement<int> {
    (d: int) => Some(d + 1)
  }

  function Refuse(): Statement<int> {
    (d: int) => None
  }

  // The first statement takes effect and the others refuse.
  function HalfDone(n: nat): seq<Statement<int>>
    requires n >= 2
  {
    [AddOne()] + seq(n - 1, i => Refuse())
  }

  /** A step whose second statement refuses leaves the first one's effect behind, whatever its undo says. */
  lemma HalfDoneStaysDone(n: nat, back: seq<Statement<int>>, d: int)
    requires n >= 2
    ensures forall x: int :: ExecMulti(HalfDone(n), x) == (x + 1, false)
    ensures !Reversible(SqlStep("half", HalfDone(n), back))
  {
    var half := HalfDone(n);
    forall x: int
      ensures ExecMulti(half, x) == (x + 1, false)
    {
      assert half[1..][0] == Refuse();
      assert ExecMulti(half[1..], x + 1) == (x + 1, false);
    }
    var step := SqlStep("half", half, back);
    assert step.forward(map[], d) == Effect(map[], d + 1, false);
    assert !TakenBackAt(step, map[], d);
  }

  // ---------------------------------------------------------------- flows as a manifest writes them

  datatype Spec =
    | Human(name: string)
    | Sql(name: string, forward: seq<Statement<Table>>, back: seq<Statement<Table>>)
    | Mutate(name: string, mutation: Mutation)

  function StepOf(x: Spec): Step<Table> {
    match x
    case Human(name) => Step(name, true, (s: State, t: Table) => Effect(s, t, true), None)
    case Sql(name, forward, back) => SqlStep(name, forward, back)
    case Mutate(name, m) => MutateStep(m.(name := name))
  }

  function StepsOf(xs: seq<Spec>): seq<Step<Table>> {
    seq(|xs|, i requires 0 <= i < |xs| => StepOf(xs[i]))
  }

  predicate HasKey(x: Spec) {
    x.Mutate? ==> x.mutation.key in x.mutation.columns
  }

  /** What taking a step back asks of the table it meets: nothing of a human step; of statements that they are
    * undone by those for it, or fail with no effect; and of a mutation that its change comes back.
    */
  predicate UndoableAt(x: Spec, t: Table) {
    match x
    case Human(_) => true
    case Sql(_, forward, back) =>
      if ExecMulti(forward, t).1 then ExecMulti(back, ExecMulti(forward, t).0) == (t, true)
      else ExecMulti(forward[..FirstRefusal(forward, t)], t).0 == t
    case Mutate(name, m) => ComesBackAt(m.(name := name), t)
  }

  lemma UndoableExactly(x: Spec, s: State, t: Table)
    requires HasKey(x)
    ensures TakenBackAt(StepOf(x), s, t) <==> UndoableAt(x, t)
  {
    match x
    case Human(_) =>
    case Sql(name, forward, back) => SqlTakenBackExactly(name, forward, back, s, t);
    case Mutate(name, m) => TakenBackExactly(m.(name := name), s, t);
  }

  lemma SqlTakenBackExactly<Db(!new)>(name: string, forward: seq<Statement<Db>>, back: seq<Statement<Db>>, s: State,
                                      d: Db)
    ensures TakenBackAt(SqlStep(name, forward, back), s, d) <==>
            if ExecMulti(forward, d).1 then ExecMulti(back, ExecMulti(forward, d).0) == (d, true)
            else ExecMulti(forward[..FirstRefusal(forward, d)], d).0 == d
  {
    hide ExecMulti, FirstRefusal;
    LeavesWhatWasDone(forward, d);
    var step := SqlStep(name, forward, back);
    assert step.forward(s, d) == Effect(s, ExecMulti(forward, d).0, ExecMulti(forward, d).1);
    var undone := ExecMulti(back, ExecMulti(forward, d).0);
    assert forall t: State :: step.undo.value(t, ExecMulti(forward, d).0) == Effect(t, undone.0, undone.1);
    assert SameOn(OwnKeys(name), s, s);
  }

  // The table a run meets before its i-th step.
  function TableBefore(xs: seq<Spec>, i: nat, s0: State, t0: Table): Option<Table>
    requires i <= |xs|
  {
    match Forward(StepsOf(xs), i, s0, t0)
    case None => None
    case Some((s, t)) => Some(t)
  }

  /** Differently named steps, each undoable on the table it meets. */
  predicate UndoableFlow(xs: seq<Spec>, s0: State, t0: Table) {
    && (forall i, j | 0 <= i < j < |xs| :: xs[i].name != xs[j].name)
    && (forall i | 0 <= i < |xs| ::
          HasKey(xs[i]) && (TableBefore(xs, i, s0, t0).Some? ==> UndoableAt(xs[i], TableBefore(xs, i, s0, t0).value)))
  }

  lemma FlowIsTakenBack(xs: seq<Spec>, s0: State, t0: Table)
    requires UndoableFlow(xs, s0, t0)
    ensures FlowRun.TakenBackFrom(StepsOf(xs), s0, t0)
  {
    hide UndoableAt, StepOf, HasKey;
    var steps := StepsOf(xs);
    forall i | 0 <= i < |xs|
      ensures TakenBackWhereMet(steps, i, s0, t0) && steps[i].name == xs[i].name
    {
      NameOfStep(xs[i]);
      if Forward(steps, i, s0, t0).Some? {
        var (s, t) := Forward(steps, i, s0, t0).value;
        assert TableBefore(xs, i, s0, t0) == Some(t);
        UndoableExactly(xs[i], s, t);
      }
    }
  }

  // Only a human step waits, and it changes nothing and has nothing to take back.
  lemma NameOfStep(x: Spec)
    ensures StepOf(x).name == x.name && (StepOf(x).human <==> x.Human?)
    ensures x.Human? ==> StepOf(x).undo.None? && forall s, t :: StepOf(x).forward(s, t) == Effect(s, t, true)
  {
  }

  /** Undoing the first n steps of such a flow, last first, gives back the table it began with. */
  lemma FlowIsUndone(xs: seq<Spec>, n: nat, s0: State, t0: Table, s: State, t: Table)
    requires UndoableFlow(xs, s0, t0) && n <= |xs| && Forward(StepsOf(xs), n, s0, t0) == Some((s, t))
    ensures UndoAll(StepsOf(xs), n, s, t).ok && UndoAll(StepsOf(xs), n, s, t).db == t0
  {
    FlowIsTakenBack(xs, s0, t0);
    UndoRestores(StepsOf(xs), n, s0, t0, s, t, s);
  }

  /** A run of such a flow that goes forward, with no save lost and no compensation cut short, is taken back to
    * the table it began with.
    */
  lemma FlowIsRestored(xs: seq<Spec>, b: FlowRun.Beginning<Table>, events: seq<FlowRun.Event>)
    requires UndoableFlow(xs, b.state, b.db) && FlowRun.Intact(FlowRun.History(StepsOf(xs), b, events))
    ensures FlowRun.Restored(StepsOf(xs), b, events)
  {
    FlowIsTakenBack(xs, b.state, b.db);
    FlowRun.IntactIsRestored(StepsOf(xs), b, events);
  }

  /** And however it first leaves the forward phase, the table is back as it was at the beginning. */
  lemma FlowEndsRestored(xs: seq<Spec>, b: FlowRun.Beginning<Table>, events: seq<FlowRun.Event>, e: FlowRun.Event)
    requires UndoableFlow(xs, b.state, b.db) && FlowRun.Intact(FlowRun.History(StepsOf(xs), b, events))
    requires FlowRun.HasEnded(FlowRun.History(StepsOf(xs), b, events + [e]))
    ensures FlowRun.History(StepsOf(xs), b, events + [e]).db == b.db
  {
    FlowIsTakenBack(xs, b.state, b.db);
    FlowRun.EndingRestores(StepsOf(xs), b, events, e);
  }
}
