/** Polling a table by a growing cursor column: which rows are delivered, and how often. */
module ChangeFeed {
  import opened Basics

  datatype Row = Row(cursor: int, record: map<string, string>)

  const LIMIT: nat := 1000

  // ---------------------------------------------------------------- the query

  function Above(table: seq<Row>, cursor: int): seq<Row> {
    if table == [] then []
    else
      var rest := Above(table[..|table| - 1], cursor);
      if table[|table| - 1].cursor > cursor then rest + [table[|table| - 1]] else rest
  }

  function Insert(rows: seq<Row>, r: Row): seq<Row> {
    if rows == [] then [r]
    else if rows[|rows| - 1].cursor <= r.cursor then rows + [r]
    else Insert(rows[..|rows| - 1], r) + [rows[|rows| - 1]]
  }

  // By cursor; rows with the same cursor in the order they were added.
  function ByCursor(rows: seq<Row>): seq<Row> {
    if rows == [] then [] else Insert(ByCursor(rows[..|rows| - 1]), rows[|rows| - 1])
  }

  function Pending(table: seq<Row>, cursor: int): seq<Row> {
    ByCursor(Above(table, cursor))
  }

  // The first rows above the cursor.
  function Answer(table: seq<Row>, cursor: int): seq<Row> {
    var p := Pending(table, cursor);
    p[..Min(LIMIT, |p|)]
  }

  function Watermark(rows: seq<Row>, cursor: int): int {
    if rows == [] then cursor else rows[|rows| - 1].cursor
  }

  predicate InOrder(rows: seq<Row>) {
    forall i, j | 0 <= i < j < |rows| :: rows[i].cursor <= rows[j].cursor
  }

  predicate Increasing(rows: seq<Row>) {
    forall i, j | 0 <= i < j < |rows| :: rows[i].cursor < rows[j].cursor
  }

  lemma {:induction false} InsertHolds(rows: seq<Row>, r: Row)
    ensures forall x | x in Insert(rows, r) :: x == r || x in rows
    decreases |rows|
  {
    if rows != [] {
      InsertHolds(rows[..|rows| - 1], r);
    }
  }

  lemma {:induction false} InsertKeepsRows(rows: seq<Row>, r: Row)
    ensures multiset(Insert(rows, r)) == multiset(rows) + multiset{r}
    decreases |rows|
  {
    if rows != [] {
      var n := |rows| - 1;
      assert rows == rows[..n] + [rows[n]];
      InsertKeepsRows(rows[..n], r);
    }
  }

  lemma {:induction false} InsertKeepsOrder(rows: seq<Row>, r: Row)
    requires InOrder(rows)
    ensures InOrder(Insert(rows, r))
    decreases |rows|
  {
    if rows != [] && rows[|rows| - 1].cursor > r.cursor {
      var front := rows[..|rows| - 1];
      InsertKeepsOrder(front, r);
      InsertHolds(front, r);
      forall i | 0 <= i < |Insert(front, r)|
        ensures Insert(front, r)[i].cursor <= rows[|rows| - 1].cursor
      {
        assert Insert(front, r)[i] in Insert(front, r);
      }
    }
  }

  lemma {:induction false} ByCursorIsRight(rows: seq<Row>)
    ensures InOrder(ByCursor(rows)) && multiset(ByCursor(rows)) == multiset(rows)
    decreases |rows|
  {
    if rows != [] {
      var n := |rows| - 1;
      assert rows == rows[..n] + [rows[n]];
      ByCursorIsRight(rows[..n]);
      InsertKeepsRows(ByCursor(rows[..n]), rows[n]);
      InsertKeepsOrder(ByCursor(rows[..n]), rows[n]);
    }
  }

  lemma {:induction false} InOrderAlready(rows: seq<Row>)
    requires InOrder(rows)
    ensures ByCursor(rows) == rows
    decreases |rows|
  {
    if rows != [] {
      var n := |rows| - 1;
      InOrderAlready(rows[..n]);
      assert rows == rows[..n] + [rows[n]];
    }
  }

  lemma {:induction false} AboveHolds(table: seq<Row>, cursor: int)
    ensures forall r | r in Above(table, cursor) :: r in table && r.cursor > cursor
    decreases |table|
  {
    if table != [] {
      AboveHolds(table[..|table| - 1], cursor);
    }
  }

  lemma {:induction false} AboveCounts(table: seq<Row>, cursor: int, r: Row)
    ensures multiset(Above(table, cursor))[r] == if r.cursor > cursor then multiset(table)[r] else 0
    decreases |table|
  {
    if table != [] {
      AboveCounts(table[..|table| - 1], cursor, r);
      assert table == table[..|table| - 1] + [table[|table| - 1]];
    }
  }

  lemma {:induction false} AboveIncreases(table: seq<Row>, cursor: int)
    requires Increasing(table)
    ensures Increasing(Above(table, cursor)) && InOrder(Above(table, cursor))
    decreases |table|
  {
    if table != [] {
      AboveIncreases(table[..|table| - 1], cursor);
      AboveHolds(table[..|table| - 1], cursor);
    }
  }

  lemma PendingIsRight(table: seq<Row>, cursor: int)
    ensures InOrder(Pending(table, cursor))
    ensures forall r :: multiset(Pending(table, cursor))[r] == if r.cursor > cursor then multiset(table)[r] else 0
  {
    forall r
      ensures multiset(Above(table, cursor))[r] == if r.cursor > cursor then multiset(table)[r] else 0
    {
      AboveCounts(table, cursor, r);
    }
    ByCursorIsRight(Above(table, cursor));
  }

  // ---------------------------------------------------------------- one poll

  predicate StartsAt(table: seq<Row>, cursor: int) {
    if table == [] then cursor == 0
    else (exists r :: r in table && r.cursor == cursor) && forall r | r in table :: r.cursor <= cursor
  }

  class Feed {
    var cursor: int

    constructor ()
      ensures cursor == 0
    {
      cursor := 0;
    }

    method SetCursor(v: int)
      modifies this
      ensures cursor == v
    {
      cursor := v;
    }

    /** The largest cursor so far, or 0 in an empty table. */
    method StartCursor(table: seq<Row>)
      modifies this
      ensures StartsAt(table, cursor)
    {
      cursor := 0;
      for i := 0 to |table|
        invariant i == 0 ==> cursor == 0
        invariant i > 0 ==> exists j :: 0 <= j < i && table[j].cursor == cursor
        invariant i > 0 ==> forall j | 0 <= j < i :: table[j].cursor <= cursor
      {
        if i == 0 || table[i].cursor > cursor {
          cursor := table[i].cursor;
        }
      }
    }

    method Poll(table: seq<Row>) returns (out: seq<Row>)
      modifies this
      ensures out == Answer(table, old(cursor)) && cursor == Watermark(out, old(cursor))
    {
      hide Answer;
      var rows := Answer(table, cursor);
      AnswerIsAbove(table, cursor);
      out := [];
      for i := 0 to |rows|
        invariant out == rows[..i]
        invariant cursor == if i == 0 then old(cursor) else rows[i - 1].cursor
      {
        var current := rows[i].cursor;
        assert rows[i] in rows;
        if current > cursor {
          cursor := current;
        }
        out := out + [rows[i]];
      }
    }
  }

  lemma AnswerIsAbove(table: seq<Row>, cursor: int)
    ensures forall r | r in Answer(table, cursor) :: r.cursor > cursor
    ensures InOrder(Answer(table, cursor))
  {
    PendingIsRight(table, cursor);
    forall r | r in Answer(table, cursor)
      ensures r.cursor > cursor
    {
      assert r in multiset(Pending(table, cursor));
    }
  }

  // Every pending row is delivered now or still pending after the poll.
  predicate NothingLost(table: seq<Row>, cursor: int) {
    var out := Answer(table, cursor);
    multiset(out) + multiset(Pending(table, Watermark(out, cursor))) == multiset(Pending(table, cursor))
  }

  lemma PastTheLimit(table: seq<Row>, cursor: int)
    ensures var p := Pending(table, cursor);
            |p| > LIMIT ==>
              && p[LIMIT - 1].cursor <= p[LIMIT].cursor
              && forall r | r in p[LIMIT..] :: r.cursor >= p[LIMIT].cursor
  {
    PendingIsRight(table, cursor);
    hide Pending;
  }

  /** A poll loses rows exactly when the limit falls between rows with the same cursor. */
  lemma PollLosesExactly(table: seq<Row>, cursor: int)
    ensures var p := Pending(table, cursor);
            NothingLost(table, cursor) <==> |p| <= LIMIT || p[LIMIT - 1].cursor < p[LIMIT].cursor
  {
    hide Pending, Answer, Watermark, NothingLost;
    var p, out := Pending(table, cursor), Answer(table, cursor);
    AnswerIsFirst(table, cursor);
    PastTheLimit(table, cursor);
    if |p| <= LIMIT || p[LIMIT - 1].cursor < p[LIMIT].cursor {
      StillAbove(table, cursor, Watermark(out, cursor), out, p[|out|..]);
      NothingLostMeans(table, cursor);
    } else {
      LastTieIsLost(table, cursor);
    }
  }

  lemma NothingLostMeans(table: seq<Row>, cursor: int)
    ensures var out := Answer(table, cursor);
            NothingLost(table, cursor) <==>
            multiset(out) + multiset(Pending(table, Watermark(out, cursor))) == multiset(Pending(table, cursor))
  {
    hide Answer, Pending, Watermark;
  }

  // The answer is the front of what is pending, and the watermark its end.
  lemma AnswerIsFirst(table: seq<Row>, cursor: int)
    ensures var p, out := Pending(table, cursor), Answer(table, cursor);
            && out == p[..Min(LIMIT, |p|)] && p == out + p[|out|..]
            && Watermark(out, cursor) == (if p == [] then cursor else p[Min(LIMIT, |p|) - 1].cursor)
            && Watermark(out, cursor) >= cursor
            && forall r | r in out :: r.cursor <= Watermark(out, cursor)
  {
    hide Pending;
    AnswerIsAbove(table, cursor);
    var p, out := Pending(table, cursor), Answer(table, cursor);
    FrontIsLow(out, cursor);
    assert p == out + p[|out|..];
  }

  lemma FrontIsLow(out: seq<Row>, cursor: int)
    requires InOrder(out) && forall r | r in out :: r.cursor > cursor
    ensures Watermark(out, cursor) >= cursor && forall r | r in out :: r.cursor <= Watermark(out, cursor)
  {
    if out != [] {
      assert out[|out| - 1] in out;
    }
  }

  lemma LastTieIsLost(table: seq<Row>, cursor: int)
    requires var p := Pending(table, cursor); |p| > LIMIT && p[LIMIT - 1].cursor == p[LIMIT].cursor
    ensures !NothingLost(table, cursor)
  {
    hide Pending, Answer, Watermark;
    var p, out := Pending(table, cursor), Answer(table, cursor);
    AnswerIsFirst(table, cursor);
    NothingLostMeans(table, cursor);
    var mark, r := Watermark(out, cursor), p[LIMIT];
    PendingIsRight(table, mark);
    assert r == p[|out|..][0];
    assert multiset(p) == multiset(out) + multiset(p[|out|..]);
    assert multiset(Pending(table, mark))[r] == 0;
    assert multiset(p)[r] > multiset(out)[r];
    assert (multiset(out) + multiset(Pending(table, mark)))[r] == multiset(out)[r];
  }

  lemma StillAbove(table: seq<Row>, cursor: int, mark: int, out: seq<Row>, later: seq<Row>)
    requires Pending(table, cursor) == out + later && mark >= cursor
    requires forall r | r in out :: r.cursor <= mark
    requires forall r | r in later :: r.cursor > mark
    ensures multiset(out) + multiset(Pending(table, mark)) == multiset(Pending(table, cursor))
  {
    hide Pending;
    PendingIsRight(table, cursor);
    PendingIsRight(table, mark);
    forall r: Row
      ensures multiset(Pending(table, mark))[r] == multiset(later)[r]
    {
      if r.cursor > mark {
        assert r !in out;
      } else {
        assert r !in later;
      }
    }
    assert multiset(Pending(table, mark)) == multiset(later);
  }

  // ---------------------------------------------------------------- appends and polls, interleaved

  datatype Event = Append(row: Row) | Poll

  datatype State = State(table: seq<Row>, cursor: int, delivered: seq<Row>)

  function Step(s: State, e: Event): State {
    match e
    case Append(row) => s.(table := s.table + [row])
    case Poll =>
      var out := Answer(s.table, s.cursor);
      State(s.table, Watermark(out, s.cursor), s.delivered + out)
  }

  function Run(s: State, events: seq<Event>): State {
    if events == [] then s else Step(Run(s, events[..|events| - 1]), events[|events| - 1])
  }

  // Rows come with ever larger cursors.
  predicate Growing(s: State, events: seq<Event>) {
    forall k | 0 <= k < |events| && events[k].Append? :: Increasing(Run(s, events[..k]).table + [events[k].row])
  }

  lemma {:induction false} NothingAbove(table: seq<Row>, high: int)
    requires forall r | r in table :: r.cursor <= high
    ensures Above(table, high) == []
    decreases |table|
  {
    if table != [] {
      NothingAbove(table[..|table| - 1], high);
    }
  }

  lemma AboveStep(table: seq<Row>, cursor: int)
    requires table != []
    ensures var n := |table| - 1;
            Above(table, cursor) == Above(table[..n], cursor) + if table[n].cursor > cursor then [table[n]] else []
  {
  }

  // The rows above the watermark a poll leaves are those it did not deliver.
  lemma {:induction false} RestStaysAbove(table: seq<Row>, cursor: int, k: nat)
    requires Increasing(table) && k <= |Above(table, cursor)|
    ensures Above(table, Watermark(Above(table, cursor)[..k], cursor)) == Above(table, cursor)[k..]
    decreases |table|
  {
    if table != [] {
      var n := |table| - 1;
      var p, rest := Above(table, cursor), Above(table[..n], cursor);
      AboveStep(table, cursor);
      AboveStep(table, Watermark(p[..k], cursor));
      hide Above, Watermark;
      if k <= |rest| {
        assert p[..k] == rest[..k];
        RestStaysAbove(table[..n], cursor, k);
        AboveHolds(table[..n], cursor);
      } else {
        assert p[..k] == p;
        NothingAbove(table, table[n].cursor);
      }
    }
  }

  lemma PollTakesFirst(table: seq<Row>, cursor: int, p: seq<Row>, out: seq<Row>)
    requires Increasing(table) && p == Above(table, cursor) && out == Answer(table, cursor)
    ensures out == p[..Min(LIMIT, |p|)] && Above(table, Watermark(out, cursor)) == p[|out|..]
  {
    AboveIncreases(table, cursor);
    InOrderAlready(Above(table, cursor));
    RestStaysAbove(table, cursor, Min(LIMIT, |Above(table, cursor)|));
  }

  // What holds of a feed that began at `start` with nothing delivered.
  predicate Delivers(s: State, start: int) {
    && Increasing(s.table)
    && Above(s.table, start) == s.delivered + Above(s.table, s.cursor)
    && (s.cursor == start || (s.cursor > start && exists r :: r in s.table && r.cursor == s.cursor))
  }

  /** Main result: however appends and polls interleave, what was delivered and what is still above the
    * watermark are together exactly the rows above the starting cursor, once each and in order.
    */
  lemma {:induction false} ExactlyOnce(s: State, events: seq<Event>)
    requires Increasing(s.table) && s.delivered == [] && Growing(s, events)
    ensures var t := Run(s, events);
            Delivers(t, s.cursor) && s.table <= t.table
    decreases |events|
  {
    if events != [] {
      var n := |events| - 1;
      ShorterGrows(s, events);
      ExactlyOnce(s, events[..n]);
      var t := Run(s, events[..n]);
      match events[n] {
        case Append(row) => AppendKeeps(t, row, s.cursor);
        case Poll => PollKeeps(t, s.cursor);
      }
    }
  }

  lemma ShorterGrows(s: State, events: seq<Event>)
    requires Growing(s, events) && events != []
    ensures Growing(s, events[..|events| - 1])
  {
    var rest := events[..|events| - 1];
    forall k | 0 <= k < |rest| && rest[k].Append?
      ensures Increasing(Run(s, rest[..k]).table + [rest[k].row])
    {
      assert rest[..k] == events[..k] && rest[k] == events[k];
    }
  }

  // A new row is above the watermark exactly when it is above the cursor the feed began with.
  lemma AppendKeeps(s: State, row: Row, start: int)
    requires Delivers(s, start) && Increasing(s.table + [row])
    ensures Delivers(Step(s, Append(row)), start)
  {
    var table := s.table + [row];
    assert table[..|s.table|] == s.table;
    if s.cursor != start {
      var r :| r in s.table && r.cursor == s.cursor;
      var i :| 0 <= i < |s.table| && s.table[i] == r;
      assert table[i].cursor < table[|s.table|].cursor;
      assert r in table;
    }
  }

  lemma PollKeeps(s: State, start: int)
    requires Delivers(s, start)
    ensures Delivers(Step(s, Poll), start)
  {
    hide Answer, Above, Increasing;
    var p, out := Above(s.table, s.cursor), Answer(s.table, s.cursor);
    PollTakesFirst(s.table, s.cursor, p, out);
    AboveHolds(s.table, s.cursor);
    var rest := p[|out|..];
    assert p == out + rest;
    assert (s.delivered + out) + rest == s.delivered + p;
    if out != [] {
      assert out[|out| - 1] == p[|out| - 1] && p[|out| - 1] in p;
    }
  }

  /** A feed started at the end of a table delivers, in time, exactly what is added later, unless the table was
    * empty then and rows come in with cursors that are not positive: those are never delivered.
    */
  lemma TailsExactly(s: State, events: seq<Event>)
    requires Increasing(s.table) && StartsAt(s.table, s.cursor) && s.delivered == [] && Growing(s, events)
    ensures var t := Run(s, events);
            && s.table <= t.table
            && var later := t.table[|s.table|..];
               (t.delivered + Above(t.table, t.cursor) == later <==>
                 s.table != [] || forall r | r in later :: r.cursor > 0)
  {
    hide Above, Growing, StartsAt, Increasing, Run;
    ExactlyOnce(s, events);
    var t := Run(s, events);
    PrefixAndRest(s.table, t.table);
    OnlyLaterExactly(s.table, t.table[|s.table|..], s.cursor);
  }

  lemma PrefixAndRest(a: seq<Row>, b: seq<Row>)
    requires a <= b
    ensures b == a + b[|a|..]
  {
  }

  lemma OnlyLaterExactly(table: seq<Row>, later: seq<Row>, start: int)
    requires StartsAt(table, start) && Increasing(table + later)
    ensures Above(table + later, start) == later <==> table != [] || forall r | r in later :: r.cursor > 0
  {
    if Above(table + later, start) == later && table == [] {
      AboveHolds(table + later, start);
    }
    if table != [] || forall r | r in later :: r.cursor > 0 {
      LaterIsAbove(table, later, start);
    }
  }

  lemma IncreasingPrefix(table: seq<Row>, r: Row)
    requires Increasing(table + [r])
    ensures Increasing(table)
  {
    assert forall i | 0 <= i < |table| :: (table + [r])[i] == table[i];
  }

  lemma AboveOneMore(table: seq<Row>, r: Row, cursor: int)
    ensures Above(table + [r], cursor) == Above(table, cursor) + if r.cursor > cursor then [r] else []
  {
    assert (table + [r])[..|table|] == table;
  }

  lemma StartsBelow(table: seq<Row>, later: seq<Row>, start: int, n: nat)
    requires StartsAt(table, start) && Increasing(table + later) && n < |later|
    requires table != [] || forall r | r in later :: r.cursor > 0
    ensures later[n].cursor > start
  {
    if table != [] {
      var r :| r in table && r.cursor == start;
      var i :| 0 <= i < |table| && table[i] == r;
      assert (table + later)[i].cursor < (table + later)[|table| + n].cursor;
    }
  }

  lemma {:induction false} LaterIsAbove(table: seq<Row>, later: seq<Row>, start: int)
    requires StartsAt(table, start) && Increasing(table + later)
    requires table != [] || forall r | r in later :: r.cursor > 0
    ensures Above(table + later, start) == later
    decreases |later|
  {
    if later == [] {
      assert table + later == table;
      NothingAbove(table, start);
    } else {
      hide Above;
      var n := |later| - 1;
      assert table + later == (table + later[..n]) + [later[n]];
      assert later == later[..n] + [later[n]];
      IncreasingPrefix(table + later[..n], later[n]);
      LaterIsAbove(table, later[..n], start);
      StartsBelow(table, later, start, n);
      AboveOneMore(table + later[..n], later[n], start);
    }
  }

  // ---------------------------------------------------------------- losing rows, over whole runs

  // Every row of the table that was ever above the starting cursor has been delivered or is still pending.
  predicate AllAccounted(s: State, start: int) {
    multiset(s.delivered) + multiset(Pending(s.table, s.cursor)) == multiset(Pending(s.table, start))
  }

  // What can be seen before the event: a row that comes too late, or a limit that cuts through a tie.
  predicate LosesNothing(s: State, e: Event, start: int) {
    match e
    case Append(row) => row.cursor <= start || row.cursor > s.cursor
    case Poll =>
      var p := Pending(s.table, s.cursor);
      |p| <= LIMIT || p[LIMIT - 1].cursor < p[LIMIT].cursor
  }

  // How often the row is neither delivered nor pending.
  function Lost(s: State, start: int, r: Row): int {
    var owed: int := multiset(Pending(s.table, start))[r];
    owed - multiset(s.delivered)[r] - multiset(Pending(s.table, s.cursor))[r]
  }

  // No row is lost, or this one is.
  lemma LostMeans(s: State, start: int)
    ensures AllAccounted(s, start) <==> forall r :: Lost(s, start, r) == 0
  {
    hide Pending;
    if forall r :: Lost(s, start, r) == 0 {
      forall r
        ensures (multiset(s.delivered) + multiset(Pending(s.table, s.cursor)))[r]
             == multiset(Pending(s.table, start))[r]
      {
        assert Lost(s, start, r) == 0;
      }
    }
  }

  lemma AppendLoses(s: State, start: int, row: Row, r: Row)
    requires start <= s.cursor
    ensures Lost(Step(s, Append(row)), start, r)
         == Lost(s, start, r) + if r == row && !LosesNothing(s, Append(row), start) then 1 else 0
  {
    hide Pending;
    PendingIsRight(s.table + [row], start);
    PendingIsRight(s.table + [row], s.cursor);
    PendingIsRight(s.table, start);
    PendingIsRight(s.table, s.cursor);
  }

  lemma PollLoses(s: State, start: int, r: Row)
    ensures var out := Answer(s.table, s.cursor);
            Lost(Step(s, Poll), start, r) == Lost(s, start, r) + multiset(Pending(s.table, s.cursor))[r]
              - multiset(out)[r] - multiset(Pending(s.table, Watermark(out, s.cursor)))[r]
  {
    hide Pending, Answer, Watermark;
  }

  // What a poll takes was pending, and what is above the new watermark still is.
  lemma PollNeverFinds(s: State, r: Row)
    ensures var out := Answer(s.table, s.cursor);
            multiset(Pending(s.table, s.cursor))[r]
            >= multiset(out)[r] + multiset(Pending(s.table, Watermark(out, s.cursor)))[r]
  {
    hide Pending, Answer, Watermark;
    var p, out := Pending(s.table, s.cursor), Answer(s.table, s.cursor);
    var mark := Watermark(out, s.cursor);
    AnswerIsFirst(s.table, s.cursor);
    PendingIsRight(s.table, s.cursor);
    PendingIsRight(s.table, mark);
    assert multiset(p) == multiset(out) + multiset(p[|out|..]);
    if r.cursor > mark {
      assert multiset(Pending(s.table, mark))[r] == multiset(p)[r];
      assert r !in out;
    }
  }

  // A loss is never made good, and an event adds one exactly when it can be seen to.
  lemma StepLoses(s: State, e: Event, start: int)
    requires start <= s.cursor
    ensures start <= Step(s, e).cursor
    ensures forall r :: Lost(Step(s, e), start, r) >= Lost(s, start, r)
    ensures LosesNothing(s, e, start) <==> forall r :: Lost(Step(s, e), start, r) == Lost(s, start, r)
  {
    hide Lost, Pending, Answer, Watermark;
    match e
    case Append(row) =>
      forall r
        ensures Lost(Step(s, e), start, r)
             == Lost(s, start, r) + if r == row && !LosesNothing(s, e, start) then 1 else 0
      {
        AppendLoses(s, start, row, r);
      }
      assert LosesNothing(s, e, start) || Lost(Step(s, e), start, row) != Lost(s, start, row);
    case Poll =>
      AnswerIsFirst(s.table, s.cursor);
      PollLosesExactly(s.table, s.cursor);
      forall r
        ensures Lost(Step(s, e), start, r) >= Lost(s, start, r)
      {
        PollLoses(s, start, r);
        PollNeverFinds(s, r);
      }
      PollLosesNone(s, start);
  }

  lemma PollLosesNone(s: State, start: int)
    ensures NothingLost(s.table, s.cursor) <==> forall r :: Lost(Step(s, Poll), start, r) == Lost(s, start, r)
  {
    hide Lost, Pending, Answer, Watermark, NothingLost;
    var out := Answer(s.table, s.cursor);
    var p, later := Pending(s.table, s.cursor), Pending(s.table, Watermark(out, s.cursor));
    NothingLostMeans(s.table, s.cursor);
    forall r
      ensures Lost(Step(s, Poll), start, r) == Lost(s, start, r) <==>
              (multiset(out) + multiset(later))[r] == multiset(p)[r]
    {
      PollLoses(s, start, r);
    }
    if forall r :: Lost(Step(s, Poll), start, r) == Lost(s, start, r) {
      forall r
        ensures (multiset(out) + multiset(later))[r] == multiset(p)[r]
      {
        assert Lost(Step(s, Poll), start, r) == Lost(s, start, r);
      }
      assert multiset(out) + multiset(later) == multiset(p);
    }
  }

  ghost predicate NeverLoses(s: State, events: seq<Event>) {
    forall k | 0 <= k < |events| :: LosesNothing(Run(s, events[..k]), events[k], s.cursor)
  }

  /** Main result: on any table, however appends and polls interleave, every row is delivered or still pending
    * at the end if and only if no row came with a cursor between the starting one and the watermark, and no
    * poll's limit fell between rows with the same cursor.
    */
  lemma RunLosesExactly(s: State, events: seq<Event>)
    requires s.delivered == []
    ensures AllAccounted(Run(s, events), s.cursor) <==> NeverLoses(s, events)
  {
    LostSoFar(s, events);
    LostMeans(Run(s, events), s.cursor);
  }

  lemma {:induction false} LostSoFar(s: State, events: seq<Event>)
    requires s.delivered == []
    ensures s.cursor <= Run(s, events).cursor
    ensures forall r :: Lost(Run(s, events), s.cursor, r) >= 0
    ensures NeverLoses(s, events) <==> forall r :: Lost(Run(s, events), s.cursor, r) == 0
    decreases |events|
  {
    hide Lost, LosesNothing, Step;
    if events == [] {
      NothingLostYet(s);
    } else {
      var n := |events| - 1;
      var t := Run(s, events[..n]);
      LostSoFar(s, events[..n]);
      StepLoses(t, events[n], s.cursor);
      assert forall k | 0 <= k < n :: events[..n][..k] == events[..k] && events[..n][k] == events[k];
      assert NeverLoses(s, events) <==> NeverLoses(s, events[..n]) && LosesNothing(t, events[n], s.cursor);
      if forall r :: Lost(Run(s, events), s.cursor, r) == 0 {
        forall r
          ensures Lost(t, s.cursor, r) == 0 && Lost(Run(s, events), s.cursor, r) == Lost(t, s.cursor, r)
        {
          assert Lost(Run(s, events), s.cursor, r) == 0;
        }
      }
    }
  }

  lemma NothingLostYet(s: State)
    requires s.delivered == []
    ensures forall r :: Lost(s, s.cursor, r) == 0
  {
    hide Pending;
  }

  function Polls(k: nat): seq<Event> {
    seq(k, i => Poll)
  }

  lemma RunNoneOrOneMore(s: State, k: nat)
    ensures Run(s, Polls(k)) == if k == 0 then s else Step(Run(s, Polls(k - 1)), Poll)
  {
    if k > 0 {
      assert Polls(k)[..k - 1] == Polls(k - 1);
    }
  }

  lemma PollOnce(s: State, p: seq<Row>, n: nat, m: nat)
    requires Increasing(s.table) && n <= m <= |p| && Above(s.table, s.cursor) == p[n..] && m - n == Min(LIMIT, |p| - n)
    ensures var t := Step(s, Poll);
            t.table == s.table && t.delivered == s.delivered + p[n..m] && Above(t.table, t.cursor) == p[m..]
    ensures p[..m] == p[..n] + p[n..m]
  {
    hide Answer, Above, Increasing;
    PollTakesFirst(s.table, s.cursor, p[n..], Answer(s.table, s.cursor));
    assert p[n..][..m - n] == p[n..m] && p[n..][m - n..] == p[m..];
  }

  /** Each poll takes the next thousand: n pending rows are gone after ceil(n / 1000) polls and not sooner. */
  lemma {:induction false} DrainsInThousands(s: State, k: nat)
    requires Increasing(s.table)
    ensures var p := Above(s.table, s.cursor);
            var t := Run(s, Polls(k));
            var n := Min(k * LIMIT, |p|);
            t.table == s.table && t.delivered == s.delivered + p[..n] && Above(t.table, t.cursor) == p[n..]
  {
    hide Answer, Above, Increasing, Run, Step;
    var p := Above(s.table, s.cursor);
    RunNoneOrOneMore(s, k);
    if k > 0 {
      DrainsInThousands(s, k - 1);
      var n, m := Min((k - 1) * LIMIT, |p|), Min(k * LIMIT, |p|);
      PollOnce(Run(s, Polls(k - 1)), p, n, m);
    }
  }
}
