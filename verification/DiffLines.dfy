/** What a comparison says, line by line and cell by cell, and in which order. */
module DiffLines {
  import opened Basics
  import opened Diff

  // ---------------------------------------------------------------- first appearances

  function FirstAt(s: seq<string>, x: string): (i: nat)
    requires x in s
    ensures i < |s| && s[i] == x && forall k | 0 <= k < i :: s[k] != x
  {
    if s[0] == x then 0 else 1 + FirstAt(s[1..], x)
  }

  // The names of r come in the order of their first appearances in s, each once.
  ghost predicate ByAppearance(r: seq<string>, s: seq<string>) {
    && (forall c :: c in r <==> c in s)
    && forall i, j | 0 <= i < j < |r| :: FirstAt(s, r[i]) < FirstAt(s, r[j])
  }

  lemma {:induction false} AddNewLast(names: seq<string>, more: seq<string>, x: string)
    ensures AddNew(names, more + [x]) ==
            var r := AddNew(names, more); if x in r then r else r + [x]
    decreases |more|
  {
    if more == [] {
      assert more + [x] == [x] && [x][1..] == [];
    } else {
      assert (more + [x])[1..] == more[1..] + [x] && (more + [x])[0] == more[0];
      AddNewLast(if more[0] in names then names else names + [more[0]], more[1..], x);
    }
  }

  lemma {:induction false} AddNewTwice(names: seq<string>, a: seq<string>, b: seq<string>)
    ensures AddNew(AddNew(names, a), b) == AddNew(names, a + b)
    decreases |a|
  {
    if a == [] {
      assert a + b == b;
    } else {
      assert (a + b)[1..] == a[1..] + b;
      AddNewTwice(if a[0] in names then names else names + [a[0]], a[1..], b);
    }
  }

  lemma FirstAtStays(s: seq<string>, x: string, c: string)
    requires c in s
    ensures FirstAt(s + [x], c) == FirstAt(s, c)
  {
    var i, j := FirstAt(s, c), FirstAt(s + [x], c);
    assert (s + [x])[i] == c;
    assert j < |s| ==> s[j] == c;
  }

  lemma {:induction false} AddedByAppearance(s: seq<string>)
    ensures ByAppearance(AddNew([], s), s)
    decreases |s|
  {
    if s != [] {
      var n := |s| - 1;
      assert s == s[..n] + [s[n]];
      AddedByAppearance(s[..n]);
      AddNewLast([], s[..n], s[n]);
      OneMoreAppears(AddNew([], s[..n]), s[..n], s[n]);
    }
  }

  lemma OneMoreAppears(r: seq<string>, s: seq<string>, x: string)
    requires ByAppearance(r, s)
    ensures ByAppearance(if x in r then r else r + [x], s + [x])
  {
    var t, all := if x in r then r else r + [x], s + [x];
    forall c | c in s
      ensures FirstAt(all, c) == FirstAt(s, c)
    {
      FirstAtStays(s, x, c);
    }
    assert x !in s ==> FirstAt(all, x) == |s| by {
      assert all[|s|] == x;
    }
    hide FirstAt;
    forall i, j | 0 <= i < j < |t|
      ensures FirstAt(all, t[i]) < FirstAt(all, t[j])
    {
      assert r[i] in s;
    }
  }

  /** The measures compared: every column behind the dimensions of either side, then's before now's, each once. */
  lemma MetricsByAppearance(keys: nat, was: Table, now: Table)
    ensures var k := Min(keys, |was.cols|);
            ByAppearance(Metrics(keys, was, now), was.cols[k..] + now.cols[Min(k, |now.cols|)..])
  {
    var k := Min(keys, |was.cols|);
    AddNewTwice([], was.cols[k..], now.cols[Min(k, |now.cols|)..]);
    AddedByAppearance(was.cols[k..] + now.cols[Min(k, |now.cols|)..]);
  }

  // ---------------------------------------------------------------- the order of the rows left over

  lemma {:induction false} PositionsIncrease(ks: seq<string>, k: string)
    ensures forall i, j | 0 <= i < j < |Positions(ks, k)| :: Positions(ks, k)[i] < Positions(ks, k)[j]
  {
    if ks != [] {
      var front := Positions(ks[..|ks| - 1], k);
      PositionsIncrease(ks[..|ks| - 1], k);
      assert forall i | 0 <= i < |front| :: front[i] in front;
    }
  }

  // Earlier by the first appearance of its key, or by its place under one key.
  ghost predicate Earlier(nk: seq<string>, i: nat, j: nat) {
    && i < |nk| && j < |nk|
    && if nk[i] == nk[j] then i < j else FirstAt(nk, nk[i]) < FirstAt(nk, nk[j])
  }

  ghost predicate InKeyOrder(nk: seq<string>, r: seq<nat>) {
    forall x, y | 0 <= x < y < |r| :: Earlier(nk, r[x], r[y])
  }

  lemma {:induction false} LeftoversInOrder(tk: seq<string>, nk: seq<string>, order: seq<string>)
    requires forall k | k in order :: k in nk
    requires forall i, j | 0 <= i < j < |order| :: FirstAt(nk, order[i]) < FirstAt(nk, order[j])
    ensures forall j | j in Leftovers(tk, nk, order) :: j < |nk| && nk[j] in order
    ensures InKeyOrder(nk, Leftovers(tk, nk, order))
    decreases |order|
  {
    if order != [] {
      var k, rest := order[0], order[1..];
      assert order == [k] + rest;
      LeftoversInOrder(tk, nk, rest);
      LeftoversOfInOrder(tk, nk, k);
      forall c | c in rest
        ensures c in nk && FirstAt(nk, k) < FirstAt(nk, c)
      {
        var i :| 0 <= i < |rest| && rest[i] == c;
        assert order[i + 1] == c;
      }
      OneKeyFirst(nk, k, LeftoversOf(tk, nk, k), Leftovers(tk, nk, rest), rest);
    }
  }

  lemma OneKeyFirst(nk: seq<string>, k: string, here: seq<nat>, r: seq<nat>, rest: seq<string>)
    requires forall j | j in here :: j < |nk| && nk[j] == k
    requires forall j | j in r :: j < |nk| && nk[j] in rest
    requires k in nk && forall c | c in rest :: c in nk && FirstAt(nk, k) < FirstAt(nk, c)
    requires forall x, y | 0 <= x < y < |here| :: here[x] < here[y]
    requires InKeyOrder(nk, r)
    ensures InKeyOrder(nk, here + r)
  {
    hide FirstAt;
    var all := here + r;
    forall x, y | 0 <= x < y < |all|
      ensures Earlier(nk, all[x], all[y])
    {
      assert x < |here| ==> here[x] in here;
      assert y < |here| ==> here[y] in here;
      assert y >= |here| ==> r[y - |here|] in r;
    }
  }

  lemma LeftoversOfInOrder(tk: seq<string>, nk: seq<string>, k: string)
    ensures var r := LeftoversOf(tk, nk, k);
            && (forall j | j in r :: j < |nk| && nk[j] == k)
            && forall x, y | 0 <= x < y < |r| :: r[x] < r[y]
  {
    var p, r := Positions(nk, k), LeftoversOf(tk, nk, k);
    PositionsIncrease(nk, k);
    hide Positions;
    var c := |p| - |r|;
    assert r == p[c..];
    forall j | j in r
      ensures j < |nk| && nk[j] == k
    {
      assert j in p;
    }
  }

  /** The rows only there now come by the first appearance of their key, those of one key in their order. */
  lemma NowOnlyInOrder(tk: seq<string>, nk: seq<string>)
    ensures InKeyOrder(nk, NowOnly(tk, nk))
  {
    var order := AddNew([], nk);
    AddedByAppearance(nk);
    LeftoversInOrder(tk, nk, order);
    assert NowOnly(tk, nk) == Leftovers(tk, nk, order);
  }

  // ---------------------------------------------------------------- lines

  // The cell of a row in the last column of this name, nothing where there is none.
  ghost predicate IsCell(row: seq<Cell>, cols: seq<string>, name: string, c: Cell) {
    || (exists p :: 0 <= p < |cols| && cols[p] == name && (forall q | p < q < |cols| :: cols[q] != name)
                    && c == if p < |row| then row[p] else Null)
    || (name !in cols && c == Null)
  }

  lemma CellAtIsCell(row: seq<Cell>, cols: seq<string>, name: string)
    ensures IsCell(row, cols, name, CellAt(row, cols, name))
  {
    var p := ColumnAt(cols, name);
    assert p >= 0 ==> cols[p] == name;
  }

  /** What is said of one measure of two matched rows: the cell of each side, the later less the earlier number,
    * and whether it moved, which it also did when a side lacks the column.
    */
  ghost predicate SaysOfPair(d: CellDiff, name: string, was: seq<Cell>, wasCols: seq<string>, now: seq<Cell>,
                             nowCols: seq<string>, tol: Tolerance) {
    && d.column == name && IsCell(was, wasCols, name, d.was) && IsCell(now, nowCols, name, d.now)
    && (d.absent == Then <==> name !in wasCols)
    && (d.absent == Now <==> name in wasCols && name !in nowCols)
    && (d.delta.Some? <==> d.absent == Neither && d.was.Num? && d.now.Num?)
    && (d.delta.Some? ==> d.was.value + d.delta.value == d.now.value)
    && (d.moved <==> d.absent != Neither || !Agree(tol, d.was, d.now))
  }

  // A row on one side only shows its own cells.
  ghost predicate SaysOfOne(d: CellDiff, name: string, row: seq<Cell>, cols: seq<string>, side: Side) {
    && d.column == name && d.absent == side && d.delta.None? && !d.moved
    && (side == Now ==> IsCell(row, cols, name, d.was) && d.now == Null)
    && (side == Then ==> IsCell(row, cols, name, d.now) && d.was == Null)
  }

  // The line of a then-row, by its partner.
  ghost predicate SaysOfRow(line: RowDiff, keys: nat, was: Table, now: Table, tol: Tolerance, i: nat)
    requires i < |was.rows|
  {
    var names, j := Metrics(keys, was, now), MatchOf(keys, was, now, i);
    && |line.cells| == |names|
    && line.key == was.rows[i][..Min(ThenKeys(keys, was), |was.rows[i]|)]
    && if j < 0 then
         && line.status == OnlyThen
         && forall k | 0 <= k < |names| :: SaysOfOne(line.cells[k], names[k], was.rows[i], was.cols, Now)
       else
         && (line.status == Moved || line.status == Same)
         && (line.status == Moved <==> exists k :: 0 <= k < |names| && line.cells[k].moved)
         && forall k | 0 <= k < |names| ::
              SaysOfPair(line.cells[k], names[k], was.rows[i], was.cols, now.rows[j], now.cols, tol)
  }

  // The line of a row that nothing was matched with.
  ghost predicate SaysOfNew(line: RowDiff, keys: nat, was: Table, now: Table, j: nat)
    requires j < |now.rows|
  {
    var names := Metrics(keys, was, now);
    && |line.cells| == |names| && line.status == OnlyNow
    && line.key == now.rows[j][..Min(NowKeys(keys, was, now), |now.rows[j]|)]
    && forall k | 0 <= k < |names| :: SaysOfOne(line.cells[k], names[k], now.rows[j], now.cols, Then)
  }

  lemma RowSays(keys: nat, was: Table, now: Table, tol: Tolerance, i: nat)
    requires i < |was.rows|
    ensures SaysOfRow(RowOf(keys, was, now, tol, i), keys, was, now, tol, i)
  {
    hide IsCell, Agree, MatchOf, CellAt, Metrics;
    var names, j := Metrics(keys, was, now), MatchOf(keys, was, now, i);
    forall k | 0 <= k < |names|
      ensures IsCell(was.rows[i], was.cols, names[k], CellAt(was.rows[i], was.cols, names[k]))
      ensures j >= 0 ==> IsCell(now.rows[j], now.cols, names[k], CellAt(now.rows[j], now.cols, names[k]))
    {
      CellAtIsCell(was.rows[i], was.cols, names[k]);
      if j >= 0 {
        CellAtIsCell(now.rows[j], now.cols, names[k]);
      }
    }
  }

  lemma NewSays(keys: nat, was: Table, now: Table, j: nat)
    requires j < |now.rows|
    ensures SaysOfNew(NowOnlyRow(Metrics(keys, was, now), NowKeys(keys, was, now), now.rows[j], now.cols), keys, was,
                      now, j)
  {
    hide IsCell, CellAt, Metrics;
    var names := Metrics(keys, was, now);
    forall k | 0 <= k < |names|
      ensures IsCell(now.rows[j], now.cols, names[k], CellAt(now.rows[j], now.cols, names[k]))
    {
      CellAtIsCell(now.rows[j], now.cols, names[k]);
    }
  }

  /** Main result: a line for every row of then in order, and one for every row of now that nothing was matched
    * with, each saying what the cells of the two results say.
    */
  lemma LinesSay(keys: nat, was: Table, now: Table, tol: Tolerance)
    ensures var lines, added := DiffOf(keys, was, now, tol), NewRows(keys, was, now);
            && |lines| == |was.rows| + |added|
            && (forall i: nat | i < |was.rows| :: SaysOfRow(lines[i], keys, was, now, tol, i))
            && (forall x | 0 <= x < |added| ::
                  added[x] in added && SaysOfNew(lines[|was.rows| + x], keys, was, now, added[x]))
  {
    hide SaysOfRow, SaysOfNew, RowOf, NowOnlyRow, Metrics, NewRows;
    var lines, added := DiffOf(keys, was, now, tol), NewRows(keys, was, now);
    forall i: nat | i < |was.rows|
      ensures SaysOfRow(lines[i], keys, was, now, tol, i)
    {
      RowSays(keys, was, now, tol, i);
    }
    forall x | 0 <= x < |added|
      ensures added[x] in added && SaysOfNew(lines[|was.rows| + x], keys, was, now, added[x])
    {
      assert added[x] in added;
      NewSays(keys, was, now, added[x]);
    }
  }
}
