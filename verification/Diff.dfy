/** Two result sets compared row by row: an outer join on the dimension values, with numbers equal
  * within a tolerance.
  */
module Diff {
  import opened Basics

  // A cell is nothing, a number with the text it is spelled as, or text that is not a number.
  datatype Cell = Null | Num(value: real, spelled: string) | Label(text: string)

  datatype Tolerance = Tolerance(absolute: real, relative: real)

  datatype Table = Table(cols: seq<string>, rows: seq<seq<Cell>>)

  datatype Status = Same | Moved | OnlyThen | OnlyNow

  datatype Side = Neither | Then | Now

  datatype CellDiff = CellDiff(column: string, was: Cell, now: Cell, delta: Option<real>, moved: bool, absent: Side)

  datatype RowDiff = RowDiff(key: seq<Cell>, status: Status, cells: seq<CellDiff>)

  // ---------------------------------------------------------------- cells

  function TextOf(c: Cell): string {
    match c
    case Null => "\0null"
    case Num(_, spelled) => spelled
    case Label(text) => text
  }

  // What the relative tolerance allows between two numbers.
  function Allowed(tol: Tolerance, x: real, y: real): real {
    tol.relative * Max(Abs(x), Abs(y))
  }

  function Bound(tol: Tolerance, x: real, y: real): real {
    Max(tol.absolute, Allowed(tol, x, y))
  }

  // Two numbers within the looser of the two tolerances.
  predicate NumbersAgree(tol: Tolerance, x: real, y: real) {
    Abs(y - x) <= tol.absolute || Abs(y - x) <= Allowed(tol, x, y)
  }

  predicate Agree(tol: Tolerance, a: Cell, b: Cell) {
    if a.Num? && b.Num? then NumbersAgree(tol, a.value, b.value) else TextOf(a) == TextOf(b)
  }

  function Delta(a: Cell, b: Cell): Option<real> {
    if a.Num? && b.Num? then Some(b.value - a.value) else None
  }

  // ---------------------------------------------------------------- keys and columns

  function RowKey(row: seq<Cell>, keys: nat): string {
    if keys == 0 || row == [] then ""
    else if keys == 1 || |row| == 1 then TextOf(row[0])
    else TextOf(row[0]) + "\U{1f}" + RowKey(row[1..], keys - 1)
  }

  function RowKeys(rows: seq<seq<Cell>>, keys: nat): seq<string> {
    seq(|rows|, i requires 0 <= i < |rows| => RowKey(rows[i], keys))
  }

  // The position of a column, the last one when a name is repeated, or -1.
  function ColumnAt(cols: seq<string>, col: string): (i: int)
    ensures -1 <= i < |cols|
    ensures i >= 0 ==> cols[i] == col
    ensures i == -1 <==> col !in cols
    ensures forall k | i < k < |cols| :: cols[k] != col
  {
    if cols == [] then -1
    else if cols[|cols| - 1] == col then |cols| - 1
    else ColumnAt(cols[..|cols| - 1], col)
  }

  function CellAt(row: seq<Cell>, cols: seq<string>, col: string): Cell {
    var i := ColumnAt(cols, col);
    if 0 <= i < |row| then row[i] else Null
  }

  // Appends the names that are not there yet.
  function AddNew(names: seq<string>, more: seq<string>): (r: seq<string>)
    ensures forall c :: c in r <==> c in names || c in more
    decreases |more|
  {
    if more == [] then names
    else AddNew(if more[0] in names then names else names + [more[0]], more[1..])
  }

  function MetricColumns(keys: nat, thenCols: seq<string>, nowCols: seq<string>): (r: seq<string>)
    ensures forall c :: c in r <==> c in thenCols[Min(keys, |thenCols|)..] || c in nowCols[Min(keys, |nowCols|)..]
  {
    AddNew(AddNew([], thenCols[Min(keys, |thenCols|)..]), nowCols[Min(keys, |nowCols|)..])
  }

  // ---------------------------------------------------------------- which row goes with which

  // The positions of a key, in order.
  function Positions(ks: seq<string>, k: string): (r: seq<nat>)
    ensures forall p | p in r :: p < |ks| && ks[p] == k
    ensures |r| <= |ks|
  {
    if ks == [] then []
    else Positions(ks[..|ks| - 1], k) + if ks[|ks| - 1] == k then [|ks| - 1] else []
  }

  // How many earlier rows have the same key.
  function Rank(ks: seq<string>, i: nat): nat
    requires i < |ks|
  {
    |Positions(ks[..i], ks[i])|
  }

  // The now-row matched with the i-th then-row, or -1: the one whose key occurs there equally late.
  function Partner(tk: seq<string>, nk: seq<string>, i: nat): (j: int)
    requires i < |tk|
    ensures j >= 0 ==> j < |nk| && nk[j] == tk[i]
  {
    var p, r := Positions(nk, tk[i]), Rank(tk, i);
    if r < |p| then assert p[r] in p; p[r] else -1
  }

  // The now-rows with this key beyond the number of then-rows with it.
  function LeftoversOf(tk: seq<string>, nk: seq<string>, k: string): seq<nat> {
    var p := Positions(nk, k);
    p[Min(|Positions(tk, k)|, |p|)..]
  }

  // The now-rows left over, by first appearance of their key.
  function Leftovers(tk: seq<string>, nk: seq<string>, order: seq<string>): seq<nat> {
    if order == [] then []
    else
      LeftoversOf(tk, nk, order[0]) + Leftovers(tk, nk, order[1..])
  }

  function NowOnly(tk: seq<string>, nk: seq<string>): seq<nat> {
    Leftovers(tk, nk, AddNew([], nk))
  }

  lemma {:induction false} PositionsOf(ks: seq<string>, k: string, i: nat)
    requires i <= |ks|
    ensures Positions(ks[..i], k) <= Positions(ks, k)
    ensures i < |ks| && ks[i] == k ==>
              Rank(ks, i) < |Positions(ks, k)| && Positions(ks, k)[Rank(ks, i)] == i
  {
    if i < |ks| {
      var n := |ks| - 1;
      if i < n {
        PositionsOf(ks[..n], k, i);
        assert ks[..n][..i] == ks[..i];
      } else {
        assert ks[..n] == ks[..i];
      }
    } else {
      assert ks[..i] == ks;
    }
  }

  lemma {:induction false} RankOfPosition(ks: seq<string>, k: string, r: nat)
    requires r < |Positions(ks, k)|
    ensures Positions(ks, k)[r] < |ks| && ks[Positions(ks, k)[r]] == k
    ensures Rank(ks, Positions(ks, k)[r]) == r
  {
    var n := |ks| - 1;
    var p := Positions(ks, k);
    assert p[r] in p;
    if r < |Positions(ks[..n], k)| {
      RankOfPosition(ks[..n], k, r);
      assert ks[..n][..p[r]] == ks[..p[r]];
    }
  }

  /** Matching is by key and by order of appearance under that key. */
  lemma PartnerExactly(tk: seq<string>, nk: seq<string>, i: nat, j: nat)
    requires i < |tk| && j < |nk|
    ensures Partner(tk, nk, i) == j <==> tk[i] == nk[j] && Rank(tk, i) == Rank(nk, j)
  {
    var p := Positions(nk, tk[i]);
    if Partner(tk, nk, i) == j {
      RankOfPosition(nk, tk[i], Rank(tk, i));
    }
    if tk[i] == nk[j] && Rank(tk, i) == Rank(nk, j) {
      PositionsOf(nk, tk[i], j);
    }
  }

  predicate Unmatched(tk: seq<string>, nk: seq<string>, j: nat)
    requires j < |nk|
  {
    Rank(nk, j) >= |Positions(tk, nk[j])|
  }

  lemma UnmatchedExactly(tk: seq<string>, nk: seq<string>, j: nat)
    requires j < |nk|
    ensures Unmatched(tk, nk, j) <==> forall i: nat | i < |tk| :: Partner(tk, nk, i) != j
  {
    if Unmatched(tk, nk, j) {
      forall i: nat | i < |tk|
        ensures Partner(tk, nk, i) != j
      {
        PartnerExactly(tk, nk, i, j);
        PositionsOf(tk, tk[i], i);
      }
    } else {
      var i := Positions(tk, nk[j])[Rank(nk, j)];
      RankOfPosition(tk, nk[j], Rank(nk, j));
      PartnerExactly(tk, nk, i, j);
    }
  }

  ghost predicate Distinct<T>(s: seq<T>) {
    forall i, j | 0 <= i < j < |s| :: s[i] != s[j]
  }

  lemma {:induction false} AddNewDistinct(names: seq<string>, more: seq<string>)
    requires Distinct(names)
    ensures Distinct(AddNew(names, more))
    decreases |more|
  {
    if more != [] {
      AddNewDistinct(if more[0] in names then names else names + [more[0]], more[1..]);
    }
  }

  lemma PositionsDistinct(ks: seq<string>, k: string)
    ensures Distinct(Positions(ks, k))
  {
    var p := Positions(ks, k);
    forall i, j | 0 <= i < j < |p|
      ensures p[i] != p[j]
    {
      RankOfPosition(ks, k, i);
      RankOfPosition(ks, k, j);
    }
  }

  lemma LeftoversOfExactly(tk: seq<string>, nk: seq<string>, k: string)
    ensures Distinct(LeftoversOf(tk, nk, k))
    ensures forall j: nat :: j in LeftoversOf(tk, nk, k) <==> j < |nk| && nk[j] == k && Unmatched(tk, nk, j)
  {
    var p, r := Positions(nk, k), LeftoversOf(tk, nk, k);
    var c := |p| - |r|;
    PositionsDistinct(nk, k);
    forall j: nat
      ensures j in r <==> j < |nk| && nk[j] == k && Unmatched(tk, nk, j)
    {
      if j in r {
        var x :| 0 <= x < |r| && r[x] == j;
        RankOfPosition(nk, k, c + x);
      }
      if j < |nk| && nk[j] == k && Unmatched(tk, nk, j) {
        PositionsOf(nk, k, j);
        assert r[Rank(nk, j) - c] == j;
      }
    }
  }

  lemma DistinctConcat<T>(a: seq<T>, b: seq<T>)
    requires Distinct(a) && Distinct(b) && forall x | x in a :: x !in b
    ensures Distinct(a + b)
  {
    var s := a + b;
    forall i, j | 0 <= i < j < |s|
      ensures s[i] != s[j]
    {
      assert i < |a| ==> a[i] in a;
      assert j >= |a| ==> b[j - |a|] in b;
    }
  }

  lemma {:induction false} LeftoversExactly(tk: seq<string>, nk: seq<string>, order: seq<string>)
    requires Distinct(order)
    ensures Distinct(Leftovers(tk, nk, order))
    ensures forall j: nat :: j in Leftovers(tk, nk, order) <==> j < |nk| && nk[j] in order && Unmatched(tk, nk, j)
    decreases |order|
  {
    hide Unmatched, LeftoversOf;
    if order != [] {
      var k, rest := order[0], Leftovers(tk, nk, order[1..]);
      assert forall z | 0 <= z < |order[1..]| :: order[1..][z] == order[z + 1];
      LeftoversExactly(tk, nk, order[1..]);
      LeftoversOfExactly(tk, nk, k);
      assert forall x :: x in order <==> x == k || x in order[1..];
      assert k !in order[1..];
      DistinctConcat(LeftoversOf(tk, nk, k), rest);
    }
  }

  /** Nothing is dropped and nothing doubled: the leftover rows are exactly the now-rows no then-row is
    * matched with, each once, and no now-row is matched twice.
    */
  lemma JoinIsLossless(tk: seq<string>, nk: seq<string>)
    ensures Distinct(NowOnly(tk, nk))
    ensures forall j: nat :: j in NowOnly(tk, nk) <==>
              j < |nk| && forall i: nat | i < |tk| :: Partner(tk, nk, i) != j
    ensures forall i: nat, j: nat | i < j < |tk| && Partner(tk, nk, i) >= 0 :: Partner(tk, nk, i) != Partner(tk, nk, j)
  {
    AddNewDistinct([], nk);
    LeftoversExactly(tk, nk, AddNew([], nk));
    forall j: nat
      ensures j in NowOnly(tk, nk) <==> j < |nk| && forall i: nat | i < |tk| :: Partner(tk, nk, i) != j
    {
      if j < |nk| {
        UnmatchedExactly(tk, nk, j);
      }
    }
    forall i: nat, j: nat | i < j < |tk| && Partner(tk, nk, i) >= 0
      ensures Partner(tk, nk, i) != Partner(tk, nk, j)
    {
      var m := Partner(tk, nk, i);
      PartnerExactly(tk, nk, i, m);
      PartnerExactly(tk, nk, j, m);
      PositionsOf(tk, tk[i], i);
      PositionsOf(tk, tk[j], j);
    }
  }

  // ---------------------------------------------------------------- rows

  function MatchedCell(col: string, row: seq<Cell>, other: seq<Cell>, thenCols: seq<string>, nowCols: seq<string>,
                       tol: Tolerance): CellDiff {
    var a, b := CellAt(row, thenCols, col), CellAt(other, nowCols, col);
    if col !in thenCols then CellDiff(col, a, b, None, true, Then)
    else if col !in nowCols then CellDiff(col, a, b, None, true, Now)
    else CellDiff(col, a, b, Delta(a, b), !Agree(tol, a, b), Neither)
  }

  function MatchedCells(metrics: seq<string>, row: seq<Cell>, other: seq<Cell>, thenCols: seq<string>,
                        nowCols: seq<string>, tol: Tolerance): seq<CellDiff> {
    seq(|metrics|, i requires 0 <= i < |metrics| => MatchedCell(metrics[i], row, other, thenCols, nowCols, tol))
  }

  function KeyCells(row: seq<Cell>, keys: nat): seq<Cell> {
    row[..Min(keys, |row|)]
  }

  predicate AnyMoved(cells: seq<CellDiff>) {
    exists i :: 0 <= i < |cells| && cells[i].moved
  }

  function MatchedRow(metrics: seq<string>, keys: nat, row: seq<Cell>, other: seq<Cell>, thenCols: seq<string>,
                      nowCols: seq<string>, tol: Tolerance): RowDiff {
    var cells := MatchedCells(metrics, row, other, thenCols, nowCols, tol);
    RowDiff(KeyCells(row, keys), if AnyMoved(cells) then Moved else Same, cells)
  }

  function ThenOnlyRow(metrics: seq<string>, keys: nat, row: seq<Cell>, thenCols: seq<string>): RowDiff {
    RowDiff(KeyCells(row, keys), OnlyThen,
            seq(|metrics|, i requires 0 <= i < |metrics| =>
              CellDiff(metrics[i], CellAt(row, thenCols, metrics[i]), Null, None, false, Now)))
  }

  function NowOnlyRow(metrics: seq<string>, keys: nat, row: seq<Cell>, nowCols: seq<string>): RowDiff {
    RowDiff(KeyCells(row, keys), OnlyNow,
            seq(|metrics|, i requires 0 <= i < |metrics| =>
              CellDiff(metrics[i], Null, CellAt(row, nowCols, metrics[i]), None, false, Then)))
  }

  // How many leading columns are dimensions, on either side.
  function ThenKeys(keys: nat, was: Table): nat {
    Min(keys, |was.cols|)
  }

  function NowKeys(keys: nat, was: Table, now: Table): nat {
    Min(ThenKeys(keys, was), |now.cols|)
  }

  function WasKeyTexts(keys: nat, was: Table): seq<string> {
    RowKeys(was.rows, ThenKeys(keys, was))
  }

  function NowKeyTexts(keys: nat, was: Table, now: Table): seq<string> {
    RowKeys(now.rows, NowKeys(keys, was, now))
  }

  function Metrics(keys: nat, was: Table, now: Table): seq<string> {
    MetricColumns(ThenKeys(keys, was), was.cols, now.cols)
  }

  // The now-row matched with then-row i, or -1.
  function MatchOf(keys: nat, was: Table, now: Table, i: nat): (j: int)
    requires i < |was.rows|
    ensures j < |now.rows|
  {
    Partner(WasKeyTexts(keys, was), NowKeyTexts(keys, was, now), i)
  }

  function RowOf(keys: nat, was: Table, now: Table, tol: Tolerance, i: nat): RowDiff
    requires i < |was.rows|
  {
    var j, metrics, k := MatchOf(keys, was, now, i), Metrics(keys, was, now), ThenKeys(keys, was);
    if j < 0 then ThenOnlyRow(metrics, k, was.rows[i], was.cols)
    else MatchedRow(metrics, k, was.rows[i], now.rows[j], was.cols, now.cols, tol)
  }

  function NewRows(keys: nat, was: Table, now: Table): (r: seq<nat>)
    ensures forall j | j in r :: j < |now.rows|
  {
    JoinIsLossless(WasKeyTexts(keys, was), NowKeyTexts(keys, was, now));
    NowOnly(WasKeyTexts(keys, was), NowKeyTexts(keys, was, now))
  }

  /** The comparison: a line per then-row in order, then a line per now-row nothing was matched with. */
  function DiffOf(keys: nat, was: Table, now: Table, tol: Tolerance): seq<RowDiff> {
    var added := NewRows(keys, was, now);
    seq(|was.rows|, i requires 0 <= i < |was.rows| => RowOf(keys, was, now, tol, i))
    + seq(|added|, x requires 0 <= x < |added| =>
        assert added[x] in added;
        NowOnlyRow(Metrics(keys, was, now), NowKeys(keys, was, now), now.rows[added[x]], now.cols))
  }

  // ---------------------------------------------------------------- the loop that computes it

  lemma AddNewAt(names: seq<string>, more: seq<string>, i: nat)
    requires i <= |more|
    ensures AddNew(names, more[i..]) ==
            if i == |more| then names
            else AddNew(if more[i] in names then names else names + [more[i]], more[i + 1..])
  {
    if i < |more| {
      assert more[i..][1..] == more[i + 1..];
    }
  }

  lemma PositionsAt(ks: seq<string>, i: nat)
    requires i < |ks|
    ensures forall k :: Positions(ks[..i + 1], k) == Positions(ks[..i], k) + if ks[i] == k then [i] else []
  {
    assert ks[..i + 1][..i] == ks[..i];
  }

  lemma NoPositions(ks: seq<string>)
    requires ks == []
    ensures forall k :: Positions(ks, k) == []
  {
  }

  method GroupRows(nk: seq<string>) returns (slots: map<string, seq<nat>>, order: seq<string>)
    ensures order == AddNew([], nk)
    ensures forall k :: k in slots <==> k in order
    ensures forall k :: Positions(nk, k) == if k in slots then slots[k] else []
  {
    hide AddNew, Positions;
    slots, order := map[], [];
    assert nk[0..] == nk;
    assert forall k :: Positions(nk[..0], k) == [] by {
      NoPositions(nk[..0]);
    }
    for i := 0 to |nk|
      invariant AddNew(order, nk[i..]) == AddNew([], nk)
      invariant forall k :: k in slots <==> k in order
      invariant forall k :: Positions(nk[..i], k) == if k in slots then slots[k] else []
    {
      var k := nk[i];
      AddNewAt(order, nk, i);
      PositionsAt(nk, i);
      if k !in slots {
        order := order + [k];
      }
      ghost var was := slots;
      slots := slots[k := (if k in slots then slots[k] else []) + [i]];
      forall x
        ensures Positions(nk[..i + 1], x) == if x in slots then slots[x] else []
      {
        if x != k {
          assert Positions(nk[..i], x) == if x in was then was[x] else [];
        }
      }
    }
    AddNewAt(order, nk, |nk|);
    assert nk[..|nk|] == nk;
  }

  // used marks the rows matched with the first i then-rows.
  ghost predicate UsedBy(used: seq<bool>, tk: seq<string>, nk: seq<string>, i: nat)
    requires i <= |tk|
  {
    |used| == |nk| && forall j | 0 <= j < |nk| :: used[j] <==> Rank(nk, j) < |Positions(tk[..i], nk[j])|
  }

  // Takes the first unused slot of a key.
  method TakeSlot(slots: seq<nat>, used: array<bool>, ghost tk: seq<string>, ghost nk: seq<string>, ghost i: nat)
    returns (j: int)
    requires i < |tk| && slots == Positions(nk, tk[i]) && UsedBy(used[..], tk, nk, i)
    modifies used
    ensures j == Partner(tk, nk, i) && UsedBy(used[..], tk, nk, i + 1)
  {
    ghost var before := used[..];
    ghost var r := Rank(tk, i);
    for x := 0 to |slots|
      invariant used[..] == before
      invariant x <= r
    {
      var s := slots[x];
      RankOfPosition(nk, tk[i], x);
      assert before[s] == used[s];
      if !used[s] {
        used[s] := true;
        OneMoreUsed(before, used[..], tk, nk, i);
        return s;
      }
    }
    OneMoreUsed(before, before, tk, nk, i);
    return -1;
  }

  lemma OneMoreUsed(before: seq<bool>, after: seq<bool>, tk: seq<string>, nk: seq<string>, i: nat)
    requires i < |tk| && UsedBy(before, tk, nk, i) && |after| == |nk|
    requires var j := Partner(tk, nk, i);
             if j < 0 then after == before else after == before[j := true]
    ensures UsedBy(after, tk, nk, i + 1)
  {
    assert tk[..i + 1][..i] == tk[..i];
    forall j | 0 <= j < |nk|
      ensures after[j] <==> Rank(nk, j) < |Positions(tk[..i + 1], nk[j])|
    {
      UsedAt(before, tk, nk, i, j);
    }
  }

  lemma UsedAt(used: seq<bool>, tk: seq<string>, nk: seq<string>, i: nat, j: nat)
    requires i < |tk| && j < |nk| && UsedBy(used, tk, nk, i)
    ensures (used[j] || Partner(tk, nk, i) == j) <==> Rank(nk, j) < |Positions(tk[..i + 1], nk[j])|
  {
    hide Partner, Positions;
    PartnerExactly(tk, nk, i, j);
    PositionsAt(tk, i);
  }

  method MatchRows(keys: nat, was: Table, now: Table, tol: Tolerance, slots: map<string, seq<nat>>, used: array<bool>)
    returns (out: seq<RowDiff>)
    requires forall k :: Positions(NowKeyTexts(keys, was, now), k) == if k in slots then slots[k] else []
    requires UsedBy(used[..], WasKeyTexts(keys, was), NowKeyTexts(keys, was, now), 0)
    modifies used
    ensures UsedBy(used[..], WasKeyTexts(keys, was), NowKeyTexts(keys, was, now), |was.rows|)
    ensures out == seq(|was.rows|, i requires 0 <= i < |was.rows| => RowOf(keys, was, now, tol, i))
  {
    hide UsedBy, Partner, Positions, MatchedRow, ThenOnlyRow, RowKey, AddNew, MetricColumns;
    var k, metrics := ThenKeys(keys, was), Metrics(keys, was, now);
    ghost var tk, nk := WasKeyTexts(keys, was), NowKeyTexts(keys, was, now);
    out := [];
    for i := 0 to |was.rows|
      invariant UsedBy(used[..], tk, nk, i)
      invariant |out| == i && forall j | 0 <= j < i :: out[j] == RowOf(keys, was, now, tol, j)
    {
      var row := was.rows[i];
      var key := RowKey(row, k);
      assert tk[i] == key;
      var j := TakeSlot(if key in slots then slots[key] else [], used, tk, nk, i);
      if j < 0 {
        out := out + [ThenOnlyRow(metrics, k, row, was.cols)];
      } else {
        out := out + [MatchedRow(metrics, k, row, now.rows[j], was.cols, now.cols, tol)];
      }
    }
  }

  lemma UsedBelow(used: seq<bool>, tk: seq<string>, nk: seq<string>, k: string, x: nat)
    requires UsedBy(used, tk, nk, |tk|) && x < |Positions(nk, k)|
    ensures Positions(nk, k)[x] < |used|
    ensures used[Positions(nk, k)[x]] <==> x < |Positions(tk, k)|
  {
    RankOfPosition(nk, k, x);
    assert tk[..|tk|] == tk;
  }

  // The slots of one key that no then-row took.
  method Unused(here: seq<nat>, used: array<bool>, ghost tk: seq<string>, ghost nk: seq<string>, ghost k: string)
    returns (r: seq<nat>)
    requires here == Positions(nk, k) && UsedBy(used[..], tk, nk, |tk|)
    ensures r == LeftoversOf(tk, nk, k)
  {
    hide Positions, UsedBy, Rank;
    ghost var c := Min(|Positions(tk, k)|, |here|);
    r := [];
    for x := 0 to |here|
      invariant r == if x <= c then [] else here[c..x]
    {
      UsedBelow(used[..], tk, nk, k, x);
      if used[here[x]] {
        continue;
      }
      assert here[c..x + 1] == here[c..x] + [here[x]];
      r := r + [here[x]];
    }
    assert here[c..|here|] == here[c..];
  }

  lemma LeftoversAt(tk: seq<string>, nk: seq<string>, order: seq<string>, g: nat)
    requires g <= |order|
    ensures Leftovers(tk, nk, order[g..]) ==
            if g == |order| then [] else LeftoversOf(tk, nk, order[g]) + Leftovers(tk, nk, order[g + 1..])
  {
    if g < |order| {
      assert order[g..][1..] == order[g + 1..];
    }
  }

  method LeftoverRows(slots: map<string, seq<nat>>, order: seq<string>, used: array<bool>, ghost tk: seq<string>,
                      ghost nk: seq<string>)
    returns (r: seq<nat>)
    requires forall g | 0 <= g < |order| :: order[g] in slots && slots[order[g]] == Positions(nk, order[g])
    requires UsedBy(used[..], tk, nk, |tk|)
    ensures r == Leftovers(tk, nk, order)
  {
    hide UsedBy, Leftovers, LeftoversOf;
    r := [];
    assert order[0..] == order;
    for g := 0 to |order|
      invariant r + Leftovers(tk, nk, order[g..]) == Leftovers(tk, nk, order)
    {
      LeftoversAt(tk, nk, order, g);
      var more := Unused(slots[order[g]], used, tk, nk, order[g]);
      assert (r + more) + Leftovers(tk, nk, order[g + 1..]) == r + (more + Leftovers(tk, nk, order[g + 1..]));
      r := r + more;
    }
    LeftoversAt(tk, nk, order, |order|);
    assert r + [] == r;
  }

  method NewLines(left: seq<nat>, metrics: seq<string>, keys: nat, now: Table) returns (out: seq<RowDiff>)
    requires forall j | j in left :: j < |now.rows|
    ensures |out| == |left|
    ensures forall x | 0 <= x < |left| ::
              left[x] in left && out[x] == NowOnlyRow(metrics, keys, now.rows[left[x]], now.cols)
  {
    out := [];
    for x := 0 to |left|
      invariant |out| == x
      invariant forall y | 0 <= y < x ::
                  left[y] in left && out[y] == NowOnlyRow(metrics, keys, now.rows[left[y]], now.cols)
    {
      assert left[x] in left;
      out := out + [NowOnlyRow(metrics, keys, now.rows[left[x]], now.cols)];
    }
  }

  /** Matches the rows by marking slots as it goes. */
  method Diff(keys: nat, was: Table, now: Table, tol: Tolerance) returns (out: seq<RowDiff>)
    ensures out == DiffOf(keys, was, now, tol)
  {
    hide NowOnlyRow, RowOf, Positions, AddNew, Leftovers, Partner;
    ghost var tk, nk := WasKeyTexts(keys, was), NowKeyTexts(keys, was, now);
    var slots, order := GroupRows(NowKeyTexts(keys, was, now));
    var used := new bool[|now.rows|](_ => false);
    NothingUsed(used[..], tk, nk);
    var matched := MatchRows(keys, was, now, tol, slots, used);
    assert forall g | 0 <= g < |order| :: order[g] in order;
    var left := LeftoverRows(slots, order, used, tk, nk);
    assert left == NewRows(keys, was, now);
    var lines := NewLines(left, Metrics(keys, was, now), NowKeys(keys, was, now), now);
    out := matched + lines;
  }

  lemma NothingUsed(used: seq<bool>, tk: seq<string>, nk: seq<string>)
    requires |used| == |nk| && forall j | 0 <= j < |used| :: !used[j]
    ensures UsedBy(used, tk, nk, 0)
  {
  }
}
