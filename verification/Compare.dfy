/** A frozen report against today: whether it moved, and what moved it. */
module Compare {
  import opened Basics
  import opened Diff

  // ---------------------------------------------------------------- what a comparison says

  ghost predicate Unmoved(keys: nat, was: Table, now: Table, tol: Tolerance) {
    forall d | d in DiffOf(keys, was, now, tol) :: d.status == Same
  }

  ghost predicate RowUnmoved(keys: nat, was: Table, now: Table, tol: Tolerance, i: nat)
    requires i < |was.rows|
  {
    var j := MatchOf(keys, was, now, i);
    && j >= 0
    && forall m | m in Metrics(keys, was, now) ::
         !MatchedCell(m, was.rows[i], now.rows[j], was.cols, now.cols, tol).moved
  }

  lemma MatchedStatus(metrics: seq<string>, keys: nat, row: seq<Cell>, other: seq<Cell>, thenCols: seq<string>,
                      nowCols: seq<string>, tol: Tolerance)
    ensures MatchedRow(metrics, keys, row, other, thenCols, nowCols, tol).status == Same <==>
            forall m | m in metrics :: !MatchedCell(m, row, other, thenCols, nowCols, tol).moved
  {
    var cells := MatchedCells(metrics, row, other, thenCols, nowCols, tol);
    if AnyMoved(cells) {
      var i :| 0 <= i < |cells| && cells[i].moved;
      assert metrics[i] in metrics;
    } else {
      forall m | m in metrics
        ensures !MatchedCell(m, row, other, thenCols, nowCols, tol).moved
      {
        var i :| 0 <= i < |metrics| && metrics[i] == m;
        assert !cells[i].moved;
      }
    }
  }

  // Two results agree when every row has its partner, every cell agrees and nothing is left over.
  lemma UnmovedExactly(keys: nat, was: Table, now: Table, tol: Tolerance)
    ensures Unmoved(keys, was, now, tol) <==>
            && (forall i: nat | i < |was.rows| :: RowUnmoved(keys, was, now, tol, i))
            && NewRows(keys, was, now) == []
  {
    var out, n := DiffOf(keys, was, now, tol), |was.rows|;
    forall i: nat | i < n
      ensures out[i].status == Same <==> RowUnmoved(keys, was, now, tol, i)
    {
      var j := MatchOf(keys, was, now, i);
      if j >= 0 {
        MatchedStatus(Metrics(keys, was, now), ThenKeys(keys, was), was.rows[i], now.rows[j], was.cols, now.cols, tol);
      }
    }
    assert NewRows(keys, was, now) != [] ==> out[n].status == OnlyNow && out[n] in out;
    if Unmoved(keys, was, now, tol) {
      forall i: nat | i < n
        ensures RowUnmoved(keys, was, now, tol, i)
      {
        assert out[i] in out;
      }
    }
  }

  // ---------------------------------------------------------------- swapping the sides

  lemma SameScale(tol: Tolerance, x: real, y: real)
    ensures Allowed(tol, x, y) == Allowed(tol, y, x)
  {
    assert Max(Abs(x), Abs(y)) == Max(Abs(y), Abs(x));
  }

  lemma AgreeIsSymmetric(tol: Tolerance, a: Cell, b: Cell)
    ensures Agree(tol, a, b) == Agree(tol, b, a)
  {
    if a.Num? && b.Num? {
      SameScale(tol, a.value, b.value);
      hide Allowed;
    }
  }

  /** Swapping the sides keeps the pairs and turns rows only then into rows only now, and back. */
  lemma SwapKeepsPairs(keys: nat, was: Table, now: Table, tol: Tolerance)
    requires keys <= |was.cols| && keys <= |now.cols|
    ensures forall i: nat, j: nat | i < |was.rows| && j < |now.rows| ::
              MatchOf(keys, was, now, i) == j <==> MatchOf(keys, now, was, j) == i
    ensures forall i: nat | i < |was.rows| :: MatchOf(keys, was, now, i) < 0 <==> i in NewRows(keys, now, was)
    ensures forall j: nat | j < |now.rows| :: MatchOf(keys, now, was, j) < 0 <==> j in NewRows(keys, was, now)
    ensures forall i: nat, j: nat | i < |was.rows| && j < |now.rows| && MatchOf(keys, was, now, i) == j ::
              RowOf(keys, was, now, tol, i).status == RowOf(keys, now, was, tol, j).status
  {
    var tk, nk := WasKeyTexts(keys, was), WasKeyTexts(keys, now);
    assert tk == NowKeyTexts(keys, now, was) && nk == NowKeyTexts(keys, was, now);
    forall i: nat, j: nat | i < |was.rows| && j < |now.rows|
      ensures MatchOf(keys, was, now, i) == j <==> MatchOf(keys, now, was, j) == i
    {
      PartnerExactly(tk, nk, i, j);
      PartnerExactly(nk, tk, j, i);
    }
    SwapLeftovers(tk, nk);
    SwapLeftovers(nk, tk);
    forall i: nat, j: nat | i < |was.rows| && j < |now.rows| && MatchOf(keys, was, now, i) == j
      ensures RowOf(keys, was, now, tol, i).status == RowOf(keys, now, was, tol, j).status
    {
      SwapStatus(keys, was, now, tol, i, j);
    }
  }

  lemma SwapLeftovers(tk: seq<string>, nk: seq<string>)
    ensures forall i: nat | i < |tk| :: Partner(tk, nk, i) < 0 <==> i in NowOnly(nk, tk)
  {
    JoinIsLossless(nk, tk);
    forall i: nat | i < |tk|
      ensures Partner(tk, nk, i) < 0 <==> i in NowOnly(nk, tk)
    {
      forall j: nat | j < |nk|
        ensures Partner(nk, tk, j) == i <==> Partner(tk, nk, i) == j
      {
        PartnerExactly(nk, tk, j, i);
        PartnerExactly(tk, nk, i, j);
      }
      if Partner(tk, nk, i) >= 0 {
        var j: nat := Partner(tk, nk, i);
        assert Partner(nk, tk, j) == i;
      }
    }
  }

  lemma SwapStatus(keys: nat, was: Table, now: Table, tol: Tolerance, i: nat, j: nat)
    requires keys <= |was.cols| && keys <= |now.cols|
    requires i < |was.rows| && j < |now.rows|
    requires MatchOf(keys, was, now, i) == j && MatchOf(keys, now, was, j) == i
    ensures RowOf(keys, was, now, tol, i).status == RowOf(keys, now, was, tol, j).status
  {
    MatchedStatus(Metrics(keys, was, now), keys, was.rows[i], now.rows[j], was.cols, now.cols, tol);
    MatchedStatus(Metrics(keys, now, was), keys, now.rows[j], was.rows[i], now.cols, was.cols, tol);
    forall m
      ensures MatchedCell(m, was.rows[i], now.rows[j], was.cols, now.cols, tol).moved
           == MatchedCell(m, now.rows[j], was.rows[i], now.cols, was.cols, tol).moved
    {
      AgreeIsSymmetric(tol, CellAt(was.rows[i], was.cols, m), CellAt(now.rows[j], now.cols, m));
    }
  }

  // ---------------------------------------------------------------- comparing a result with itself

  predicate Reflexive(tol: Tolerance) {
    tol.absolute >= 0.0 || tol.relative >= 0.0
  }

  lemma AgreesWithItself(tol: Tolerance, c: Cell)
    requires Reflexive(tol)
    ensures Agree(tol, c, c)
  {
    if c.Num? && tol.relative >= 0.0 {
      ProductSign(tol.relative, Max(Abs(c.value), Abs(c.value)));
    }
  }

  lemma SelfIsUnmoved(keys: nat, t: Table, tol: Tolerance)
    requires Reflexive(tol)
    ensures Unmoved(keys, t, t, tol)
  {
    var tk := WasKeyTexts(keys, t);
    assert tk == NowKeyTexts(keys, t, t);
    forall i: nat | i < |t.rows|
      ensures RowUnmoved(keys, t, t, tol, i) && MatchOf(keys, t, t, i) == i
    {
      PartnerExactly(tk, tk, i, i);
      forall m | m in Metrics(keys, t, t)
        ensures !MatchedCell(m, t.rows[i], t.rows[i], t.cols, t.cols, tol).moved
      {
        AgreesWithItself(tol, CellAt(t.rows[i], t.cols, m));
      }
    }
    forall j: nat | j < |t.rows|
      ensures Taken(keys, t, t, j)
    {
      assert MatchOf(keys, t, t, j) == j;
    }
    NoneLeftOver(keys, t, t);
    UnmovedExactly(keys, t, t, tol);
  }

  ghost predicate Taken(keys: nat, was: Table, now: Table, j: nat) {
    exists i: nat :: i < |was.rows| && MatchOf(keys, was, now, i) == j
  }

  // When every now-row is some then-row's partner, none is left over; and only then.
  lemma NoneLeftOver(keys: nat, was: Table, now: Table)
    ensures NewRows(keys, was, now) == [] <==> forall j: nat | j < |now.rows| :: Taken(keys, was, now, j)
  {
    hide Taken;
    var left := NewRows(keys, was, now);
    forall j: nat | j < |now.rows|
      ensures j in left <==> !Taken(keys, was, now, j)
    {
      LeftIsUntaken(keys, was, now, j);
    }
    var h := Head(left);
    assert left != [] ==> h < |now.rows| && !Taken(keys, was, now, h);
  }

  lemma LeftIsUntaken(keys: nat, was: Table, now: Table, j: nat)
    requires j < |now.rows|
    ensures j in NewRows(keys, was, now) <==> !Taken(keys, was, now, j)
  {
    hide Partner, NowOnly;
    var tk, nk := WasKeyTexts(keys, was), NowKeyTexts(keys, was, now);
    JoinIsLossless(tk, nk);
    forall i: nat | i < |tk|
      ensures MatchOf(keys, was, now, i) == Partner(tk, nk, i)
    {
    }
  }

  function Head(s: seq<nat>): (h: nat)
    ensures s != [] ==> h in s
  {
    if s == [] then 0 else s[0]
  }

  function OneCell(c: Cell): Table {
    Table(["v"], [[c]])
  }

  lemma OneCellComparison(x: Cell, y: Cell, tol: Tolerance)
    ensures Unmoved(0, OneCell(x), OneCell(y), tol) <==> Agree(tol, x, y)
  {
    var s, t := OneCell(x), OneCell(y);
    var tk := WasKeyTexts(0, s);
    assert tk == [""] && NowKeyTexts(0, s, t) == tk;
    PartnerExactly(tk, tk, 0, 0);
    assert MatchOf(0, s, t, 0) == 0;
    assert Taken(0, s, t, 0);
    NoneLeftOver(0, s, t);
    assert s.cols[Min(0, 1)..] == ["v"];
    assert ColumnAt(["v"], "v") == 0;
    var a, b := s.rows[0], t.rows[0];
    assert CellAt(a, s.cols, "v") == x && CellAt(b, t.cols, "v") == y;
    assert MatchedCell("v", a, b, s.cols, t.cols, tol).moved == !Agree(tol, x, y);
    assert forall m | m in Metrics(0, s, t) :: m == "v";
    assert "v" in Metrics(0, s, t);
    assert RowUnmoved(0, s, t, tol, 0) <==> Agree(tol, x, y);
    UnmovedExactly(0, s, t, tol);
  }

  /** Every result agrees with itself exactly when one of the two tolerances is not negative. */
  lemma SelfComparison(tol: Tolerance)
    ensures Reflexive(tol) <==> forall keys: nat, t: Table :: Unmoved(keys, t, t, tol)
  {
    if Reflexive(tol) {
      forall keys: nat, t: Table
        ensures Unmoved(keys, t, t, tol)
      {
        SelfIsUnmoved(keys, t, tol);
      }
    } else {
      OneCellComparison(Num(1.0, "1"), Num(1.0, "1"), tol);
    }
  }
}
