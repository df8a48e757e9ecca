/** A moved report and its causes: the report is run again under the frame it was made in, which tells a
  * change of the data from a change of the definition or of the access policy.
  */
module Attribution {
  import opened Basics
  import opened Diff
  import opened Compare

  // ---------------------------------------------------------------- composing two comparisons

  // No dimension of one result has the name of a measure of the other.
  predicate KeysApart(keys: nat, s: Table, t: Table) {
    && keys <= |s.cols| && keys <= |t.cols|
    && (forall c | c in s.cols[..keys] :: c !in t.cols[keys..])
    && (forall c | c in t.cols[..keys] :: c !in s.cols[keys..])
  }

  predicate Comparable(keys: nat, a: Table, b: Table, c: Table) {
    KeysApart(keys, a, b) && KeysApart(keys, b, c) && KeysApart(keys, a, c)
  }

  // Row i goes through its partner in the middle to its partner at the end.
  lemma PartnersCompose(keys: nat, a: Table, b: Table, c: Table, i: nat)
    requires keys <= |a.cols| && keys <= |b.cols| && keys <= |c.cols| && i < |a.rows|
    requires var j := MatchOf(keys, a, b, i); j >= 0 && MatchOf(keys, b, c, j) >= 0
    ensures MatchOf(keys, a, c, i) == MatchOf(keys, b, c, MatchOf(keys, a, b, i))
  {
    var j := MatchOf(keys, a, b, i);
    var l := MatchOf(keys, b, c, j);
    var ak, bk, ck := WasKeyTexts(keys, a), WasKeyTexts(keys, b), WasKeyTexts(keys, c);
    assert bk == NowKeyTexts(keys, a, b) && ck == NowKeyTexts(keys, b, c) && ck == NowKeyTexts(keys, a, c);
    PartnerExactly(ak, bk, i, j);
    PartnerExactly(bk, ck, j, l);
    PartnerExactly(ak, ck, i, l);
  }

  lemma LeftoversCompose(keys: nat, a: Table, b: Table, c: Table, tol: Tolerance)
    requires keys <= |a.cols| && keys <= |b.cols| && keys <= |c.cols|
    requires Unmoved(keys, a, b, tol) && Unmoved(keys, b, c, tol)
    ensures NewRows(keys, a, c) == []
  {
    hide MatchOf, RowUnmoved, Unmoved;
    UnmovedExactly(keys, a, b, tol);
    UnmovedExactly(keys, b, c, tol);
    NoneLeftOver(keys, a, b);
    NoneLeftOver(keys, b, c);
    forall l: nat | l < |c.rows|
      ensures Taken(keys, a, c, l)
    {
      assert Taken(keys, b, c, l);
      var j: nat :| j < |b.rows| && MatchOf(keys, b, c, j) == l;
      assert Taken(keys, a, b, j);
      var i: nat :| i < |a.rows| && MatchOf(keys, a, b, i) == j;
      PartnersCompose(keys, a, b, c, i);
    }
    NoneLeftOver(keys, a, c);
  }

  lemma InFrontOrBehind(cols: seq<string>, keys: nat, m: string)
    requires keys <= |cols|
    ensures m in cols <==> m in cols[..keys] || m in cols[keys..]
  {
    assert cols == cols[..keys] + cols[keys..];
  }

  // A measure of one of two unmoved results is a measure of both.
  lemma MeasureOfBoth(keys: nat, s: Table, t: Table, tol: Tolerance, i: nat, m: string)
    requires KeysApart(keys, s, t) && i < |s.rows| && RowUnmoved(keys, s, t, tol, i)
    requires m in s.cols[keys..] || m in t.cols[keys..]
    ensures m in Metrics(keys, s, t) && m in s.cols[keys..] && m in t.cols[keys..]
  {
    assert m in Metrics(keys, s, t);
    assert !MatchedCell(m, s.rows[i], t.rows[MatchOf(keys, s, t, i)], s.cols, t.cols, tol).moved;
    InFrontOrBehind(s.cols, keys, m);
    InFrontOrBehind(t.cols, keys, m);
  }

  // A measure of either end is a measure of all three.
  lemma MeasuresCompose(keys: nat, a: Table, b: Table, c: Table, tol: Tolerance, i: nat, j: nat, m: string)
    requires Comparable(keys, a, b, c) && i < |a.rows| && j < |b.rows|
    requires RowUnmoved(keys, a, b, tol, i) && RowUnmoved(keys, b, c, tol, j)
    requires m in Metrics(keys, a, c)
    ensures m in Metrics(keys, a, b) && m in Metrics(keys, b, c)
    ensures m in a.cols[keys..] && m in b.cols[keys..] && m in c.cols[keys..]
  {
    hide RowUnmoved, KeysApart;
    assert keys <= |a.cols| && keys <= |b.cols| && keys <= |c.cols| by {
      ComparableLengths(keys, a, b, c);
    }
    if m in a.cols[keys..] {
      MeasureOfBoth(keys, a, b, tol, i, m);
      MeasureOfBoth(keys, b, c, tol, j, m);
    } else {
      MeasureOfBoth(keys, b, c, tol, j, m);
      MeasureOfBoth(keys, a, b, tol, i, m);
    }
  }

  /** The cells of one measure along a row, from the report through the replay to today. */
  lemma CellsCompose(keys: nat, a: Table, b: Table, c: Table, tol: Tolerance, i: nat, m: string)
    requires Comparable(keys, a, b, c) && i < |a.rows|
    requires Unmoved(keys, a, b, tol) && Unmoved(keys, b, c, tol)
    requires m in Metrics(keys, a, c)
    ensures keys <= |a.cols| && keys <= |b.cols| && keys <= |c.cols|
    ensures var j := MatchOf(keys, a, b, i);
            && 0 <= j
            && var l := MatchOf(keys, b, c, j);
               && 0 <= l && MatchOf(keys, a, c, i) == l
               && m in a.cols[keys..] && m in b.cols[keys..] && m in c.cols[keys..]
               && Agree(tol, CellAt(a.rows[i], a.cols, m), CellAt(b.rows[j], b.cols, m))
               && Agree(tol, CellAt(b.rows[j], b.cols, m), CellAt(c.rows[l], c.cols, m))
  {
    hide Unmoved, MatchOf, Metrics, CellAt, Comparable;
    UnmovedExactly(keys, a, b, tol);
    UnmovedExactly(keys, b, c, tol);
    ComparableLengths(keys, a, b, c);
    assert RowUnmoved(keys, a, b, tol, i);
    var j := MatchOf(keys, a, b, i);
    assert RowUnmoved(keys, b, c, tol, j);
    var l := MatchOf(keys, b, c, j);
    PartnersCompose(keys, a, b, c, i);
    MeasuresCompose(keys, a, b, c, tol, i, j, m);
    assert !MatchedCell(m, a.rows[i], b.rows[j], a.cols, b.cols, tol).moved;
    assert !MatchedCell(m, b.rows[j], c.rows[l], b.cols, c.cols, tol).moved;
  }

  // ---------------------------------------------------------------- when agreement is transitive

  /** Whether small steps cannot add up: no tolerance at all, or one that calls all numbers the same. */
  predicate StepsCannotAddUp(tol: Tolerance) {
    (tol.absolute == 0.0 && tol.relative == 0.0) || tol.relative >= 2.0
  }

  lemma AllNumbersAgree(tol: Tolerance, x: real, y: real)
    requires tol.relative >= 2.0
    ensures NumbersAgree(tol, x, y)
  {
    TwiceTheScale(tol, x, y, Max(Abs(x), Abs(y)));
    hide Allowed;
  }

  lemma TwiceTheScale(tol: Tolerance, x: real, y: real, m: real)
    requires tol.relative >= 2.0 && m == Max(Abs(x), Abs(y))
    ensures 2.0 * m <= Allowed(tol, x, y)
  {
    ScaledOrder(2.0, tol.relative, m);
  }

  // How a text is read as a number, if it is one.
  type Reading = string -> Option<real>

  ghost predicate Spelled(valueOf: Reading, v: real) {
    exists s :: valueOf(s) == Some(v)
  }

  ghost predicate SpelledWhole(valueOf: Reading, n: int) {
    Spelled(valueOf, n as real)
  }

  ghost predicate SpelledBetween(valueOf: Reading, x: real, y: real) {
    exists s :: valueOf(s).Some? && x < valueOf(s).value < y
  }

  /** Every whole number has a spelling, and between any two numbers there is one that has: as with decimals. */
  ghost predicate SpellsEnough(valueOf: Reading) {
    && (forall n: int :: SpelledWhole(valueOf, n))
    && (forall x, y | x < y :: SpelledBetween(valueOf, x, y))
  }

  function PowerOfTen(n: nat): (p: real)
    ensures p >= 1.0
  {
    if n == 0 then 1.0 else 10.0 * PowerOfTen(n - 1)
  }

  // A whole number times a negative power of ten.
  function Scientific(k: int, n: nat): string {
    Decimal(k) + "e-" + Digits(n)
  }

  lemma {:induction false} PowersGrow(n: nat)
    ensures PowerOfTen(n) > n as real
  {
    if n > 0 {
      PowersGrow(n - 1);
    }
  }

  /** A reading that knows the scientific notation for decimals reads enough. */
  lemma DecimalsSpellEnough(valueOf: Reading)
    requires forall k: int, n: nat :: valueOf(Scientific(k, n)) == Some(k as real / PowerOfTen(n))
    ensures SpellsEnough(valueOf)
  {
    hide Scientific;
    forall n: int
      ensures SpelledWhole(valueOf, n)
    {
      assert valueOf(Scientific(n, 0)) == Some(n as real / PowerOfTen(0));
    }
    forall x: real, y: real | x < y
      ensures SpelledBetween(valueOf, x, y)
    {
      var k, n := DecimalBetween(x, y);
      assert valueOf(Scientific(k, n)) == Some(k as real / PowerOfTen(n));
    }
  }

  lemma DecimalBetween(x: real, y: real) returns (k: int, n: nat)
    requires x < y
    ensures PowerOfTen(n) > 0.0 && x < k as real / PowerOfTen(n) < y
  {
    hide PowerOfTen;
    var gap := y - x;
    n := (1.0 / gap).Floor + 1;
    if 1.0 / gap < 0.0 {
      ScaledOrder(1.0 / gap, 0.0, gap);
      assert 1.0 / gap * gap == 1.0;
    }
    PowersGrow(n);
    var p := PowerOfTen(n);
    k := (x * p).Floor + 1;
    GapFits(x, y, p);
    Between(x, y, p, k as real);
  }

  // Scaled by so much, the gap between the two is wider than one.
  lemma GapFits(x: real, y: real, p: real)
    requires x < y && p > 1.0 / (y - x)
    ensures y * p - x * p > 1.0
  {
    var gap := y - x;
    assert 1.0 / gap * gap == 1.0;
    ScaledOrder(1.0 / gap, p, gap);
    assert p * gap == y * p - x * p;
  }

  lemma Between(x: real, y: real, p: real, k: real)
    requires p > 0.0 && x * p < k < y * p
    ensures x < k / p < y
  {
    var q := k / p;
    assert q * p == k;
    if q <= x {
      ScaledOrder(q, x, p);
    }
    if y <= q {
      ScaledOrder(y, q, p);
    }
  }

  lemma PickBetween(valueOf: Reading, x: real, y: real) returns (v: real)
    requires SpellsEnough(valueOf) && x < y
    ensures x < v < y && Spelled(valueOf, v)
  {
    assert SpelledBetween(valueOf, x, y);
    var s :| valueOf(s).Some? && x < valueOf(s).value < y;
    v := valueOf(s).value;
  }

  lemma PickWhole(valueOf: Reading, x: real) returns (v: real)
    requires SpellsEnough(valueOf) && x >= 0.0
    ensures x < v && 0.0 < v && Spelled(valueOf, v) && Spelled(valueOf, -v) && Spelled(valueOf, 0.0)
  {
    var n := x.Floor + 1;
    v := n as real;
    assert SpelledWhole(valueOf, n) && SpelledWhole(valueOf, -n) && SpelledWhole(valueOf, 0);
  }

  // Numbers with spellings that agree one with the next but not the first with the last: with a loose relative
  // tolerance across zero, with an absolute one within it, and otherwise in stretched steps.
  lemma SmallStepsAddUp(tol: Tolerance, valueOf: Reading) returns (x: real, y: real, z: real)
    requires tol.absolute >= 0.0 && tol.relative >= 0.0 && !StepsCannotAddUp(tol) && SpellsEnough(valueOf)
    ensures NumbersAgree(tol, x, y) && NumbersAgree(tol, y, z) && !NumbersAgree(tol, x, z)
    ensures Spelled(valueOf, x) && Spelled(valueOf, y) && Spelled(valueOf, z)
  {
    hide NumbersAgree, Spelled, SpellsEnough;
    var r, a := tol.relative, tol.absolute;
    if r >= 1.0 {
      z := PickWhole(valueOf, a);
      x, y := -z, 0.0;
      AcrossZero(tol, z);
    } else if r == 0.0 {
      var w := PickWhole(valueOf, a);
      x := 0.0;
      y := PickBetween(valueOf, a / 2.0, a);
      z := PickBetween(valueOf, a, y + a / 2.0);
      AgreeByScale(tol, x, y, y, 0.0);
      AgreeByScale(tol, y, z, z, 0.0);
      AgreeByScale(tol, x, z, z, 0.0);
    } else {
      x, y, z := StretchedStep(tol, valueOf);
    }
  }

  lemma ScaledBetween(r: real, z: real, allowed: real)
    requires 1.0 <= r < 2.0 && 0.0 < z && allowed == r * z
    ensures z <= allowed < z + z
  {
    ScaledOrder(1.0, r, z);
    ScaledOrder(r, 2.0, z);
    assert 1.0 * z == z && 2.0 * z == z + z;
  }

  lemma AcrossZero(tol: Tolerance, z: real)
    requires tol.absolute < z && 0.0 < z && 1.0 <= tol.relative < 2.0
    ensures NumbersAgree(tol, -z, 0.0) && NumbersAgree(tol, 0.0, z) && !NumbersAgree(tol, -z, z)
  {
    hide NumbersAgree;
    var allowed := tol.relative * z;
    ScaledBetween(tol.relative, z, allowed);
    AgreeByScale(tol, -z, 0.0, z, allowed);
    AgreeByScale(tol, 0.0, z, z, allowed);
    AgreeByScale(tol, -z, z, z, allowed);
  }

  lemma PositiveProduct(a: real, b: real)
    requires a > 0.0 && b > 0.0
    ensures a * b > 0.0
  {
  }

  lemma StretchedStep(tol: Tolerance, valueOf: Reading) returns (x: real, y: real, z: real)
    requires tol.absolute >= 0.0 && 0.0 < tol.relative < 1.0 && SpellsEnough(valueOf)
    ensures NumbersAgree(tol, x, y) && NumbersAgree(tol, y, z) && !NumbersAgree(tol, x, z)
    ensures Spelled(valueOf, x) && Spelled(valueOf, y) && Spelled(valueOf, z)
  {
    hide NumbersAgree, Spelled, SpellsEnough;
    var r := tol.relative;
    z := PickAbove(tol, valueOf);
    var q := r * z;
    PositiveProduct(r, z);
    Shrinks(r, z, z, q, q);
    y := PickBetween(valueOf, z - q, z);
    var p := r * y;
    PositiveProduct(r, y);
    Shrinks(r, y, z, p, q);
    x := PickBetween(valueOf, y - p, z - q);
    AgreeByScale(tol, x, y, y, p);
    AgreeByScale(tol, y, z, z, q);
    AgreeByScale(tol, x, z, z, q);
  }

  lemma Shrinks(r: real, y: real, z: real, p: real, q: real)
    requires 0.0 < r < 1.0 && 0.0 < y && p == r * y && q == r * z
    ensures 0.0 < y - p && (y < z ==> y - p < z - q)
  {
    ScaledOrder(r, 1.0, y);
    if y < z {
      ScaledOrder(r, 1.0, z - y);
      assert r * (z - y) == r * z - r * y;
    }
  }

  // A number large enough for the relative tolerance to outgrow the absolute one.
  lemma PickAbove(tol: Tolerance, valueOf: Reading) returns (z: real)
    requires tol.absolute >= 0.0 && 0.0 < tol.relative && SpellsEnough(valueOf)
    ensures 0.0 < z && Spelled(valueOf, z) && tol.absolute < tol.relative * z
  {
    hide Spelled, SpellsEnough;
    var q := tol.absolute / tol.relative;
    assert q * tol.relative == tol.absolute;
    if q < 0.0 {
      ScaledOrder(q, 0.0, tol.relative);
    }
    z := PickWhole(valueOf, q);
    ScaledOrder(q, z, tol.relative);
  }

  lemma AgreeByScale(tol: Tolerance, x: real, y: real, scale: real, allowed: real)
    requires x < y && scale == Max(Abs(x), Abs(y)) && allowed == tol.relative * scale
    ensures NumbersAgree(tol, x, y) <==> y - x <= tol.absolute || y - x <= allowed
  {
    assert Allowed(tol, x, y) == allowed;
    hide Allowed;
  }

  // ---------------------------------------------------------------- cells that spell numbers

  // A cell of the set, or the empty cell that a row too short stands for.
  ghost predicate Holds(cells: iset<Cell>, c: Cell) {
    c == Null || c in cells
  }

  ghost predicate TransitiveOn(tol: Tolerance, cells: iset<Cell>) {
    forall a, b, c | Holds(cells, a) && Holds(cells, b) && Holds(cells, c) ::
      Agree(tol, a, b) && Agree(tol, b, c) ==> Agree(tol, a, c)
  }

  // Among the numbers of the set, small steps do not add up.
  ghost predicate NumbersChain(tol: Tolerance, cells: iset<Cell>) {
    forall a, b, c | a in cells && b in cells && c in cells && a.Num? && b.Num? && c.Num? ::
      Agree(tol, a, b) && Agree(tol, b, c) ==> Agree(tol, a, c)
  }

  // A number spelled like a cell that is no number agrees with exactly the numbers spelled like it.
  ghost predicate SpellingsTell(tol: Tolerance, cells: iset<Cell>) {
    forall a, b, c | a in cells && b in cells && Holds(cells, c) && a.Num? && b.Num? && !c.Num? ::
      b.spelled == TextOf(c) ==> (Agree(tol, a, b) <==> a.spelled == b.spelled)
  }

  /** Agreement is transitive on a set of cells exactly when its numbers chain and its spellings tell. */
  lemma TransitiveOnExactly(tol: Tolerance, cells: iset<Cell>)
    ensures TransitiveOn(tol, cells) <==> NumbersChain(tol, cells) && SpellingsTell(tol, cells)
  {
    if TransitiveOn(tol, cells) {
      forall a, b, c | a in cells && b in cells && Holds(cells, c) && a.Num? && b.Num? && !c.Num?
        ensures b.spelled == TextOf(c) ==> (Agree(tol, a, b) <==> a.spelled == b.spelled)
      {
        assert Holds(cells, a) && Holds(cells, b);
        assert b.spelled == TextOf(c) ==> Agree(tol, b, c) && Agree(tol, c, b);
      }
      forall a, b, c | a in cells && b in cells && c in cells && a.Num? && b.Num? && c.Num?
        ensures Agree(tol, a, b) && Agree(tol, b, c) ==> Agree(tol, a, c)
      {
        assert Holds(cells, a) && Holds(cells, b) && Holds(cells, c);
      }
    }
    if NumbersChain(tol, cells) && SpellingsTell(tol, cells) {
      forall a, b, c | Holds(cells, a) && Holds(cells, b) && Holds(cells, c) && Agree(tol, a, b) && Agree(tol, b, c)
        ensures Agree(tol, a, c)
      {
        if !(a.Num? && b.Num? && c.Num?) {
          StepsAgree(tol, cells, a, b, c);
        }
      }
    }
  }

  lemma StepsAgree(tol: Tolerance, cells: iset<Cell>, a: Cell, b: Cell, c: Cell)
    requires SpellingsTell(tol, cells) && Holds(cells, a) && Holds(cells, b) && Holds(cells, c)
    requires Agree(tol, a, b) && Agree(tol, b, c) && !(a.Num? && b.Num? && c.Num?)
    ensures Agree(tol, a, c)
  {
    if a.Num? && b.Num? {
      assert Agree(tol, a, b) <==> a.spelled == b.spelled;
    } else if b.Num? && c.Num? {
      AgreeIsSymmetric(tol, b, c);
      assert Agree(tol, c, b) <==> c.spelled == b.spelled;
    } else if a.Num? && c.Num? {
      assert Agree(tol, a, c) <==> a.spelled == c.spelled;
    }
  }

  // Every measure cell of the table is empty or of the set.
  ghost predicate Drawn(keys: nat, cells: iset<Cell>, t: Table) {
    forall i, k | 0 <= i < |t.rows| && keys <= k < |t.rows[i]| :: Holds(cells, t.rows[i][k])
  }

  lemma CellIsDrawn(keys: nat, cells: iset<Cell>, t: Table, i: nat, m: string)
    requires Drawn(keys, cells, t) && i < |t.rows| && keys <= |t.cols| && m in t.cols[keys..]
    ensures Holds(cells, CellAt(t.rows[i], t.cols, m))
  {
    var k :| keys <= k < |t.cols| && t.cols[k] == m;
    assert ColumnAt(t.cols, m) >= k;
  }

  // Every cell of the measures of three results is empty or of the set.
  ghost predicate AllDrawn(keys: nat, cells: iset<Cell>, a: Table, b: Table, c: Table) {
    Drawn(keys, cells, a) && Drawn(keys, cells, b) && Drawn(keys, cells, c)
  }

  /** Two comparisons without movement compose, whenever agreement of their cells is transitive. */
  lemma UnmovedComposes(keys: nat, a: Table, b: Table, c: Table, tol: Tolerance, cells: iset<Cell>)
    requires TransitiveOn(tol, cells) && Comparable(keys, a, b, c) && AllDrawn(keys, cells, a, b, c)
    requires Unmoved(keys, a, b, tol) && Unmoved(keys, b, c, tol)
    ensures Unmoved(keys, a, c, tol)
  {
    hide Unmoved, TransitiveOn, AllDrawn, Comparable, MatchOf, CellAt, Agree, Metrics;
    ComparableLengths(keys, a, b, c);
    LeftoversCompose(keys, a, b, c, tol);
    forall i: nat | i < |a.rows|
      ensures RowUnmoved(keys, a, c, tol, i)
    {
      RowsCompose(keys, a, b, c, tol, i);
      forall m | m in Metrics(keys, a, c)
        ensures !MatchedCell(m, a.rows[i], c.rows[MatchOf(keys, a, c, i)], a.cols, c.cols, tol).moved
      {
        CellsCompose(keys, a, b, c, tol, i, m);
        CellsAreDrawn(keys, a, b, c, tol, cells, i, m);
        TransitiveStep(tol, cells, CellAt(a.rows[i], a.cols, m),
                       CellAt(b.rows[MatchOf(keys, a, b, i)], b.cols, m),
                       CellAt(c.rows[MatchOf(keys, a, c, i)], c.cols, m));
      }
    }
    UnmovedExactly(keys, a, c, tol);
  }

  lemma TransitiveStep(tol: Tolerance, cells: iset<Cell>, a: Cell, b: Cell, c: Cell)
    requires TransitiveOn(tol, cells) && Holds(cells, a) && Holds(cells, b) && Holds(cells, c)
    requires Agree(tol, a, b) && Agree(tol, b, c)
    ensures Agree(tol, a, c)
  {
  }

  lemma RowsCompose(keys: nat, a: Table, b: Table, c: Table, tol: Tolerance, i: nat)
    requires Comparable(keys, a, b, c) && i < |a.rows|
    requires Unmoved(keys, a, b, tol) && Unmoved(keys, b, c, tol)
    ensures MatchOf(keys, a, b, i) >= 0 && MatchOf(keys, a, c, i) >= 0
  {
    hide Unmoved, Comparable, MatchOf, MatchedCell, Metrics;
    UnmovedExactly(keys, a, b, tol);
    UnmovedExactly(keys, b, c, tol);
    assert RowUnmoved(keys, a, b, tol, i);
    assert RowUnmoved(keys, b, c, tol, MatchOf(keys, a, b, i));
    ComparableLengths(keys, a, b, c);
    PartnersCompose(keys, a, b, c, i);
  }

  lemma CellsAreDrawn(keys: nat, a: Table, b: Table, c: Table, tol: Tolerance, cells: iset<Cell>, i: nat, m: string)
    requires Comparable(keys, a, b, c) && i < |a.rows| && AllDrawn(keys, cells, a, b, c)
    requires Unmoved(keys, a, b, tol) && Unmoved(keys, b, c, tol) && m in Metrics(keys, a, c)
    ensures var j, l := MatchOf(keys, a, b, i), MatchOf(keys, a, c, i);
            && 0 <= j && 0 <= l
            && Holds(cells, CellAt(a.rows[i], a.cols, m))
            && Holds(cells, CellAt(b.rows[j], b.cols, m))
            && Holds(cells, CellAt(c.rows[l], c.cols, m))
  {
    hide Unmoved, Drawn, Holds, Comparable, MatchOf, CellAt, Agree, Metrics;
    CellsCompose(keys, a, b, c, tol, i, m);
    ComparableLengths(keys, a, b, c);
    CellIsDrawn(keys, cells, a, i, m);
    CellIsDrawn(keys, cells, b, MatchOf(keys, a, b, i), m);
    CellIsDrawn(keys, cells, c, MatchOf(keys, a, c, i), m);
  }

  lemma ComparableLengths(keys: nat, a: Table, b: Table, c: Table)
    requires Comparable(keys, a, b, c)
    ensures keys <= |a.cols| && keys <= |b.cols| && keys <= |c.cols|
  {
  }

  // What a measure cell can hide on its way from a to c: it agrees, or it is a number at every stop that
  // drifts by no more than the two tolerance bounds together.
  ghost predicate AgreesOrDrifts(tol: Tolerance, x: Cell, y: Cell, z: Cell) {
    || Agree(tol, x, z)
    || (&& x.Num? && y.Num? && z.Num?
        && Abs(z.value - x.value) <= Bound(tol, x.value, y.value) + Bound(tol, y.value, z.value))
  }

  // What can differ from a to c: no row comes or goes, and each measure cell agrees or drifts.
  ghost predicate OnlyDrifted(keys: nat, a: Table, b: Table, c: Table, tol: Tolerance) {
    && NewRows(keys, a, c) == []
    && forall i: nat | i < |a.rows| :: RowDrifted(keys, a, b, c, tol, i)
  }

  // The row has its partner at both stops, and each of its measure cells agrees or drifts.
  ghost predicate RowDrifted(keys: nat, a: Table, b: Table, c: Table, tol: Tolerance, i: nat)
    requires i < |a.rows|
  {
    && MatchOf(keys, a, b, i) >= 0 && MatchOf(keys, a, c, i) >= 0
    && forall m | m in Metrics(keys, a, c) :: CellDrifted(keys, a, b, c, tol, i, m)
  }

  ghost predicate CellDrifted(keys: nat, a: Table, b: Table, c: Table, tol: Tolerance, i: nat, m: string)
    requires i < |a.rows| && MatchOf(keys, a, b, i) >= 0 && MatchOf(keys, a, c, i) >= 0
  {
    && m in a.cols && m in c.cols
    && AgreesOrDrifts(tol, CellAt(a.rows[i], a.cols, m), CellAt(b.rows[MatchOf(keys, a, b, i)], b.cols, m),
                      CellAt(c.rows[MatchOf(keys, a, c, i)], c.cols, m))
  }

  lemma HiddenIsBounded(keys: nat, a: Table, b: Table, c: Table, tol: Tolerance, cells: iset<Cell>, i: nat, m: string)
    requires Comparable(keys, a, b, c) && i < |a.rows| && m in Metrics(keys, a, c) && AllDrawn(keys, cells, a, b, c)
    requires SpellingsTell(tol, cells) && Unmoved(keys, a, b, tol) && Unmoved(keys, b, c, tol)
    ensures MatchOf(keys, a, b, i) >= 0 && MatchOf(keys, a, c, i) >= 0
    ensures CellDrifted(keys, a, b, c, tol, i, m)
  {
    hide Unmoved, AllDrawn, Comparable, MatchOf, CellAt, Metrics, SpellingsTell, Agree, AgreesOrDrifts;
    CellsCompose(keys, a, b, c, tol, i, m);
    CellsAreDrawn(keys, a, b, c, tol, cells, i, m);
    var x, y := CellAt(a.rows[i], a.cols, m), CellAt(b.rows[MatchOf(keys, a, b, i)], b.cols, m);
    var z := CellAt(c.rows[MatchOf(keys, a, c, i)], c.cols, m);
    StepsDrift(tol, cells, x, y, z);
  }

  lemma StepsDrift(tol: Tolerance, cells: iset<Cell>, x: Cell, y: Cell, z: Cell)
    requires SpellingsTell(tol, cells) && Holds(cells, x) && Holds(cells, y) && Holds(cells, z)
    requires Agree(tol, x, y) && Agree(tol, y, z)
    ensures AgreesOrDrifts(tol, x, y, z)
  {
    if x.Num? && y.Num? && z.Num? {
      WithinBound(tol, x.value, y.value);
      WithinBound(tol, y.value, z.value);
      hide Bound, Agree, NumbersAgree;
    } else {
      hide Bound;
      StepsAgree(tol, cells, x, y, z);
    }
  }

  lemma WithinBound(tol: Tolerance, x: real, y: real)
    ensures NumbersAgree(tol, x, y) <==> Abs(y - x) <= Bound(tol, x, y)
  {
    hide Allowed;
  }

  lemma HalvesDrift(keys: nat, a: Table, b: Table, c: Table, tol: Tolerance, cells: iset<Cell>)
    requires Comparable(keys, a, b, c) && AllDrawn(keys, cells, a, b, c) && SpellingsTell(tol, cells)
    requires Unmoved(keys, a, b, tol) && Unmoved(keys, b, c, tol)
    ensures OnlyDrifted(keys, a, b, c, tol)
  {
    hide Unmoved, AllDrawn, Comparable, SpellingsTell, RowDrifted, NewRows;
    ComparableLengths(keys, a, b, c);
    LeftoversCompose(keys, a, b, c, tol);
    forall i: nat | i < |a.rows|
      ensures RowDrifted(keys, a, b, c, tol, i)
    {
      RowDrifts(keys, a, b, c, tol, cells, i);
    }
  }

  lemma RowDrifts(keys: nat, a: Table, b: Table, c: Table, tol: Tolerance, cells: iset<Cell>, i: nat)
    requires Comparable(keys, a, b, c) && AllDrawn(keys, cells, a, b, c) && SpellingsTell(tol, cells)
    requires Unmoved(keys, a, b, tol) && Unmoved(keys, b, c, tol) && i < |a.rows|
    ensures RowDrifted(keys, a, b, c, tol, i)
  {
    hide Unmoved, AllDrawn, Comparable, MatchOf, Metrics, SpellingsTell, CellDrifted;
    RowsCompose(keys, a, b, c, tol, i);
    forall m | m in Metrics(keys, a, c)
      ensures CellDrifted(keys, a, b, c, tol, i, m)
    {
      HiddenIsBounded(keys, a, b, c, tol, cells, i, m);
    }
  }

  // ---------------------------------------------------------------- the comparison of a report

  // What a figure is computed under: the model and the access policy, each known by its hash.
  datatype Frame = Frame(model: string, policy: string)

  // One run of the report's query on today's warehouse.
  datatype Outcome = Failed(why: string) | Ran(table: Table)

  type Warehouse = Frame -> Outcome

  datatype Report = Report(frame: Frame, modelKept: bool, modelLoads: bool, keys: nat, table: Table)

  datatype Cause = Definition | Access | Data

  datatype Split = Split(separated: bool, data: seq<RowDiff>, frame: seq<RowDiff>)

  datatype Comparison = Comparison(causes: seq<Cause>, rows: seq<RowDiff>, nowFailed: bool, split: Option<Split>)

  predicate AnyRowMoved(rows: seq<RowDiff>) {
    exists d | d in rows :: d.status != Same
  }

  // The rows that moved, in order.
  function MovedRows(rows: seq<RowDiff>): (r: seq<RowDiff>)
    ensures forall d :: d in r <==> d in rows && d.status != Same
    ensures r != [] <==> AnyRowMoved(rows)
  {
    if rows == [] then []
    else
      var n := |rows| - 1;
      assert rows == rows[..n] + [rows[n]];
      MovedRows(rows[..n]) + if rows[n].status != Same then [rows[n]] else []
  }

  method MovedOnly(rows: seq<RowDiff>) returns (out: seq<RowDiff>)
    ensures out == MovedRows(rows)
  {
    out := [];
    for i := 0 to |rows|
      invariant out == MovedRows(rows[..i])
    {
      assert rows[..i + 1][..i] == rows[..i];
      if rows[i].status != Same {
        out := out + [rows[i]];
      }
    }
    assert rows[..|rows|] == rows;
  }

  /** The moved rows of a list are those of its parts, one part after the other. */
  lemma {:induction false} MovedRowsInOrder(a: seq<RowDiff>, b: seq<RowDiff>)
    ensures MovedRows(a + b) == MovedRows(a) + MovedRows(b)
  {
    hide MovedRows;
    if b == [] {
      assert a + b == a;
      NoneMoved();
    } else {
      var n := |b| - 1;
      assert (a + b)[..|a + b| - 1] == a + b[..n] && (a + b)[|a + b| - 1] == b[n];
      MovedRowsInOrder(a, b[..n]);
      LastMovedRow(b);
      LastMovedRow(a + b);
    }
  }

  lemma NoneMoved()
    ensures MovedRows([]) == []
  {
  }

  lemma LastMovedRow(rows: seq<RowDiff>)
    requires rows != []
    ensures var n := |rows| - 1;
            MovedRows(rows) == MovedRows(rows[..n]) + if rows[n].status != Same then [rows[n]] else []
  {
  }

  // The definition before the access policy.
  function FrameCauses(r: Report, cur: Frame): (causes: seq<Cause>)
    ensures Definition in causes <==> cur.model != r.frame.model
    ensures Access in causes <==> cur.policy != r.frame.policy
    ensures Data !in causes && InOrder(causes)
  {
    (if cur.model != r.frame.model then [Definition] else [])
    + (if cur.policy != r.frame.policy then [Access] else [])
  }

  // Each cause at most once: data, then the definition, then the access policy.
  predicate InOrder(causes: seq<Cause>) {
    causes == (if Data in causes then [Data] else []) + (if Definition in causes then [Definition] else [])
              + (if Access in causes then [Access] else [])
  }

  lemma DataFirst(causes: seq<Cause>)
    requires InOrder(causes) && Data !in causes
    ensures InOrder([]) && InOrder([Data]) && InOrder([Data] + causes)
    ensures [] + causes == causes && [] + [Data] == [Data]
  {
    var d := if Definition in causes then [Definition] else [];
    var a := if Access in causes then [Access] else [];
    assert causes == d + a;
    assert [Data] + causes == [Data] + d + a;
  }

  predicate MovedAgainst(r: Report, t: Table, tol: Tolerance) {
    AnyRowMoved(DiffOf(r.keys, r.table, t, tol))
  }

  // The report's query still runs under the reported definition and policy: the definition is today's, or it was
  // kept with the report and still loads.
  predicate Reruns(r: Report, cur: Frame, today: Warehouse) {
    && today(r.frame).Ran?
    && (cur.model != r.frame.model ==> r.modelKept && r.modelLoads)
  }

  /** The causes a comparison names, each exactly on the evidence for it. Data: under the reported frame today's
    * warehouse gives another result. The definition, or the access policy: it changed, and so did the result with
    * it, as far as the reported frame can still be run to tell.
    */
  ghost predicate Attributed(r: Report, cur: Frame, today: Warehouse, tol: Tolerance, causes: seq<Cause>) {
    var now, rerun := today(cur), today(r.frame);
    var moved := now.Ran? && MovedAgainst(r, now.table, tol);
    var reruns := Reruns(r, cur, today);
    var byFrame := now.Failed? || if reruns then AnyRowMoved(DiffOf(r.keys, rerun.table, now.table, tol)) else moved;
    && (Data in causes <==> if cur == r.frame then moved else reruns && MovedAgainst(r, rerun.table, tol))
    && (Definition in causes <==> cur.model != r.frame.model && byFrame)
    && (Access in causes <==> cur.policy != r.frame.policy && byFrame)
    && InOrder(causes)
  }

  method SplitCauses(r: Report, cur: Frame, today: Warehouse, tol: Tolerance) returns (sp: Split)
    ensures sp.separated <==>
              today(r.frame).Ran? && (cur.model == r.frame.model || (r.modelKept && r.modelLoads))
    ensures sp.data == if !sp.separated then [] else MovedRows(DiffOf(r.keys, r.table, today(r.frame).table, tol))
    ensures sp.frame == if !sp.separated || today(cur).Failed? then []
                        else MovedRows(DiffOf(r.keys, today(r.frame).table, today(cur).table, tol))
  {
    sp := Split(false, [], []);
    if cur.model != r.frame.model && (!r.modelKept || !r.modelLoads) {
      return;
    }
    var replay := today(r.frame);
    if replay.Failed? {
      return;
    }
    var rows := Diff.Diff(r.keys, r.table, replay.table, tol);
    var data := MovedOnly(rows);
    sp := Split(true, data, []);
    match today(cur) {
      case Failed(_) =>
      case Ran(table) =>
        rows := Diff.Diff(r.keys, replay.table, table, tol);
        var frame := MovedOnly(rows);
        sp := sp.(frame := frame);
    }
  }

  /** Reruns the report and names the causes of the difference. */
  method CompareReport(r: Report, cur: Frame, today: Warehouse, tol: Tolerance) returns (c: Comparison)
    ensures Attributed(r, cur, today, tol, c.causes)
    ensures c.nowFailed == today(cur).Failed?
    ensures c.rows == if today(cur).Ran? then DiffOf(r.keys, r.table, today(cur).table, tol) else []
    ensures c.split.Some? <==> cur != r.frame
    ensures c.split.Some? ==>
              && c.split.value.separated == Reruns(r, cur, today)
              && c.split.value.data == (if !Reruns(r, cur, today) then []
                                        else MovedRows(DiffOf(r.keys, r.table, today(r.frame).table, tol)))
              && c.split.value.frame == (if !Reruns(r, cur, today) || today(cur).Failed? then []
                                         else MovedRows(DiffOf(r.keys, today(r.frame).table, today(cur).table, tol)))
  {
    hide DiffOf, AnyRowMoved, MovedRows;
    assert InOrder([]) && InOrder([Data]);
    hide InOrder;
    c := Comparison([], [], false, None);
    match today(cur) {
      case Failed(_) => c := c.(nowFailed := true);
      case Ran(table) =>
        var rows := Diff.Diff(r.keys, r.table, table, tol);
        c := c.(rows := rows);
    }
    var movedRows := MovedOnly(c.rows);
    var moved := movedRows != [];
    NoRowsNoMovement();
    if cur == r.frame {
      if moved {
        c := c.(causes := [Data]);
      }
      return;
    }
    var sp := SplitCauses(r, cur, today, tol);
    c := c.(split := Some(sp));
    var causes := NameCauses(r, cur, sp, moved, c.nowFailed);
    c := c.(causes := causes);
    Evidence(r, cur, today, tol, sp);
  }

  // What the two halves of the way, or else the whole of it, say about the causes.
  method NameCauses(r: Report, cur: Frame, sp: Split, moved: bool, nowFailed: bool) returns (causes: seq<Cause>)
    ensures Data in causes <==> sp.separated && sp.data != []
    ensures Definition in causes <==>
              cur.model != r.frame.model && (nowFailed || if sp.separated then sp.frame != [] else moved)
    ensures Access in causes <==>
              cur.policy != r.frame.policy && (nowFailed || if sp.separated then sp.frame != [] else moved)
    ensures InOrder(causes)
  {
    hide FrameCauses, InOrder;
    DataFirst(FrameCauses(r, cur));
    causes := [];
    if sp.separated {
      if |sp.data| > 0 {
        causes := causes + [Data];
      }
      if |sp.frame| > 0 || nowFailed {
        causes := causes + FrameCauses(r, cur);
      }
    } else if moved || nowFailed {
      causes := causes + FrameCauses(r, cur);
    }
  }

  // The moved rows of the halves are there exactly when these moved.
  lemma Evidence(r: Report, cur: Frame, today: Warehouse, tol: Tolerance, sp: Split)
    requires sp.separated == Reruns(r, cur, today)
    requires sp.data == if !sp.separated then [] else MovedRows(DiffOf(r.keys, r.table, today(r.frame).table, tol))
    requires sp.frame == if !sp.separated || today(cur).Failed? then []
                         else MovedRows(DiffOf(r.keys, today(r.frame).table, today(cur).table, tol))
    ensures sp.separated ==> (sp.data != [] <==> MovedAgainst(r, today(r.frame).table, tol))
    ensures sp.separated && today(cur).Ran? ==>
              (sp.frame != [] <==> AnyRowMoved(DiffOf(r.keys, today(r.frame).table, today(cur).table, tol)))
  {
    hide DiffOf, MovedRows;
  }

  lemma NoRowsNoMovement()
    ensures !AnyRowMoved([])
  {
  }

  // ---------------------------------------------------------------- soundness and completeness

  // Everything the comparison reads has its dimensions in front and its measure cells in the set.
  ghost predicate WellFormed(r: Report, cur: Frame, today: Warehouse, cells: iset<Cell>) {
    var reported, now, replay := r.table, today(cur), today(r.frame);
    && Drawn(r.keys, cells, reported)
    && (now.Ran? ==> Drawn(r.keys, cells, now.table) && KeysApart(r.keys, reported, now.table))
    && (replay.Ran? ==> Drawn(r.keys, cells, replay.table) && KeysApart(r.keys, reported, replay.table))
    && (now.Ran? && replay.Ran? ==> KeysApart(r.keys, replay.table, now.table))
  }

  lemma MovedOrUnmoved(keys: nat, s: Table, t: Table, tol: Tolerance)
    ensures AnyRowMoved(DiffOf(keys, s, t, tol)) <==> !Unmoved(keys, s, t, tol)
  {
  }

  // The report moved, and the comparison names no cause for it.
  ghost predicate Unexplained(r: Report, cur: Frame, today: Warehouse, tol: Tolerance, causes: seq<Cause>) {
    && Attributed(r, cur, today, tol, causes) && causes == []
    && today(cur).Ran? && MovedAgainst(r, today(cur).table, tol)
  }

  // Then the frame changed, the reported frame still ran, and neither half of the way shows a movement.
  lemma UnexplainedHalves(r: Report, cur: Frame, today: Warehouse, tol: Tolerance, causes: seq<Cause>)
    requires Unexplained(r, cur, today, tol, causes)
    ensures cur != r.frame && Reruns(r, cur, today)
    ensures Unmoved(r.keys, r.table, today(r.frame).table, tol)
    ensures Unmoved(r.keys, today(r.frame).table, today(cur).table, tol)
  {
    hide DiffOf, AnyRowMoved, Unmoved;
    assert Data !in causes && Definition !in causes && Access !in causes;
    assert cur != r.frame ==> cur.model != r.frame.model || cur.policy != r.frame.policy;
    MovedOrUnmoved(r.keys, r.table, today(r.frame).table, tol);
    MovedOrUnmoved(r.keys, today(r.frame).table, today(cur).table, tol);
  }

  /** What can move without a cause: never a row that comes or goes, and where the spellings tell, only
    * numbers, each by no more than the two tolerance bounds together.
    */
  lemma UnexplainedDriftIsBounded(r: Report, cur: Frame, today: Warehouse, tol: Tolerance, causes: seq<Cause>,
                                  cells: iset<Cell>)
    requires Unexplained(r, cur, today, tol, causes) && WellFormed(r, cur, today, cells) && SpellingsTell(tol, cells)
    ensures Reruns(r, cur, today)
    ensures OnlyDrifted(r.keys, r.table, today(r.frame).table, today(cur).table, tol)
  {
    hide Attributed, MovedAgainst, Unmoved, Drawn, KeysApart, SpellingsTell, OnlyDrifted;
    UnexplainedHalves(r, cur, today, tol, causes);
    HalvesDrift(r.keys, r.table, today(r.frame).table, today(cur).table, tol, cells);
  }

  lemma MovementHasACause(r: Report, cur: Frame, today: Warehouse, tol: Tolerance, causes: seq<Cause>,
                          cells: iset<Cell>)
    requires TransitiveOn(tol, cells) && WellFormed(r, cur, today, cells)
    requires Attributed(r, cur, today, tol, causes)
    requires today(cur).Ran? && MovedAgainst(r, today(cur).table, tol)
    ensures causes != []
  {
    hide DiffOf, AnyRowMoved, Unmoved, TransitiveOn, Drawn, KeysApart;
    if causes == [] {
      UnexplainedHalves(r, cur, today, tol, causes);
      var now, replay := today(cur).table, today(r.frame).table;
      UnmovedComposes(r.keys, r.table, replay, now, tol, cells);
      MovedOrUnmoved(r.keys, r.table, now, tol);
    }
  }

  // Every report that moved gets a cause, whatever the frame and the warehouse, as long as the measure
  // cells compared are of the set.
  ghost predicate NoMovementUnexplained(tol: Tolerance, cells: iset<Cell>) {
    forall r, cur, today, causes | WellFormed(r, cur, today, cells) :: !Unexplained(r, cur, today, tol, causes)
  }

  // A change spread over the data and the definition, each half of it in agreement.
  lemma ChangeGoesUnexplained(tol: Tolerance, cells: iset<Cell>, x: Cell, y: Cell, z: Cell)
    requires Holds(cells, x) && Holds(cells, y) && Holds(cells, z)
    requires Agree(tol, x, y) && Agree(tol, y, z) && !Agree(tol, x, z)
    ensures !NoMovementUnexplained(tol, cells)
  {
    hide DiffOf, Unmoved, Agree;
    var reported, cur := Frame("v1", "p"), Frame("v2", "p");
    var today: Warehouse := (f: Frame) => if f == reported then Ran(OneCell(y)) else Ran(OneCell(z));
    var r := Report(reported, true, true, 0, OneCell(x));
    OneCellComparison(x, y, tol);
    OneCellComparison(y, z, tol);
    OneCellComparison(x, z, tol);
    MovedOrUnmoved(0, OneCell(x), OneCell(y), tol);
    MovedOrUnmoved(0, OneCell(y), OneCell(z), tol);
    MovedOrUnmoved(0, OneCell(x), OneCell(z), tol);
    assert Attributed(r, cur, today, tol, []);
    assert Unexplained(r, cur, today, tol, []);
    assert WellFormed(r, cur, today, cells);
  }

  /** Main result: whatever the tolerance and the cells that come up, every report that moved gets a cause
    * if and only if the numbers among the cells chain and their spellings tell.
    */
  lemma ExplainedExactly(tol: Tolerance, cells: iset<Cell>)
    ensures NoMovementUnexplained(tol, cells) <==> NumbersChain(tol, cells) && SpellingsTell(tol, cells)
  {
    hide Agree, WellFormed, Unexplained, NumbersChain, SpellingsTell;
    TransitiveOnExactly(tol, cells);
    if TransitiveOn(tol, cells) {
      forall r, cur, today, causes | WellFormed(r, cur, today, cells)
        ensures !Unexplained(r, cur, today, tol, causes)
      {
        if Unexplained(r, cur, today, tol, causes) {
          AlwaysACause(r, cur, today, tol, causes, cells);
        }
      }
    } else {
      var a, b, c :| && Holds(cells, a) && Holds(cells, b) && Holds(cells, c)
                     && Agree(tol, a, b) && Agree(tol, b, c) && !Agree(tol, a, c);
      ChangeGoesUnexplained(tol, cells, a, b, c);
    }
  }

  lemma AlwaysACause(r: Report, cur: Frame, today: Warehouse, tol: Tolerance, causes: seq<Cause>, cells: iset<Cell>)
    requires TransitiveOn(tol, cells) && WellFormed(r, cur, today, cells)
    ensures !Unexplained(r, cur, today, tol, causes)
  {
    hide TransitiveOn, WellFormed, Attributed, MovedAgainst;
    if Unexplained(r, cur, today, tol, causes) {
      MovementHasACause(r, cur, today, tol, causes, cells);
    }
  }

  // Compared exactly, or all alike, the numbers always chain: it is the spellings that decide.
  lemma ExplainedWhenExact(tol: Tolerance, cells: iset<Cell>)
    requires StepsCannotAddUp(tol)
    ensures NoMovementUnexplained(tol, cells) <==> SpellingsTell(tol, cells)
  {
    hide NoMovementUnexplained, SpellingsTell;
    ExplainedExactly(tol, cells);
    assert NumbersChain(tol, cells) by {
      forall a, b, c | a in cells && b in cells && c in cells && a.Num? && b.Num? && c.Num?
        ensures Agree(tol, a, b) && Agree(tol, b, c) ==> Agree(tol, a, c)
      {
        if tol.relative >= 2.0 {
          AllNumbersAgree(tol, a.value, c.value);
        }
      }
    }
  }

  // The cells of a warehouse that reads its numbers off their texts, and has these texts for labels.
  ghost function ReadCells(valueOf: Reading, labels: iset<string>): iset<Cell> {
    iset c: Cell | IsRead(valueOf, labels, c)
  }

  ghost predicate IsRead(valueOf: Reading, labels: iset<string>, c: Cell) {
    match c
    case Null => true
    case Num(v, s) => valueOf(s) == Some(v)
    case Label(t) => t in labels
  }

  /** For tolerances that are not negative, over all cells that are read in such a way: every report that moved
    * gets a cause if and only if the tolerance is zero or so loose that all numbers agree, and the spellings
    * tell; which they do when no label spells a number.
    */
  lemma AttributionIsComplete(tol: Tolerance, valueOf: Reading, labels: iset<string>)
    requires tol.absolute >= 0.0 && tol.relative >= 0.0 && SpellsEnough(valueOf)
    ensures NoMovementUnexplained(tol, ReadCells(valueOf, labels)) <==>
            StepsCannotAddUp(tol) && SpellingsTell(tol, ReadCells(valueOf, labels))
    ensures valueOf(TextOf(Null)).None? && (forall t | t in labels :: valueOf(t).None?) ==>
              SpellingsTell(tol, ReadCells(valueOf, labels))
  {
    hide NoMovementUnexplained, NumbersChain, SpellingsTell, SpellsEnough, ReadCells;
    var cells := ReadCells(valueOf, labels);
    PlainSpellingsTell(tol, valueOf, labels);
    ExplainedExactly(tol, cells);
    if StepsCannotAddUp(tol) {
      ExplainedWhenExact(tol, cells);
    } else {
      var x, y, z := SmallStepsAddUp(tol, valueOf);
      DoesNotChain(tol, valueOf, labels, x, y, z);
    }
  }

  lemma PlainSpellingsTell(tol: Tolerance, valueOf: Reading, labels: iset<string>)
    ensures valueOf(TextOf(Null)).None? && (forall t | t in labels :: valueOf(t).None?) ==>
              SpellingsTell(tol, ReadCells(valueOf, labels))
  {
    hide Agree;
    var cells := ReadCells(valueOf, labels);
    if valueOf(TextOf(Null)).None? && (forall t | t in labels :: valueOf(t).None?) {
      forall b, c | b in cells && Holds(cells, c) && b.Num? && !c.Num?
        ensures b.spelled != TextOf(c)
      {
        assert IsRead(valueOf, labels, b) && IsRead(valueOf, labels, c);
      }
    }
  }

  lemma DoesNotChain(tol: Tolerance, valueOf: Reading, labels: iset<string>, x: real, y: real, z: real)
    requires Spelled(valueOf, x) && Spelled(valueOf, y) && Spelled(valueOf, z)
    requires NumbersAgree(tol, x, y) && NumbersAgree(tol, y, z) && !NumbersAgree(tol, x, z)
    ensures !NumbersChain(tol, ReadCells(valueOf, labels))
  {
    hide NumbersAgree;
    var r :| valueOf(r) == Some(x);
    var s :| valueOf(s) == Some(y);
    var t :| valueOf(t) == Some(z);
    var a, b, c := Num(x, r), Num(y, s), Num(z, t);
    assert a in ReadCells(valueOf, labels) && b in ReadCells(valueOf, labels) && c in ReadCells(valueOf, labels);
  }
}
