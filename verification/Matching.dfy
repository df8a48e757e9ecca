/** Order-insensitive result matching: numbers by sorting and comparing within a relative tolerance,
  * names by counting.
  */
module Matching {
  import opened Basics

  function Scale(x: real, y: real): (s: real)
    ensures s >= 1.0 && s >= Abs(x) && s >= Abs(y)
  {
    Max(Max(Abs(x), Abs(y)), 1.0)
  }

  predicate Close(x: real, y: real, tol: real) {
    Abs(x - y) / Scale(x, y) <= tol
  }

  predicate Pairwise(a: seq<real>, b: seq<real>, tol: real) {
    |a| == |b| && forall i | 0 <= i < |a| :: Close(a[i], b[i], tol)
  }

  /** Some one-to-one pairing of the two lists matches every pair. */
  ghost predicate Matchable(a: seq<real>, b: seq<real>, tol: real) {
    exists c: seq<real> :: multiset(c) == multiset(b) && Pairwise(a, c, tol)
  }

  // ---------------------------------------------------------------- sorting

  ghost predicate Sorted(s: seq<real>) {
    forall i, j | 0 <= i < j < |s| :: s[i] <= s[j]
  }

  function Position(x: real, s: seq<real>): (p: nat)
    ensures p <= |s|
    ensures forall i | 0 <= i < p :: s[i] <= x
    ensures p < |s| ==> x < s[p]
  {
    if s == [] || x < s[0] then 0 else 1 + Position(x, s[1..])
  }

  function Insert(x: real, s: seq<real>): seq<real> {
    s[..Position(x, s)] + [x] + s[Position(x, s)..]
  }

  function Sort(s: seq<real>): (r: seq<real>)
    ensures |r| == |s|
  {
    if s == [] then [] else Insert(s[0], Sort(s[1..]))
  }

  lemma InsertKeepsSorted(x: real, s: seq<real>)
    requires Sorted(s)
    ensures Sorted(Insert(x, s))
  {
    hide Position;
    var p, r := Position(x, s), Insert(x, s);
    forall i, j | 0 <= i < j < |r|
      ensures r[i] <= r[j]
    {
      assert r[i] == if i < p then s[i] else if i == p then x else s[i - 1];
      assert r[j] == if j < p then s[j] else if j == p then x else s[j - 1];
    }
  }

  lemma InsertAddsOne(x: real, s: seq<real>)
    ensures multiset(Insert(x, s)) == multiset(s) + multiset{x}
  {
    var p := Position(x, s);
    assert s == s[..p] + s[p..];
  }

  lemma {:induction false} SortSorts(s: seq<real>)
    ensures Sorted(Sort(s)) && multiset(Sort(s)) == multiset(s)
  {
    if s != [] {
      SortSorts(s[1..]);
      InsertKeepsSorted(s[0], Sort(s[1..]));
      InsertAddsOne(s[0], Sort(s[1..]));
      assert s == [s[0]] + s[1..];
    }
  }

  lemma HeadRemoved(s: seq<real>)
    requires s != []
    ensures multiset(s[1..]) == multiset(s) - multiset{s[0]}
  {
    assert s == [s[0]] + s[1..];
  }

  lemma SameHead(s: seq<real>, t: seq<real>)
    requires Sorted(s) && Sorted(t) && multiset(s) == multiset(t) && s != []
    ensures t != [] && s[0] == t[0] && multiset(s[1..]) == multiset(t[1..])
  {
    HeadRemoved(s);
    assert s[0] in multiset(t) && t[0] in multiset(s);
    HeadRemoved(t);
  }

  lemma SortedTail(s: seq<real>)
    requires Sorted(s) && s != []
    ensures Sorted(s[1..])
  {
  }

  lemma {:induction false} SortedIsUnique(s: seq<real>, t: seq<real>)
    requires Sorted(s) && Sorted(t) && multiset(s) == multiset(t)
    ensures s == t
  {
    hide Sorted;
    assert |s| == |multiset(s)| == |multiset(t)| == |t|;
    if s != [] {
      SameHead(s, t);
      SortedTail(s);
      SortedTail(t);
      SortedIsUnique(s[1..], t[1..]);
      assert s == [s[0]] + s[1..] && t == [t[0]] + t[1..];
    }
  }

  // Sorts in place, by insertion.
  method SortInPlace(a: array<real>)
    modifies a
    ensures a[..] == Sort(old(a[..]))
  {
    hide Sort;
    for n := 0 to a.Length
      invariant Sorted(a[..n])
      invariant multiset(a[..]) == multiset(old(a[..]))
    {
      SiftDown(a, n);
    }
    assert a[..a.Length] == a[..];
    SortSorts(old(a[..]));
    SortedIsUnique(a[..], Sort(old(a[..])));
  }

  // The first n + 1 numbers are sorted but for the one at i, which is less than all behind it.
  ghost predicate SortedBut(s: seq<real>, n: nat, i: nat) {
    n < |s| && forall j, k | 0 <= j < k <= n && k != i :: s[j] <= s[k]
  }

  lemma SwapDown(s: seq<real>, n: nat, i: nat)
    requires SortedBut(s, n, i) && 0 < i <= n && s[i] < s[i - 1]
    ensures var t := s[i := s[i - 1]][i - 1 := s[i]];
            SortedBut(t, n, i - 1) && multiset(t) == multiset(s)
  {
  }

  // Moves a[n] down to its place among the sorted numbers before it.
  method SiftDown(a: array<real>, n: nat)
    requires n < a.Length && Sorted(a[..n])
    modifies a
    ensures Sorted(a[..n + 1]) && multiset(a[..]) == multiset(old(a[..]))
  {
    var i := n;
    assert SortedBut(a[..], n, n) by {
      assert forall j | 0 <= j < n :: a[j] == a[..n][j];
    }
    while i > 0 && a[i] < a[i - 1]
      invariant 0 <= i <= n && SortedBut(a[..], n, i)
      invariant multiset(a[..]) == multiset(old(a[..]))
    {
      hide SortedBut;
      SwapDown(a[..], n, i);
      ghost var s := a[..];
      a[i], a[i - 1] := a[i - 1], a[i];
      assert a[..] == s[i := s[i - 1]][i - 1 := s[i]];
      i := i - 1;
    }
    InPlace(a[..], n, i);
  }

  lemma InPlace(s: seq<real>, n: nat, i: nat)
    requires SortedBut(s, n, i) && i <= n && (i > 0 ==> s[i - 1] <= s[i])
    ensures Sorted(s[..n + 1])
  {
    forall j, k | 0 <= j < k <= n
      ensures s[j] <= s[k]
    {
      if k == i && j < i - 1 {
        assert s[j] <= s[i - 1];
      }
    }
  }

  /** Sorts both lists in place and compares them position by position. */
  method FloatsEq(a: array<real>, b: array<real>, tol: real) returns (eq: bool)
    requires a != b
    modifies a, b
    ensures eq == Pairwise(Sort(old(a[..])), Sort(old(b[..])), tol)
    ensures if a.Length == b.Length
            then a[..] == Sort(old(a[..])) && b[..] == Sort(old(b[..]))
            else a[..] == old(a[..]) && b[..] == old(b[..])
  {
    hide Sort, Close;
    if a.Length != b.Length {
      return false;
    }
    SortInPlace(a);
    SortInPlace(b);
    for i := 0 to a.Length
      invariant a[..] == Sort(old(a[..])) && b[..] == Sort(old(b[..]))
      invariant forall j | 0 <= j < i :: Close(a[j], b[j], tol)
    {
      var near := Near(a[i], b[i], tol);
      if !near {
        assert !Close(a[..][i], b[..][i], tol);
        return false;
      }
    }
    return true;
  }

  // The distance of two numbers, relative to the larger of them and of one.
  method Near(x: real, y: real, tol: real) returns (near: bool)
    ensures near == Close(x, y, tol)
  {
    var d := x - y;
    if d < 0.0 {
      d := -d;
    }
    var scale := Abs(x);
    if Abs(y) > scale {
      scale := Abs(y);
    }
    if scale < 1.0 {
      scale := 1.0;
    }
    near := d / scale <= tol;
  }

  // ---------------------------------------------------------------- the exchange argument

  lemma CloseByProduct(x: real, y: real, tol: real)
    ensures Close(x, y, tol) <==> Abs(x - y) <= tol * Scale(x, y)
  {
    var d, s := Abs(x - y), Scale(x, y);
    Quotient(d, s);
    if d / s <= tol {
      ScaledOrder(d / s, tol, s);
    } else {
      ScaledOrder(tol, d / s, s);
    }
  }

  // Moving one number towards the other keeps them close, as long as the scale moves no faster.
  lemma CloserStaysClose(x: real, y: real, z: real, tol: real)
    requires 0.0 <= tol <= 1.0 && x <= y <= z && Close(x, z, tol)
    ensures Close(x, y, tol) && Close(y, z, tol)
  {
    hide Close, Scale;
    SteadyScale(x, y, z);
    CloserBy(x, z, x, y, z - y, tol);
    CloserBy(x, z, y, z, y - x, tol);
  }

  lemma ScaleIsSteady(tol: real, s: real, t: real, gap: real)
    requires 0.0 <= tol <= 1.0 && 0.0 <= gap && s - t <= gap
    ensures tol * s - gap <= tol * t
  {
    if s <= t {
      ProductSign(tol, t - s);
      assert tol * (t - s) == tol * t - tol * s;
    } else {
      ProductSign(1.0 - tol, s - t);
      assert (1.0 - tol) * (s - t) == (s - t) - (tol * s - tol * t);
    }
  }

  lemma CloserBy(x: real, z: real, a: real, b: real, gap: real, tol: real)
    requires 0.0 <= tol <= 1.0 && x <= z && a <= b && 0.0 <= gap && b - a == z - x - gap
    requires Close(x, z, tol) && Scale(x, z) - Scale(a, b) <= gap
    ensures Close(a, b, tol)
  {
    hide Close, Scale;
    CloseByProduct(x, z, tol);
    CloseByProduct(a, b, tol);
    StillWithin(tol, Scale(x, z), Scale(a, b), z - x, gap);
  }

  lemma SteadyScale(x: real, y: real, z: real)
    requires x <= y <= z
    ensures Scale(x, z) - Scale(x, y) <= z - y && Scale(x, z) - Scale(y, z) <= y - x
  {
  }

  lemma StillWithin(tol: real, s: real, t: real, far: real, gap: real)
    requires 0.0 <= tol <= 1.0 && 0.0 <= gap && s - t <= gap && far <= tol * s
    ensures far - gap <= tol * t
  {
    ScaleIsSteady(tol, s, t, gap);
  }

  /** The tolerances under which sorting loses no pairing. */
  predicate Orderly(tol: real) {
    !(1.0 < tol < 2.0)
  }

  lemma ExtremeTolerances(x: real, y: real, tol: real)
    ensures tol >= 2.0 ==> Close(x, y, tol)
    ensures tol < 0.0 ==> !Close(x, y, tol)
  {
    CloseByProduct(x, y, tol);
    var s := Scale(x, y);
    if tol >= 2.0 {
      ScaledOrder(2.0, tol, s);
    } else if tol < 0.0 {
      ScaledOrder(tol, 0.0, s);
    }
  }

  // Uncrossing two close pairs leaves two close pairs.
  lemma Uncross(a1: real, a2: real, b1: real, b2: real, tol: real)
    requires Orderly(tol) && a1 <= a2 && b1 <= b2
    requires Close(a1, b2, tol) && Close(a2, b1, tol)
    ensures Close(a1, b1, tol) && Close(a2, b2, tol)
  {
    ExtremeTolerances(a1, b1, tol);
    ExtremeTolerances(a2, b2, tol);
    ExtremeTolerances(a1, b2, tol);
    if 0.0 <= tol <= 1.0 {
      if a1 <= b1 {
        CloserStaysClose(a1, b1, b2, tol);
      } else {
        CloserStaysClose(b1, a1, a2, tol);
      }
      if a2 <= b2 {
        CloserStaysClose(a1, a2, b2, tol);
      } else {
        CloserStaysClose(b1, b2, a2, tol);
      }
    }
  }

  function MinIndex(s: seq<real>): (m: nat)
    requires s != []
    ensures m < |s| && forall i | 0 <= i < |s| :: s[m] <= s[i]
  {
    if |s| == 1 then 0
    else
      var m := MinIndex(s[1..]) + 1;
      if s[0] <= s[m] then 0 else m
  }

  // A list paired with a sorted one may as well be sorted itself.
  lemma {:induction false} SortingKeepsPairs(a: seq<real>, c: seq<real>, tol: real)
    requires Orderly(tol) && Sorted(a) && Pairwise(a, c, tol)
    ensures Pairwise(a, Sort(c), tol)
    decreases |a|
  {
    if a != [] {
      var m := MinIndex(c);
      var swapped := c[0 := c[m]][m := c[0]];
      if m != 0 {
        Uncross(a[0], a[m], c[m], c[0], tol);
      }
      hide Close, Sort;
      SortingKeepsPairs(a[1..], swapped[1..], tol);
      MinComesFirst(c, m, swapped);
      PairsWith(a[0], c[m], a[1..], Sort(swapped[1..]), tol);
      assert a == [a[0]] + a[1..];
    }
  }

  lemma MinComesFirst(c: seq<real>, m: nat, swapped: seq<real>)
    requires c != [] && m == MinIndex(c) && swapped == c[0 := c[m]][m := c[0]]
    ensures Sort(c) == [c[m]] + Sort(swapped[1..])
  {
    hide Sort;
    var rest := Sort(swapped[1..]);
    SortSorts(c);
    SortSorts(swapped[1..]);
    assert swapped == [c[m]] + swapped[1..];
    SwapKeepsElements(c, m);
    LeastFirst(c[m], rest, c);
    SortedIsUnique(Sort(c), [c[m]] + rest);
  }

  lemma LeastFirst(least: real, rest: seq<real>, c: seq<real>)
    requires Sorted(rest) && multiset(c) == multiset{least} + multiset(rest)
    requires forall i | 0 <= i < |c| :: least <= c[i]
    ensures Sorted([least] + rest) && multiset([least] + rest) == multiset(c)
  {
    forall i | 0 <= i < |rest|
      ensures least <= rest[i]
    {
      assert rest[i] in multiset(rest);
      assert rest[i] in multiset(c);
    }
  }

  lemma SwapKeepsElements(c: seq<real>, m: nat)
    requires m < |c|
    ensures multiset(c[0 := c[m]][m := c[0]]) == multiset(c)
  {
  }

  lemma SortAt(a: seq<real>)
    requires a != []
    ensures Sort(a) == Insert(a[0], Sort(a[1..]))
  {
  }

  lemma OneMoreElement(e: seq<real>, p: nat, c: seq<real>)
    requires p <= |e| && c != [] && multiset(e) == multiset(c[1..])
    ensures multiset(e[..p] + [c[0]] + e[p..]) == multiset(c)
  {
    assert e == e[..p] + e[p..] && c == [c[0]] + c[1..];
  }

  // Sorting one side of a pairing rearranges the other.
  lemma {:induction false} SortLeft(a: seq<real>, c: seq<real>, tol: real) returns (d: seq<real>)
    requires Pairwise(a, c, tol)
    ensures multiset(d) == multiset(c) && Pairwise(Sort(a), d, tol)
    decreases |a|
  {
    if a == [] {
      d := c;
    } else {
      hide Sort, Insert, Close, Position;
      SortAt(a);
      var e := SortLeft(a[1..], c[1..], tol);
      var p := Position(a[0], Sort(a[1..]));
      d := e[..p] + [c[0]] + e[p..];
      InsertKeepsPairs(a[0], c[0], Sort(a[1..]), e, tol);
      OneMoreElement(e, p, c);
    }
  }

  lemma InsertKeepsPairs(x: real, y: real, s: seq<real>, e: seq<real>, tol: real)
    requires |s| == |e| && Pairwise(s, e, tol)
    ensures var p := Position(x, s);
            Close(x, y, tol) <==> Pairwise(Insert(x, s), e[..p] + [y] + e[p..], tol)
  {
    var p := Position(x, s);
    var r, d := Insert(x, s), e[..p] + [y] + e[p..];
    assert r[p] == x && d[p] == y;
    forall i | 0 <= i < |r| && i != p
      ensures Close(r[i], d[i], tol)
    {
      var j := if i < p then i else i - 1;
      assert r[i] == s[j] && d[i] == e[j];
    }
  }

  lemma PairsWithout(x: real, t: seq<real>, d: seq<real>, tol: real)
    requires Pairwise(Insert(x, t), d, tol)
    ensures var p := Position(x, t);
            |d| == |t| + 1 && Close(x, d[p], tol) && Pairwise(t, d[..p] + d[p + 1..], tol)
  {
    hide Close;
    var p, r := Position(x, t), Insert(x, t);
    var e := d[..p] + d[p + 1..];
    assert r[p] == x;
    forall i | 0 <= i < |t|
      ensures Close(t[i], e[i], tol)
    {
      var j := if i < p then i else i + 1;
      assert t[i] == r[j] && e[i] == d[j];
    }
  }

  lemma WithoutOne(d: seq<real>, p: nat)
    requires p < |d|
    ensures multiset(d) == multiset{d[p]} + multiset(d[..p] + d[p + 1..])
  {
    assert d == d[..p] + [d[p]] + d[p + 1..];
  }

  lemma PairsWith(x: real, y: real, a: seq<real>, c: seq<real>, tol: real)
    requires Close(x, y, tol) && Pairwise(a, c, tol)
    ensures Pairwise([x] + a, [y] + c, tol)
  {
    hide Close;
  }

  lemma {:induction false} UnsortLeft(a: seq<real>, d: seq<real>, tol: real) returns (c: seq<real>)
    requires Pairwise(Sort(a), d, tol)
    ensures multiset(c) == multiset(d) && Pairwise(a, c, tol)
    decreases |a|
  {
    if a == [] {
      c := d;
    } else {
      hide Sort, Insert, Close, Position;
      SortAt(a);
      var p := Position(a[0], Sort(a[1..]));
      PairsWithout(a[0], Sort(a[1..]), d, tol);
      var f := UnsortLeft(a[1..], d[..p] + d[p + 1..], tol);
      c := [d[p]] + f;
      WithoutOne(d, p);
      assert a == [a[0]] + a[1..];
      PairsWith(a[0], d[p], a[1..], f, tol);
    }
  }

  // Whatever sorting accepts has a pairing.
  lemma SortedMatchIsAMatch(a: seq<real>, b: seq<real>, tol: real)
    requires Pairwise(Sort(a), Sort(b), tol)
    ensures Matchable(a, b, tol)
  {
    var c := UnsortLeft(a, Sort(b), tol);
    SortSorts(b);
    assert multiset(c) == multiset(b);
  }

  lemma MatchIsASortedMatch(a: seq<real>, b: seq<real>, tol: real)
    requires Orderly(tol) && Matchable(a, b, tol)
    ensures Pairwise(Sort(a), Sort(b), tol)
  {
    var c :| multiset(c) == multiset(b) && Pairwise(a, c, tol);
    var d := SortLeft(a, c, tol);
    SortSorts(a);
    SortingKeepsPairs(Sort(a), d, tol);
    SortSorts(d);
    SortSorts(b);
    SortedIsUnique(Sort(d), Sort(b));
  }

  // Between one and two the scale of a far partner outgrows the distance to it.
  lemma LooseToleranceLosesAMatch(tol: real)
    requires 1.0 < tol < 2.0
    ensures var a, b := [-1.0, 1.0], [1.0, 1.0 / (tol - 1.0)];
            Matchable(a, b, tol) && !Pairwise(Sort(a), Sort(b), tol)
  {
    var far := 1.0 / (tol - 1.0);
    var a, b, c := [-1.0, 1.0], [1.0, far], [far, 1.0];
    hide Close, Sort;
    FarIsClose(tol, far);
    assert multiset(c) == multiset(b) && Pairwise(a, c, tol);
    SortedPair(-1.0, 1.0);
    SortedPair(1.0, far);
    assert !Close(Sort(a)[0], Sort(b)[0], tol);
  }

  lemma FarIsFar(k: real, far: real)
    requires 0.0 < k < 1.0 && far == 1.0 / k
    ensures k * far == 1.0 && far > 1.0
  {
    Quotient(1.0, k);
    if far <= 1.0 {
      ScaledOrder(far, 1.0, k);
    }
  }

  lemma Quotient(a: real, b: real)
    requires b != 0.0
    ensures a / b * b == a
  {
  }

  lemma FarIsClose(tol: real, far: real)
    requires 1.0 < tol < 2.0 && far == 1.0 / (tol - 1.0)
    ensures far > 1.0 && Close(-1.0, far, tol) && Close(1.0, 1.0, tol) && !Close(-1.0, 1.0, tol)
  {
    hide Close;
    FarIsFar(tol - 1.0, far);
    assert tol * far == (tol - 1.0) * far + far;
    assert Scale(-1.0, far) == far && Scale(1.0, 1.0) == 1.0 && Scale(-1.0, 1.0) == 1.0;
    CloseByProduct(-1.0, far, tol);
    CloseByProduct(1.0, 1.0, tol);
    CloseByProduct(-1.0, 1.0, tol);
  }

  lemma SortedPair(x: real, y: real)
    requires x <= y
    ensures Sort([x, y]) == [x, y]
  {
    SortSorts([x, y]);
    SortedIsUnique(Sort([x, y]), [x, y]);
  }

  /** Main result: comparing sorted lists decides the existence of a one-to-one pairing within
    * tolerance, for all lists, exactly when the tolerance does not lie strictly between one and two.
    */
  lemma SortedMatchingIsExact(tol: real)
    ensures Orderly(tol) <==> forall a, b :: Pairwise(Sort(a), Sort(b), tol) <==> Matchable(a, b, tol)
  {
    if Orderly(tol) {
      forall a: seq<real>, b: seq<real>
        ensures Pairwise(Sort(a), Sort(b), tol) <==> Matchable(a, b, tol)
      {
        if Pairwise(Sort(a), Sort(b), tol) {
          SortedMatchIsAMatch(a, b, tol);
        }
        if Matchable(a, b, tol) {
          MatchIsASortedMatch(a, b, tol);
        }
      }
    } else {
      LooseToleranceLosesAMatch(tol);
    }
  }

  // ---------------------------------------------------------------- names

  // The map holds how much oftener a name occurs in a than in b.
  ghost predicate Tallies(m: map<string, int>, a: multiset<string>, b: multiset<string>) {
    forall x :: a[x] as int - b[x] == if x in m then m[x] else 0
  }

  function Add(m: map<string, int>, x: string, n: int): map<string, int> {
    m[x := (if x in m then m[x] else 0) + n]
  }

  lemma OneMoreTallied(m: map<string, int>, a: multiset<string>, b: multiset<string>, x: string)
    requires Tallies(m, a, b)
    ensures Tallies(Add(m, x, 1), a + multiset{x}, b) && Tallies(Add(m, x, -1), a, b + multiset{x})
  {
  }

  lemma EqualTallies(m: map<string, int>, a: multiset<string>, b: multiset<string>)
    requires Tallies(m, a, b)
    ensures a == b <==> forall x | x in m :: m[x] == 0
  {
    if forall x | x in m :: m[x] == 0 {
      forall x
        ensures a[x] == b[x]
      {
      }
    }
  }

  /** Names match when each occurs equally often. */
  method SetEq(a: seq<string>, b: seq<string>) returns (eq: bool)
    ensures eq <==> multiset(a) == multiset(b)
  {
    hide Tallies;
    if |a| != |b| {
      assert |multiset(a)| != |multiset(b)|;
      return false;
    }
    var m: map<string, int> := map[];
    assert Tallies(m, multiset(a[..0]), multiset(b[..0])) by { NothingTallied(); }
    for i := 0 to |a|
      invariant Tallies(m, multiset(a[..i]), multiset(b[..0]))
    {
      assert a[..i + 1] == a[..i] + [a[i]];
      OneMoreTallied(m, multiset(a[..i]), multiset(b[..0]), a[i]);
      m := Add(m, a[i], 1);
    }
    for i := 0 to |b|
      invariant Tallies(m, multiset(a[..|a|]), multiset(b[..i]))
    {
      assert b[..i + 1] == b[..i] + [b[i]];
      OneMoreTallied(m, multiset(a[..|a|]), multiset(b[..i]), b[i]);
      m := Add(m, b[i], -1);
    }
    assert a[..|a|] == a && b[..|b|] == b;
    eq := forall x | x in m :: m[x] == 0;
    EqualTallies(m, multiset(a), multiset(b));
  }

  lemma NothingTallied()
    ensures Tallies(map[], multiset{}, multiset{})
  {
  }
}
