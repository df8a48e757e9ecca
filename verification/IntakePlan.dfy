/** Intake plans as decisions about columns: their canonical form, amendments, and drift from the catalogue. */
module IntakePlan {
  import opened Basics

  datatype Action = Keep | Mask | Redact | Unknown(spelling: string)

  datatype Treatment = Treatment(table: string, column: string, kind: string, personal: bool, action: Action,
                                 reason: string, who: string)

  // An empty column means every column of the table.
  datatype Change = Change(table: string, column: string, action: Action, reason: string)

  // What was decided, without who said so and why.
  datatype Decision = Decision(table: string, column: string, kind: string, personal: bool, action: Action)

  datatype Canonical = Canonical(source: string, driver: string, columns: seq<Decision>)

  // ---------------------------------------------------------------- the order columns are sorted in

  predicate AtMost(a: string, b: string) {
    a == [] || (b != [] && (a[0] < b[0] || (a[0] == b[0] && AtMost(a[1..], b[1..]))))
  }

  lemma {:induction false} AtMostIsTotal(a: string, b: string)
    ensures AtMost(a, b) || AtMost(b, a)
    ensures AtMost(a, b) && AtMost(b, a) ==> a == b
  {
    if a != [] && b != [] && a[0] == b[0] {
      AtMostIsTotal(a[1..], b[1..]);
      assert a == [a[0]] + a[1..] && b == [b[0]] + b[1..];
    }
  }

  lemma {:induction false} AtMostIsTransitive(a: string, b: string, c: string)
    requires AtMost(a, b) && AtMost(b, c)
    ensures AtMost(a, c)
  {
    if a != [] && a[0] == b[0] && b[0] == c[0] {
      AtMostIsTransitive(a[1..], b[1..], c[1..]);
    }
  }

  // By table, and within a table by column.
  predicate NotAfter(x: Decision, y: Decision) {
    if x.table != y.table then AtMost(x.table, y.table) else AtMost(x.column, y.column)
  }

  predicate SameColumn(x: Decision, y: Decision) {
    x.table == y.table && x.column == y.column
  }

  lemma NotAfterOrders(x: Decision, y: Decision, z: Decision)
    ensures NotAfter(x, y) || NotAfter(y, x)
    ensures NotAfter(x, y) && NotAfter(y, x) ==> SameColumn(x, y)
    ensures NotAfter(x, y) && NotAfter(y, z) ==> NotAfter(x, z)
  {
    AtMostIsTotal(x.table, y.table);
    AtMostIsTotal(x.column, y.column);
    if NotAfter(x, y) && NotAfter(y, z) {
      AtMostIsTotal(x.table, z.table);
      if x.table != y.table && y.table != z.table {
        AtMostIsTransitive(x.table, y.table, z.table);
        AtMostIsTotal(y.table, z.table);
      } else if x.table == y.table == z.table {
        AtMostIsTransitive(x.column, y.column, z.column);
      }
    }
  }

  predicate InOrder(ds: seq<Decision>) {
    forall i, j | 0 <= i < j < |ds| :: NotAfter(ds[i], ds[j])
  }

  predicate NoRepeats(ds: seq<Decision>) {
    forall i, j | 0 <= i < j < |ds| :: !SameColumn(ds[i], ds[j])
  }

  function Insert(ds: seq<Decision>, d: Decision): seq<Decision> {
    if ds == [] then [d]
    else if NotAfter(d, ds[0]) then [d] + ds
    else [ds[0]] + Insert(ds[1..], d)
  }

  function Sort(ds: seq<Decision>): seq<Decision> {
    if ds == [] then [] else Insert(Sort(ds[1..]), ds[0])
  }

  lemma FrontKeepsOrder(d: Decision, ds: seq<Decision>)
    requires InOrder(ds) && ds != [] && NotAfter(d, ds[0])
    ensures InOrder([d] + ds)
  {
    forall j | 0 <= j < |ds|
      ensures NotAfter(d, ds[j])
    {
      NotAfterOrders(d, ds[0], ds[j]);
    }
  }

  lemma InsertedAfter(ds: seq<Decision>, d: Decision, rest: seq<Decision>)
    requires ds != [] && InOrder(ds) && InOrder(rest) && NotAfter(ds[0], d)
    requires multiset(rest) == multiset(ds[1..]) + multiset{d}
    ensures InOrder([ds[0]] + rest)
  {
    hide NotAfter;
    forall j | 0 <= j < |rest|
      ensures NotAfter(ds[0], rest[j])
    {
      assert rest[j] in multiset(rest);
      assert rest[j] == d || rest[j] in multiset(ds[1..]);
    }
  }

  lemma {:induction false} InsertKeepsOrder(ds: seq<Decision>, d: Decision)
    requires InOrder(ds)
    ensures InOrder(Insert(ds, d)) && multiset(Insert(ds, d)) == multiset(ds) + multiset{d}
  {
    if ds != [] {
      assert ds == [ds[0]] + ds[1..];
      NotAfterOrders(d, ds[0], d);
      hide NotAfter;
      if NotAfter(d, ds[0]) {
        FrontKeepsOrder(d, ds);
      } else {
        InsertKeepsOrder(ds[1..], d);
        InsertedAfter(ds, d, Insert(ds[1..], d));
      }
    }
  }

  lemma {:induction false} SortIsRight(ds: seq<Decision>)
    ensures InOrder(Sort(ds)) && multiset(Sort(ds)) == multiset(ds)
  {
    if ds != [] {
      SortIsRight(ds[1..]);
      InsertKeepsOrder(Sort(ds[1..]), ds[0]);
      assert ds == [ds[0]] + ds[1..];
    }
  }

  lemma HeadIsFirst(ds: seq<Decision>, d: Decision)
    requires InOrder(ds) && d in ds
    ensures NotAfter(ds[0], d)
  {
    NotAfterOrders(d, d, d);
  }

  lemma SameHead(a: seq<Decision>, b: seq<Decision>)
    requires InOrder(a) && InOrder(b) && NoRepeats(a) && a != [] && b != [] && a[0] in b && b[0] in a
    ensures a[0] == b[0]
  {
    HeadIsFirst(a, b[0]);
    HeadIsFirst(b, a[0]);
    NotAfterOrders(a[0], b[0], a[0]);
  }

  lemma TailStays(a: seq<Decision>)
    requires a != []
    ensures multiset(a[1..]) == multiset(a) - multiset{a[0]}
    ensures InOrder(a) ==> InOrder(a[1..])
    ensures NoRepeats(a) ==> NoRepeats(a[1..])
  {
    hide NotAfter, SameColumn;
    assert a == [a[0]] + a[1..];
  }

  /** However it is sorted, decisions about different columns have one order. */
  lemma {:induction false} OneOrder(a: seq<Decision>, b: seq<Decision>)
    requires InOrder(a) && InOrder(b) && NoRepeats(a) && multiset(a) == multiset(b)
    ensures a == b
    decreases |a|
  {
    hide InOrder, NoRepeats;
    assert |a| == |multiset(a)| && |b| == |multiset(b)|;
    if a != [] {
      assert a[0] in multiset(b) && b[0] in multiset(a);
      SameHead(a, b);
      TailStays(a);
      TailStays(b);
      OneOrder(a[1..], b[1..]);
      assert a == [a[0]] + a[1..] && b == [b[0]] + b[1..];
    }
  }

  // ---------------------------------------------------------------- the canonical form

  function DecisionOf(t: Treatment): Decision {
    Decision(t.table, t.column, t.kind, t.personal, t.action)
  }

  function Decisions(columns: seq<Treatment>): seq<Decision> {
    seq(|columns|, i requires 0 <= i < |columns| => DecisionOf(columns[i]))
  }

  function CanonicalOf(source: string, driver: string, columns: seq<Treatment>): Canonical {
    Canonical(source, driver, Sort(Decisions(columns)))
  }

  // Every column of a catalogue is listed once.
  predicate OneEach(columns: seq<Treatment>) {
    NoRepeats(Decisions(columns))
  }

  /** Fills the canonical columns and sorts them. */
  method CanonicalPlan(source: string, driver: string, columns: seq<Treatment>) returns (c: Canonical)
    ensures c == CanonicalOf(source, driver, columns) && c.source == source && c.driver == driver
    ensures InOrder(c.columns) && multiset(c.columns) == multiset(Decisions(columns))
  {
    var ds: seq<Decision> := [];
    for i := 0 to |columns|
      invariant ds == Decisions(columns)[..i]
    {
      ds := ds + [DecisionOf(columns[i])];
    }
    assert ds == Decisions(columns);
    SortIsRight(ds);
    c := Canonical(source, driver, Sort(ds));
  }

  // What was decided about one column, if anything.
  function Decided(columns: seq<Treatment>, table: string, column: string): Option<Decision> {
    if columns == [] then None
    else if columns[0].table == table && columns[0].column == column then Some(DecisionOf(columns[0]))
    else Decided(columns[1..], table, column)
  }

  lemma RestIsOneEach(columns: seq<Treatment>)
    requires OneEach(columns) && columns != []
    ensures OneEach(columns[1..])
    ensures forall e | e in Decisions(columns[1..]) :: !SameColumn(DecisionOf(columns[0]), e)
  {
    hide DecisionOf, SameColumn;
    var ds, rest := Decisions(columns), Decisions(columns[1..]);
    assert rest == ds[1..] && ds[0] == DecisionOf(columns[0]);
    TailStays(ds);
    forall e | e in rest
      ensures !SameColumn(ds[0], e)
    {
      var i :| 0 <= i < |rest| && rest[i] == e;
      assert ds[i + 1] == e;
    }
  }

  lemma DecidesItsColumn(t: Treatment)
    ensures DecisionOf(t).table == t.table && DecisionOf(t).column == t.column
  {
  }

  lemma {:induction false} DecidedIsListed(columns: seq<Treatment>, d: Decision)
    requires OneEach(columns)
    ensures d in Decisions(columns) <==> Decided(columns, d.table, d.column) == Some(d)
    ensures multiset(Decisions(columns))[d] == if d in Decisions(columns) then 1 else 0
  {
    hide DecisionOf;
    var ds := Decisions(columns);
    if columns != [] {
      var rest := Decisions(columns[1..]);
      assert ds == [ds[0]] + rest;
      RestIsOneEach(columns);
      DecidedIsListed(columns[1..], d);
      DecidesItsColumn(columns[0]);
      assert d in rest ==> !SameColumn(ds[0], d);
    }
  }

  lemma DecidedNames(columns: seq<Treatment>, table: string, column: string)
    ensures var d := Decided(columns, table, column);
            d.Some? ==> d.value.table == table && d.value.column == column
  {
  }

  // The same decision, if any, for every column.
  ghost predicate DecideAlike(a: seq<Treatment>, b: seq<Treatment>) {
    forall t, c :: Decided(a, t, c) == Decided(b, t, c)
  }

  /** Main result: two plans have the same canonical form exactly when they are about the same database and
    * decide the same about every column, in whatever order, by whomever and for whatever reason.
    */
  lemma SameFormSameDecisions(source: string, driver: string, a: seq<Treatment>,
                              source': string, driver': string, b: seq<Treatment>)
    requires OneEach(a) && OneEach(b)
    ensures CanonicalOf(source, driver, a) == CanonicalOf(source', driver', b) <==>
              source == source' && driver == driver' && DecideAlike(a, b)
  {
    hide Sort, Decided, InOrder, NoRepeats;
    SameSortSameLists(Decisions(a), Decisions(b));
    if multiset(Decisions(a)) == multiset(Decisions(b)) {
      forall t, c
        ensures Decided(a, t, c) == Decided(b, t, c)
      {
        SameDecided(a, b, t, c);
        SameDecided(b, a, t, c);
      }
    }
    if DecideAlike(a, b) {
      forall d: Decision
        ensures multiset(Decisions(a))[d] == multiset(Decisions(b))[d]
      {
        DecidedIsListed(a, d);
        DecidedIsListed(b, d);
      }
      assert multiset(Decisions(a)) == multiset(Decisions(b));
    }
  }

  lemma SameSortSameLists(a: seq<Decision>, b: seq<Decision>)
    requires NoRepeats(a)
    ensures Sort(a) == Sort(b) <==> multiset(a) == multiset(b)
  {
    SortIsRight(a);
    SortIsRight(b);
    SortedKeepsApart(a);
    if multiset(a) == multiset(b) {
      OneOrder(Sort(a), Sort(b));
    }
  }

  lemma SameDecided(a: seq<Treatment>, b: seq<Treatment>, t: string, c: string)
    requires OneEach(a) && OneEach(b) && multiset(Decisions(a)) == multiset(Decisions(b))
    ensures Decided(a, t, c).Some? ==> Decided(b, t, c) == Decided(a, t, c)
  {
    if Decided(a, t, c).Some? {
      var d := Decided(a, t, c).value;
      DecidedNames(a, t, c);
      DecidedIsListed(a, d);
      DecidedIsListed(b, d);
    }
  }

  // Sorting neither drops nor repeats a column.
  lemma {:induction false} SortedKeepsApart(ds: seq<Decision>)
    requires NoRepeats(ds)
    ensures NoRepeats(Sort(ds))
  {
    if ds != [] {
      SortedKeepsApart(ds[1..]);
      SortIsRight(ds[1..]);
      forall x | x in Sort(ds[1..])
        ensures !SameColumn(ds[0], x)
      {
        assert x in multiset(ds[1..]);
      }
      InsertKeepsApart(Sort(ds[1..]), ds[0]);
    }
  }

  lemma {:induction false} InsertKeepsApart(ds: seq<Decision>, d: Decision)
    requires NoRepeats(ds) && forall x | x in ds :: !SameColumn(d, x)
    ensures NoRepeats(Insert(ds, d))
    ensures forall x | x in Insert(ds, d) :: x == d || x in ds
  {
    if ds != [] && !NotAfter(d, ds[0]) {
      InsertKeepsApart(ds[1..], d);
      assert ds == [ds[0]] + ds[1..];
      forall x | x in Insert(ds[1..], d)
        ensures !SameColumn(ds[0], x)
      {
        assert !SameColumn(d, ds[0]);
      }
    }
  }

  // ---------------------------------------------------------------- amendments

  predicate Known(action: Action) {
    !action.Unknown?
  }

  predicate Hits(ch: Change, t: Treatment) {
    t.table == ch.table && (ch.column == "" || t.column == ch.column)
  }

  function Changed(t: Treatment, ch: Change, who: string): Treatment {
    if Hits(ch, t) && t.action != ch.action then t.(action := ch.action, who := who, reason := ch.reason) else t
  }

  function ChangedAll(columns: seq<Treatment>, ch: Change, who: string): seq<Treatment> {
    seq(|columns|, i requires 0 <= i < |columns| => Changed(columns[i], ch, who))
  }

  datatype AmendError = NotATreatment | NotCovered

  function RefusesChange(columns: seq<Treatment>, ch: Change): Option<AmendError> {
    if !Known(ch.action) then Some(NotATreatment)
    else if forall t | t in columns :: !Hits(ch, t) then Some(NotCovered)
    else None
  }

  // The treatments after the changes, or why one of them is refused.
  function Amended(columns: seq<Treatment>, changes: seq<Change>, who: string): (seq<Treatment>, Option<AmendError>)
    decreases |changes|
  {
    if changes == [] then (columns, None)
    else
      var refusal := RefusesChange(columns, changes[0]);
      if refusal.Some? then (columns, refusal)
      else Amended(ChangedAll(columns, changes[0], who), changes[1..], who)
  }

  method Amend(columns: array<Treatment>, changes: seq<Change>, who: string) returns (err: Option<AmendError>)
    modifies columns
    ensures Amended(old(columns[..]), changes, who) == (columns[..], err)
      || (err == Amended(old(columns[..]), changes, who).1 && err.Some?)
  {
    for k := 0 to |changes|
      invariant Amended(old(columns[..]), changes, who) == Amended(columns[..], changes[k..], who)
    {
      var ch := changes[k];
      assert changes[k..][0] == ch && changes[k..][1..] == changes[k + 1..];
      if !Known(ch.action) {
        return Some(NotATreatment);
      }
      ghost var was := columns[..];
      var hit := AmendOne(columns, ch, who);
      if !hit {
        return Some(NotCovered);
      }
      assert columns[..] == ChangedAll(was, ch, who);
    }
    assert changes[|changes|..] == [];
    err := None;
  }

  method AmendOne(columns: array<Treatment>, ch: Change, who: string) returns (hit: bool)
    modifies columns
    ensures columns[..] == ChangedAll(old(columns[..]), ch, who)
    ensures hit <==> exists t :: t in old(columns[..]) && Hits(ch, t)
  {
    hit := false;
    for i := 0 to columns.Length
      invariant forall j | 0 <= j < i :: columns[j] == Changed(old(columns[..])[j], ch, who)
      invariant forall j | i <= j < columns.Length :: columns[j] == old(columns[..])[j]
      invariant hit <==> exists j :: 0 <= j < i && Hits(ch, old(columns[..])[j])
    {
      var t := columns[i];
      assert t == old(columns[..])[i];
      if t.table != ch.table || (ch.column != "" && t.column != ch.column) {
        continue;
      }
      hit := true;
      if t.action == ch.action {
        continue;
      }
      columns[i] := t.(action := ch.action, who := who, reason := ch.reason);
    }
    assert columns[..] == ChangedAll(old(columns[..]), ch, who);
  }

  // The last of the changes that reach a column.
  function LastFor(changes: seq<Change>, t: Treatment): Option<Change> {
    if changes == [] then None
    else if Hits(changes[|changes| - 1], t) then Some(changes[|changes| - 1])
    else LastFor(changes[..|changes| - 1], t)
  }

  /** An accepted amendment gives every column the action of the last change that reaches it, and changes
    * nothing else that is decided; no column comes or goes.
    */
  lemma {:induction false} AmendedDecides(columns: seq<Treatment>, changes: seq<Change>, who: string, i: nat)
    requires Amended(columns, changes, who).1.None? && i < |columns|
    ensures var after := Amended(columns, changes, who).0;
            && |after| == |columns|
            && DecisionOf(after[i]) ==
                 match LastFor(changes, columns[i])
                 case None => DecisionOf(columns[i])
                 case Some(ch) => DecisionOf(columns[i]).(action := ch.action)
    decreases |changes|
  {
    if changes != [] {
      var next := ChangedAll(columns, changes[0], who);
      AmendedDecides(next, changes[1..], who, i);
      LastForFirst(changes, columns[i]);
      SameReach(changes[1..], columns[i], next[i]);
    }
  }

  lemma {:induction false} LastForFirst(changes: seq<Change>, t: Treatment)
    requires changes != []
    ensures LastFor(changes, t) ==
            if LastFor(changes[1..], t).Some? then LastFor(changes[1..], t)
            else if Hits(changes[0], t) then Some(changes[0]) else None
    decreases |changes|
  {
    var n := |changes| - 1;
    if n > 0 {
      assert changes[1..][..n - 1] == changes[..n][1..];
      LastForFirst(changes[..n], t);
    }
  }

  lemma {:induction false} SameReach(changes: seq<Change>, t: Treatment, u: Treatment)
    requires t.table == u.table && t.column == u.column
    ensures LastFor(changes, t) == LastFor(changes, u)
    decreases |changes|
  {
    if changes != [] {
      SameReach(changes[..|changes| - 1], t, u);
    }
  }

  // ---------------------------------------------------------------- proposals and drift

  datatype Column = Column(name: string, kind: string)
  datatype Table = Table(name: string, columns: seq<Column>)

  // The catalogue as a list of columns.
  function Live(schema: seq<Table>): seq<(string, Column)> {
    if schema == [] then []
    else TableColumns(schema[0]) + Live(schema[1..])
  }

  function TableColumns(t: Table): seq<(string, Column)> {
    seq(|t.columns|, i requires 0 <= i < |t.columns| => (t.name, t.columns[i]))
  }

  // How a column is treated as long as nobody has said otherwise.
  function Classified(personal: string -> bool, table: string, c: Column): Treatment {
    if personal(c.name) then
      Treatment(table, c.name, c.kind, true, Mask, "the name reads as contact or identity data", "rule")
    else Treatment(table, c.name, c.kind, false, Keep, "", "rule")
  }

  function TreatmentOf(columns: seq<Treatment>, table: string, column: string): Option<Treatment> {
    if columns == [] then None
    else if columns[0].table == table && columns[0].column == column then Some(columns[0])
    else TreatmentOf(columns[1..], table, column)
  }

  predicate About(t: Treatment, table: string, column: string) {
    t.table == table && t.column == column
  }

  lemma {:induction false} TreatmentIsFirst(columns: seq<Treatment>, table: string, column: string)
    ensures var t := TreatmentOf(columns, table, column);
            && (t.Some? <==> exists i :: 0 <= i < |columns| && About(columns[i], table, column))
            && forall i | 0 <= i < |columns| && About(columns[i], table, column)
                       && (forall k | 0 <= k < i :: !About(columns[k], table, column)) :: t == Some(columns[i])
  {
    if columns != [] && !About(columns[0], table, column) {
      var rest := columns[1..];
      TreatmentIsFirst(rest, table, column);
      assert forall i | 0 < i < |columns| :: columns[i] == rest[i - 1];
    }
  }

  function Dotted(table: string, column: string): string {
    table + "." + column
  }

  datatype Drift = Drift(unclassified: seq<string>, gone: seq<string>, retyped: seq<string>)

  function Unclassified(columns: seq<Treatment>, live: seq<(string, Column)>): seq<string> {
    if live == [] then []
    else
      var l := live[|live| - 1];
      var rest := Unclassified(columns, live[..|live| - 1]);
      if TreatmentOf(columns, l.0, l.1.name).None? then rest + [Dotted(l.0, l.1.name)] else rest
  }

  function Retyped(columns: seq<Treatment>, live: seq<(string, Column)>): seq<string> {
    if live == [] then []
    else
      var l := live[|live| - 1];
      var rest := Retyped(columns, live[..|live| - 1]);
      match TreatmentOf(columns, l.0, l.1.name)
      case None => rest
      case Some(t) => if t.kind != l.1.kind then rest + [Dotted(l.0, l.1.name)] else rest
  }

  function Gone(columns: seq<Treatment>, names: set<string>): seq<string> {
    if columns == [] then []
    else
      var t := columns[|columns| - 1];
      var rest := Gone(columns[..|columns| - 1], names);
      if Dotted(t.table, t.column) in names then rest else rest + [Dotted(t.table, t.column)]
  }

  function LiveNames(live: seq<(string, Column)>): set<string> {
    set l | l in live :: Dotted(l.0, l.1.name)
  }

  function DriftOf(columns: seq<Treatment>, schema: seq<Table>): Drift {
    Drift(Unclassified(columns, Live(schema)), Gone(columns, LiveNames(Live(schema))), Retyped(columns, Live(schema)))
  }

  method FindDrift(columns: seq<Treatment>, schema: seq<Table>) returns (d: Drift)
    ensures d == DriftOf(columns, schema)
  {
    hide Unclassified, Retyped, Gone, LiveNames, Live;
    var unclassified, retyped, live := ReadCatalogue(columns, schema);
    var gone := FindGone(columns, live.Keys);
    d := Drift(unclassified, gone, retyped);
  }

  method ReadCatalogue(columns: seq<Treatment>, schema: seq<Table>)
    returns (unclassified: seq<string>, retyped: seq<string>, live: map<string, string>)
    ensures Noted(columns, Live(schema), unclassified, retyped, live)
  {
    hide Noted, TreatmentOf, Dotted, Live, TableColumns;
    unclassified, retyped, live := [], [], map[];
    ghost var seen: seq<(string, Column)> := [];
    NothingNoted(columns);
    for i := 0 to |schema|
      invariant seen + Live(schema[i..]) == Live(schema)
      invariant Noted(columns, seen, unclassified, retyped, live)
    {
      var t := schema[i];
      LiveStep(schema, i);
      ghost var before := seen;
      for j := 0 to |t.columns|
        invariant |TableColumns(t)| == |t.columns| && seen == before + TableColumns(t)[..j]
        invariant Noted(columns, seen, unclassified, retyped, live)
      {
        var c := t.columns[j];
        var name := Dotted(t.name, c.name);
        assert TableColumns(t)[..j] + [(t.name, c)] == TableColumns(t)[..j + 1];
        NoteOne(columns, seen, (t.name, c), unclassified, retyped, live);
        live := live[name := c.kind];
        var found := TreatmentOf(columns, t.name, c.name);
        if found.None? {
          unclassified := unclassified + [name];
        } else if found.value.kind != c.kind {
          retyped := retyped + [name];
        }
        seen := seen + [(t.name, c)];
      }
      assert TableColumns(t)[..|t.columns|] == TableColumns(t);
      assert seen + Live(schema[i + 1..]) == before + (TableColumns(t) + Live(schema[i + 1..]));
    }
    LiveStep(schema, |schema|);
    assert seen + [] == seen;
  }

  lemma LiveStep(schema: seq<Table>, i: nat)
    requires i <= |schema|
    ensures schema[0..] == schema
    ensures i == |schema| ==> Live(schema[i..]) == []
    ensures i < |schema| ==> Live(schema[i..]) == TableColumns(schema[i]) + Live(schema[i + 1..])
    ensures i < |schema| ==> |TableColumns(schema[i])| == |schema[i].columns|
    ensures i < |schema| ==> forall j | 0 <= j < |schema[i].columns| ::
                               TableColumns(schema[i])[j] == (schema[i].name, schema[i].columns[j])
  {
    if i < |schema| {
      assert schema[i..][1..] == schema[i + 1..];
    }
  }

  method FindGone(columns: seq<Treatment>, names: set<string>) returns (gone: seq<string>)
    ensures gone == Gone(columns, names)
  {
    gone := [];
    for i := 0 to |columns|
      invariant gone == Gone(columns[..i], names)
    {
      var t := columns[i];
      assert columns[..i + 1][..i] == columns[..i];
      if Dotted(t.table, t.column) !in names {
        gone := gone + [Dotted(t.table, t.column)];
      }
    }
    assert columns[..|columns|] == columns;
  }

  // What the catalogue's columns come to, as far as they have been read.
  predicate Noted(columns: seq<Treatment>, seen: seq<(string, Column)>, unclassified: seq<string>,
                  retyped: seq<string>, live: map<string, string>)
  {
    && live.Keys == LiveNames(seen)
    && unclassified == Unclassified(columns, seen)
    && retyped == Retyped(columns, seen)
  }

  lemma NothingNoted(columns: seq<Treatment>)
    ensures Noted(columns, [], [], [], map[])
  {
  }

  lemma NoteOne(columns: seq<Treatment>, seen: seq<(string, Column)>, l: (string, Column), unclassified: seq<string>,
                retyped: seq<string>, live: map<string, string>)
    requires Noted(columns, seen, unclassified, retyped, live)
    ensures var name, found := Dotted(l.0, l.1.name), TreatmentOf(columns, l.0, l.1.name);
            Noted(columns, seen + [l],
                  if found.None? then unclassified + [name] else unclassified,
                  if found.Some? && found.value.kind != l.1.kind then retyped + [name] else retyped,
                  live[name := l.1.kind])
  {
    hide Dotted, TreatmentOf;
    assert (seen + [l])[..|seen|] == seen;
    OneMoreName(seen, l);
  }

  lemma OneMoreName(live: seq<(string, Column)>, l: (string, Column))
    ensures LiveNames(live + [l]) == LiveNames(live) + {Dotted(l.0, l.1.name)}
  {
    assert l in live + [l];
    forall n | n in LiveNames(live) + {Dotted(l.0, l.1.name)}
      ensures n in LiveNames(live + [l])
    {
      if n in LiveNames(live) {
        var x :| x in live && Dotted(x.0, x.1.name) == n;
        assert x in live + [l];
      }
    }
  }

  /** Nothing is unclassified exactly when every live column has a treatment of its own. */
  lemma {:induction false} AllClassifiedExactly(columns: seq<Treatment>, live: seq<(string, Column)>)
    ensures Unclassified(columns, live) == [] <==>
              forall l | l in live :: exists t :: t in columns && t.table == l.0 && t.column == l.1.name
  {
    if live != [] {
      var n := |live| - 1;
      var l := live[n];
      AllClassifiedExactly(columns, live[..n]);
      TreatmentIsFirst(columns, l.0, l.1.name);
      assert live == live[..n] + [l];
    }
  }

  /** A planned column is reported gone exactly when no live column has its dotted name. */
  lemma {:induction false} GoneExactly(columns: seq<Treatment>, names: set<string>, name: string)
    ensures name in Gone(columns, names) <==>
              name !in names && exists t :: t in columns && Dotted(t.table, t.column) == name
  {
    if columns != [] {
      var n := |columns| - 1;
      GoneExactly(columns[..n], names, name);
      assert columns == columns[..n] + [columns[n]];
    }
  }

  // No table's name begins with another's and a dot.
  ghost predicate NamesApart(tables: iset<string>) {
    forall a, b | a in tables && b in tables :: !(a + "." <= b)
  }

  lemma DottedNamesApart(a: string, b: string, c: string, d: string)
    requires !(a + "." <= c) && !(c + "." <= a)
    ensures Dotted(a, b) == Dotted(c, d) <==> a == c && b == d
  {
    var x, y := Dotted(a, b), Dotted(c, d);
    assert x[..|a|] == a && x[|a| + 1..] == b && y[..|c|] == c && y[|c| + 1..] == d;
    LongerBeginsWith(a, b, c, d);
    LongerBeginsWith(c, d, a, b);
  }

  lemma LongerBeginsWith(a: string, b: string, c: string, d: string)
    ensures Dotted(a, b) == Dotted(c, d) && |a| < |c| ==> a + "." <= c
  {
    var x, y := Dotted(a, b), Dotted(c, d);
    assert a + "." == x[..|a| + 1];
    assert |a| < |c| ==> c[..|a| + 1] == y[..|a| + 1];
  }

  predicate IsLive(schema: seq<Table>, table: string, column: string) {
    exists l | l in Live(schema) :: l.0 == table && l.1.name == column
  }

  // A planned column is reported gone exactly when it is not in the catalogue any more.
  ghost predicate ReportsGone(columns: seq<Treatment>, schema: seq<Table>) {
    forall t | t in columns ::
      Dotted(t.table, t.column) in DriftOf(columns, schema).gone <==> !IsLive(schema, t.table, t.column)
  }

  ghost predicate AlwaysReportsGone(tables: iset<string>) {
    forall columns, schema | Among(tables, columns, schema) :: ReportsGone(columns, schema)
  }

  // The plan and the catalogue are about tables with these names.
  ghost predicate Among(tables: iset<string>, columns: seq<Treatment>, schema: seq<Table>) {
    (forall t | t in columns :: t.table in tables) && (forall t | t in schema :: t.name in tables)
  }

  /** Main result: over tables with these names, every plan and every catalogue, the columns reported gone are
    * those that are gone if and only if no table's name begins with another's and a dot.
    */
  lemma GoneIsRightExactly(tables: iset<string>)
    ensures AlwaysReportsGone(tables) <==> NamesApart(tables)
  {
    if NamesApart(tables) {
      forall columns, schema | Among(tables, columns, schema)
        ensures ReportsGone(columns, schema)
      {
        GoneIsRight(tables, columns, schema);
      }
    } else {
      var a, b :| a in tables && b in tables && a + "." <= b;
      var t := Treatment(b, "c", "text", false, Keep, "", "");
      var schema := [Table(a, [Column(t.table[|a| + 1..] + "." + t.column, t.kind)])];
      DotHidesADroppedColumn(a, t);
      hide Live, DriftOf, IsLive;
      assert Among(tables, [t], schema);
      assert t in [t] && Dotted(t.table, t.column) !in DriftOf([t], schema).gone;
    }
  }

  lemma GoneIsRight(tables: iset<string>, columns: seq<Treatment>, schema: seq<Table>)
    requires NamesApart(tables) && Among(tables, columns, schema)
    ensures ReportsGone(columns, schema)
  {
    hide Live, Dotted;
    var names := LiveNames(Live(schema));
    forall t | t in columns
      ensures Dotted(t.table, t.column) in DriftOf(columns, schema).gone <==> !IsLive(schema, t.table, t.column)
    {
      GoneExactly(columns, names, Dotted(t.table, t.column));
      forall l | l in Live(schema)
        ensures Dotted(l.0, l.1.name) == Dotted(t.table, t.column) <==> l.0 == t.table && l.1.name == t.column
      {
        LiveIsOfATable(schema, l);
        DottedNamesApart(l.0, l.1.name, t.table, t.column);
      }
    }
  }

  lemma {:induction false} LiveIsOfATable(schema: seq<Table>, l: (string, Column))
    requires l in Live(schema)
    ensures exists t :: t in schema && t.name == l.0
  {
    if l in TableColumns(schema[0]) {
      assert schema[0] in schema;
    } else {
      LiveIsOfATable(schema[1..], l);
    }
  }

  /** A dropped column hides behind one of a table whose name is the front of its own: it is not reported gone,
    * and its name is reported unclassified.
    */
  lemma DotHidesADroppedColumn(a: string, t: Treatment)
    requires a + "." <= t.table
    ensures var schema := [Table(a, [Column(t.table[|a| + 1..] + "." + t.column, t.kind)])];
            && !IsLive(schema, t.table, t.column)
            && DriftOf([t], schema).gone == []
            && DriftOf([t], schema).unclassified == [Dotted(t.table, t.column)]
  {
    var name := t.table[|a| + 1..] + "." + t.column;
    var schema, l := [Table(a, [Column(name, t.kind)])], (a, Column(name, t.kind));
    OneColumnLive(schema[0], l);
    assert t.table == (a + ".") + t.table[|a| + 1..];
    assert Dotted(a, name) == Dotted(t.table, t.column);
    assert t.table != a;
    assert [t][1..] == [];
    assert TreatmentOf([t], a, name) == TreatmentOf([], a, name) == None;
    hide Live, TreatmentOf, Dotted;
    NothingNoted([t]);
    NoteOne([t], [], l, [], [], map[]);
    assert [] + [l] == Live(schema);
    NoneGone(t, LiveNames(Live(schema)));
  }

  lemma OneColumnLive(t: Table, l: (string, Column))
    requires t.columns == [l.1] && t.name == l.0
    ensures Live([t]) == [l]
  {
    assert [t][1..] == [];
    assert TableColumns(t) == [l];
  }

  lemma NoneGone(t: Treatment, names: set<string>)
    requires Dotted(t.table, t.column) in names
    ensures Gone([t], names) == []
  {
    hide Dotted;
    assert [t][..0] == [];
  }
}
