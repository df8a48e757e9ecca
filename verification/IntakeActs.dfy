/** What each act on an intake plan comes to, told column by column and line by line, without the steps of the code. */
module IntakeActs {
  import opened Basics
  import opened IntakePlan
  import opened IntakeStore

  // ---------------------------------------------------------------- amendments

  // A change is about one column by its name, or about all of a table.
  predicate Reaches(ch: Change, t: Treatment) {
    if ch.column == "" then t.table == ch.table else (t.table, t.column) == (ch.table, ch.column)
  }

  // What a column's action is when change k is looked at.
  function ActionBefore(changes: seq<Change>, k: nat, t: Treatment): Action
    requires k <= |changes|
  {
    match LastFor(changes[..k], t)
    case None => t.action
    case Some(ch) => ch.action
  }

  // Change k reaches the column and says something new about it.
  predicate Takes(changes: seq<Change>, k: nat, t: Treatment) {
    k < |changes| && Reaches(changes[k], t) && changes[k].action != ActionBefore(changes, k, t)
  }

  // Change k is the last that says something new about the column.
  predicate TakesLast(changes: seq<Change>, k: nat, t: Treatment) {
    Takes(changes, k, t) && forall j | k < j < |changes| :: !Takes(changes, j, t)
  }

  lemma TakesLater(changes: seq<Change>, k: nat, t: Treatment, who: string)
    requires changes != [] && k < |changes| - 1
    ensures Takes(changes[1..], k, Changed(t, changes[0], who)) <==> Takes(changes, k + 1, t)
  {
    var u := Changed(t, changes[0], who);
    assert changes[..k + 1][1..] == changes[1..][..k];
    LastForFirst(changes[..k + 1], t);
    SameReach(changes[1..][..k], t, u);
  }

  /** An accepted amendment leaves a column as it was if no change says anything new about it; otherwise the column
    * gets the action and the reason of the last change that does, and the author of the amendment, and keeps
    * everything else.
    */
  lemma {:induction false} AmendedExactly(columns: seq<Treatment>, changes: seq<Change>, who: string, i: nat)
    requires Amended(columns, changes, who).1.None? && i < |columns|
    ensures var after, t := Amended(columns, changes, who).0, columns[i];
            && |after| == |columns|
            && ((forall k | 0 <= k < |changes| :: !Takes(changes, k, t)) ==> after[i] == t)
            && (forall k: nat | TakesLast(changes, k, t) ::
                  after[i] == t.(action := changes[k].action, reason := changes[k].reason, who := who))
    decreases |changes|
  {
    if changes != [] {
      var t, rest := columns[i], changes[1..];
      var next := ChangedAll(columns, changes[0], who);
      AmendedExactly(next, rest, who, i);
      forall k: nat | k < |rest|
        ensures Takes(rest, k, next[i]) <==> Takes(changes, k + 1, t)
      {
        TakesLater(changes, k, t, who);
      }
      OneChange(changes, t, who);
      LastOfRest(changes, t, next[i]);
    }
  }

  lemma OneChange(changes: seq<Change>, t: Treatment, who: string)
    requires changes != []
    ensures var ch := changes[0];
            Changed(t, ch, who) == if Takes(changes, 0, t) then t.(action := ch.action, reason := ch.reason, who := who)
                                   else t
  {
    assert changes[..0] == [];
  }

  lemma LastOfRest(changes: seq<Change>, t: Treatment, u: Treatment)
    requires changes != []
    requires forall k: nat | k < |changes[1..]| :: Takes(changes[1..], k, u) <==> Takes(changes, k + 1, t)
    ensures forall k: nat | 0 < k < |changes| :: TakesLast(changes, k, t) ==> TakesLast(changes[1..], k - 1, u)
    ensures TakesLast(changes, 0, t) ==> forall k: nat | k < |changes[1..]| :: !Takes(changes[1..], k, u)
    ensures (forall k | 0 <= k < |changes| :: !Takes(changes, k, t)) ==>
              forall k: nat | k < |changes[1..]| :: !Takes(changes[1..], k, u)
  {
    forall k: nat | 0 < k < |changes| && TakesLast(changes, k, t)
      ensures TakesLast(changes[1..], k - 1, u)
    {
      assert Takes(changes[1..], k - 1, u);
    }
  }

  // No treatment, or about no column of the plan.
  predicate Unusable(columns: seq<Treatment>, ch: Change) {
    ch.action.Unknown? || forall i | 0 <= i < |columns| :: !Reaches(ch, columns[i])
  }

  lemma RefusesUnusable(columns: seq<Treatment>, ch: Change)
    ensures RefusesChange(columns, ch) ==
            if !Unusable(columns, ch) then None else Some(if ch.action.Unknown? then NotATreatment else NotCovered)
  {
    forall i | 0 <= i < |columns|
      ensures columns[i] in columns && (Hits(ch, columns[i]) <==> Reaches(ch, columns[i]))
    {
    }
  }

  /** An amendment is refused exactly when some change is no treatment or covers nothing in the plan, and the first
    * such change says why.
    */
  lemma {:induction false} RefusedExactly(columns: seq<Treatment>, changes: seq<Change>, who: string)
    ensures Amended(columns, changes, who).1.None? <==> forall k | 0 <= k < |changes| :: !Unusable(columns, changes[k])
    ensures forall k | 0 <= k < |changes| && Unusable(columns, changes[k])
                       && (forall j | 0 <= j < k :: !Unusable(columns, changes[j])) ::
              Amended(columns, changes, who).1 == Some(if changes[k].action.Unknown? then NotATreatment else NotCovered)
    decreases |changes|
  {
    if changes != [] {
      var next, rest := ChangedAll(columns, changes[0], who), changes[1..];
      RefusesUnusable(columns, changes[0]);
      if !Unusable(columns, changes[0]) {
        RefusedExactly(next, rest, who);
        forall ch
          ensures Unusable(next, ch) <==> Unusable(columns, ch)
        {
          forall i | 0 <= i < |columns|
            ensures Reaches(ch, next[i]) <==> Reaches(ch, columns[i])
          {
          }
        }
        assert forall k | 0 < k < |changes| :: changes[k] == rest[k - 1];
      }
    }
  }

  // ---------------------------------------------------------------- the acts

  lemma SameDecisionsSameForm(source: string, driver: string, a: seq<Treatment>, b: seq<Treatment>)
    requires OneEach(a) && |a| == |b|
    requires forall i | 0 <= i < |a| :: SameColumn(DecisionOf(a[i]), DecisionOf(b[i]))
    ensures CanonicalOf(source, driver, a) == CanonicalOf(source, driver, b) <==> Decisions(a) == Decisions(b)
  {
    hide Sort;
    SameSortSameLists(Decisions(a), Decisions(b));
    if multiset(Decisions(a)) == multiset(Decisions(b)) {
      forall i | 0 <= i < |a|
        ensures Decisions(a)[i] == Decisions(b)[i]
      {
        assert Decisions(b)[i] in multiset(Decisions(b));
        var j :| 0 <= j < |a| && Decisions(a)[j] == Decisions(b)[i];
        assert SameColumn(Decisions(a)[j], Decisions(a)[i]);
      }
    }
  }

  /** Main result: an accepted amendment of a plan with one treatment for each column writes to the store exactly
    * when it decides something else about some column. It then stores the amended treatments under their own hash,
    * leaves the rest of the plan and every other plan as they were, and writes one line that leads from the old
    * hash to the new one.
    */
  lemma AmendDoes(digest: Digest, s: Store, id: string, changes: seq<Change>, who: string, note: string)
    requires Accounted(s) && Injective(digest)
    requires Outcome(digest, s, Amend(id, changes, who, note)).None? && OneEach(s.plans[id].columns)
    ensures var t, p := Step(digest, s, Amend(id, changes, who, note)), s.plans[id];
            var columns := Amended(p.columns, changes, who).0;
            if Decisions(columns) == Decisions(p.columns) then t == s
            else
              && t.plans.Keys == s.plans.Keys && (forall x | x in s.plans && x != id :: t.plans[x] == s.plans[x])
              && Verified(digest, t.plans[id]) && t.plans[id].hash != p.hash
              && t.plans[id] == Plan(id, p.source, p.driver, columns, t.plans[id].hash, Draft, p.createdBy, p.signedBy,
                                     p.supersedes, p.note)
              && t.ledger == s.ledger + [Entry(AmendAct, id, p.source, who, p.hash, t.plans[id].hash, note)]
  {
    hide Amended, CanonicalOf, Replay, Standings;
    var p := s.plans[id];
    var columns := Amended(p.columns, changes, who).0;
    AmendedKeepsColumns(p.columns, changes, who);
    SameDecisionsSameForm(p.source, p.driver, p.columns, columns);
    assert digest(CanonicalOf(p.source, p.driver, columns)) == p.hash <==>
           CanonicalOf(p.source, p.driver, columns) == CanonicalOf(p.source, p.driver, p.columns);
  }

  lemma AmendedKeepsColumns(columns: seq<Treatment>, changes: seq<Change>, who: string)
    requires Amended(columns, changes, who).1.None?
    ensures var after := Amended(columns, changes, who).0;
            && |after| == |columns|
            && forall i | 0 <= i < |after| :: SameColumn(DecisionOf(columns[i]), DecisionOf(after[i]))
  {
    if columns != [] {
      forall i | 0 <= i < |columns|
        ensures |Amended(columns, changes, who).0| == |columns|
        ensures SameColumn(DecisionOf(columns[i]), DecisionOf(Amended(columns, changes, who).0[i]))
      {
        AmendedDecides(columns, changes, who, i);
      }
      AmendedDecides(columns, changes, who, 0);
    } else {
      NoColumns(changes, who);
    }
  }

  lemma {:induction false} NoColumns(changes: seq<Change>, who: string)
    ensures Amended([], changes, who).0 == []
  {
  }

  /** A proposal is stored as a draft over exactly the treatments proposed, under their hash, and leaves one line;
    * nobody has signed it and it supersedes nothing.
    */
  lemma ProposeDoes(digest: Digest, s: Store, id: string, source: string, driver: string, columns: seq<Treatment>,
                    who: string, note: string)
    requires columns != [] && id !in s.plans
    ensures var e := Propose(id, source, driver, columns, who, note);
            var t := Step(digest, s, e);
            && Outcome(digest, s, e).None? && Outcome(digest, s, e.(columns := [])) == Some(NothingToCover)
            && t.plans.Keys == s.plans.Keys + {id} && (forall x | x in s.plans :: t.plans[x] == s.plans[x])
            && Verified(digest, t.plans[id])
            && t.plans[id] == Plan(id, source, driver, columns, t.plans[id].hash, Draft, who, "", "", note)
            && t.ledger == s.ledger + [Entry(ProposeAct, id, source, who, "", t.plans[id].hash, note)]
  {
  }

  /** Main result: a signature that is not refused puts the plan in force, signed by its signer, over the treatments
    * and the hash it had. The plan that was in force for the database, if one was, is superseded by it, with its own
    * line before the signature's; nothing else changes.
    */
  lemma SignDoes(digest: Digest, s: Store, id: string, hash: string, who: string, note: string)
    requires Accounted(s) && Outcome(digest, s, Sign(id, hash, who, note)).None?
    ensures var t, p := Step(digest, s, Sign(id, hash, who, note)), s.plans[id];
            var signed := Entry(SignAct, id, p.source, who, "", p.hash, note);
            && t.plans.Keys == s.plans.Keys && IsInForce(t.plans, p.source, id)
            && t.plans[id] == p.(state := Signed, signedBy := who, supersedes := t.plans[id].supersedes,
                                 note := if note == "" then p.note else note)
            && (forall x | x in s.plans && x != id && !IsInForce(s.plans, p.source, x) :: t.plans[x] == s.plans[x])
            && (forall x | IsInForce(s.plans, p.source, x) ::
                  && t.plans[x] == s.plans[x].(state := Superseded) && t.plans[id].supersedes == x
                  && t.ledger == s.ledger + [Entry(SupersedeAct, x, p.source, who, s.plans[x].hash,
                                                               s.plans[x].hash, "superseded by " + id), signed])
            && ((forall x :: !IsInForce(s.plans, p.source, x)) ==>
                  t.ledger == s.ledger + [signed] && t.plans[id].supersedes == p.supersedes)
  {
    hide Replay, Standings, Verified;
    var p := s.plans[id];
    if Current(s.plans, p.source).Some? {
      var prev := Current(s.plans, p.source).value;
      forall x | IsInForce(s.plans, p.source, x)
        ensures x == prev
      {
        OnlyOneInForce(s, p.source, x);
      }
      assert IsInForce(s.plans, p.source, prev);
    }
  }

  /** An edit behind the store's back rewrites the treatments of its plan and nothing else. A plan that verified
    * still does exactly when the edit leaves every decision as it was.
    */
  lemma EditIsNoticedExactly(digest: Digest, s: Store, id: string, columns: seq<Treatment>)
    requires Injective(digest) && id in s.plans && Verified(digest, s.plans[id])
    requires OneEach(s.plans[id].columns) && OneEach(columns)
    ensures var t := Step(digest, s, Edit(id, columns));
            && t.ledger == s.ledger && t.plans.Keys == s.plans.Keys
            && (forall x | x in s.plans && x != id :: t.plans[x] == s.plans[x])
            && t.plans[id] == s.plans[id].(columns := columns)
            && (Verified(digest, t.plans[id]) <==> DecideAlike(s.plans[id].columns, columns))
  {
    hide DecideAlike;
    var p := s.plans[id];
    SameFormSameDecisions(p.source, p.driver, p.columns, p.source, p.driver, columns);
  }

  /** The acts are refused in this order: nobody's act, no such plan, a plan that is no draft, a plan that does not
    * hash to its recorded hash, and only then what is wrong with the act itself.
    */
  lemma RefusesInOrder(digest: Digest, s: Store, e: Event)
    requires e.Amend? || e.Sign?
    ensures var answer := Outcome(digest, s, e);
            && (answer == Some(Unnamed) <==> e.who == "")
            && (answer == Some(NoPlan) <==> e.who != "" && e.id !in s.plans)
            && (answer == Some(NotDraft) <==> e.who != "" && e.id in s.plans && s.plans[e.id].state != Draft)
            && (answer == Some(Tampered) <==>
                  && e.who != "" && e.id in s.plans && s.plans[e.id].state == Draft
                  && s.plans[e.id].hash != digest(CanonicalOf(s.plans[e.id].source, s.plans[e.id].driver,
                                                              s.plans[e.id].columns)))
            && (answer == Some(StaleHash) ==> e.Sign? && (|e.hash| < 12 || !(e.hash <= s.plans[e.id].hash)))
            && (answer.None? && e.Sign? ==> |e.hash| >= 12 && e.hash <= s.plans[e.id].hash)
            && (answer == Some(BadTreatment) || answer == Some(NotClassified) ==> e.Amend?)
  {
    hide Amended, CanonicalOf;
  }

  // ---------------------------------------------------------------- drift

  /** The unclassified columns are exactly the live ones without a treatment. */
  lemma {:induction false} UnclassifiedExactly(columns: seq<Treatment>, live: seq<(string, Column)>, name: string)
    ensures name in Unclassified(columns, live) <==>
              exists i :: 0 <= i < |live| && Dotted(live[i].0, live[i].1.name) == name
                       && forall t | t in columns :: !About(t, live[i].0, live[i].1.name)
    decreases |live|
  {
    if live != [] {
      var n := |live| - 1;
      var l := live[n];
      UnclassifiedExactly(columns, live[..n], name);
      TreatmentIsFirst(columns, l.0, l.1.name);
    }
  }

  // This is what the plan says about the column: its first treatment for it.
  ghost predicate Treats(columns: seq<Treatment>, i: nat, l: (string, Column)) {
    && i < |columns| && About(columns[i], l.0, l.1.name)
    && forall k | 0 <= k < i :: !About(columns[k], l.0, l.1.name)
  }

  /** The retyped columns are exactly the live ones that the plan treats as of another type. */
  lemma {:induction false} RetypedExactly(columns: seq<Treatment>, live: seq<(string, Column)>, name: string)
    ensures name in Retyped(columns, live) <==>
              exists j, i: nat :: 0 <= j < |live| && Dotted(live[j].0, live[j].1.name) == name
                               && Treats(columns, i, live[j]) && columns[i].kind != live[j].1.kind
    decreases |live|
  {
    if live != [] {
      var n := |live| - 1;
      RetypedExactly(columns, live[..n], name);
      OneRetyped(columns, live[n]);
      assert live == live[..n] + [live[n]];
    }
  }

  lemma OneRetyped(columns: seq<Treatment>, l: (string, Column))
    ensures (exists i: nat :: Treats(columns, i, l) && columns[i].kind != l.1.kind) <==>
              match TreatmentOf(columns, l.0, l.1.name) case None => false case Some(t) => t.kind != l.1.kind
  {
    TreatmentIsFirst(columns, l.0, l.1.name);
    if i: nat :| Treats(columns, i, l) {
      assert TreatmentOf(columns, l.0, l.1.name) == Some(columns[i]);
    }
    if TreatmentOf(columns, l.0, l.1.name).Some? {
      var i := FirstAbout(columns, l);
    }
  }

  lemma {:induction false} FirstAbout(columns: seq<Treatment>, l: (string, Column)) returns (i: nat)
    requires exists t :: t in columns && About(t, l.0, l.1.name)
    ensures Treats(columns, i, l)
  {
    if About(columns[0], l.0, l.1.name) {
      i := 0;
    } else {
      var j := FirstAbout(columns[1..], l);
      i := j + 1;
      assert forall k | 0 < k < i :: columns[k] == columns[1..][k - 1];
    }
  }
}
