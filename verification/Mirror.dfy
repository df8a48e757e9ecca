/** The brain's copy of the ledger: one decision per line, with an edge to every line it rests on.
  *
  * The ledger decides everything; a decision is a function of the ledger alone, so a copy that lost
  * writes can only be incomplete, never different.
  */
module Mirror {
  import opened Basics
  import opened Registry
  import opened History

  // The identity of a ledger line, which is the id its decision is recorded under.
  datatype DecisionId = DecisionId(act: Act, name: string, hash: string, at: int)

  datatype Decision = Decision(
    id: DecisionId, actor: string, subject: string,
    premise: Option<DecisionId>, supersedes: Option<DecisionId>)

  // modelNodes holds the hash of every model version node, which decisions are about.
  datatype Brain = Brain(decisions: map<DecisionId, Decision>, modelNodes: set<string>)

  const EMPTY_BRAIN := Brain(map[], {})

  function IdOf(e: Entry): DecisionId {
    DecisionId(e.act, e.name, e.toHash, e.at)
  }

  function EdgeTo(entries: seq<Entry>, j: int): Option<DecisionId>
    requires j < |entries|
  {
    if j < 0 then None else Some(IdOf(entries[j]))
  }

  function DecisionOf(entries: seq<Entry>, i: nat): Decision
    requires i < |entries|
  {
    Decision(IdOf(entries[i]), entries[i].who, entries[i].toHash,
             EdgeTo(entries, BasedOn(entries, i)), EdgeTo(entries, Supersedes(entries, i)))
  }

  // What a registry's own ledger looks like: distinct times, a hash on every line, known acts.
  ghost predicate Mirrorable(entries: seq<Entry>) {
    Strict(entries) && forall e | e in entries :: WellFormed(e)
  }

  predicate EdgeHeld(b: Brain, edge: Option<DecisionId>) {
    edge.Some? ==> edge.value in b.decisions
  }

  // Every edge of the decision leads to something the brain holds.
  predicate Grounded(b: Brain, d: Decision) {
    EdgeHeld(b, d.premise) && EdgeHeld(b, d.supersedes) && d.subject in b.modelNodes
  }

  ghost predicate Mirrors(entries: seq<Entry>, id: DecisionId, d: Decision) {
    exists i :: 0 <= i < |entries| && IdOf(entries[i]) == id && d == DecisionOf(entries, i)
  }

  /** Whatever the brain holds is the ledger's own, and no edge dangles. */
  ghost predicate Faithful(entries: seq<Entry>, b: Brain) {
    && (forall id | id in b.decisions :: Mirrors(entries, id, b.decisions[id]) && Grounded(b, b.decisions[id]))
    && (forall h | h in b.modelNodes :: exists i :: 0 <= i < |entries| && entries[i].toHash == h)
  }

  /** Every line has its decision. */
  ghost predicate Complete(entries: seq<Entry>, b: Brain) {
    forall i | 0 <= i < |entries| :: IdOf(entries[i]) in b.decisions
  }

  // ---------------------------------------------------------------- the writes a brain receives

  predicate Records(b: Brain, b': Brain, d: Decision) {
    b' == b.(decisions := b.decisions[d.id := d])
  }

  /** One write to the brain: a model node some line is about, or a line's decision once everything
    * it points at is there.
    */
  ghost predicate BrainWrite(entries: seq<Entry>, b: Brain, b': Brain) {
    || (exists i :: 0 <= i < |entries| && b' == b.(modelNodes := b.modelNodes + {entries[i].toHash}))
    || (exists i :: 0 <= i < |entries| && Grounded(b, DecisionOf(entries, i)) && Records(b, b', DecisionOf(entries, i)))
  }

  lemma BrainWriteKeepsFaithful(entries: seq<Entry>, b: Brain, b': Brain)
    requires Faithful(entries, b) && BrainWrite(entries, b, b')
    ensures Faithful(entries, b')
    ensures b.decisions.Keys <= b'.decisions.Keys && b.modelNodes <= b'.modelNodes
  {
    hide Faithful, DecisionOf, Grounded, Records;
    if i :| 0 <= i < |entries| && b' == b.(modelNodes := b.modelNodes + {entries[i].toHash}) {
      NodeWriteKeeps(entries, b, entries[i].toHash);
    } else {
      var i :| 0 <= i < |entries| && Grounded(b, DecisionOf(entries, i)) && Records(b, b', DecisionOf(entries, i));
      DecisionWriteKeeps(entries, b, b', i);
    }
  }

  lemma NodeWriteKeeps(entries: seq<Entry>, b: Brain, hash: string)
    requires Faithful(entries, b) && exists i :: 0 <= i < |entries| && entries[i].toHash == hash
    ensures Faithful(entries, b.(modelNodes := b.modelNodes + {hash}))
  {
    hide DecisionOf;
  }

  lemma DecisionWriteKeeps(entries: seq<Entry>, b: Brain, b': Brain, i: nat)
    requires Faithful(entries, b) && i < |entries|
    requires Grounded(b, DecisionOf(entries, i)) && Records(b, b', DecisionOf(entries, i))
    ensures Faithful(entries, b')
    ensures b.decisions.Keys <= b'.decisions.Keys && b.modelNodes <= b'.modelNodes
  {
    var d := DecisionOf(entries, i);
    assert d.id == IdOf(entries[i]);
    hide DecisionOf, IdOf;
    assert Mirrors(entries, d.id, d);
  }

  // ---------------------------------------------------------------- a growing ledger

  lemma LatestIgnoresNewer(entries: seq<Entry>, e: Entry, i: nat, q: Query)
    requires Strict(entries + [e]) && i < |entries|
    ensures LatestOf(entries + [e], i, q) == LatestOf(entries, i, q)
  {
    var all := entries + [e];
    var best := LatestOf(entries, i, q);
    assert forall j | 0 <= j < |entries| :: all[j] == entries[j];
    assert all[|entries|] == e && all[i].at < all[|entries|].at;
    assert forall j | 0 <= j < |entries| :: Eligible(all, i, q, j) <==> Eligible(entries, i, q, j);
    assert IsLatest(all, i, q, best);
    LatestIsUnique(all, i, q, best, LatestOf(all, i, q));
  }

  // A later line changes no earlier decision.
  lemma DecisionsAreStable(entries: seq<Entry>, e: Entry, i: nat)
    requires Strict(entries + [e]) && i < |entries|
    ensures DecisionOf(entries + [e], i) == DecisionOf(entries, i)
  {
    var x := entries[i];
    assert (entries + [e])[i] == x;
    LatestIgnoresNewer(entries, e, i, SignOf(x.name, x.toHash));
    LatestIgnoresNewer(entries, e, i, ActivationOf(x.fromHash));
    LatestIgnoresNewer(entries, e, i, AnyActivation);
  }

  lemma GrowingKeepsFaithful(entries: seq<Entry>, e: Entry, b: Brain)
    requires Mirrorable(entries + [e]) && Faithful(entries, b)
    ensures Faithful(entries + [e], b)
  {
    var all := entries + [e];
    forall id | id in b.decisions
      ensures Mirrors(all, id, b.decisions[id])
    {
      var i :| 0 <= i < |entries| && IdOf(entries[i]) == id && b.decisions[id] == DecisionOf(entries, i);
      DecisionsAreStable(entries, e, i);
      assert IdOf(all[i]) == id && b.decisions[id] == DecisionOf(all, i);
    }
    forall h | h in b.modelNodes
      ensures exists i :: 0 <= i < |all| && all[i].toHash == h
    {
      var i :| 0 <= i < |entries| && entries[i].toHash == h;
      assert all[i].toHash == h;
    }
  }

  // ---------------------------------------------------------------- the one complete copy

  lemma SameIdSameLine(entries: seq<Entry>, i: nat, j: nat)
    requires Strict(entries) && i < |entries| && j < |entries| && IdOf(entries[i]) == IdOf(entries[j])
    ensures i == j
  {
  }

  // Two faithful and complete copies of one ledger are the same copy.
  lemma CopiesAgree(entries: seq<Entry>, b: Brain, c: Brain)
    requires Mirrorable(entries)
    requires Faithful(entries, b) && Complete(entries, b) && Faithful(entries, c) && Complete(entries, c)
    ensures b == c
  {
    hide Faithful, Complete;
    forall id | id in b.decisions
      ensures id in c.decisions && b.decisions[id] == c.decisions[id]
    {
      CopiedOnce(entries, b, c, id);
    }
    forall id | id in c.decisions
      ensures id in b.decisions
    {
      CopiedOnce(entries, c, b, id);
    }
    assert b.decisions == c.decisions;
    NodesFromDecisions(entries, b);
    NodesFromDecisions(entries, c);
  }

  lemma CopiedOnce(entries: seq<Entry>, b: Brain, c: Brain, id: DecisionId)
    requires Mirrorable(entries)
    requires Faithful(entries, b) && Faithful(entries, c) && Complete(entries, c) && id in b.decisions
    ensures id in c.decisions && b.decisions[id] == c.decisions[id]
  {
    hide Faithful, DecisionOf;
    var i := LineOf(entries, b, id);
    assert id in c.decisions by { hide IdOf; }
    var j := LineOf(entries, c, id);
    SameIdSameLine(entries, i, j);
  }

  lemma LineOf(entries: seq<Entry>, b: Brain, id: DecisionId) returns (i: nat)
    requires Faithful(entries, b) && id in b.decisions
    ensures i < |entries| && IdOf(entries[i]) == id && b.decisions[id] == DecisionOf(entries, i)
    ensures Grounded(b, b.decisions[id])
  {
    hide DecisionOf, IdOf;
    assert Mirrors(entries, id, b.decisions[id]);
    i :| 0 <= i < |entries| && IdOf(entries[i]) == id && b.decisions[id] == DecisionOf(entries, i);
  }

  lemma NodesFromDecisions(entries: seq<Entry>, b: Brain)
    requires Strict(entries) && Faithful(entries, b) && Complete(entries, b)
    ensures forall h :: h in b.modelNodes <==> exists i :: 0 <= i < |entries| && entries[i].toHash == h
  {
    forall i | 0 <= i < |entries|
      ensures entries[i].toHash in b.modelNodes
    {
      var j := LineOf(entries, b, IdOf(entries[i]));
      SameIdSameLine(entries, i, j);
    }
  }

  /** The brain that holds exactly the ledger's decisions and the models they are about. */
  ghost function FullCopy(entries: seq<Entry>): Brain
    requires Strict(entries)
  {
    Brain(map i | 0 <= i < |entries| :: IdOf(entries[i]) := DecisionOf(entries, i),
          set i | 0 <= i < |entries| :: entries[i].toHash)
  }

  lemma FullCopyIsFaithful(entries: seq<Entry>)
    requires Mirrorable(entries)
    ensures Faithful(entries, FullCopy(entries)) && Complete(entries, FullCopy(entries))
  {
    hide DecisionOf, IdOf, Grounded, FullCopy;
    var b := FullCopy(entries);
    forall i | 0 <= i < |entries|
      ensures IdOf(entries[i]) in b.decisions && Grounded(b, DecisionOf(entries, i))
    {
      FullCopyGrounds(entries, i);
    }
    forall id | id in b.decisions
      ensures Mirrors(entries, id, b.decisions[id]) && Grounded(b, b.decisions[id])
    {
      var i := FullCopyLine(entries, id);
      assert Mirrors(entries, id, DecisionOf(entries, i));
    }
    FullCopyModels(entries);
  }

  lemma FullCopyHolds(entries: seq<Entry>, i: nat)
    requires Strict(entries) && i < |entries|
    ensures var b := FullCopy(entries);
            IdOf(entries[i]) in b.decisions && b.decisions[IdOf(entries[i])] == DecisionOf(entries, i)
            && entries[i].toHash in b.modelNodes
  {
    forall j: nat | j < |entries| && IdOf(entries[j]) == IdOf(entries[i])
      ensures j == i
    {
      SameIdSameLine(entries, i, j);
    }
    hide DecisionOf, IdOf;
  }

  lemma FullCopyGrounds(entries: seq<Entry>, i: nat)
    requires Strict(entries) && i < |entries|
    ensures IdOf(entries[i]) in FullCopy(entries).decisions && Grounded(FullCopy(entries), DecisionOf(entries, i))
  {
    hide FullCopy, IdOf, BasedOn, Supersedes;
    FullCopyHolds(entries, i);
    if BasedOn(entries, i) >= 0 {
      FullCopyHolds(entries, BasedOn(entries, i));
    }
    if Supersedes(entries, i) >= 0 {
      FullCopyHolds(entries, Supersedes(entries, i));
    }
  }

  lemma FullCopyLine(entries: seq<Entry>, id: DecisionId) returns (i: nat)
    requires Strict(entries) && id in FullCopy(entries).decisions
    ensures i < |entries| && IdOf(entries[i]) == id && FullCopy(entries).decisions[id] == DecisionOf(entries, i)
  {
    i :| 0 <= i < |entries| && IdOf(entries[i]) == id;
    FullCopyHolds(entries, i);
  }

  lemma FullCopyModels(entries: seq<Entry>)
    requires Strict(entries)
    ensures forall h | h in FullCopy(entries).modelNodes :: exists i :: 0 <= i < |entries| && entries[i].toHash == h
  {
  }

  /** A faithful brain that lacks no line is the full copy. */
  lemma CompleteIsFullCopy(entries: seq<Entry>, b: Brain)
    requires Mirrorable(entries) && Faithful(entries, b) && Complete(entries, b)
    ensures b == FullCopy(entries)
  {
    hide Faithful, Complete, FullCopy;
    FullCopyIsFaithful(entries);
    CopiesAgree(entries, b, FullCopy(entries));
  }

  // The ledger of every registry run, crashes and lost reads included, is one the mirror can copy.
  lemma RegistryLedgerIsMirrorable(events: seq<Event>)
    requires ClockRuns(events)
    ensures Mirrorable(Run(EMPTY, events).ledger)
  {
    LedgerStaysInOrder(events);
  }

  // ---------------------------------------------------------------- what the copy tells

  // The edge leads to the decision of line j.
  ghost predicate LeadsTo(entries: seq<Entry>, edge: Option<DecisionId>, j: nat) {
    j < |entries| && edge == Some(DecisionId(entries[j].act, entries[j].name, entries[j].toHash, entries[j].at))
  }

  // Line j is the last signature over these bytes under that name before line i.
  ghost predicate SignedLast(entries: seq<Entry>, i: nat, j: nat) {
    && j < i < |entries|
    && entries[j].act == Sign && entries[j].name == entries[i].name && entries[j].toHash == entries[i].toHash
    && forall k | j < k < i :: !(entries[k].act == Sign && entries[k].name == entries[i].name
                                 && entries[k].toHash == entries[i].toHash)
  }

  // Line j is the last activation before line i.
  ghost predicate ActivatedLast(entries: seq<Entry>, i: nat, j: nat) {
    && j < i < |entries| && (entries[j].act == Promote || entries[j].act == Rollback)
    && forall k | j < k < i :: entries[k].act != Promote && entries[k].act != Rollback
  }

  // What the decision of line i says, the registry having been s when the line was written.
  ghost predicate Tells(entries: seq<Entry>, i: nat, s: Store, d: Decision)
    requires i < |entries|
  {
    var e := entries[i];
    && d.id == DecisionId(e.act, e.name, e.toHash, e.at) && d.actor == e.who && d.subject == e.toHash
    && (e.act == Sign ==> d.premise == None && d.supersedes == None)
    && (e.act == Promote || e.act == Rollback ==>
          && (exists j: nat :: SignedLast(entries, i, j) && LeadsTo(entries, d.premise, j))
          && (d.supersedes == None <==> e.act == Promote && NothingActive(s))
          && (d.supersedes != None ==>
                exists j: nat :: ActivatedLast(entries, i, j) && LeadsTo(entries, d.supersedes, j)
                         && forall v | v in s.versions && v.status == Active :: entries[j].toHash == v.hash))
  }

  /** Main result: after every undisturbed run with distinct timestamps, the copy of the ledger holds a decision for
    * each line: by whom the line is, about the bytes it names. A signature rests on nothing. An activation rests on
    * the last signature over its bytes under its name, and supersedes the last activation before it, whose bytes are
    * those of the version active at the time if there was one; it supersedes nothing if and only if it is a
    * promotion made while nothing was active.
    */
  lemma CopyTellsHistory(events: seq<Event>, i: nat) returns (n: nat)
    requires Undisturbed(events) && ClockRuns(events) && i < |Run(EMPTY, events).ledger|
    ensures Strict(Run(EMPTY, events).ledger) && WrittenBy(events, n, i)
    ensures var entries := Run(EMPTY, events).ledger;
            var id := DecisionId(entries[i].act, entries[i].name, entries[i].toHash, entries[i].at);
            && id in FullCopy(entries).decisions
            && Tells(entries, i, Run(EMPTY, events[..n]), FullCopy(entries).decisions[id])
  {
    hide Run, Undisturbed, ClockRuns, FullCopy, WrittenBy, Strict, NothingActive, Tells, DecisionOf;
    LedgerStaysInOrder(events);
    var entries := Run(EMPTY, events).ledger;
    FullCopyHolds(entries, i);
    if IsActivation(entries[i]) {
      n := HistoryIsFaithful(events, i);
      ActivationTells(entries, i, Run(EMPTY, events[..n]));
    } else {
      n := EventOfLine(events, i);
      SignatureTells(entries, i, Run(EMPTY, events[..n]));
    }
  }

  lemma ActivationTells(entries: seq<Entry>, i: nat, s: Store)
    requires Strict(entries) && i < |entries| && IsActivation(entries[i]) && 0 <= BasedOn(entries, i)
    requires Supersedes(entries, i) < 0 <==> entries[i].act == Promote && NothingActive(s)
    requires Supersedes(entries, i) >= 0 ==> Supersedes(entries, i) == LastActivation(entries[..i])
    requires forall v | v in s.versions && v.status == Active ::
               Supersedes(entries, i) >= 0 && entries[Supersedes(entries, i)].toHash == v.hash
    ensures Tells(entries, i, s, DecisionOf(entries, i))
  {
    hide NothingActive, Strict, BasedOn, Supersedes;
    PremiseIsLast(entries, i);
    var d, j, k := DecisionOf(entries, i), BasedOn(entries, i), Supersedes(entries, i);
    assert LeadsTo(entries, d.premise, j);
    if k >= 0 {
      assert ActivatedLast(entries, i, k) && LeadsTo(entries, d.supersedes, k);
    }
  }

  lemma SignatureTells(entries: seq<Entry>, i: nat, s: Store)
    requires i < |entries| && !IsActivation(entries[i])
    ensures Tells(entries, i, s, DecisionOf(entries, i))
  {
    hide NothingActive;
  }

  lemma PremiseIsLast(entries: seq<Entry>, i: nat)
    requires Strict(entries) && i < |entries| && IsActivation(entries[i]) && 0 <= BasedOn(entries, i)
    ensures SignedLast(entries, i, BasedOn(entries, i))
  {
    var q := SignOf(entries[i].name, entries[i].toHash);
    var best := LatestOf(entries, i, q);
    assert IsLatest(entries, i, q, best);
    forall k | best < k < i
      ensures !Matches(q, entries[k])
    {
      assert Matches(q, entries[k]) ==> Eligible(entries, i, q, k);
    }
  }
}
