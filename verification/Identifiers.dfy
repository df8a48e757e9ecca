/** Which words an expression is split into: its maximal runs of identifier characters, all of them, in order. */
module Identifiers {
  import opened GraphBuild

  predicate AllIdent(w: string) {
    forall k | 0 <= k < |w| :: IdentChar(w[k])
  }

  /** The word stands at this place, and no identifier character stands directly before or after it. */
  predicate StandsAt(s: string, w: string, i: nat) {
    && w != "" && AllIdent(w) && i + |w| <= |s| && s[i..i + |w|] == w
    && (i > 0 ==> !IdentChar(s[i - 1]))
    && (i + |w| < |s| ==> !IdentChar(s[i + |w|]))
  }

  ghost predicate IsWordOf(s: string, w: string) {
    exists i: nat :: StandsAt(s, w, i)
  }

  // ---------------------------------------------------------------- splitting at one character

  lemma {:induction false} RunsAround(a: string, c: char, b: string, run: string)
    requires !IdentChar(c)
    ensures Runs(a + [c] + b, run) == Runs(a, run) + Runs(b, "")
    decreases |a|
  {
    var s := a + [c] + b;
    if a == "" {
      assert s[0] == c && s[1..] == b;
    } else {
      assert s[0] == a[0] && s[1..] == a[1..] + [c] + b;
      RunsAround(a[1..], c, b, if IdentChar(a[0]) then run + [a[0]] else "");
    }
  }

  lemma {:induction false} RunOfIdents(w: string, run: string)
    requires AllIdent(w)
    ensures Runs(w, run) == if run + w == "" then [] else [run + w]
    decreases |w|
  {
    if w == "" {
      assert run + w == run;
    } else {
      RunOfIdents(w[1..], run + [w[0]]);
      assert run + [w[0]] + w[1..] == run + w;
    }
  }

  /** The words of two texts with another character between them are those of the one and then those of the
    * other, and a text of identifier characters alone is one word.
    */
  lemma WordsInOrder(a: string, c: char, b: string)
    ensures !IdentChar(c) ==> SplitIdents(a + [c] + b) == SplitIdents(a) + SplitIdents(b)
    ensures AllIdent(a) ==> SplitIdents(a) == if a == "" then [] else [a]
  {
    if !IdentChar(c) {
      RunsAround(a, c, b, "");
    }
    if AllIdent(a) {
      RunOfIdents(a, "");
      assert "" + a == a;
    }
  }

  // ---------------------------------------------------------------- what the words are

  lemma StandsInside(s: string, w: string, i: nat)
    requires StandsAt(s, w, i)
    ensures forall k | i <= k < i + |w| :: IdentChar(s[k])
  {
    forall k | i <= k < i + |w|
      ensures IdentChar(s[k])
    {
      assert s[k] == s[i..i + |w|][k - i] == w[k - i];
    }
  }

  lemma StandsBefore(a: string, c: char, b: string, w: string, i: nat)
    requires !IdentChar(c) && i + |w| <= |a|
    ensures StandsAt(a + [c] + b, w, i) <==> StandsAt(a, w, i)
  {
    assert (a + [c] + b)[i..i + |w|] == a[i..i + |w|];
  }

  lemma StandsBehind(a: string, c: char, b: string, w: string, i: nat)
    requires !IdentChar(c)
    ensures StandsAt(a + [c] + b, w, |a| + 1 + i) <==> StandsAt(b, w, i)
  {
    var s, n := a + [c] + b, |a| + 1;
    if i + |w| <= |b| {
      assert s[n + i..n + i + |w|] == b[i..i + |w|];
    }
  }

  // A word stands on one side of another character or on the other.
  lemma WordOnOneSide(a: string, c: char, b: string, w: string)
    requires !IdentChar(c)
    ensures IsWordOf(a + [c] + b, w) <==> IsWordOf(a, w) || IsWordOf(b, w)
  {
    var s, n := a + [c] + b, |a|;
    if i: nat :| StandsAt(s, w, i) {
      StandsInside(s, w, i);
      assert s[n] == c;
      if i + |w| <= n {
        StandsBefore(a, c, b, w, i);
      } else {
        StandsBehind(a, c, b, w, i - n - 1);
      }
    }
    if i: nat :| StandsAt(a, w, i) {
      StandsBefore(a, c, b, w, i);
    }
    if i: nat :| StandsAt(b, w, i) {
      StandsBehind(a, c, b, w, i);
    }
  }

  lemma OnlyWordOf(s: string, w: string)
    requires AllIdent(s)
    ensures IsWordOf(s, w) <==> w == s && s != ""
  {
    if i: nat :| StandsAt(s, w, i) {
      assert i == 0 && |w| == |s|;
      assert s[0..|s|] == s;
    }
    if w == s && s != "" {
      assert s[0..0 + |w|] == w;
      assert StandsAt(s, w, 0);
    }
  }

  // The first character that is none of an identifier.
  function FirstOther(s: string): (i: nat)
    ensures i <= |s| && AllIdent(s[..i]) && (i < |s| ==> !IdentChar(s[i]))
  {
    if s == "" || !IdentChar(s[0]) then 0
    else
      var i := FirstOther(s[1..]);
      assert s[..i + 1] == [s[0]] + s[1..][..i];
      i + 1
  }

  /** Main result: an expression is split into exactly the words that stand in it: the slices of identifier
    * characters with none directly before or after.
    */
  lemma {:induction false} WordsExactly(s: string, w: string)
    ensures w in SplitIdents(s) <==> IsWordOf(s, w)
    decreases |s|
  {
    hide SplitIdents, IsWordOf;
    var i := FirstOther(s);
    if i == |s| {
      assert s[..i] == s;
      WordsInOrder(s, ' ', "");
      OnlyWordOf(s, w);
    } else {
      var a, c, b := s[..i], s[i], s[i + 1..];
      assert s == a + [c] + b;
      WordsInOrder(a, c, b);
      WordsInOrder(a, ' ', "");
      WordOnOneSide(a, c, b, w);
      OnlyWordOf(a, w);
      WordsExactly(b, w);
    }
  }

  // ---------------------------------------------------------------- blanks and cases

  predicate AllBlank(s: string) {
    forall k | 0 <= k < |s| :: Blank(s[k])
  }

  /** Trimming drops the blanks at both ends, all of them and nothing else. */
  lemma TrimExactly(s: string) returns (a: string, b: string)
    ensures s == a + Trim(s) + b && AllBlank(a) && AllBlank(b)
    ensures Trim(s) != "" ==> !Blank(Trim(s)[0]) && !Blank(Trim(s)[|Trim(s)| - 1])
  {
    a := LeftBlanks(s);
    b := RightBlanks(TrimLeft(s));
  }

  lemma {:induction false} LeftBlanks(s: string) returns (a: string)
    ensures s == a + TrimLeft(s) && AllBlank(a) && (TrimLeft(s) != "" ==> !Blank(TrimLeft(s)[0]))
  {
    a := "";
    if s != "" && Blank(s[0]) {
      a := LeftBlanks(s[1..]);
      a := [s[0]] + a;
    }
  }

  lemma {:induction false} RightBlanks(s: string) returns (b: string)
    ensures s == TrimRight(s) + b && AllBlank(b)
    ensures TrimRight(s) != "" ==> TrimRight(s)[0] == s[0] && !Blank(TrimRight(s)[|TrimRight(s)| - 1])
  {
    b := "";
    if s != "" && Blank(s[|s| - 1]) {
      b := RightBlanks(s[..|s| - 1]);
      b := b + [s[|s| - 1]];
    }
  }

  // The same letters, some of them capitals.
  predicate SpelledLike(w: string, u: string) {
    && |w| == |u|
    && forall k | 0 <= k < |w| :: w[k] == u[k] || ('a' <= u[k] <= 'z' && w[k] as int == u[k] as int - 32)
  }

  /** A keyword is known in capitals as in small letters. */
  lemma KeywordInAnyCase(w: string, u: string)
    requires u in SQL_WORDS && SpelledLike(w, u)
    ensures Lower(w) in SQL_WORDS
  {
    forall k | 0 <= k < |u|
      ensures LowerChar(w[k]) == u[k]
    {
      KeywordIsSmall(u, k);
    }
    assert Lower(w) == u;
  }

  lemma KeywordIsSmall(u: string, k: nat)
    requires u in SQL_WORDS && k < |u|
    ensures 'a' <= u[k] <= 'z'
  {
  }

  /** A word of ASCII is a keyword only if it is one spelled so. */
  lemma KeywordOnlySo(w: string)
    requires Lower(w) in SQL_WORDS && forall k | 0 <= k < |w| :: w[k] < '\U{80}'
    ensures SpelledLike(w, Lower(w))
  {
    forall k | 0 <= k < |w|
      ensures w[k] == Lower(w)[k] || ('a' <= Lower(w)[k] <= 'z' && w[k] as int == Lower(w)[k] as int - 32)
    {
    }
  }
}
