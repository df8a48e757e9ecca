/** Which local directories can be rewritten in quoted text: exactly those that quoting cannot produce. */
module ShellDirs {
  import opened Basics
  import opened Shell

  // The printed argument reads back with each occurrence of the directory replaced by the value of $D.
  predicate ReadsBack(a: string, dir: string, d: string) {
    ReadWord(RewriteDir(ShellQuote(a), dir), Unquoted, "", d) == Some((ReplaceAll(a, dir, d), ""))
  }

  // What a fresh temporary directory is called: an absolute path without a quote.
  predicate PathLike(d: string) {
    d != "" && d[0] == '/' && QUOTE !in d
  }

  /** Main result: every argument survives, whatever the value of $D, if and only if the directory has no
    * quote and is not a lone backslash; and so it is for each single value of $D that a path can be.
    */
  lemma RoundTripExactly(dir: string)
    ensures Rewritable(dir) <==> forall a, d :: ReadsBack(a, dir, d)
    ensures forall d | PathLike(d) :: Rewritable(dir) <==> forall a :: ReadsBack(a, dir, d)
  {
    if Rewritable(dir) {
      forall a, d
        ensures ReadsBack(a, dir, d)
      {
        ArgumentRoundTrip(a, dir, d, "");
        assert RewriteDir(ShellQuote(a), dir) + "" == RewriteDir(ShellQuote(a), dir);
      }
    } else {
      forall d | PathLike(d)
        ensures exists a :: !ReadsBack(a, dir, d)
      {
        var a := Breaks(dir, d);
      }
      assert PathLike("/");
    }
  }

  /** For a directory with a quote, or a lone backslash, and every such $D an argument that does not survive. */
  lemma Breaks(dir: string, d: string) returns (a: string)
    requires !Rewritable(dir) && PathLike(d)
    ensures !ReadsBack(a, dir, d)
  {
    if dir == "\\" {
      a := "'";
      assert ShellQuote("'") == "''\\'''" by { EscapeFirst("'"); }
      assert "'"[0..][0] == QUOTE && "'"[1..] == "";
      FoundBreaks(a, dir, 2, d);
    } else if exists c :: c in dir && c != QUOTE && c != '\\' {
      var c :| c in dir && c != QUOTE && c != '\\';
      a := dir;
      BackslashRemains(dir, c, d);
    } else if p :| 0 <= p <= |ShellQuote(dir)| && dir <= ShellQuote(dir)[p..] {
      var q;
      a, q := ShorterHolds(dir, p);
      FoundBreaks(a, dir, q, d);
    } else {
      a := dir;
      UnfoundBreaks(dir, d);
    }
  }

  // ---------------------------------------------------------------- what reading keeps

  lemma {:induction false} WordOnlyGrows(s: string, mode: Mode, w: string, d: string)
    requires ReadWord(s, mode, w, d).Some?
    ensures w <= ReadWord(s, mode, w, d).value.0
    decreases |s|
  {
    match mode
    case Unquoted =>
      if s == "" || s[0] == ' ' {
      } else if s[0] == QUOTE {
        WordOnlyGrows(s[1..], Single, w, d);
      } else if s[0] == '"' {
        WordOnlyGrows(s[1..], Double, w, d);
      } else if s[0] == '\\' {
        WordOnlyGrows(s[2..], Unquoted, w + [s[1]], d);
      } else {
        WordOnlyGrows(s[1..], Unquoted, w + [s[0]], d);
      }
    case Single =>
      if s[0] == QUOTE {
        WordOnlyGrows(s[1..], Unquoted, w, d);
      } else {
        WordOnlyGrows(s[1..], Single, w + [s[0]], d);
      }
    case Double =>
      if s[0] == '"' {
        WordOnlyGrows(s[1..], Unquoted, w, d);
      } else if ExpandsD(s) {
        WordOnlyGrows(s[2..], Double, w + d, d);
      } else if s[0] == '\\' && |s| > 1 && s[1] in {'$', BACKTICK, '"', '\\'} {
        WordOnlyGrows(s[2..], Double, w + [s[1]], d);
      } else {
        WordOnlyGrows(s[1..], Double, w + [s[0]], d);
      }
  }

  /** A backslash always leaves something in the word, or makes the reader give up. */
  lemma {:induction false} BackslashShows(s: string, mode: Mode, w: string, d: string)
    requires '\\' in s && ReadWord(s, mode, w, d).Some? && ReadWord(s, mode, w, d).value.1 == ""
    ensures |ReadWord(s, mode, w, d).value.0| > |w|
    decreases |s|
  {
    WordOnlyGrows(s, mode, w, d);
    var t := s[1..];
    assert s == [s[0]] + t;
    match mode
    case Unquoted =>
      if s[0] == QUOTE {
        BackslashShows(t, Single, w, d);
      } else if s[0] == '"' {
        BackslashShows(t, Double, w, d);
      } else if s[0] == '\\' {
        WordOnlyGrows(s[2..], Unquoted, w + [s[1]], d);
      } else {
        WordOnlyGrows(t, Unquoted, w + [s[0]], d);
      }
    case Single =>
      if s[0] == QUOTE {
        BackslashShows(t, Unquoted, w, d);
      } else {
        WordOnlyGrows(t, Single, w + [s[0]], d);
      }
    case Double =>
      if s[0] == '"' {
        BackslashShows(t, Unquoted, w, d);
      } else if ExpandsD(s) {
        assert s == s[..2] + s[2..];
        BackslashShows(s[2..], Double, w + d, d);
      } else if s[0] == '\\' && |s| > 1 && s[1] in {'$', BACKTICK, '"', '\\'} {
        WordOnlyGrows(s[2..], Double, w + [s[1]], d);
      } else {
        WordOnlyGrows(t, Double, w + [s[0]], d);
      }
  }

  predicate Shows(word: string) {
    '"' in word || '/' in word
  }

  /** What replaces the directory leaves a double quote or a path in the word, as it stands or expanded; or it
    * makes the reader give up.
    */
  lemma {:induction false} RemoteShows(u: string, v: string, mode: Mode, w: string, d: string)
    requires PathLike(d)
    requires var r := ReadWord(u + REMOTE_DIR + v, mode, w, d); r.Some? && r.value.1 == ""
    ensures Shows(ReadWord(u + REMOTE_DIR + v, mode, w, d).value.0)
    decreases |u|
  {
    var s := u + REMOTE_DIR + v;
    if u == "" {
      assert s == REMOTE_DIR + v;
      RemoteShowsHere(v, mode, w, d);
    } else {
      var t := u[1..];
      assert s[0] == u[0];
      Dropped(u, v);
      match mode
      case Unquoted =>
        if s[0] == QUOTE {
          RemoteShows(t, v, Single, w, d);
        } else if s[0] == '"' {
          RemoteShows(t, v, Double, w, d);
        } else if s[0] == '\\' {
          if t == "" {
            DroppedInto(u, v);
            RemoteExpands(v, w + [s[1]], d);
          } else {
            Dropped(t, v);
            assert s[2..] == s[1..][1..];
            RemoteShows(t[1..], v, Unquoted, w + [s[1]], d);
          }
        } else {
          RemoteShows(t, v, Unquoted, w + [s[0]], d);
        }
      case Single =>
        if s[0] == QUOTE {
          RemoteShows(t, v, Unquoted, w, d);
        } else {
          RemoteShows(t, v, Single, w + [s[0]], d);
        }
      case Double =>
        if s[0] == '"' {
          RemoteShows(t, v, Unquoted, w, d);
        } else if t != "" && (ExpandsD(s) || (s[0] == '\\' && s[1] in {'$', BACKTICK, '"', '\\'})) {
          Dropped(t, v);
          assert s[2..] == s[1..][1..];
          RemoteShows(t[1..], v, Double, if ExpandsD(s) then w + d else w + [s[1]], d);
        } else {
          if t == "" {
            DroppedInto(u, v);
          }
          RemoteShows(t, v, Double, w + [s[0]], d);
        }
    }
  }

  lemma Dropped(u: string, v: string)
    requires u != ""
    ensures (u + REMOTE_DIR + v)[1..] == u[1..] + REMOTE_DIR + v
  {
  }

  lemma DroppedInto(u: string, v: string)
    requires |u| == 1
    ensures (u + REMOTE_DIR + v)[1] == QUOTE && (u + REMOTE_DIR + v)[2..] == "\"$D\"'" + v
  {
    assert REMOTE_DIR == [QUOTE] + "\"$D\"'";
  }

  lemma PrefixHas(p: string, r: string, c: char)
    requires p <= r && c in p
    ensures c in r
  {
  }

  lemma RemoteShowsHere(v: string, mode: Mode, w: string, d: string)
    requires PathLike(d) && ReadWord(REMOTE_DIR + v, mode, w, d).Some?
    ensures Shows(ReadWord(REMOTE_DIR + v, mode, w, d).value.0)
  {
    var s := REMOTE_DIR + v;
    var t := "\"$D\"'" + v;
    assert s[0] == QUOTE && s[1..] == t;
    match mode
    case Unquoted =>
      assert t[0] == '"';
      WordOnlyGrows(t[1..], Single, w + ['"'], d);
      PrefixHas(w + ['"'], ReadWord(s, mode, w, d).value.0, '"');
    case Single =>
      RemoteExpands(v, w, d);
    case Double =>
      GivesUpInDouble(v, w, d);
  }

  lemma GivesUpInDouble(v: string, w: string, d: string)
    ensures ReadWord(REMOTE_DIR + v, Double, w, d) == None
  {
    var s := REMOTE_DIR + v;
    var t := "\"$D\"'" + v;
    assert s[0] == QUOTE && s[1..] == t && t[0] == '"' && t[1..][0] == '$';
    assert ReadWord(t[1..], Unquoted, w + [QUOTE], d) == None;
  }

  // In double quotes the value of $D comes into the word; then a single quote opens.
  lemma RemoteReads(v: string, w: string, d: string)
    ensures ReadWord("\"$D\"'" + v, Unquoted, w, d) == ReadWord(v, Single, w + d, d)
  {
    var t := "\"$D\"'" + v;
    var u := t[1..];
    assert t[0] == '"' && u[0] == '$' && u[1] == 'D' && u[2] == '"';
    assert ExpandsD(u);
    var x, y := u[2..], "'" + v;
    assert x == "\"" + y && x[1..] == y && y[0] == QUOTE && y[1..] == v;
    assert ReadWord(t, Unquoted, w, d) == ReadWord(u, Double, w, d) == ReadWord(x, Double, w + d, d);
    assert ReadWord(x, Double, w + d, d) == ReadWord(y, Unquoted, w + d, d) == ReadWord(v, Single, w + d, d);
  }

  lemma RemoteExpands(v: string, w: string, d: string)
    requires PathLike(d) && ReadWord("\"$D\"'" + v, Unquoted, w, d).Some?
    ensures Shows(ReadWord("\"$D\"'" + v, Unquoted, w, d).value.0)
  {
    RemoteReads(v, w, d);
    WordOnlyGrows(v, Single, w + d, d);
    assert (w + d)[|w|] == '/';
    PrefixHas(w + d, ReadWord(v, Single, w + d, d).value.0, '/');
  }

  // ---------------------------------------------------------------- where the directory is found

  lemma {:induction false} Found(s: string, what: string, p: nat) returns (u: string, v: string)
    requires what != "" && p <= |s| && what <= s[p..]
    ensures ReplaceAll(s, what, REMOTE_DIR) == u + REMOTE_DIR + v
    decreases |s|
  {
    if what <= s {
      u, v := "", ReplaceAll(s[|what|..], what, REMOTE_DIR);
    } else {
      assert p > 0 by { assert s[0..] == s; }
      assert s[1..][p - 1..] == s[p..];
      u, v := Found(s[1..], what, p - 1);
      u := [s[0]] + u;
    }
  }

  // Text in which nothing begins with `what` is left alone.
  lemma {:induction false} NotFound(s: string, what: string, putting: string)
    requires forall i | 0 <= i <= |s| :: !(what <= s[i..])
    ensures ReplaceAll(s, what, putting) == s
  {
    if s != "" {
      assert s[0..] == s;
      forall i | 0 <= i <= |s[1..]|
        ensures !(what <= s[1..][i..])
      {
        assert s[1..][i..] == s[i + 1..];
      }
      NotFound(s[1..], what, putting);
    }
  }

  // An argument that does not name the directory, although its quoted form holds it.
  lemma FoundBreaks(a: string, dir: string, p: nat, d: string)
    requires dir != "" && PathLike(d) && OnlyMarks(a) && (forall i | 0 <= i <= |a| :: !(dir <= a[i..]))
    requires p <= |ShellQuote(a)| && dir <= ShellQuote(a)[p..]
    ensures !ReadsBack(a, dir, d)
  {
    hide ReadWord, ShellQuote;
    NotFound(a, dir, d);
    var u, v := Found(ShellQuote(a), dir, p);
    if ReadsBack(a, dir, d) {
      RemoteShows(u, v, Unquoted, "", d);
    }
  }

  // Nothing but quotes and backslashes.
  predicate OnlyMarks(s: string) {
    forall c | c in s :: c == QUOTE || c == '\\'
  }

  // The directory itself, when its quoted form does not hold it.
  lemma UnfoundBreaks(dir: string, d: string)
    requires QUOTE in dir && PathLike(d)
    requires forall p | 0 <= p <= |ShellQuote(dir)| :: !(dir <= ShellQuote(dir)[p..])
    ensures !ReadsBack(dir, dir, d)
  {
    hide ReadWord;
    NotFound(ShellQuote(dir), dir, REMOTE_DIR);
    ArgumentRoundTrip(dir, "", d, "");
    assert RewriteDir(ShellQuote(dir), "") + "" == ShellQuote(dir);
    OwnName(dir, d);
  }

  lemma OwnName(dir: string, d: string)
    requires dir != ""
    ensures ReplaceAll(dir, dir, d) == d
  {
    assert dir[|dir|..] == "";
    assert d + "" == d;
  }

  // ---------------------------------------------------------------- backslashes that remain

  function CountOf(s: string, x: char): nat {
    if s == "" then 0 else (if s[0] == x then 1 else 0) + CountOf(s[1..], x)
  }

  lemma {:induction false} Both(a: string, b: string, x: char)
    ensures CountOf(a + b, x) == CountOf(a, x) + CountOf(b, x)
  {
    if a == "" {
      assert a + b == b;
    } else {
      assert (a + b)[1..] == a[1..] + b;
      Both(a[1..], b, x);
    }
  }

  lemma {:induction false} CountOfHeld(s: string, x: char)
    ensures x in s <==> CountOf(s, x) > 0
  {
    if s != "" {
      CountOfHeld(s[1..], x);
      assert s == [s[0]] + s[1..];
    }
  }

  function Escape(s: string): string {
    ReplaceAll(s, "'", CLOSED_QUOTE)
  }

  function Unit(c: char): string {
    if c == QUOTE then CLOSED_QUOTE else [c]
  }

  lemma EscapeFirst(s: string)
    requires s != ""
    ensures Escape(s) == Unit(s[0]) + Escape(s[1..])
  {
    assert "'" <= s <==> s[0] == QUOTE;
  }

  lemma {:induction false} EscapeLast(s: string)
    requires s != ""
    ensures Escape(s) == Escape(s[..|s| - 1]) + Unit(s[|s| - 1])
  {
    EscapeFirst(s);
    if |s| == 1 {
      assert s[1..] == "" && s[..0] == "";
    } else {
      var front := s[..|s| - 1];
      EscapeLast(s[1..]);
      EscapeFirst(front);
      assert s[1..][..|s| - 2] == front[1..];
    }
  }

  lemma {:induction false} EscapeCount(s: string, x: char)
    ensures CountOf(Escape(s), x) == CountOf(s, x) +
              if x == '\\' then CountOf(s, QUOTE) else if x == QUOTE then 2 * CountOf(s, QUOTE) else 0
    ensures |Escape(s)| == |s| + 3 * CountOf(s, QUOTE)
  {
    hide Escape;
    if s == "" {
      assert Escape("") == "" by { EscapeNothing(); }
    } else {
      EscapeFirst(s);
      EscapeCount(s[1..], x);
      assert s == [s[0]] + s[1..];
      Both([s[0]], s[1..], x);
      Both([s[0]], s[1..], QUOTE);
      Both(Unit(s[0]), Escape(s[1..]), x);
      UnitCount(s[0], x);
    }
  }

  lemma EscapeNothing()
    ensures Escape("") == ""
  {
  }

  lemma UnitCount(c: char, x: char)
    ensures CountOf(Unit(c), x) == CountOf([c], x) +
              if c != QUOTE then 0 else if x == '\\' then 1 else if x == QUOTE then 2 else 0
    ensures |Unit(c)| == if c == QUOTE then 4 else 1
  {
    assert CLOSED_QUOTE == [QUOTE, '\\'] + [QUOTE, QUOTE];
    Both([QUOTE, '\\'], [QUOTE, QUOTE], x);
    assert [QUOTE, '\\'][1..] == ['\\'] && [QUOTE, QUOTE][1..] == [QUOTE];
  }

  lemma QuotedCount(s: string, c: char)
    requires QUOTE in s && c != QUOTE
    ensures CountOf(ShellQuote(s), c) == CountOf(s, c) + if c == '\\' then CountOf(s, QUOTE) else 0
    ensures CountOf(s, QUOTE) > 0
  {
    EscapeCount(s, c);
    CountOfHeld(s, QUOTE);
    assert ShellQuote(s) == [QUOTE] + Escape(s) + [QUOTE];
    hide Escape, ShellQuote;
    Both([QUOTE] + Escape(s), [QUOTE], c);
    Both([QUOTE], Escape(s), c);
  }

  // Around the directory in its own quoted form there is nothing but quotes and backslashes, and a backslash
  // among them.
  lemma OnlyMarksAround(dir: string, u: string, v: string)
    requires QUOTE in dir && ShellQuote(dir) == u + dir + v
    ensures OnlyMarks(u) && OnlyMarks(v) && ('\\' in u || '\\' in v)
  {
    hide ShellQuote;
    forall c | c != QUOTE
      ensures CountOf(u, c) + CountOf(v, c) == if c == '\\' then CountOf(dir, QUOTE) else 0
      ensures (c in u <==> CountOf(u, c) > 0) && (c in v <==> CountOf(v, c) > 0)
    {
      QuotedCount(dir, c);
      Both(u + dir, v, c);
      Both(u, dir, c);
      CountOfHeld(u, c);
      CountOfHeld(v, c);
    }
    CountOfHeld(dir, QUOTE);
  }

  // The first place where the directory is replaced.
  lemma {:induction false} FirstFound(s: string, what: string, p: nat) returns (u: string, rest: string)
    requires what != "" && p <= |s| && what <= s[p..]
    ensures s == u + what + rest
    ensures ReplaceAll(s, what, REMOTE_DIR) == u + REMOTE_DIR + ReplaceAll(rest, what, REMOTE_DIR)
    decreases |s|
  {
    hide ReplaceAll;
    if what <= s {
      u, rest := "", s[|what|..];
      assert s == what + rest;
      ReplaceFound(what, rest, REMOTE_DIR);
    } else {
      assert p > 0 by { assert s[0..] == s; }
      assert s[1..][p - 1..] == s[p..];
      assert s == [s[0]] + s[1..];
      ReplaceNotFound(s[0], s[1..], what, REMOTE_DIR);
      u, rest := FirstFound(s[1..], what, p - 1);
      u := [s[0]] + u;
    }
  }

  lemma Lacks(what: string, s: string, i: nat, c: char)
    requires c in what && c !in s && i <= |s|
    ensures !(what <= s[i..])
  {
    assert c !in s[i..];
  }

  /** A directory with any other character is found at most once in its own quoted form, and around it stays a
    * backslash of the quoting.
    */
  lemma BackslashRemains(dir: string, c: char, d: string)
    requires QUOTE in dir && c in dir && c != QUOTE && c != '\\' && PathLike(d)
    ensures !ReadsBack(dir, dir, d)
  {
    hide ReadWord, ReplaceAll, ShellQuote, CountOf;
    if p :| 0 <= p <= |ShellQuote(dir)| && dir <= ShellQuote(dir)[p..] {
      var u, v := FirstFound(ShellQuote(dir), dir, p);
      OnlyMarksAround(dir, u, v);
      forall i | 0 <= i <= |v|
        ensures !(dir <= v[i..])
      {
        Lacks(dir, v, i, c);
      }
      NotFound(v, dir, REMOTE_DIR);
      OwnName(dir, d);
      MarksAround(u, v, Unquoted, d);
    } else {
      UnfoundBreaks(dir, d);
    }
  }

  // Quotes and backslashes around the remote directory, a backslash among them, never read as its value alone.
  lemma {:induction false} MarksAround(u: string, v: string, mode: Mode, d: string)
    requires OnlyMarks(u) && ('\\' in u || '\\' in v) && PathLike(d) && mode != Double
    ensures ReadWord(u + REMOTE_DIR + v, mode, "", d) != Some((d, ""))
    decreases |u|
  {
    var s := u + REMOTE_DIR + v;
    if u == "" {
      assert s == REMOTE_DIR + v;
      RemoteFirst(v, mode, d);
    } else {
      Dropped(u, v);
      assert s[0] == u[0] && u[0] in u && forall c | c in u[1..] :: c in u;
      assert u == [u[0]] + u[1..];
      if u[0] == QUOTE {
        MarksAround(u[1..], v, if mode == Single then Unquoted else Single, d);
      } else {
        MarkFirst(u, v, mode, d);
      }
    }
  }

  lemma MarkFirst(u: string, v: string, mode: Mode, d: string)
    requires u != "" && OnlyMarks(u) && u[0] == '\\' && PathLike(d) && mode != Double
    ensures ReadWord(u + REMOTE_DIR + v, mode, "", d) != Some((d, ""))
  {
    var s := u + REMOTE_DIR + v;
    assert s[0] == '\\';
    if mode == Single {
      assert "" + [s[0]] == "\\";
      StartsOtherwise(s[1..], Single, "\\", d);
    } else {
      assert |u| > 1 ==> u[1] in u;
      assert s[1] == QUOTE || s[1] == '\\' by {
        if |u| == 1 {
          DroppedInto(u, v);
        }
      }
      assert "" + [s[1]] == [s[1]] && s[1..][1..] == s[2..];
      StartsOtherwise(s[2..], Unquoted, [s[1]], d);
    }
  }

  lemma StartsOtherwise(s: string, mode: Mode, w: string, d: string)
    requires w != "" && PathLike(d) && w[0] != '/'
    ensures ReadWord(s, mode, w, d) != Some((d, ""))
  {
    if ReadWord(s, mode, w, d).Some? {
      WordOnlyGrows(s, mode, w, d);
    }
  }

  lemma RemoteFirst(v: string, mode: Mode, d: string)
    requires '\\' in v && PathLike(d) && mode != Double
    ensures ReadWord(REMOTE_DIR + v, mode, "", d) != Some((d, ""))
  {
    var s := REMOTE_DIR + v;
    var t := "\"$D\"'" + v;
    assert s[0] == QUOTE && s[1..] == t && t[0] == '"';
    if mode == Unquoted {
      assert "" + [t[0]] == "\"";
      StartsOtherwise(t[1..], Single, "\"", d);
    } else {
      RemoteReads(v, "", d);
      assert "" + d == d;
      if ReadWord(v, Single, d, d) == Some((d, "")) {
        BackslashShows(v, Single, d, d);
      }
    }
  }

  // ---------------------------------------------------------------- a shorter argument that holds it

  /** A directory found in its own quoted form is found in that of a shorter argument, without its first
    * or its last character: the quoted form is too long to be covered from the first to the last.
    */
  lemma ShorterHolds(dir: string, p: nat) returns (a: string, q: nat)
    requires QUOTE in dir && OnlyMarks(dir)
    requires p <= |ShellQuote(dir)| && dir <= ShellQuote(dir)[p..]
    ensures |a| < |dir| && OnlyMarks(a) && (forall i | 0 <= i <= |a| :: !(dir <= a[i..]))
    ensures q <= |ShellQuote(a)| && dir <= ShellQuote(a)[q..]
  {
    hide ShellQuote;
    var n := |dir|;
    if n == 1 {
      a, q := "", 0;
      QuotedNothing();
      assert dir == "'";
    } else if p > Skipped(dir[0]) {
      a := dir[1..];
      q := HeldAfterFirst(dir, p);
      assert forall c | c in a :: c in dir;
    } else {
      a, q := dir[..n - 1], p;
      HeldBeforeLast(dir, p);
      assert forall c | c in a :: c in dir;
    }
  }

  lemma QuotedNothing()
    ensures ShellQuote("") == "''"
  {
  }

  lemma HeldAfterFirst(dir: string, p: nat) returns (q: nat)
    requires dir != "" && Skipped(dir[0]) < p <= |ShellQuote(dir)| && dir <= ShellQuote(dir)[p..]
    ensures q <= |ShellQuote(dir[1..])| && dir <= ShellQuote(dir[1..])[q..]
  {
    WithoutFirst(dir, p);
    hide ShellQuote;
    q := p - |Unit(dir[0])|;
  }

  lemma HeldBeforeLast(dir: string, p: nat)
    requires |dir| >= 2 && QUOTE in dir && p <= Skipped(dir[0])
    requires p <= |ShellQuote(dir)| && dir <= ShellQuote(dir)[p..]
    ensures var t := ShellQuote(dir[..|dir| - 1]); p <= |t| && dir <= t[p..]
  {
    WithoutLast(dir);
    NotAcross(dir);
    hide ShellQuote;
    FitsBefore(ShellQuote(dir), ShellQuote(dir[..|dir| - 1]), dir, p, |ShellQuote(dir)| - Skipped(dir[|dir| - 1]));
  }

  // How far into a quoted argument an occurrence may begin and still need its first character.
  function Skipped(c: char): nat {
    if c == QUOTE then 3 else 1
  }

  lemma WithoutFirst(s: string, p: nat)
    requires s != "" && Skipped(s[0]) < p <= |ShellQuote(s)|
    ensures var u, t := |Unit(s[0])|, ShellQuote(s[1..]);
            u <= p <= |t| + u && ShellQuote(s)[p..] == t[p - u..]
  {
    EscapeFirst(s);
    hide ReplaceAll;
    var q, t, e := ShellQuote(s), ShellQuote(s[1..]), Escape(s[1..]);
    assert q == "'" + (Unit(s[0]) + e) + "'" && t == "'" + e + "'";
    if s[0] == QUOTE {
      assert q == "''\\'" + t;
      DropFront("''\\'", t, p);
    } else {
      assert q == [QUOTE, s[0]] + t[1..];
      DropFront([QUOTE, s[0]], t[1..], p);
      assert t[1..][p - 2..] == t[p - 1..];
    }
  }

  lemma DropFront(x: string, t: string, p: nat)
    requires |x| <= p <= |x + t|
    ensures (x + t)[p..] == t[p - |x|..]
  {
  }

  lemma WithoutLast(s: string)
    requires s != ""
    ensures var k := Skipped(s[|s| - 1]);
            var q, t := ShellQuote(s), ShellQuote(s[..|s| - 1]);
            |q| > k && |q| - k - 1 <= |t| && q[..|q| - k - 1] == t[..|q| - k - 1]
  {
    EscapeLast(s);
    var front, last := s[..|s| - 1], s[|s| - 1];
    var q, t := ShellQuote(s), ShellQuote(front);
    assert q == "'" + Escape(front) + Unit(last) + "'" && t == "'" + Escape(front) + "'";
    if last == QUOTE {
      assert q[..|q| - 4] == t;
    } else {
      assert q[..|q| - 2] == t[..|t| - 1];
    }
  }

  // The quoted form is longer than the argument by more than what can be skipped at both ends.
  lemma NotAcross(s: string)
    requires |s| >= 2 && QUOTE in s
    ensures |ShellQuote(s)| - Skipped(s[0]) - Skipped(s[|s| - 1]) > |s|
  {
    EscapeCount(s, QUOTE);
    var n := |s| - 1;
    assert s == [s[0]] + s[1..n] + [s[n]];
    Both([s[0]] + s[1..n], [s[n]], QUOTE);
    Both([s[0]], s[1..n], QUOTE);
    CountOfHeld(s, QUOTE);
  }

  lemma FitsBefore(q: string, t: string, what: string, p: nat, end: nat)
    requires p + |what| < end <= |q| && what <= q[p..]
    requires end - 1 <= |t| && q[..end - 1] == t[..end - 1]
    ensures p <= |t| && what <= t[p..]
  {
    assert q[p..][..|what|] == q[p..p + |what|] == q[..end - 1][p..p + |what|];
    assert t[p..][..|what|] == t[p..p + |what|] == t[..end - 1][p..p + |what|];
  }
}
