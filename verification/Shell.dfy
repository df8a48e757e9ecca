/** Printing a command for a remote shell, and what that shell reads back.
  *
  * The printer quotes every argument and points local paths at the remote directory $D. The reader
  * follows sections 2.2.1 to 2.2.3 (quoting) and 2.7.4 (here-documents) of the Shell Command Language in
  * IEEE Std 1003.1-2017; text outside the printer's repertoire makes it give up.
  */
module Shell {
  import opened Basics

  // ---------------------------------------------------------------- the printer

  // Replaces every occurrence of `what`, left to right without overlap; an empty one occurs nowhere.
  function ReplaceAll(s: string, what: string, putting: string): string {
    if s == [] || what == [] then s
    else if what <= s then putting + ReplaceAll(s[|what|..], what, putting)
    else [s[0]] + ReplaceAll(s[1..], what, putting)
  }

  const QUOTE := '\U{27}'
  const BACKTICK := '\U{60}'

  const CLOSED_QUOTE := "'\\''"
  const REMOTE_DIR := "'\"$D\"'"

  function ShellQuote(s: string): string {
    "'" + ReplaceAll(s, "'", CLOSED_QUOTE) + "'"
  }

  function RewriteDir(quoted: string, localDir: string): string {
    if localDir == "" then quoted else ReplaceAll(quoted, localDir, REMOTE_DIR)
  }

  // ---------------------------------------------------------------- the reader

  datatype Mode = Unquoted | Single | Double

  predicate NameChar(c: char) {
    c == '_' || '0' <= c <= '9' || 'a' <= c <= 'z' || 'A' <= c <= 'Z'
  }

  // Characters that stand for themselves outside quotes.
  predicate Ordinary(c: char) {
    NameChar(c) || c == '/' || c == '.' || c == '-' || c == ':' || c == ',' || c == '+' || c == '@'
  }

  // $D, and not a longer name that begins with D.
  predicate ExpandsD(s: string) {
    |s| >= 2 && s[0] == '$' && s[1] == 'D' && (|s| == 2 || !NameChar(s[2]))
  }

  /** Reads on in the given mode, w being the word so far; returns the word and the unread text, which
    * begins at the space that ended the word.
    */
  function ReadWord(s: string, mode: Mode, w: string, d: string): (r: Option<(string, string)>)
    ensures r.Some? ==> |r.value.1| <= |s|
    ensures r.Some? && mode == Unquoted && s != "" && s[0] != ' ' ==> |r.value.1| < |s|
    decreases |s|
  {
    match mode
    case Unquoted =>
      if s == "" || s[0] == ' ' then Some((w, s))
      else if s[0] == QUOTE then ReadWord(s[1..], Single, w, d)
      else if s[0] == '"' then ReadWord(s[1..], Double, w, d)
      else if s[0] == '\\' then
        if |s| == 1 || s[1] == '\n' then None else ReadWord(s[2..], Unquoted, w + [s[1]], d)
      else if Ordinary(s[0]) then ReadWord(s[1..], Unquoted, w + [s[0]], d)
      else None
    case Single =>
      if s == "" then None
      else if s[0] == QUOTE then ReadWord(s[1..], Unquoted, w, d)
      else ReadWord(s[1..], Single, w + [s[0]], d)
    case Double =>
      if s == "" then None
      else if s[0] == '"' then ReadWord(s[1..], Unquoted, w, d)
      else if ExpandsD(s) then ReadWord(s[2..], Double, w + d, d)
      else if s[0] == '$' || s[0] == BACKTICK then None
      else if s[0] == '\\' && |s| > 1 && s[1] in {'$', BACKTICK, '"', '\\'} then ReadWord(s[2..], Double, w + [s[1]], d)
      else ReadWord(s[1..], Double, w + [s[0]], d)
  }

  function ReadWords(s: string, d: string): Option<seq<string>>
    decreases |s|
  {
    if s == "" then Some([])
    else if s[0] == ' ' then ReadWords(s[1..], d)
    else
      match ReadWord(s, Unquoted, "", d)
      case None => None
      case Some((w, rest)) =>
        match ReadWords(rest, d)
        case None => None
        case Some(ws) => Some([w] + ws)
  }

  // ---------------------------------------------------------------- one argument

  // A local directory that has no quote and is not the backslash that quoting itself inserts.
  predicate Rewritable(dir: string) {
    QUOTE !in dir && dir != "\\"
  }

  // What the rewritten quoted text is, read off the argument.
  function Rewritten(a: string, dir: string): string {
    if a == "" then ""
    else if dir != "" && dir <= a then REMOTE_DIR + Rewritten(a[|dir|..], dir)
    else (if a[0] == QUOTE then CLOSED_QUOTE else [a[0]]) + Rewritten(a[1..], dir)
  }

  lemma {:induction false} EscapeKeepsPrefix(p: string, a: string)
    requires QUOTE !in p && p <= a
    ensures ReplaceAll(a, "'", CLOSED_QUOTE) == p + ReplaceAll(a[|p|..], "'", CLOSED_QUOTE)
  {
    if p != "" {
      assert a[0] == p[0] && p[0] in p;
      EscapeKeepsPrefix(p[1..], a[1..]);
      assert a[1..][|p[1..]|..] == a[|p|..];
    } else {
      assert a[0..] == a;
    }
  }

  // A quote-free text begins the escaped argument only where it begins the argument.
  lemma {:induction false} PrefixOfEscaped(p: string, a: string)
    requires QUOTE !in p
    ensures p <= ReplaceAll(a, "'", CLOSED_QUOTE) + "'" <==> p <= a
  {
    var e := ReplaceAll(a, "'", CLOSED_QUOTE) + "'";
    if p != "" {
      assert p[0] in p;
      if a == "" {
        assert e == "'";
      } else if a[0] == QUOTE {
        assert e[0] == QUOTE;
      } else {
        var f := ReplaceAll(a[1..], "'", CLOSED_QUOTE) + "'";
        assert e == [a[0]] + f;
        PrefixOfEscaped(p[1..], a[1..]);
        assert p == [p[0]] + p[1..] && a == [a[0]] + a[1..];
        assert p <= e <==> p[0] == a[0] && p[1..] <= f by {
          assert e[1..] == f;
        }
      }
    }
  }

  // Replacing the directory steps over what quoting inserted.
  lemma StepOverQuote(dir: string, rest: string)
    requires dir != "" && Rewritable(dir)
    ensures ReplaceAll(CLOSED_QUOTE + rest, dir, REMOTE_DIR) == CLOSED_QUOTE + ReplaceAll(rest, dir, REMOTE_DIR)
  {
    hide ReplaceAll;
    var s1, s2, s3 := "\\''" + rest, "''" + rest, "'" + rest;
    assert dir[0] in dir && (|dir| > 1 ==> dir[1] in dir);
    assert CLOSED_QUOTE + rest == "'" + s1 && s1 == "\\" + s2 && s2 == "'" + s3;
    assert !(dir <= s1) by {
      assert s1[0] == '\\' && s1[1] == QUOTE;
    }
    ReplaceNotFound(QUOTE, s1, dir, REMOTE_DIR);
    ReplaceNotFound('\\', s2, dir, REMOTE_DIR);
    ReplaceNotFound(QUOTE, s3, dir, REMOTE_DIR);
    ReplaceNotFound(QUOTE, rest, dir, REMOTE_DIR);
  }

  lemma EscapeStep(a: string)
    ensures ReplaceAll(a, "'", CLOSED_QUOTE) ==
            if a == "" then ""
            else (if a[0] == QUOTE then CLOSED_QUOTE else [a[0]]) + ReplaceAll(a[1..], "'", CLOSED_QUOTE)
  {
  }

  lemma RewrittenStep(a: string, dir: string)
    requires dir != ""
    ensures Rewritten(a, dir) ==
            if a == "" then ""
            else if dir <= a then REMOTE_DIR + Rewritten(a[|dir|..], dir)
            else (if a[0] == QUOTE then CLOSED_QUOTE else [a[0]]) + Rewritten(a[1..], dir)
  {
  }

  lemma ReplaceFound(what: string, rest: string, putting: string)
    requires what != ""
    ensures ReplaceAll(what + rest, what, putting) == putting + ReplaceAll(rest, what, putting)
  {
    assert what <= what + rest && (what + rest)[|what|..] == rest;
  }

  lemma ReplaceNotFound(c: char, rest: string, what: string, putting: string)
    requires what != "" && !(what <= [c] + rest)
    ensures ReplaceAll([c] + rest, what, putting) == [c] + ReplaceAll(rest, what, putting)
  {
    assert ([c] + rest)[1..] == rest;
  }

  lemma QuoteStays(dir: string)
    requires dir != "" && QUOTE !in dir
    ensures ReplaceAll("'", dir, REMOTE_DIR) == "'"
  {
    assert dir[0] in dir;
    assert "'"[1..] == "";
  }

  lemma {:induction false} RewritingIsRewritten(a: string, dir: string)
    requires dir != "" && Rewritable(dir)
    ensures ReplaceAll(ReplaceAll(a, "'", CLOSED_QUOTE) + "'", dir, REMOTE_DIR) == Rewritten(a, dir) + "'"
    decreases |a|
  {
    hide ReplaceAll, Rewritten;
    var e := ReplaceAll(a, "'", CLOSED_QUOTE) + "'";
    PrefixOfEscaped(dir, a);
    RewrittenStep(a, dir);
    EscapeStep(a);
    if a == "" {
      assert e == "'" && Rewritten(a, dir) + "'" == "'";
      QuoteStays(dir);
    } else if dir <= a {
      EscapeKeepsPrefix(dir, a);
      var f := ReplaceAll(a[|dir|..], "'", CLOSED_QUOTE) + "'";
      assert e == dir + f;
      RewritingIsRewritten(a[|dir|..], dir);
      ReplaceFound(dir, f, REMOTE_DIR);
    } else {
      var f := ReplaceAll(a[1..], "'", CLOSED_QUOTE) + "'";
      RewritingIsRewritten(a[1..], dir);
      if a[0] == QUOTE {
        assert e == CLOSED_QUOTE + f;
        StepOverQuote(dir, f);
      } else {
        assert e == [a[0]] + f;
        ReplaceNotFound(a[0], f, dir, REMOTE_DIR);
      }
    }
  }

  // With no directory to rewrite, the quoted text is the plain escape.
  lemma {:induction false} EscapeIsRewritten(a: string)
    ensures ReplaceAll(a, "'", CLOSED_QUOTE) == Rewritten(a, "")
  {
    if a != "" {
      EscapeIsRewritten(a[1..]);
    }
  }

  lemma PrintedArgument(a: string, dir: string)
    requires Rewritable(dir)
    ensures RewriteDir(ShellQuote(a), dir) == "'" + Rewritten(a, dir) + "'"
  {
    if dir == "" {
      EscapeIsRewritten(a);
    } else {
      var e := ReplaceAll(a, "'", CLOSED_QUOTE) + "'";
      RewritingIsRewritten(a, dir);
      assert dir[0] in dir;
      assert ShellQuote(a) == "'" + e && ShellQuote(a)[1..] == e;
    }
  }

  // Inside single quotes the rewritten text reads as the argument with the directory replaced.
  lemma {:induction false} ReadRewritten(a: string, dir: string, w: string, d: string, rest: string)
    ensures ReadWord(Rewritten(a, dir) + "'" + rest, Single, w, d)
         == ReadWord(rest, Unquoted, w + ReplaceAll(a, dir, d), d)
    decreases |a|
  {
    var s := Rewritten(a, dir) + "'" + rest;
    if a == "" {
      assert s == "'" + rest && s[1..] == rest;
      assert w + "" == w;
    } else if dir != "" && dir <= a {
      var t := Rewritten(a[|dir|..], dir) + "'" + rest;
      assert s == REMOTE_DIR + t;
      ReadRemoteDir(t, w, d);
      ReadRewritten(a[|dir|..], dir, w + d, d, rest);
      assert (w + d) + ReplaceAll(a[|dir|..], dir, d) == w + (d + ReplaceAll(a[|dir|..], dir, d));
    } else {
      var t := Rewritten(a[1..], dir) + "'" + rest;
      ReadRewritten(a[1..], dir, w + [a[0]], d, rest);
      assert ReplaceAll(a, dir, d) == [a[0]] + ReplaceAll(a[1..], dir, d) by {
        EmptyReplaces(a, dir, d);
      }
      assert (w + [a[0]]) + ReplaceAll(a[1..], dir, d) == w + ([a[0]] + ReplaceAll(a[1..], dir, d));
      if a[0] == QUOTE {
        assert s == CLOSED_QUOTE + t;
        ReadClosedQuote(t, w, d);
      } else {
        assert s == [a[0]] + t && s[1..] == t;
      }
    }
  }

  lemma EmptyReplaces(a: string, dir: string, d: string)
    requires a != "" && !(dir != "" && dir <= a)
    ensures ReplaceAll(a, dir, d) == [a[0]] + ReplaceAll(a[1..], dir, d)
  {
    assert a == [a[0]] + a[1..];
  }

  lemma ReadClosedQuote(t: string, w: string, d: string)
    ensures ReadWord(CLOSED_QUOTE + t, Single, w, d) == ReadWord(t, Single, w + [QUOTE], d)
  {
    var s := CLOSED_QUOTE + t;
    assert s[1..][2..] == s[3..] && s[3..][1..] == t;
    assert s[1] == '\\' && s[2] == QUOTE && s[3] == QUOTE;
    assert ReadWord(s, Single, w, d) == ReadWord(s[1..], Unquoted, w, d);
    assert ReadWord(s[1..], Unquoted, w, d) == ReadWord(s[3..], Unquoted, w + [QUOTE], d);
  }

  lemma ReadRemoteDir(t: string, w: string, d: string)
    ensures ReadWord(REMOTE_DIR + t, Single, w, d) == ReadWord(t, Single, w + d, d)
  {
    var s := REMOTE_DIR + t;
    assert s[1..][1..] == s[2..] && s[2..][2..] == s[4..] && s[4..][1..] == s[5..] && s[5..][1..] == t;
    assert s[0] == QUOTE && s[1] == '"' && s[2] == '$' && s[3] == 'D' && s[4] == '"' && s[5] == QUOTE;
    assert ReadWord(s, Single, w, d) == ReadWord(s[1..], Unquoted, w, d);
    assert ReadWord(s[1..], Unquoted, w, d) == ReadWord(s[2..], Double, w, d);
    assert ExpandsD(s[2..]);
    assert ReadWord(s[2..], Double, w, d) == ReadWord(s[4..], Double, w + d, d);
    assert ReadWord(s[4..], Double, w + d, d) == ReadWord(s[5..], Unquoted, w + d, d);
  }

  /** One printed argument reads back as the argument, each occurrence of the directory replaced by the
    * value of $D, and the reader is left at whatever follows.
    */
  lemma ArgumentRoundTrip(a: string, dir: string, d: string, rest: string)
    requires Rewritable(dir) && (rest == "" || rest[0] == ' ')
    ensures ReadWord(RewriteDir(ShellQuote(a), dir) + rest, Unquoted, "", d) == Some((ReplaceAll(a, dir, d), rest))
  {
    hide RewriteDir, ShellQuote, Rewritten, ReplaceAll;
    PrintedArgument(a, dir);
    var s := RewriteDir(ShellQuote(a), dir) + rest;
    assert s[1..] == Rewritten(a, dir) + "'" + rest;
    ReadRewritten(a, dir, "", d, rest);
    assert "" + ReplaceAll(a, dir, d) == ReplaceAll(a, dir, d);
  }

  // ---------------------------------------------------------------- the command line

  function Quoted(args: seq<string>, dir: string): seq<string> {
    if args == [] then [] else [RewriteDir(ShellQuote(args[0]), dir)] + Quoted(args[1..], dir)
  }

  // Each word preceded by one space.
  function Spaced(words: seq<string>): string {
    if words == [] then "" else " " + words[0] + Spaced(words[1..])
  }

  function Replaced(args: seq<string>, dir: string, d: string): seq<string> {
    if args == [] then [] else [ReplaceAll(args[0], dir, d)] + Replaced(args[1..], dir, d)
  }

  function Joined(a: seq<string>, b: Option<seq<string>>): Option<seq<string>> {
    if b.Some? then Some(a + b.value) else None
  }

  lemma OneMoreWord(q: string, tail: string, w: string, d: string)
    requires q != "" && q[0] == QUOTE && ReadWord(q + tail, Unquoted, "", d) == Some((w, tail))
    ensures ReadWords(" " + (q + tail), d) == Joined([w], ReadWords(tail, d))
  {
    var s := " " + (q + tail);
    assert s[1..] == q + tail && (q + tail)[0] == QUOTE;
  }

  lemma JoinedTwice(a: seq<string>, b: seq<string>, c: Option<seq<string>>)
    ensures Joined(a, Joined(b, c)) == Joined(a + b, c)
  {
    if c.Some? {
      assert a + (b + c.value) == (a + b) + c.value;
    }
  }

  lemma {:induction false} SpacedRoundTrip(args: seq<string>, dir: string, d: string, rest: string)
    requires Rewritable(dir) && (rest == "" || rest[0] == ' ')
    ensures ReadWords(Spaced(Quoted(args, dir)) + rest, d) == Joined(Replaced(args, dir, d), ReadWords(rest, d))
    decreases |args|
  {
    hide ReadWord, RewriteDir, ShellQuote, ReplaceAll;
    if args == [] {
      assert "" + rest == rest;
      if ReadWords(rest, d).Some? {
        assert [] + ReadWords(rest, d).value == ReadWords(rest, d).value;
      }
    } else {
      var q := RewriteDir(ShellQuote(args[0]), dir);
      var w := ReplaceAll(args[0], dir, d);
      var tail := Spaced(Quoted(args[1..], dir)) + rest;
      assert Quoted(args, dir) == [q] + Quoted(args[1..], dir);
      assert Spaced(Quoted(args, dir)) + rest == " " + (q + tail);
      assert tail == "" || tail[0] == ' ';
      ArgumentRoundTrip(args[0], dir, d, tail);
      PrintedArgument(args[0], dir);
      OneMoreWord(q, tail, w, d);
      SpacedRoundTrip(args[1..], dir, d, rest);
      JoinedTwice([w], Replaced(args[1..], dir, d), ReadWords(rest, d));
    }
  }
}
