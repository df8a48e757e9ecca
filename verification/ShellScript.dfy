/** The whole remote script: carried files as here-documents, then the command line. */
module ShellScript {
  import opened Basics
  import opened Shell

  // ---------------------------------------------------------------- lines

  // The first line and what follows its newline.
  function Cut(s: string): (r: Option<(string, string)>)
    ensures r.Some? ==> s == r.value.0 + "\n" + r.value.1 && '\n' !in r.value.0
    ensures r.None? <==> '\n' !in s
  {
    if s == "" then None
    else if s[0] == '\n' then Some(("", s[1..]))
    else
      match Cut(s[1..])
      case None => None
      case Some((line, rest)) => Some(([s[0]] + line, rest))
  }

  function Lines(s: string): seq<string>
    decreases |s|
  {
    match Cut(s)
    case None => [s]
    case Some((line, rest)) => [line] + Lines(rest)
  }

  function TrimRight(s: string, c: char): (r: string)
    ensures r <= s
    ensures r != "" ==> r[|r| - 1] != c
  {
    if s != "" && s[|s| - 1] == c then TrimRight(s[..|s| - 1], c) else s
  }

  lemma {:induction false} CutIsUnique(line: string, rest: string)
    requires '\n' !in line
    ensures Cut(line + "\n" + rest) == Some((line, rest))
  {
    var s := line + "\n" + rest;
    if line == "" {
      assert s[1..] == rest;
    } else {
      assert line[0] in line;
      assert s[1..] == line[1..] + "\n" + rest;
      CutIsUnique(line[1..], rest);
      assert [line[0]] + line[1..] == line;
    }
  }

  lemma {:induction false} NewlineAddsEmptyLine(s: string)
    ensures Lines(s + "\n") == Lines(s) + [""]
    decreases |s|
  {
    match Cut(s)
    case None =>
      CutIsUnique(s, "");
      assert s + "\n" == s + "\n" + "";
    case Some((line, rest)) =>
      assert s + "\n" == line + "\n" + (rest + "\n");
      CutIsUnique(line, rest + "\n");
      NewlineAddsEmptyLine(rest);
  }

  // Trimming the trailing newlines of a text drops only empty lines.
  lemma {:induction false} TrimKeepsLines(s: string)
    ensures forall l | l in Lines(TrimRight(s, '\n')) :: l in Lines(s)
    decreases |s|
  {
    if s != "" && s[|s| - 1] == '\n' {
      var t := s[..|s| - 1];
      assert s == t + "\n";
      NewlineAddsEmptyLine(t);
      TrimKeepsLines(t);
    }
  }

  lemma SomeLine(body: string, marker: string, line: string)
    requires line in Lines(body) && TrimRight(line, '\r') == marker
    ensures exists l | l in Lines(body) :: TrimRight(l, '\r') == marker
  {
  }

  /** Whether some line of the body is the marker, carriage returns at its end ignored. */
  method LineEquals(body: string, marker: string) returns (found: bool)
    ensures found <==> exists l | l in Lines(body) :: TrimRight(l, '\r') == marker
  {
    hide Lines, TrimRight;
    var lines := Lines(body);
    for i := 0 to |lines|
      invariant forall j | 0 <= j < i :: TrimRight(lines[j], '\r') != marker
    {
      if TrimRight(lines[i], '\r') == marker {
        SomeLine(body, marker, lines[i]);
        return true;
      }
    }
    forall l | l in Lines(body)
      ensures TrimRight(l, '\r') != marker
    {
      var j :| 0 <= j < |lines| && lines[j] == l;
    }
    return false;
  }

  // ---------------------------------------------------------------- here-documents

  /** The lines up to one that is exactly the delimiter, each with its newline, and the text after it. */
  function ReadHere(s: string, delimiter: string): (r: Option<(string, string)>)
    ensures r.Some? ==> |r.value.1| < |s|
    decreases |s|
  {
    match Cut(s)
    case None => None
    case Some((line, rest)) =>
      if line == delimiter then Some(("", rest))
      else
        match ReadHere(rest, delimiter)
        case None => None
        case Some((text, after)) => Some((line + "\n" + text, after))
  }

  lemma HereStep(line: string, rest: string, delimiter: string)
    requires '\n' !in line
    ensures ReadHere(line + "\n" + rest, delimiter) ==
            if line == delimiter then Some(("", rest))
            else match ReadHere(rest, delimiter)
                 case None => None
                 case Some((text, after)) => Some((line + "\n" + text, after))
  {
    CutIsUnique(line, rest);
  }

  // With the delimiter on no line of its own, a here-document ends where it was meant to.
  lemma {:induction false} HereRoundTrip(text: string, delimiter: string, rest: string)
    requires '\n' !in delimiter && delimiter !in Lines(text)
    ensures ReadHere(text + "\n" + delimiter + "\n" + rest, delimiter) == Some((text + "\n", rest))
    decreases |text|
  {
    hide ReadHere;
    var tail := delimiter + "\n" + rest;
    var s := text + "\n" + delimiter + "\n" + rest;
    match Cut(text)
    case None =>
      assert s == text + "\n" + tail;
      HereStep(text, tail, delimiter);
      HereStep(delimiter, rest, delimiter);
      assert text + "\n" + "" == text + "\n";
    case Some((line, more)) =>
      var after := more + "\n" + delimiter + "\n" + rest;
      assert s == line + "\n" + after;
      HereStep(line, after, delimiter);
      HereRoundTrip(more, delimiter, rest);
      assert line + "\n" + (more + "\n") == text + "\n";
  }

  // A line of its own that spells the delimiter ends the here-document early.
  lemma {:induction false} HereEndsEarly(text: string, delimiter: string, rest: string)
    requires '\n' !in delimiter && delimiter in Lines(text)
    ensures var r := ReadHere(text + "\n" + delimiter + "\n" + rest, delimiter);
            r.Some? && |r.value.0| < |text| + 1
    decreases |text|
  {
    var s := text + "\n" + delimiter + "\n" + rest;
    match Cut(text)
    case None =>
      assert s == text + "\n" + (delimiter + "\n" + rest);
      CutIsUnique(text, delimiter + "\n" + rest);
    case Some((line, more)) =>
      assert s == line + "\n" + (more + "\n" + delimiter + "\n" + rest);
      CutIsUnique(line, more + "\n" + delimiter + "\n" + rest);
      if line != delimiter {
        HereEndsEarly(more, delimiter, rest);
      }
  }

  /** A carried text reads back exactly when none of its lines is the delimiter. */
  lemma HereReadsBackExactly(text: string, delimiter: string, rest: string)
    requires '\n' !in delimiter
    ensures delimiter !in Lines(text) <==>
            ReadHere(text + "\n" + delimiter + "\n" + rest, delimiter) == Some((text + "\n", rest))
  {
    if delimiter in Lines(text) {
      HereEndsEarly(text, delimiter, rest);
    } else {
      HereRoundTrip(text, delimiter, rest);
    }
  }

  // ---------------------------------------------------------------- the script

  datatype File = File(name: string, body: string, isDir: bool)

  const MARKER := "DI_AICLI_EOF_9f3a"
  const HEADER := "set -e; D=$(mktemp -d); trap 'rm -rf \"$D\"' EXIT; "
  const CAT := "cat > \"$D\"/"
  const HERE := " <<'DI_AICLI_EOF_9f3a'\n"
  const CHDIR := "cd \"$D\"; "

  function Carry(f: File): string {
    CAT + ShellQuote(f.name) + HERE + TrimRight(f.body, '\n') + "\n" + MARKER + "\n"
  }

  function CarryAll(files: seq<File>): string {
    if files == [] then ""
    else (if files[0].isDir then "" else Carry(files[0])) + CarryAll(files[1..])
  }

  function Join(words: seq<string>): string {
    if words == [] then "" else words[0] + Spaced(words[1..])
  }

  function EnvPart(env: seq<string>, dir: string): string {
    if env == [] then "" else "env" + Spaced(Quoted(env, dir)) + " "
  }

  function CommandLine(env: seq<string>, argv: seq<string>, dir: string): string {
    EnvPart(env, dir) + Join(Quoted(argv, dir))
  }

  function Script(files: seq<File>, env: seq<string>, argv: seq<string>, dir: string): string {
    HEADER + CarryAll(files) + CHDIR + CommandLine(env, argv, dir)
  }

  predicate Carriable(f: File) {
    !f.isDir ==> forall l | l in Lines(f.body) :: TrimRight(l, '\r') != MARKER
  }

  /** Carries every file, or refuses when one holds the delimiter. */
  method CarryFiles(files: seq<File>) returns (b: Option<string>)
    ensures b.Some? <==> forall f | f in files :: Carriable(f)
    ensures b.Some? ==> b.value == CarryAll(files)
  {
    hide Carry, Lines, TrimRight;
    var text := "";
    for i := 0 to |files|
      invariant forall j | 0 <= j < i :: Carriable(files[j])
      invariant text + CarryAll(files[i..]) == CarryAll(files)
    {
      var f := files[i];
      assert files[i..][1..] == files[i + 1..];
      if f.isDir {
        assert "" + CarryAll(files[i + 1..]) == CarryAll(files[i + 1..]);
        continue;
      }
      var clash := LineEquals(f.body, MARKER);
      if clash {
        assert !Carriable(f);
        return None;
      }
      assert text + (Carry(f) + CarryAll(files[i + 1..])) == (text + Carry(f)) + CarryAll(files[i + 1..]);
      text := text + Carry(f);
    }
    assert text + "" == text;
    return Some(text);
  }

  lemma PrintNext(args: seq<string>, i: nat, dir: string)
    requires i <= |args|
    ensures Spaced(Quoted(args[i..], dir)) ==
            if i == |args| then ""
            else " " + RewriteDir(ShellQuote(args[i]), dir) + Spaced(Quoted(args[i + 1..], dir))
  {
    hide RewriteDir, ShellQuote;
    if i < |args| {
      assert args[i..][1..] == args[i + 1..];
      assert Quoted(args[i..], dir)[1..] == Quoted(args[i + 1..], dir);
    }
  }

  method PrintWords(args: seq<string>, dir: string) returns (text: string)
    ensures text == Spaced(Quoted(args, dir))
  {
    hide RewriteDir, ShellQuote, Quoted, Spaced;
    text := "";
    assert args[0..] == args;
    for i := 0 to |args|
      invariant text + Spaced(Quoted(args[i..], dir)) == Spaced(Quoted(args, dir))
    {
      PrintNext(args, i, dir);
      text := text + " " + RewriteDir(ShellQuote(args[i]), dir);
    }
    PrintNext(args, |args|, dir);
  }

  /** Builds the script, or refuses when a file holds the delimiter. */
  method RemoteScript(files: seq<File>, env: seq<string>, argv: seq<string>, dir: string)
    returns (script: Option<string>)
    ensures script.Some? <==> forall f | f in files :: Carriable(f)
    ensures script.Some? ==> script.value == Script(files, env, argv, dir)
  {
    hide RewriteDir, ShellQuote, Carry, CarryAll, Carriable;
    var carried := CarryFiles(files);
    if carried.None? {
      return None;
    }
    var b := HEADER + carried.value + CHDIR;
    var commandLine := "";
    if |env| > 0 {
      var words := PrintWords(env, dir);
      commandLine := "env" + words + " ";
    }
    assert commandLine == EnvPart(env, dir);
    if |argv| > 0 {
      var rest := PrintWords(argv[1..], dir);
      assert Quoted(argv, dir)[1..] == Quoted(argv[1..], dir);
      commandLine := commandLine + (RewriteDir(ShellQuote(argv[0]), dir) + rest);
    }
    assert commandLine == CommandLine(env, argv, dir);
    return Some(b + commandLine);
  }

  // ---------------------------------------------------------------- what the remote shell does with it

  datatype Effect = Effect(files: seq<(string, string)>, words: seq<string>)

  /** Reads the files a script writes and the words it then runs, d being the remote directory. */
  function ReadFiles(s: string, d: string): Option<Effect>
    decreases |s|
  {
    if CAT <= s then
      match ReadWord(s[|CAT|..], Unquoted, "", d)
      case None => None
      case Some((name, rest)) =>
        if !(HERE <= rest) then None
        else
          match ReadHere(rest[|HERE|..], MARKER)
          case None => None
          case Some((text, after)) =>
            match ReadFiles(after, d)
            case None => None
            case Some(effect) => Some(effect.(files := [(name, text)] + effect.files))
    else if CHDIR <= s then
      match ReadWords(s[|CHDIR|..], d)
      case None => None
      case Some(words) => Some(Effect([], words))
    else None
  }

  function ReadScript(s: string, d: string): Option<Effect> {
    if HEADER <= s then ReadFiles(s[|HEADER|..], d) else None
  }

  // What a carried file arrives as: its trailing newlines become one.
  function CarriedFile(f: File): (string, string) {
    (f.name, TrimRight(f.body, '\n') + "\n")
  }

  function Carried(files: seq<File>): seq<(string, string)> {
    if files == [] then []
    else (if files[0].isDir then [] else [CarriedFile(files[0])]) + Carried(files[1..])
  }

  lemma NameRoundTrip(name: string, d: string, rest: string)
    requires rest == "" || rest[0] == ' '
    ensures ReadWord(ShellQuote(name) + rest, Unquoted, "", d) == Some((name, rest))
  {
    ArgumentRoundTrip(name, "", d, rest);
    assert ReplaceAll(name, "", d) == name;
  }

  lemma ReadEnvWord(rest: string, d: string)
    requires rest == "" || rest[0] == ' '
    ensures ReadWord("env" + rest, Unquoted, "", d) == Some(("env", rest))
  {
    var s := "env" + rest;
    assert s[1..] == "nv" + rest && s[1..][1..] == "v" + rest && s[1..][1..][1..] == rest;
    assert "" + "e" == "e" && "e" + "n" == "en" && "en" + "v" == "env";
    assert ReadWord(s, Unquoted, "", d) == ReadWord(s[1..], Unquoted, "e", d);
    assert ReadWord(s[1..], Unquoted, "e", d) == ReadWord(s[1..][1..], Unquoted, "en", d);
    assert ReadWord(s[1..][1..], Unquoted, "en", d) == ReadWord(rest, Unquoted, "env", d);
  }

  lemma JoinRoundTrip(argv: seq<string>, dir: string, d: string)
    requires Rewritable(dir)
    ensures ReadWords(Join(Quoted(argv, dir)), d) == Some(Replaced(argv, dir, d))
  {
    hide ReadWord, RewriteDir, ShellQuote, ReplaceAll;
    var q := Quoted(argv, dir);
    SpacedRoundTrip(argv, dir, d, "");
    assert Spaced(q) + "" == Spaced(q);
    assert Replaced(argv, dir, d) + [] == Replaced(argv, dir, d);
    if argv != [] {
      assert Spaced(q) == " " + Join(q);
      assert (" " + Join(q))[1..] == Join(q);
    }
  }

  function Words(env: seq<string>, argv: seq<string>, dir: string, d: string): seq<string> {
    (if env == [] then [] else ["env"] + Replaced(env, dir, d)) + Replaced(argv, dir, d)
  }

  lemma CommandLineRoundTrip(env: seq<string>, argv: seq<string>, dir: string, d: string)
    requires Rewritable(dir)
    ensures ReadWords(CommandLine(env, argv, dir), d) == Some(Words(env, argv, dir, d))
  {
    hide ReadWord, RewriteDir, ShellQuote, ReplaceAll, Spaced, Quoted, Replaced, ReadWords, Join;
    JoinRoundTrip(argv, dir, d);
    var last := Join(Quoted(argv, dir));
    if env == [] {
      assert "" + last == last;
      assert [] + Replaced(argv, dir, d) == Replaced(argv, dir, d);
    } else {
      var rest := Spaced(Quoted(env, dir)) + (" " + last);
      assert CommandLine(env, argv, dir) == "env" + rest;
      SpacedBegins(env, dir);
      EnvComesFirst(rest, d);
      SkipSpace(last, d);
      SpacedRoundTrip(env, dir, d, " " + last);
      assert ["env"] + (Replaced(env, dir, d) + Replaced(argv, dir, d)) == Words(env, argv, dir, d);
    }
  }

  lemma EnvComesFirst(rest: string, d: string)
    requires rest == "" || rest[0] == ' '
    ensures ReadWords("env" + rest, d) == Joined(["env"], ReadWords(rest, d))
  {
    hide ReadWord;
    ReadEnvWord(rest, d);
  }

  lemma SpacedBegins(args: seq<string>, dir: string)
    requires args != []
    ensures var s := Spaced(Quoted(args, dir)); s != "" && s[0] == ' '
  {
    hide RewriteDir, ShellQuote;
  }

  lemma SkipSpace(text: string, d: string)
    ensures ReadWords(" " + text, d) == ReadWords(text, d)
  {
    hide ReadWord;
    assert (" " + text)[1..] == text;
  }

  function Prepend(files: seq<(string, string)>, r: Option<Effect>): Option<Effect> {
    if r.None? then None else Some(r.value.(files := files + r.value.files))
  }

  lemma PrependTwice(a: seq<(string, string)>, b: seq<(string, string)>, r: Option<Effect>)
    ensures Prepend(a, Prepend(b, r)) == Prepend(a + b, r)
    ensures Prepend([], r) == r
  {
    if r.Some? {
      assert a + (b + r.value.files) == (a + b) + r.value.files;
      assert [] + r.value.files == r.value.files;
    }
  }

  lemma {:induction false} FilesRoundTrip(files: seq<File>, tail: string, d: string)
    requires forall f | f in files :: Carriable(f)
    ensures ReadFiles(CarryAll(files) + tail, d) == Prepend(Carried(files), ReadFiles(tail, d))
    decreases |files|
  {
    hide ReadFiles, Carry, Prepend, TrimRight, Carriable;
    var r := ReadFiles(tail, d);
    if files == [] {
      assert "" + tail == tail;
      PrependTwice([], [], r);
    } else {
      var f, rest := files[0], CarryAll(files[1..]) + tail;
      FilesRoundTrip(files[1..], tail, d);
      if f.isDir {
        assert CarryAll(files) + tail == rest;
        assert Carried(files) == Carried(files[1..]);
      } else {
        assert CarryAll(files) + tail == Carry(f) + rest;
        assert f in files;
        OneFileRoundTrip(f, rest, d);
        PrependTwice([CarriedFile(f)], Carried(files[1..]), r);
      }
    }
  }

  lemma OneFileRoundTrip(f: File, rest: string, d: string)
    requires !f.isDir && Carriable(f)
    ensures ReadFiles(Carry(f) + rest, d) == Prepend([CarriedFile(f)], ReadFiles(rest, d))
  {
    var text := TrimRight(f.body, '\n');
    var here := text + "\n" + MARKER + "\n" + rest;
    CarryParts(f, rest, here);
    TrimmedHasNoMarker(f);
    HereRoundTrip(text, MARKER, rest);
    NameRoundTrip(f.name, d, HERE + here);
    ReadOneFile(ShellQuote(f.name), f.name, here, text + "\n", rest, d);
  }

  lemma CarryParts(f: File, rest: string, here: string)
    requires here == TrimRight(f.body, '\n') + "\n" + MARKER + "\n" + rest
    ensures Carry(f) + rest == CAT + (ShellQuote(f.name) + (HERE + here))
  {
    hide ShellQuote, TrimRight;
  }

  lemma TrimmedHasNoMarker(f: File)
    requires !f.isDir && Carriable(f)
    ensures MARKER !in Lines(TrimRight(f.body, '\n'))
  {
    TrimKeepsLines(f.body);
    assert TrimRight(MARKER, '\r') == MARKER;
  }

  lemma ReadOneFile(q: string, name: string, here: string, text: string, after: string, d: string)
    requires ReadWord(q + (HERE + here), Unquoted, "", d) == Some((name, HERE + here))
    requires ReadHere(here, MARKER) == Some((text, after))
    ensures ReadFiles(CAT + (q + (HERE + here)), d) == Prepend([(name, text)], ReadFiles(after, d))
  {
    hide ReadWord, ReadHere, ReadWords;
    var s := CAT + (q + (HERE + here));
    assert CAT <= s && s[|CAT|..] == q + (HERE + here);
    assert HERE <= HERE + here && (HERE + here)[|HERE|..] == here;
  }

  lemma ReadLine(line: string, d: string)
    ensures ReadFiles(CHDIR + line, d) ==
            if ReadWords(line, d).None? then None else Some(Effect([], ReadWords(line, d).value))
  {
    hide ReadWords, ReadWord, ReadHere;
    var s := CHDIR + line;
    assert s[|CHDIR|..] == line;
    assert !(CAT <= s) by {
      assert CAT[1] != CHDIR[1] && s[1] == CHDIR[1];
    }
  }

  lemma Prepended(files: seq<(string, string)>, words: seq<string>)
    ensures Prepend(files, Some(Effect([], words))) == Some(Effect(files, words))
  {
    assert files + [] == files;
  }

  /** Main result: for every list of files without the delimiter, every environment and every argument
    * list, the script the printer builds reads back as those files, trailing newlines made one, and those
    * words, the local directory replaced by the remote one throughout.
    */
  lemma ScriptRoundTrip(files: seq<File>, env: seq<string>, argv: seq<string>, dir: string, d: string)
    requires Rewritable(dir) && forall f | f in files :: Carriable(f)
    ensures ReadScript(Script(files, env, argv, dir), d) == Some(Effect(Carried(files), Words(env, argv, dir, d)))
  {
    hide ReadFiles, ReadWords, Spaced, RewriteDir, Words, CommandLine, CarryAll, Carriable, Carried, Prepend;
    var line := CommandLine(env, argv, dir);
    var tail := CHDIR + line;
    var s := Script(files, env, argv, dir);
    assert s == HEADER + (CarryAll(files) + tail);
    assert s[|HEADER|..] == CarryAll(files) + tail;
    FilesRoundTrip(files, tail, d);
    CommandLineRoundTrip(env, argv, dir, d);
    ReadLine(line, d);
    Prepended(Carried(files), Words(env, argv, dir, d));
  }
}
