/** Finding the JSON object in a model's reply: a scanner that only tracks braces, strings and escapes. */
module JsonScan {
  import opened Basics

  // ---------------------------------------------------------------- the scanner

  // Braces open, and whether the text leaves off inside a string or right after a backslash in one.
  datatype State = State(depth: int, inStr: bool, esc: bool)

  const START := State(0, false, false)

  function Next(st: State, c: char): State {
    if st.esc then st.(esc := false)
    else if c == '\\' && st.inStr then st.(esc := true)
    else if c == '"' then st.(inStr := !st.inStr)
    else if st.inStr then st
    else if c == '{' then st.(depth := st.depth + 1)
    else if c == '}' then st.(depth := st.depth - 1)
    else st
  }

  // The closing brace that ends the object.
  predicate Closes(st: State, c: char) {
    !st.esc && !st.inStr && c == '}' && st.depth == 1
  }

  // How many characters until the object closes.
  function Scan(s: string, st: State): (r: Option<nat>)
    ensures r.Some? ==> 0 < r.value <= |s|
  {
    if s == "" then None
    else if Closes(st, s[0]) then Some(1)
    else Skip(1, Scan(s[1..], Next(st, s[0])))
  }

  function Skip(n: nat, r: Option<nat>): Option<nat> {
    if r.None? then None else Some(n + r.value)
  }

  function FirstBrace(s: string): (r: Option<nat>)
    ensures r.None? <==> '{' !in s
    ensures r.Some? ==> r.value < |s| && s[r.value] == '{' && '{' !in s[..r.value]
  {
    if s == "" then None
    else if s[0] == '{' then Some(0)
    else
      var r := FirstBrace(s[1..]);
      assert r.Some? ==> s[..r.value + 1] == [s[0]] + s[1..][..r.value];
      Skip(1, r)
  }

  datatype Reply = Object(text: string) | NoObject | Unbalanced

  function Extract(s: string): Reply {
    match FirstBrace(s)
    case None => NoObject
    case Some(start) =>
      match Scan(s[start..], START)
      case None => Unbalanced
      case Some(n) => Object(s[start..start + n])
  }

  lemma ScanAt(s: string, i: nat, st: State)
    requires i <= |s|
    ensures Scan(s[i..], st) ==
            if i == |s| then None
            else if Closes(st, s[i]) then Some(1)
            else Skip(1, Scan(s[i + 1..], Next(st, s[i])))
  {
    if i < |s| {
      assert s[i..][1..] == s[i + 1..];
    }
  }

  method ExtractJSON(s: string) returns (r: Reply)
    ensures r == Extract(s)
  {
    hide Scan;
    var brace := FirstBrace(s);
    if brace.None? {
      return NoObject;
    }
    var start := brace.value;
    var depth, inStr, esc := 0, false, false;
    for i := start to |s|
      invariant depth >= 0 && (depth == 0 ==> i == start && !inStr && !esc)
      invariant Scan(s[start..], START) == Skip(i - start, Scan(s[i..], State(depth, inStr, esc)))
    {
      var c := s[i];
      ScanAt(s, i, State(depth, inStr, esc));
      ghost var st := Next(State(depth, inStr, esc), c);
      if esc {
        esc := false;
      } else if c == '\\' && inStr {
        esc := true;
      } else if c == '"' {
        inStr := !inStr;
      } else if inStr {
      } else if c == '{' {
        depth := depth + 1;
      } else if c == '}' {
        depth := depth - 1;
        if depth == 0 {
          return Object(s[start..i + 1]);
        }
      }
      assert State(depth, inStr, esc) == st;
    }
    ScanAt(s, |s|, State(depth, inStr, esc));
    return Unbalanced;
  }

  // ---------------------------------------------------------------- what the scanner decides

  // Where the scanner stands after reading a text without stopping.
  function After(s: string): State {
    if s == "" then START else Next(After(s[..|s| - 1]), s[|s| - 1])
  }

  // As many braces closed as opened, not counting those in strings.
  predicate Balanced(s: string) {
    After(s).depth == 0
  }

  lemma AfterOne(p: string, s: string, k: nat)
    requires k < |s|
    ensures After(p + s[..k + 1]) == Next(After(p + s[..k]), s[k])
  {
    var q := p + s[..k + 1];
    assert q[..|q| - 1] == p + s[..k];
  }

  // r is the first point at which p and so much of s are balanced.
  ghost predicate FirstBalance(p: string, s: string, r: Option<nat>) {
    match r
    case None => forall k | 0 < k <= |s| :: !Balanced(p + s[..k])
    case Some(n) => n <= |s| && Balanced(p + s[..n]) && forall k | 0 < k < n :: !Balanced(p + s[..k])
  }

  lemma {:induction false} ScanFindsFirstBalance(s: string, p: string)
    requires After(p).depth > 0 || (p == "" && s != "" && s[0] == '{')
    ensures FirstBalance(p, s, Scan(s, After(p)))
    decreases |s|
  {
    assert p == "" ==> After(p) == START;
    hide After;
    if s != "" {
      AfterOne(p, s, 0);
      assert p + s[..0] == p;
      var q := p + s[..1];
      if !Closes(After(p), s[0]) {
        ScanFindsFirstBalance(s[1..], q);
        ShiftBalance(p, s, Scan(s[1..], After(q)));
      }
    }
  }

  lemma ShiftBalance(p: string, s: string, r: Option<nat>)
    requires s != "" && !Balanced(p + s[..1]) && FirstBalance(p + s[..1], s[1..], r)
    requires r.Some? ==> r.value > 0
    ensures FirstBalance(p, s, Skip(1, r))
  {
    forall k | 0 <= k < |s|
      ensures p + s[..1] + s[1..][..k] == p + s[..k + 1]
    {
      assert s[..k + 1] == s[..1] + s[1..][..k];
    }
    forall k | 0 < k <= |s| && (r.Some? ==> k < 1 + r.value)
      ensures !Balanced(p + s[..k])
    {
      if k > 1 {
        assert !Balanced(p + s[..1] + s[1..][..k - 1]);
      }
    }
  }

  lemma FirstBalanceFromNothing(t: string, r: Option<nat>)
    requires FirstBalance("", t, r)
    ensures match r
            case None => forall k | 0 < k <= |t| :: !Balanced(t[..k])
            case Some(n) => n <= |t| && Balanced(t[..n]) && forall k | 0 < k < n :: !Balanced(t[..k])
  {
    forall k | 0 <= k <= |t|
      ensures Balanced("" + t[..k]) == Balanced(t[..k])
    {
      assert "" + t[..k] == t[..k];
    }
  }

  function FromFirstBrace(s: string): string {
    match FirstBrace(s)
    case None => ""
    case Some(start) => s[start..]
  }

  lemma NothingRead()
    ensures After("") == START
  {
  }

  /** Exactly what is extracted: the shortest prefix, from the first brace on, whose braces outside
    * strings balance; and nothing when no prefix does.
    */
  lemma ExtractIsShortestBalanced(s: string)
    ensures var t := FromFirstBrace(s);
            match Extract(s)
            case NoObject => '{' !in s
            case Unbalanced => '{' in s && forall k | 0 < k <= |t| :: !Balanced(t[..k])
            case Object(text) =>
              && '{' in s && 0 < |text| && text <= t
              && Balanced(text) && forall k | 0 < k < |text| :: !Balanced(t[..k])
  {
    if FirstBrace(s).Some? {
      var t := FromFirstBrace(s);
      assert t == s[FirstBrace(s).value..] && t[0] == '{';
      ScanFindsFirstBalance(t, "");
      hide Scan, After;
      assert After("") == START by { NothingRead(); }
      var r := Scan(t, START);
      FirstBalanceFromNothing(t, r);
      if r.Some? {
        assert s[FirstBrace(s).value..FirstBrace(s).value + r.value] == t[..r.value];
      }
    }
  }

  // ---------------------------------------------------------------- JSON texts

  // One character of a string, section 7 of RFC 8259: plain, escaped, or escaped by four hex digits.
  datatype Char = Plain(c: char) | Escaped(c: char) | Unicode(hex: string)

  // A value with the whitespace around its parts, sections 2 to 7 of RFC 8259.
  datatype Value =
    | Atom(text: string)  // null, true, false or a number
    | Str(chars: seq<Char>)
    | Arr(blank: string, items: seq<Item>)
    | Obj(blank: string, members: seq<Member>)

  datatype Item = Item(before: string, value: Value, after: string)

  datatype Member = Member(before: string, key: seq<Char>, afterKey: string, beforeValue: string, value: Value,
                           after: string)

  predicate WhiteSpace(s: string) {
    forall c | c in s :: c == ' ' || c == '\t' || c == '\n' || c == '\r'
  }

  predicate HexDigit(c: char) {
    '0' <= c <= '9' || 'a' <= c <= 'f' || 'A' <= c <= 'F'
  }

  predicate ValidChar(x: Char) {
    match x
    case Plain(c) => c != '"' && c != '\\' && c as int >= 0x20
    case Escaped(c) => c in {'"', '\\', '/', 'b', 'f', 'n', 'r', 't'}
    case Unicode(hex) => |hex| == 4 && forall c | c in hex :: HexDigit(c)
  }

  predicate ValidString(chars: seq<Char>) {
    forall x | x in chars :: ValidChar(x)
  }

  predicate AtomChar(c: char) {
    '0' <= c <= '9' || 'a' <= c <= 'z' || c == 'E' || c == '+' || c == '-' || c == '.'
  }

  predicate Valid(v: Value) {
    match v
    case Atom(text) => forall c | c in text :: AtomChar(c)
    case Str(chars) => ValidString(chars)
    case Arr(blank, items) =>
      WhiteSpace(blank) && forall x | x in items :: WhiteSpace(x.before) && Valid(x.value) && WhiteSpace(x.after)
    case Obj(blank, members) =>
      && WhiteSpace(blank)
      && forall x | x in members ::
           && WhiteSpace(x.before) && ValidString(x.key) && WhiteSpace(x.afterKey)
           && WhiteSpace(x.beforeValue) && Valid(x.value) && WhiteSpace(x.after)
  }

  function CharText(x: Char): string {
    match x
    case Plain(c) => [c]
    case Escaped(c) => ['\\', c]
    case Unicode(hex) => "\\u" + hex
  }

  function CharsText(chars: seq<Char>): string {
    if chars == [] then "" else CharText(chars[0]) + CharsText(chars[1..])
  }

  function StringText(chars: seq<Char>): string {
    "\"" + CharsText(chars) + "\""
  }

  function Text(v: Value): string
    decreases v, 0
  {
    match v
    case Atom(text) => text
    case Str(chars) => StringText(chars)
    case Arr(blank, items) => "[" + (if items == [] then blank else ItemsText(items)) + "]"
    case Obj(blank, members) => "{" + (if members == [] then blank else MembersText(members)) + "}"
  }

  function ItemsText(items: seq<Item>): string
    requires items != []
    decreases items, 1
  {
    items[0].before + Text(items[0].value) + items[0].after
    + (if |items| == 1 then "" else "," + ItemsText(items[1..]))
  }

  function MembersText(members: seq<Member>): string
    requires members != []
    decreases members, 1
  {
    var m := members[0];
    m.before + StringText(m.key) + m.afterKey + ":" + m.beforeValue + Text(m.value) + m.after
    + (if |members| == 1 then "" else "," + MembersText(members[1..]))
  }

  // ---------------------------------------------------------------- the scanner passes over values

  function Outside(d: nat): State {
    State(d, false, false)
  }

  function Inside(d: nat): State {
    State(d, true, false)
  }

  // The scanner, inside an object and outside strings, moves over the text unchanged.
  ghost predicate Passes(text: string) {
    forall rest: string, d: nat :: d > 0 ==>
      Scan(text + rest, Outside(d)) == Skip(|text|, Scan(rest, Outside(d)))
  }

  lemma PassBoth(a: string, b: string)
    requires Passes(a) && Passes(b)
    ensures Passes(a + b)
  {
    forall rest: string, d: nat | d > 0
      ensures Scan(a + b + rest, Outside(d)) == Skip(|a + b|, Scan(rest, Outside(d)))
    {
      assert a + b + rest == a + (b + rest);
    }
  }

  lemma {:induction false} ScanQuiet(text: string, rest: string, d: nat)
    requires forall c | c in text :: c != '"' && c != '{' && c != '}'
    ensures d > 0 ==> Scan(text + rest, Outside(d)) == Skip(|text|, Scan(rest, Outside(d)))
  {
    hide Scan;
    if text == "" {
      assert text + rest == rest;
    } else if d > 0 {
      assert text[0] in text && forall c | c in text[1..] :: c in text;
      ScanQuiet(text[1..], rest, d);
      assert text + rest == [text[0]] + (text[1..] + rest);
      ScanOne(text[0], text[1..] + rest, Outside(d));
    }
  }

  lemma PassQuiet(text: string)
    requires forall c | c in text :: c != '"' && c != '{' && c != '}'
    ensures Passes(text)
  {
    forall rest: string, d: nat | d > 0
      ensures Scan(text + rest, Outside(d)) == Skip(|text|, Scan(rest, Outside(d)))
    {
      ScanQuiet(text, rest, d);
    }
  }

  lemma ScanOne(c: char, rest: string, st: State)
    ensures Scan([c] + rest, st) == if Closes(st, c) then Some(1) else Skip(1, Scan(rest, Next(st, c)))
  {
    assert ([c] + rest)[1..] == rest;
  }

  // Inside a string, two characters that leave the scanner where it was.
  lemma ScanTwo(b: char, c: char, rest: string, st: State)
    requires st.inStr && !st.esc && Next(Next(st, b), c) == st
    ensures Scan([b, c] + rest, st) == Skip(2, Scan(rest, st))
  {
    hide Scan;
    assert [b, c] + rest == [b] + ([c] + rest);
    ScanOne(b, [c] + rest, st);
    ScanOne(c, rest, Next(st, b));
  }

  lemma ScanChar(x: Char, rest: string, d: nat)
    requires ValidChar(x)
    ensures Scan(CharText(x) + rest, Inside(d)) == Skip(|CharText(x)|, Scan(rest, Inside(d)))
  {
    hide Scan;
    match x
    case Plain(c) => ScanOne(c, rest, Inside(d));
    case Escaped(c) => ScanTwo('\\', c, rest, Inside(d));
    case Unicode(hex) => ScanUnicode(hex, rest, d);
  }

  lemma ScanUnicode(hex: string, rest: string, d: nat)
    requires ValidChar(Unicode(hex))
    ensures Scan("\\u" + hex + rest, Inside(d)) == Skip(6, Scan(rest, Inside(d)))
  {
    hide Scan;
    assert forall i | 0 <= i < 4 :: hex[i] in hex;
    var h, k := [hex[0], hex[1]], [hex[2], hex[3]];
    assert "\\u" + hex + rest == ['\\', 'u'] + (h + (k + rest));
    ScanTwo('\\', 'u', h + (k + rest), Inside(d));
    ScanTwo(hex[0], hex[1], k + rest, Inside(d));
    ScanTwo(hex[2], hex[3], rest, Inside(d));
  }

  lemma {:induction false} ScanChars(chars: seq<Char>, rest: string, d: nat)
    requires ValidString(chars)
    ensures Scan(CharsText(chars) + "\"" + rest, Inside(d)) == Skip(|CharsText(chars)| + 1, Scan(rest, Outside(d)))
    decreases chars
  {
    hide Scan;
    var s := CharsText(chars) + "\"" + rest;
    if chars == [] {
      assert s == "\"" + rest;
      ScanOne('"', rest, Inside(d));
    } else {
      var tail := CharsText(chars[1..]) + "\"" + rest;
      assert s == CharText(chars[0]) + tail;
      ScanChar(chars[0], tail, d);
      ScanChars(chars[1..], rest, d);
    }
  }

  lemma ScanString(chars: seq<Char>, rest: string, d: nat)
    requires ValidString(chars)
    ensures Scan(StringText(chars) + rest, Outside(d)) == Skip(|StringText(chars)|, Scan(rest, Outside(d)))
  {
    hide Scan, CharsText;
    var tail := CharsText(chars) + "\"" + rest;
    assert StringText(chars) + rest == "\"" + tail;
    ScanOne('"', tail, Outside(d));
    ScanChars(chars, rest, d);
  }

  lemma PassString(chars: seq<Char>)
    requires ValidString(chars)
    ensures Passes(StringText(chars))
  {
    hide Scan, StringText;
    forall rest: string, d: nat | d > 0
      ensures Scan(StringText(chars) + rest, Outside(d)) == Skip(|StringText(chars)|, Scan(rest, Outside(d)))
    {
      ScanString(chars, rest, d);
    }
  }

  // Braces around passable text open and close one level.
  lemma ScanBraces(inner: string, rest: string, d: nat)
    requires Passes(inner)
    ensures Scan("{" + inner + "}" + rest, Outside(d))
         == if d == 0 then Some(|inner| + 2) else Skip(|inner| + 2, Scan(rest, Outside(d)))
  {
    hide Scan;
    var t := "}" + rest;
    assert "{" + inner + "}" + rest == "{" + (inner + t);
    ScanOne('{', inner + t, Outside(d));
    ScanOne('}', rest, Outside(d + 1));
    assert Scan(inner + t, Outside(d + 1)) == Skip(|inner|, Scan(t, Outside(d + 1)));
  }

  lemma {:induction false} PassValue(v: Value)
    requires Valid(v)
    ensures Passes(Text(v))
    ensures v.Obj? ==> Passes(Inner(v))
    decreases v, 0
  {
    match v
    case Atom(text) => PassQuiet(text);
    case Str(chars) => PassString(chars);
    case Arr(blank, items) =>
      PassQuiet("[");
      PassQuiet("]");
      if items == [] {
        PassQuiet(blank);
        PassBoth("[", blank);
        PassBoth("[" + blank, "]");
      } else {
        PassItems(v, items);
        PassBoth("[", ItemsText(items));
        PassBoth("[" + ItemsText(items), "]");
      }
    case Obj(blank, members) =>
      if members == [] {
        PassQuiet(blank);
      } else {
        PassMembers(v, members);
      }
      var inner := Inner(v);
      forall rest: string, d: nat | d > 0
        ensures Scan(Text(v) + rest, Outside(d)) == Skip(|Text(v)|, Scan(rest, Outside(d)))
      {
        ScanBraces(inner, rest, d);
        assert Text(v) + rest == "{" + inner + "}" + rest;
      }
  }

  function Inner(v: Value): string
    requires v.Obj?
  {
    if v.members == [] then v.blank else MembersText(v.members)
  }

  lemma {:induction false} PassItems(v: Value, items: seq<Item>)
    requires items != []
    requires forall x | x in items :: WhiteSpace(x.before) && x.value < v && Valid(x.value) && WhiteSpace(x.after)
    ensures Passes(ItemsText(items))
    decreases v, 0, |items|
  {
    var x := items[0];
    PassQuiet(x.before);
    PassValue(x.value);
    PassQuiet(x.after);
    PassBoth(x.before, Text(x.value));
    PassBoth(x.before + Text(x.value), x.after);
    var head := x.before + Text(x.value) + x.after;
    if |items| > 1 {
      PassItems(v, items[1..]);
      PassQuiet(",");
      PassBoth(",", ItemsText(items[1..]));
      PassBoth(head, "," + ItemsText(items[1..]));
    } else {
      assert head + "" == head;
    }
  }

  lemma {:induction false} PassMembers(v: Value, members: seq<Member>)
    requires members != []
    requires forall x | x in members ::
               && WhiteSpace(x.before) && ValidString(x.key) && WhiteSpace(x.afterKey) && WhiteSpace(x.beforeValue)
               && x.value < v && Valid(x.value) && WhiteSpace(x.after)
    ensures Passes(MembersText(members))
    decreases v, 0, |members|
  {
    var x := members[0];
    PassString(x.key);
    PassQuiet(x.before);
    PassQuiet(x.afterKey);
    PassQuiet(":");
    PassQuiet(x.beforeValue);
    PassQuiet(x.after);
    PassValue(x.value);
    var t1 := x.before + StringText(x.key);
    PassBoth(x.before, StringText(x.key));
    PassBoth(t1, x.afterKey);
    PassBoth(t1 + x.afterKey, ":");
    PassBoth(t1 + x.afterKey + ":", x.beforeValue);
    var t2 := t1 + x.afterKey + ":" + x.beforeValue;
    PassBoth(t2, Text(x.value));
    PassBoth(t2 + Text(x.value), x.after);
    var head := t2 + Text(x.value) + x.after;
    if |members| > 1 {
      PassMembers(v, members[1..]);
      PassQuiet(",");
      PassBoth(",", MembersText(members[1..]));
      PassBoth(head, "," + MembersText(members[1..]));
    } else {
      assert head + "" == head;
    }
  }

  /** Main result: out of any text that holds a JSON object, after anything without an opening brace and
    * before anything at all, exactly that object is extracted.
    */
  lemma ExtractFindsTheObject(prefix: string, v: Value, suffix: string)
    requires '{' !in prefix && v.Obj? && Valid(v)
    ensures Extract(prefix + Text(v) + suffix) == Object(Text(v))
  {
    var inner := Inner(v);
    assert Text(v) == "{" + inner + "}";
    PassValue(v);
    hide Text, Inner, Passes, Valid, Scan, FirstBrace;
    ScanBraces(inner, suffix, 0);
    ExtractAt(prefix, Text(v), suffix);
  }

  lemma ExtractAt(prefix: string, text: string, suffix: string)
    requires '{' !in prefix && text != "" && text[0] == '{'
    requires Scan(text + suffix, START) == Some(|text|)
    ensures Extract(prefix + text + suffix) == Object(text)
  {
    hide Scan, FirstBrace;
    var s := prefix + text + suffix;
    FirstBraceAt(prefix, text + suffix);
    assert s == prefix + (text + suffix);
    assert s[|prefix|..] == text + suffix;
    assert s[|prefix|..|prefix| + |text|] == text;
  }

  lemma {:induction false} FirstBraceAt(prefix: string, rest: string)
    requires '{' !in prefix && rest != "" && rest[0] == '{'
    ensures FirstBrace(prefix + rest) == Some(|prefix|)
  {
    var s := prefix + rest;
    if prefix == "" {
      assert s == rest;
    } else {
      assert prefix[0] in prefix;
      assert s[1..] == prefix[1..] + rest;
      FirstBraceAt(prefix[1..], rest);
    }
  }
}
