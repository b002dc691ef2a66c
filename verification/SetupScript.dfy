/** The escaping functions of the RouterOS setup script (packages/radius/src/setup-script.ts):
    commands handed to `:parse` as a quoted literal, and the script read back as plain commands. */
module SetupScript {
  import opened Optional
  import opened Text

  /** What a regular expression's `.` does not match. */
  predicate IsLineEnd(c: char) {
    c == '\n' || c == '\r' || c == '\U{2028}' || c == '\U{2029}'
  }

  predicate OneLine(s: string) {
    forall i :: 0 <= i < |s| ==> !IsLineEnd(s[i])
  }

  const DEFERRED_HEAD: string := ":do {:local mkgCmd [:parse \""
  const DEFERRED_TAIL: string := "\"]; $mkgCmd} on-error={}"
  const NATIVE_HEAD: string := ":do {"
  const NATIVE_TAIL: string := "} on-error={}"

  /** The four passes of the source, one after the other. */
  function Passes(commands: string): string {
    Replace(Replace(Replace(Replace(commands, '\\', "\\\\"), '"', "\\\""), '$', "\\$"), '\n', "; ")
  }

  function Deferred(commands: string): string {
    DEFERRED_HEAD + Passes(commands) + DEFERRED_TAIL
  }

  /** What an anchored pattern `head(.*)tail` captures. */
  function Between(line: string, head: string, tail: string): Option<string> {
    if |head| + |tail| <= |line| && StartsWith(line, head) && EndsWith(line, tail)
       && OneLine(line[|head|..|line| - |tail|])
    then Some(line[|head|..|line| - |tail|]) else None
  }

  predicate IsWord(c: char) {
    'a' <= c <= 'z' || 'A' <= c <= 'Z' || '0' <= c <= '9' || c == '_'
  }

  predicate WordAt(s: string, i: nat, w: string) {
    i + |w| <= |s| && s[i..i + |w|] == w && (i + |w| < |s| ==> !IsWord(s[i + |w|]))
  }

  /** Commands that exist only on some RouterOS versions or packages. */
  predicate VersionOrPackage(s: string) {
    exists i :: 0 <= i < |s| &&
      (WordAt(s, i, "/interface wifi") || WordAt(s, i, "/interface wireless") || WordAt(s, i, "/interface wireguard")
       || StartsWith(s[i..], "/system ntp client servers"))
  }

  function IsolateLine(line: string): string {
    var inner := Between(line, NATIVE_HEAD, NATIVE_TAIL);
    if inner.Some? && StartsWith(inner.value, "/") && VersionOrPackage(inner.value) then Deferred(inner.value) else line
  }

  /** `\x` reads as x; a backslash with nothing to escape stays. */
  function Unescape(s: string): string {
    if |s| == 0 then ""
    else if s[0] == '\\' && |s| >= 2 && !IsLineEnd(s[1]) then [s[1]] + Unescape(s[2..])
    else [s[0]] + Unescape(s[1..])
  }

  function PlainLine(line: string): string {
    match Between(line, DEFERRED_HEAD, DEFERRED_TAIL)
    case None => line
    case Some(source) => NATIVE_HEAD + Unescape(source) + NATIVE_TAIL
  }

  function WrapLine(line: string): string {
    if StartsWith(line, "/") then NATIVE_HEAD + line + NATIVE_TAIL else line
  }

  function Each(f: string -> string, lines: seq<string>): (r: seq<string>)
    ensures |r| == |lines|
    ensures forall i :: 0 <= i < |lines| ==> r[i] == f(lines[i])
  {
    seq(|lines|, i requires 0 <= i < |lines| => f(lines[i]))
  }

  function MapLines(f: string -> string, script: string): string {
    Join(Each(f, Split(script, '\n')), "\n")
  }

  function IsolateEveryCommand(script: string): string {
    MapLines(IsolateLine, script)
  }

  function PlainCommands(script: string): string {
    MapLines(PlainLine, script)
  }

  function WrapTopLevelCommands(script: string): string {
    MapLines(WrapLine, script)
  }

  // ---------------------------------------------------------------------------------------
  // The escape
  // ---------------------------------------------------------------------------------------

  /** The escape as one left-to-right pass. */
  function EscapeChar(c: char): string {
    if c == '\\' then "\\\\" else if c == '"' then "\\\"" else if c == '$' then "\\$" else if c == '\n' then "; " else [c]
  }

  function Escape(s: string): string {
    if |s| == 0 then "" else EscapeChar(s[0]) + Escape(s[1..])
  }

  /** The commands on one line. */
  function Semicolons(s: string): string {
    Replace(s, '\n', "; ")
  }

  lemma {:induction false} ReplaceConcat(a: string, b: string, c: char, r: string)
    ensures Replace(a + b, c, r) == Replace(a, c, r) + Replace(b, c, r)
    decreases |a|
  {
    if |a| == 0 {
      assert a + b == b;
    } else {
      assert (a + b)[1..] == a[1..] + b;
      ReplaceConcat(a[1..], b, c, r);
    }
  }

  lemma Replace1(x: char, c: char, r: string)
    ensures Replace([x], c, r) == if x == c then r else [x]
  {
    assert [x][1..] == "";
    assert Replace("", c, r) == "";
  }

  lemma Replace2(x: char, y: char, c: char, r: string)
    ensures Replace([x, y], c, r) == (if x == c then r else [x]) + (if y == c then r else [y])
  {
    Replace1(x, c, r);
    Replace1(y, c, r);
    ReplaceConcat([x], [y], c, r);
    assert [x] + [y] == [x, y];
  }

  lemma PassesConcat(a: string, b: string)
    ensures Passes(a + b) == Passes(a) + Passes(b)
  {
    hide Replace;
    ReplaceConcat(a, b, '\\', "\\\\");
    var a1, b1 := Replace(a, '\\', "\\\\"), Replace(b, '\\', "\\\\");
    ReplaceConcat(a1, b1, '"', "\\\"");
    var a2, b2 := Replace(a1, '"', "\\\""), Replace(b1, '"', "\\\"");
    ReplaceConcat(a2, b2, '$', "\\$");
    ReplaceConcat(Replace(a2, '$', "\\$"), Replace(b2, '$', "\\$"), '\n', "; ");
  }

  lemma PassesChar(c: char)
    ensures Passes([c]) == EscapeChar(c)
  {
    hide Replace;
    Replace1(c, '\\', "\\\\");
    Replace1(c, '"', "\\\"");
    Replace1(c, '$', "\\$");
    Replace1(c, '\n', "; ");
    Replace2('\\', '\\', '"', "\\\"");
    Replace2('\\', '\\', '$', "\\$");
    Replace2('\\', '\\', '\n', "; ");
    Replace2('\\', '"', '$', "\\$");
    Replace2('\\', '"', '\n', "; ");
    Replace2('\\', '$', '\n', "; ");
    assert "\\\\" == ['\\', '\\'] == ['\\'] + ['\\'];
    assert "\\\"" == ['\\', '"'] == ['\\'] + ['"'];
    assert "\\$" == ['\\', '$'] == ['\\'] + ['$'];
  }

  /** The sequential passes never touch each other's output. */
  lemma {:induction false} PassesIsEscape(s: string)
    ensures Passes(s) == Escape(s)
  {
    if |s| == 0 {
      assert Passes("") == "";
    } else {
      PassesIsEscape(s[1..]);
      PassesConcat([s[0]], s[1..]);
      PassesChar(s[0]);
      assert [s[0]] + s[1..] == s;
    }
  }

  /** What a character is on the one line the commands become. */
  function SemicolonChar(c: char): string {
    if c == '\n' then "; " else [c]
  }

  lemma UnescapeChar(c: char, t: string)
    ensures Unescape(EscapeChar(c) + t) == SemicolonChar(c) + Unescape(t)
  {
    var s := EscapeChar(c) + t;
    if c == '\n' {
      assert s[1..] == [' '] + t && s[1..][1..] == t;
      assert Unescape([' '] + t) == [' '] + Unescape(t);
      assert [';'] + ([' '] + Unescape(t)) == "; " + Unescape(t);
    } else if EscapeChar(c) == [c] {
      assert s[1..] == t;
    } else {
      assert s[1] == c && s[2..] == t;
    }
  }

  /** One left-to-right unescape undoes all of them. */
  lemma {:induction false} UnescapeEscape(s: string)
    ensures Unescape(Escape(s)) == Semicolons(s)
  {
    hide Unescape, EscapeChar;
    if |s| > 0 {
      UnescapeEscape(s[1..]);
      UnescapeChar(s[0], Escape(s[1..]));
    } else {
      UnescapeNothing();
    }
  }

  lemma UnescapeNothing()
    ensures Unescape("") == ""
  {
  }

  /** How RouterOS reads a quoted literal: up to the first bare quote, undoing escapes; a bare `$`
      would substitute a variable. */
  function ReadLiteral(s: string): Option<(string, string)> {
    if |s| == 0 then None
    else if s[0] == '"' then Some(("", s[1..]))
    else if s[0] == '$' then None
    else if s[0] == '\\' then
      if |s| < 2 then None
      else
        match ReadLiteral(s[2..])
        case None => None
        case Some((text, rest)) => Some(([s[1]] + text, rest))
    else
      match ReadLiteral(s[1..])
      case None => None
      case Some((text, rest)) => Some(([s[0]] + text, rest))
  }

  /** RouterOS reads back exactly the commands: no quote ends the literal early, no variable is
      substituted into it. */
  lemma LiteralReadsBack(s: string, rest: string)
    ensures ReadLiteral(Passes(s) + "\"" + rest) == Some((Semicolons(s), rest))
  {
    PassesIsEscape(s);
    EscapedReadsBack(s, rest);
  }

  lemma {:induction false} EscapedReadsBack(s: string, rest: string)
    ensures ReadLiteral(Escape(s) + "\"" + rest) == Some((Semicolons(s), rest))
    decreases |s|
  {
    hide EscapeChar, ReadLiteral;
    var tail := Escape(s[if |s| > 0 then 1 else 0..]) + "\"" + rest;
    if |s| == 0 {
      assert tail == "\"" + rest;
      LiteralEnds(rest);
    } else {
      EscapedReadsBack(s[1..], rest);
      assert Escape(s) + "\"" + rest == EscapeChar(s[0]) + tail;
      LiteralChar(s[0], tail);
    }
  }

  lemma LiteralEnds(rest: string)
    ensures ReadLiteral("\"" + rest) == Some(("", rest))
  {
    assert ("\"" + rest)[1..] == rest;
  }

  lemma LiteralChar(c: char, t: string)
    requires ReadLiteral(t).Some?
    ensures ReadLiteral(EscapeChar(c) + t) == Some((SemicolonChar(c) + ReadLiteral(t).value.0, ReadLiteral(t).value.1))
  {
    var s := EscapeChar(c) + t;
    var text := ReadLiteral(t).value.0;
    if c == '\n' {
      assert s[1..] == [' '] + t && s[1..][1..] == t;
      assert ReadLiteral([' '] + t) == Some(([' '] + text, ReadLiteral(t).value.1));
      assert [';'] + ([' '] + text) == "; " + text;
    } else if EscapeChar(c) == [c] {
      assert s[1..] == t;
    } else {
      assert s[1] == c && s[2..] == t;
    }
  }

  // ---------------------------------------------------------------------------------------
  // Lines
  // ---------------------------------------------------------------------------------------

  lemma {:induction false} EscapeOneLine(s: string)
    ensures OneLine(Escape(s)) <==> forall i :: 0 <= i < |s| && IsLineEnd(s[i]) ==> s[i] == '\n'
    ensures '\n' !in Escape(s)
  {
    if |s| > 0 {
      EscapeOneLine(s[1..]);
      OneLineConcat(EscapeChar(s[0]), Escape(s[1..]));
      EscapeCharOneLine(s[0]);
      assert (forall i :: 0 <= i < |s| && IsLineEnd(s[i]) ==> s[i] == '\n')
        <==> ((IsLineEnd(s[0]) ==> s[0] == '\n') && forall i :: 0 <= i < |s[1..]| && IsLineEnd(s[1..][i]) ==> s[1..][i] == '\n') by {
        assert forall i :: 1 <= i < |s| ==> s[i] == s[1..][i - 1];
      }
    }
  }

  lemma EscapeCharOneLine(c: char)
    ensures OneLine(EscapeChar(c)) <==> (IsLineEnd(c) ==> c == '\n')
    ensures '\n' !in EscapeChar(c)
  {
    if c != '\\' && c != '"' && c != '$' && c != '\n' {
      assert EscapeChar(c)[0] == c;
    }
  }

  lemma OneLineConcat(a: string, b: string)
    ensures OneLine(a + b) <==> OneLine(a) && OneLine(b)
  {
    assert OneLine(a + b) ==> OneLine(a) && OneLine(b) by {
      assert forall i :: 0 <= i < |a| ==> (a + b)[i] == a[i];
      assert forall i :: 0 <= i < |b| ==> (a + b)[|a| + i] == b[i];
    }
  }

  lemma BetweenMiddle(head: string, middle: string, tail: string)
    ensures Between(head + middle + tail, head, tail) == if OneLine(middle) then Some(middle) else None
  {
    var line := head + middle + tail;
    assert line[|head|..|line| - |tail|] == middle;
    assert line[|line| - |tail|..] == tail;
  }

  lemma BetweenIs(line: string, head: string, tail: string)
    ensures Between(line, head, tail).Some? ==> OneLine(Between(line, head, tail).value)
    ensures Between(line, head, tail).Some? ==> line == head + Between(line, head, tail).value + tail
  {
  }

  /** A deferred line reads back as the plain command when its text has no carriage return or
      Unicode line separator; otherwise the pattern does not match it at all. */
  lemma PlainOfDeferred(c: string)
    ensures PlainLine(Deferred(c)) ==
      if forall i :: 0 <= i < |c| && IsLineEnd(c[i]) ==> c[i] == '\n'
      then NATIVE_HEAD + Semicolons(c) + NATIVE_TAIL else Deferred(c)
  {
    hide Passes, Escape, Between;
    PassesIsEscape(c);
    EscapeOneLine(c);
    UnescapeEscape(c);
    BetweenMiddle(DEFERRED_HEAD, Escape(c), DEFERRED_TAIL);
  }

  /** A native line is no deferred one: it goes on with `/`, not with `:`. */
  lemma NativeIsNotDeferred(inner: string)
    requires StartsWith(inner, "/")
    ensures Between(NATIVE_HEAD + inner + NATIVE_TAIL, DEFERRED_HEAD, DEFERRED_TAIL) == None
  {
    var line := NATIVE_HEAD + inner + NATIVE_TAIL;
    assert line[5] == inner[0] == '/';
    assert DEFERRED_HEAD[5] == ':';
  }

  lemma PlainOfIsolated(line: string)
    ensures PlainLine(IsolateLine(line)) == PlainLine(line)
    ensures '\n' !in line ==> '\n' !in IsolateLine(line)
  {
    hide Passes, Escape, Between, VersionOrPackage;
    var inner := Between(line, NATIVE_HEAD, NATIVE_TAIL);
    BetweenIs(line, NATIVE_HEAD, NATIVE_TAIL);
    if inner.Some? && StartsWith(inner.value, "/") {
      NativeIsNotDeferred(inner.value);
      PlainOfDeferred(inner.value);
      SemicolonsOneLine(inner.value);
      PassesIsEscape(inner.value);
      EscapeOneLine(inner.value);
      assert '\n' !in Deferred(inner.value);
    }
  }

  lemma {:induction false} SemicolonsOneLine(s: string)
    requires OneLine(s)
    ensures Semicolons(s) == s
  {
    if |s| > 0 {
      assert s[0] != '\n';
      SemicolonsOneLine(s[1..]);
      assert [s[0]] + s[1..] == s;
    }
  }

  lemma SplitMapped(f: string -> string, script: string)
    requires forall line :: '\n' !in line ==> '\n' !in f(line)
    ensures Split(MapLines(f, script), '\n') == Each(f, Split(script, '\n'))
  {
    SplitJoin(Each(f, Split(script, '\n')), '\n');
  }

  /** Mapping the lines twice is mapping them once when the second map does not see the first. */
  lemma MapTwice(f: string -> string, g: string -> string, script: string)
    requires forall line :: '\n' !in line ==> '\n' !in f(line)
    requires forall line :: g(f(line)) == g(line)
    ensures MapLines(g, MapLines(f, script)) == MapLines(g, script)
  {
    hide Split, Join;
    SplitMapped(f, script);
    var lines := Split(script, '\n');
    assert Each(g, Each(f, lines)) == Each(g, lines);
  }

  /** Handing commands to `:parse` never changes the script an operator reads. */
  lemma IsolationIsInvisible(script: string)
    ensures PlainCommands(IsolateEveryCommand(script)) == PlainCommands(script)
  {
    hide PlainLine, IsolateLine, MapLines;
    forall line
      ensures '\n' !in line ==> '\n' !in IsolateLine(line)
      ensures PlainLine(IsolateLine(line)) == PlainLine(line)
    {
      PlainOfIsolated(line);
    }
    MapTwice(IsolateLine, PlainLine, script);
  }

  /** A deferred command is shown as the plain one exactly when it is a single line. */
  lemma DeferredReadsBack(c: string)
    ensures PlainCommands(Deferred(c)) == NATIVE_HEAD + c + NATIVE_TAIL <==> OneLine(c)
  {
    hide Passes, Escape, PlainLine, Deferred;
    DeferredHasNoNewline(c);
    SplitWhole(Deferred(c), '\n');
    assert PlainCommands(Deferred(c)) == PlainLine(Deferred(c));
    PlainOfDeferred(c);
    if OneLine(c) {
      SemicolonsOneLine(c);
    } else if forall i :: 0 <= i < |c| && IsLineEnd(c[i]) ==> c[i] == '\n' {
      SemicolonsLonger(c);
      assert |NATIVE_HEAD + Semicolons(c) + NATIVE_TAIL| > |NATIVE_HEAD + c + NATIVE_TAIL|;
    } else {
      DeferredLonger(c);
    }
  }

  lemma DeferredHasNoNewline(c: string)
    ensures '\n' !in Deferred(c)
  {
    hide Passes, Escape;
    PassesIsEscape(c);
    EscapeOneLine(c);
  }

  lemma {:induction false} SemicolonsLonger(s: string)
    ensures |Semicolons(s)| >= |s|
    ensures '\n' in s ==> |Semicolons(s)| > |s|
    ensures !OneLine(s) && (forall i :: 0 <= i < |s| && IsLineEnd(s[i]) ==> s[i] == '\n') ==> '\n' in s
  {
    if |s| > 0 {
      SemicolonsLonger(s[1..]);
    }
  }

  lemma DeferredLonger(c: string)
    ensures |Deferred(c)| > |NATIVE_HEAD + c + NATIVE_TAIL|
  {
    hide Passes, Escape;
    PassesIsEscape(c);
    EscapeLonger(c);
  }

  lemma {:induction false} EscapeLonger(s: string)
    ensures |Escape(s)| >= |s|
  {
    if |s| > 0 {
      EscapeLonger(s[1..]);
    }
  }

  // ---------------------------------------------------------------------------------------
  // Which lines are deferred
  // ---------------------------------------------------------------------------------------

  /** The menu's name somewhere in the command, not as the beginning of a longer word. */
  ghost predicate NamesMenu(c: string, menu: string) {
    exists before: string, after: string :: c == before + menu + after && (after == "" || EndsWord(after[0]))
  }

  /** Neither letter, digit nor underscore. */
  predicate EndsWord(x: char) {
    (x < 'a' || 'z' < x) && (x < 'A' || 'Z' < x) && (x < '0' || '9' < x) && x != '_'
  }

  /** The command inside a native line, when it exists only on some RouterOS versions or packages. */
  ghost predicate RunsVersionCommand(line: string, c: string) {
    && line == ":do {" + c + "} on-error={}"
    && (forall i :: 0 <= i < |c| ==> c[i] != '\n' && c[i] != '\r' && c[i] != '\U{2028}' && c[i] != '\U{2029}')
    && c != "" && c[0] == '/'
    && (NamesMenu(c, "/interface wifi") || NamesMenu(c, "/interface wireless") || NamesMenu(c, "/interface wireguard")
        || exists before: string, after: string :: c == before + "/system ntp client servers" + after)
  }

  /** The line asks RouterOS for `c` at run time: it reads the literal behind `:parse` back as `c`. */
  ghost predicate ParsesAtRunTime(line: string, c: string) {
    && ":do {:local mkgCmd [:parse \"" <= line
    && ReadLiteral(line[28..]) == Some((c, "]; $mkgCmd} on-error={}"))
  }

  /** No isolated script has a native line naming one of those menus, so none fails the import's
      syntax check. The lines changed are exactly those that did, each now parsing the very same
      command at run time. */
  lemma ExactlyVersionCommandsAreDeferred(script: string, k: nat)
    requires k < |Split(script, '\n')|
    ensures var was, now := Split(script, '\n'), Split(IsolateEveryCommand(script), '\n');
      && |now| == |was|
      && (now[k] != was[k] <==> exists c :: RunsVersionCommand(was[k], c))
      && (forall c :: RunsVersionCommand(was[k], c) ==> ParsesAtRunTime(now[k], c))
      && (forall c :: !RunsVersionCommand(now[k], c))
  {
    hide IsolateLine, MapLines, Split;
    forall line
      ensures '\n' !in line ==> '\n' !in IsolateLine(line)
    {
      PlainOfIsolated(line);
    }
    SplitMapped(IsolateLine, script);
    LineIsolated(Split(script, '\n')[k]);
  }

  lemma LineIsolated(line: string)
    ensures var now := IsolateLine(line);
      && (now != line <==> exists c :: RunsVersionCommand(line, c))
      && (forall c :: RunsVersionCommand(line, c) ==> ParsesAtRunTime(now, c))
      && (forall c :: !RunsVersionCommand(now, c))
  {
    hide VersionOrPackage, Between, Passes, RunsVersionCommand, ParsesAtRunTime;
    var inner := Between(line, NATIVE_HEAD, NATIVE_TAIL);
    forall c
      ensures RunsVersionCommand(line, c) <==> inner == Some(c) && StartsWith(c, "/") && VersionOrPackage(c)
    {
      CommandOfLine(line, c);
    }
    forall c
      ensures ParsesAtRunTime(Deferred(c), c) || !OneLine(c)
      ensures forall d :: !RunsVersionCommand(Deferred(c), d)
    {
      DeferredParses(c);
    }
    BetweenIs(line, NATIVE_HEAD, NATIVE_TAIL);
    if inner.Some? && StartsWith(inner.value, "/") && VersionOrPackage(inner.value) {
      assert RunsVersionCommand(line, inner.value);
      assert IsolateLine(line) == Deferred(inner.value);
    }
  }

  lemma DeferredParses(c: string)
    ensures OneLine(c) ==> ParsesAtRunTime(Deferred(c), c)
    ensures forall d :: !RunsVersionCommand(Deferred(c), d)
  {
    hide Passes, ReadLiteral;
    var rest := "]; $mkgCmd} on-error={}";
    LiteralReadsBack(c, rest);
    assert DEFERRED_TAIL == "\"" + rest;
    assert Deferred(c)[28..] == Passes(c) + "\"" + rest;
    if OneLine(c) {
      SemicolonsOneLine(c);
    }
    forall d
      ensures !RunsVersionCommand(Deferred(c), d)
    {
      assert Deferred(c)[5] == ':';
      assert d != "" ==> (":do {" + d + "} on-error={}")[5] == d[0];
    }
  }

  lemma CommandOfLine(line: string, c: string)
    ensures RunsVersionCommand(line, c)
      <==> Between(line, NATIVE_HEAD, NATIVE_TAIL) == Some(c) && StartsWith(c, "/") && VersionOrPackage(c)
  {
    hide VersionOrPackage, NamesMenu;
    BetweenMiddle(NATIVE_HEAD, c, NATIVE_TAIL);
    BetweenIs(line, NATIVE_HEAD, NATIVE_TAIL);
    VersionMenus(c);
  }

  lemma VersionMenus(c: string)
    ensures VersionOrPackage(c) <==>
      (NamesMenu(c, "/interface wifi") || NamesMenu(c, "/interface wireless") || NamesMenu(c, "/interface wireguard")
       || exists before: string, after: string :: c == before + "/system ntp client servers" + after)
  {
    hide WordAt, NamesMenu;
    MenuNamed(c, "/interface wifi");
    MenuNamed(c, "/interface wireless");
    MenuNamed(c, "/interface wireguard");
    Contained(c, "/system ntp client servers");
  }

  lemma MenuNamed(c: string, menu: string)
    requires menu != ""
    ensures NamesMenu(c, menu) <==> exists i :: 0 <= i < |c| && WordAt(c, i, menu)
  {
    if i :| 0 <= i < |c| && WordAt(c, i, menu) {
      assert c == c[..i] + menu + c[i + |menu|..];
    }
    if NamesMenu(c, menu) {
      var before: string, after: string :| c == before + menu + after && (after == "" || EndsWord(after[0]));
      assert c[|before|..|before| + |menu|] == menu;
      assert after != "" ==> c[|before| + |menu|] == after[0];
      assert WordAt(c, |before|, menu);
    }
  }

  lemma Contained(c: string, text: string)
    requires text != ""
    ensures (exists before: string, after: string :: c == before + text + after)
       <==> exists i :: 0 <= i < |c| && StartsWith(c[i..], text)
  {
    if i :| 0 <= i < |c| && StartsWith(c[i..], text) {
      assert c == c[..i] + text + c[i + |text|..];
    }
    if before: string, after: string :| c == before + text + after {
      assert c[|before|..] == text + after;
    }
  }

  /** Wrapping leaves no bare top-level command, so wrapping again changes nothing. */
  lemma WrapIsIdempotent(script: string)
    ensures WrapTopLevelCommands(WrapTopLevelCommands(script)) == WrapTopLevelCommands(script)
  {
    hide MapLines;
    forall line
      ensures '\n' !in line ==> '\n' !in WrapLine(line)
      ensures WrapLine(WrapLine(line)) == WrapLine(line)
    {
      WrapLineOnce(line);
    }
    MapTwice(WrapLine, WrapLine, script);
  }

  lemma WrapLineOnce(line: string)
    ensures '\n' !in line ==> '\n' !in WrapLine(line)
    ensures WrapLine(WrapLine(line)) == WrapLine(line)
  {
    if StartsWith(line, "/") {
      assert WrapLine(line)[0] == ':';
    }
  }
}
