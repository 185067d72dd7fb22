/**
 The shell thread (`shell.c`): reading a line, cutting it into a command and its
 arguments, and choosing what to do.
 */
module Shell {
  import opened Numerals
  import opened ShellEditor
  import opened ShellTokens

  const SHELL_MAX_LINE_LENGTH: nat := 64
  const SHELL_MAX_ARGUMENTS: nat := 4

  // ----- what a line asks for

  datatype Action =
    | Nothing
    | TooManyArguments
    | Exit
    | Usage(name: string)
    | Help
    | Local(index: nat, args: seq<string>)
    | User(index: nat, args: seq<string>)
    | Unknown(name: string)

  /** The names in a command table; the user's table may be missing. */
  datatype Table = NoTable | Table(names: seq<string>)

  const LOCAL_COMMANDS: seq<string> := ["info", "systime"]

  function WordText(text: string, w: Word): string {
    if w.start <= w.end <= |text| then text[w.start..w.end] else ""
  }

  function TextsOf(text: string, ws: seq<Word>): (r: seq<string>)
    ensures |r| == |ws| && forall k :: 0 <= k < |r| ==> r[k] == WordText(text, ws[k])
  {
    seq(|ws|, k requires 0 <= k < |ws| => WordText(text, ws[k]))
  }

  /** The words from an index on as strings. */
  function TextsFrom(text: string, i: nat): (r: seq<string>)
    requires i <= |text|
  {
    TextsOf(text, Words(text, i))
  }

  /** The words of a line. */
  function WordTexts(text: string): (r: seq<string>) {
    TextsFrom(text, 0)
  }

  /** The first place of a name in a table, or its length. */
  function Find(names: seq<string>, name: string): (k: nat)
    ensures k <= |names| && (k < |names| ==> names[k] == name)
    ensures forall i :: 0 <= i < k ==> names[i] != name
    decreases |names|
  {
    if names == [] || names[0] == name then 0 else 1 + Find(names[1..], name)
  }

  /** What the words of a line ask for. */
  function ActionFor(words: seq<string>, users: Table): Action {
    if words == [] then Nothing
    else if |words| - 1 > SHELL_MAX_ARGUMENTS then TooManyArguments
    else Command(words[0], words[1..], users)
  }

  function Command(name: string, args: seq<string>, users: Table): Action {
    if name == "exit" then (if args != [] then Usage("exit") else Exit)
    else if name == "help" then (if args != [] then Usage("help") else Help)
    else if name in LOCAL_COMMANDS then Local(Find(LOCAL_COMMANDS, name), args)
    else if users.Table? && name in users.names then User(Find(users.names, name), args)
    else Unknown(name)
  }

  /** Exactly when each action is taken: exit and help first, then the local commands, then the user's. */
  lemma CommandDecides(name: string, args: seq<string>, users: Table)
    ensures var a := Command(name, args, users);
            && (a == Exit <==> name == "exit" && args == [])
            && (a == Help <==> name == "help" && args == [])
            && (a == Usage("exit") <==> name == "exit" && args != [])
            && (a == Usage("help") <==> name == "help" && args != [])
            && (a == Local(0, args) <==> name == "info")
            && (a == Local(1, args) <==> name == "systime")
            && (forall k :: a == User(k, args) <==> !BuiltIn(name) && FirstAt(users, name, k))
            && (a == Unknown(name) <==> !BuiltIn(name) && forall k :: !FirstAt(users, name, k))
  {
    hide Find;
    assert |"exit"| == 4 && |"help"| == 4 && |"info"| == 4 && |"systime"| == 7;
    assert "exit"[0] != "help"[0] && "exit"[0] != "info"[0] && "help"[0] != "info"[0];
    assert LOCAL_COMMANDS[0] == "info" && LOCAL_COMMANDS[1] == "systime";
    FindIs(LOCAL_COMMANDS, name);
    if users.Table? {
      FindIs(users.names, name);
    }
  }

  predicate BuiltIn(name: string) {
    name == "exit" || name == "help" || name == "info" || name == "systime"
  }

  /** The user's table has the name, for the first time at `k`. */
  predicate FirstAt(users: Table, name: string, k: nat) {
    users.Table? && k < |users.names| && users.names[k] == name && forall j :: 0 <= j < k ==> users.names[j] != name
  }

  lemma FindIs(names: seq<string>, name: string)
    ensures name in names <==> Find(names, name) < |names|
  {
  }

  /** No table of the user changes what the built-in names do. */
  lemma BuiltInFirst(words: seq<string>, users: Table)
    requires words != [] && BuiltIn(words[0])
    ensures ActionFor(words, users) == ActionFor(words, NoTable)
  {
    hide Find;
  }

  /** A line without words does nothing, and one with more than four arguments is refused, whatever its command. */
  lemma ActionDecides(words: seq<string>, users: Table)
    ensures ActionFor(words, users) == Nothing <==> words == []
    ensures ActionFor(words, users) == TooManyArguments <==> |words| > 5
  {
  }

  /** What a whole session does, line by line, until it is left. */
  function Session(input: string, users: Table): seq<Action>
    decreases |input|
  {
    match FirstLine(input, SHELL_MAX_LINE_LENGTH - 1)
    case Logout => []
    case Line(text) =>
      var a := ActionFor(WordTexts(text), users);
      [a] + if a.Exit? then [] else Session(AfterLine(input), users)
  }

  // ----- the argument loop

  /** A word in memory: its characters and a terminator behind them. */
  ghost predicate InMemory(memory: string, text: string, w: Word) {
    && w.start < w.end <= |text| < |memory|
    && memory[w.start..w.end] == text[w.start..w.end]
    && memory[w.end] == '\0'
  }

  lemma CutKeeps(memory: string, text: string, w: Word, later: Word)
    requires InMemory(memory, text, w) && w.end < later.start < later.end <= |text|
    ensures InMemory(Cut(memory, text, later), text, w)
  {
  }

  lemma CutEnds(memory: string, text: string, w: Word, from: nat)
    requires Holds(memory, text, from) && from <= w.start < w.end <= |text|
    ensures InMemory(Cut(memory, text, w), text, w)
  {
  }

  lemma InMemoryIs(memory: string, text: string, w: Word)
    requires InMemory(memory, text, w) && forall i :: 0 <= i < |text| ==> text[i] != '\0'
    ensures CString(memory[w.start..]) == WordText(text, w)
  {
    hide CString;
    var t := text[w.start..w.end];
    assert memory[w.start..] == t + ['\0'] + memory[w.end + 1..];
    CStringIs(t, memory[w.end + 1..]);
  }

  /** The saved pointer and the words already cut off. */
  ghost predicate Parsing(memory: string, text: string, save: Pointer, done: nat) {
    var ws := Words(text, 0);
    && done <= |ws| && |text| < |memory|
    && Saved(memory, text, save)
    && Remaining(text, save) == ws[done..]
    && forall j :: 0 <= j < done ==> InMemory(memory, text, ws[j])
  }

  /** One more call of `_strtok` keeps the words that are already cut off. */
  method NextWord(line: array<char>, saveptr: Pointer, ghost text: string, ghost done: nat)
    returns (token: Pointer, save: Pointer)
    requires Parsing(line[..], text, saveptr, done)
    modifies line
    ensures var ws := Words(text, 0);
            if done == |ws| then token == Null && Parsing(line[..], text, save, done)
            else token == At(ws[done].start) && Parsing(line[..], text, save, done + 1)
  {
    hide Words, Cut, InMemory, Holds;
    ghost var ws := Words(text, 0);
    ghost var before := line[..];
    token, save := Strtok(line, Null, saveptr, text);
    WordsAreRuns(text, 0);
    if done < |ws| {
      KeepWords(before, text, saveptr, done);
    }
  }

  lemma KeepWords(memory: string, text: string, save: Pointer, done: nat)
    requires Parsing(memory, text, save, done) && done < |Words(text, 0)|
    requires InOrder(0, Words(text, 0)) && AllRuns(text, 0, Words(text, 0))
    ensures var ws := Words(text, 0);
            && ws[done].end <= |text|
            && forall j :: 0 <= j <= done ==> InMemory(Cut(memory, text, ws[done]), text, ws[j])
  {
    hide Words, Cut, InMemory;
    var ws := Words(text, 0);
    var w := ws[done];
    assert w in ws && MaximalRun(text, w);
    FirstFrom(text, save);
    CutEnds(memory, text, w, save.index);
    forall j | 0 <= j < done ensures InMemory(Cut(memory, text, w), text, ws[j]) {
      CutKeeps(memory, text, ws[j], w);
    }
  }

  lemma FirstFrom(text: string, save: Pointer)
    requires save.At? ==> save.index <= |text|
    ensures Remaining(text, save) != [] ==> save.At? && Remaining(text, save)[0].start >= save.index
  {
  }

  lemma StartParsing(memory: string, text: string)
    requires Holds(memory, text, 0)
    ensures Parsing(memory, text, At(0), 0)
  {
    hide Words;
  }

  /** The arguments of the first `k` words behind the command. */
  ghost predicate Pointing(args: seq<Pointer>, ws: seq<Word>, k: nat) {
    k < |args| && k < |ws| && forall i :: 0 <= i < k ==> args[i] == At(ws[i + 1].start)
  }

  /**
   The argument loop: the command and at most SHELL_MAX_ARGUMENTS arguments,
   with a null pointer behind them; otherwise no command at all.
   */
  method ParseLine(line: array<char>, args: array<Pointer>, ghost text: string)
    returns (cmd: Pointer, n: nat, tooMany: bool)
    requires Holds(line[..], text, 0) && args.Length == SHELL_MAX_ARGUMENTS + 1
    modifies line, args
    ensures n <= SHELL_MAX_ARGUMENTS && args[n] == Null
    ensures var ws := Words(text, 0);
            && (tooMany <==> |ws| - 1 > SHELL_MAX_ARGUMENTS)
            && (cmd == if ws == [] || tooMany then Null else At(ws[0].start))
            && (ws == [] ==> n == 0)
            && (ws != [] && !tooMany ==> n == |ws| - 1 && Pointing(args[..], ws, n))
            && (!tooMany ==> forall j :: 0 <= j < |ws| ==> InMemory(line[..], text, ws[j]))
  {
    hide Words, Holds, InMemory;
    ghost var ws := Words(text, 0);
    StartParsing(line[..], text);
    var lp, tokp := NextWord(line, At(0), text, 0);
    cmd := lp;
    n := 0;
    tooMany := false;
    if cmd == Null {
      lp, tokp := NextWord(line, tokp, text, 0);
      args[n] := Null;
      return;
    }
    while true
      invariant n <= SHELL_MAX_ARGUMENTS && n < |ws| && cmd == At(ws[0].start) && !tooMany
      invariant Parsing(line[..], text, tokp, n + 1)
      invariant Pointing(args[..], ws, n)
      decreases |ws| - n
    {
      lp, tokp := NextWord(line, tokp, text, n + 1);
      if lp == Null {
        break;
      }
      if n >= SHELL_MAX_ARGUMENTS {
        tooMany := true;
        cmd := Null;
        break;
      }
      args[n] := lp;
      n := n + 1;
    }
    args[n] := Null;
  }

  // ----- choosing a command

  /** `cmdexec`; true when the table has no such command. */
  method FindCommand(names: seq<string>, name: string) returns (missing: bool, index: nat)
    ensures missing <==> name !in names
    ensures !missing ==> index == Find(names, name) && index < |names|
  {
    index := 0;
    while index < |names|
      invariant 0 <= index <= |names| && forall i :: 0 <= i < index ==> names[i] != name
      invariant index + Find(names[index..], name) == Find(names, name)
    {
      if names[index] == name {
        return false, index;
      }
      assert names[index..][1..] == names[index + 1..];
      index := index + 1;
    }
    missing := true;
  }

  /** The branches of the shell loop on a command that was found in the line. */
  method Choose(name: string, args: seq<string>, users: Table) returns (a: Action)
    ensures a == Command(name, args, users)
  {
    if name == "exit" {
      return if |args| > 0 then Usage("exit") else Exit;
    } else if name == "help" {
      return if |args| > 0 then Usage("help") else Help;
    }
    var missing, k := FindCommand(LOCAL_COMMANDS, name);
    if !missing {
      return Local(k, args);
    }
    if users.NoTable? {
      return Unknown(name);
    }
    missing, k := FindCommand(users.names, name);
    return if missing then Unknown(name) else User(k, args);
  }

  /** The strings behind the first `n` argument pointers. */
  method Arguments(line: array<char>, args: array<Pointer>, n: nat, ghost text: string, ghost ws: seq<Word>)
    returns (r: seq<string>)
    requires Pointing(args[..], ws, n)
    requires forall j :: 0 <= j < |ws| ==> InMemory(line[..], text, ws[j])
    requires forall i :: 0 <= i < |text| ==> text[i] != '\0'
    ensures |r| == n && forall i :: 0 <= i < n ==> r[i] == WordText(text, ws[i + 1])
  {
    hide InMemory, WordText;
    r := [];
    while |r| < n
      invariant |r| <= n && forall i :: 0 <= i < |r| ==> r[i] == WordText(text, ws[i + 1])
    {
      ghost var w := ws[|r| + 1];
      assert args[..][|r|] == At(w.start);
      InMemoryIs(line[..], text, w);
      InMemoryRange(line[..], text, w);
      var start := args[|r|].index;
      assert line[start..] == line[..][start..];
      r := r + [CString(line[start..])];
    }
  }

  lemma InMemoryRange(memory: string, text: string, w: Word)
    requires InMemory(memory, text, w)
    ensures w.start < |memory|
  {
  }

  /** One round of the shell loop on a line that was read. */
  method Execute(line: array<char>, users: Table, ghost text: string) returns (a: Action)
    requires Holds(line[..], text, 0)
    modifies line
    ensures a == ActionFor(WordTexts(text), users)
  {
    hide Words, InMemory, WordText, Command;
    var args := new Pointer[SHELL_MAX_ARGUMENTS + 1];
    var cmd, n, tooMany := ParseLine(line, args, text);
    ghost var ws := Words(text, 0);
    if cmd == Null {
      return if tooMany then TooManyArguments else Nothing;
    }
    InMemoryIs(line[..], text, ws[0]);
    InMemoryRange(line[..], text, ws[0]);
    assert line[cmd.index..] == line[..][cmd.index..];
    var name := CString(line[cmd.index..]);
    var strings := Arguments(line, args, n, text, ws);
    assert strings == WordTexts(text)[1..];
    a := Choose(name, strings, users);
  }

  /** The shell thread: its actions are those of the session, and it stops at an exit or a logout. */
  method ShellThread(chp: Channel, users: Table) returns (log: seq<Action>)
    modifies chp
    ensures log == Session(old(chp.input), users)
  {
    hide FirstLine, AfterLine, ActionFor, WordTexts, Session;
    var line := new char[SHELL_MAX_LINE_LENGTH];
    log := [];
    while true
      invariant Session(old(chp.input), users) == log + Session(chp.input, users)
      decreases |chp.input|
    {
      ghost var input := chp.input;
      SessionStep(input, users);
      var logout := GetLine(chp, line, line.Length);
      if logout {
        break;
      }
      ghost var text := FirstLine(input, SHELL_MAX_LINE_LENGTH - 1).text;
      LineHolds(input, line[..]);
      var a := Execute(line, users, text);
      log := log + [a];
      if a == Exit {
        break;
      }
    }
  }

  lemma LineHolds(input: string, memory: string)
    requires FirstLine(input, SHELL_MAX_LINE_LENGTH - 1).Line? && |memory| == SHELL_MAX_LINE_LENGTH
    requires var text := FirstLine(input, SHELL_MAX_LINE_LENGTH - 1).text;
             |text| < |memory| && memory[..|text|] == text && memory[|text|] == '\0'
    ensures Holds(memory, FirstLine(input, SHELL_MAX_LINE_LENGTH - 1).text, 0)
  {
    hide Edited;
    var text := FirstLine(input, SHELL_MAX_LINE_LENGTH - 1).text;
    EditedTyped(input[..KeysBefore(input)], SHELL_MAX_LINE_LENGTH - 1);
    assert forall i :: 0 <= i < |text| ==> memory[i] == memory[..|text|][i];
  }

  lemma SessionStep(input: string, users: Table)
    ensures FirstLine(input, SHELL_MAX_LINE_LENGTH - 1) == Logout ==> Session(input, users) == []
    ensures FirstLine(input, SHELL_MAX_LINE_LENGTH - 1).Line? ==>
              && input != "" && |FirstLine(input, SHELL_MAX_LINE_LENGTH - 1).text| < SHELL_MAX_LINE_LENGTH
              && var a := ActionFor(WordTexts(FirstLine(input, SHELL_MAX_LINE_LENGTH - 1).text), users);
              Session(input, users) == [a] + if a.Exit? then [] else Session(AfterLine(input), users)
  {
    hide ActionFor, WordTexts, Edited;
  }

  // ----- from words to keys and back

  predicate Plain(w: string) {
    w != "" && forall i :: 0 <= i < |w| ==> Types(w[i]) && w[i] != ' '
  }

  predicate AllPlain(ws: seq<string>) {
    forall k :: 0 <= k < |ws| ==> Plain(ws[k])
  }

  /** The words with a space between them. */
  function Join(ws: seq<string>): string {
    if ws == [] then "" else if |ws| == 1 then ws[0] else ws[0] + " " + Join(ws[1..])
  }

  lemma SkipWordIs(text: string, i: nat, j: nat)
    requires i <= j <= |text| && (j == |text| || Delimiter(text[j]))
    requires forall k :: i <= k < j ==> !Delimiter(text[k])
    ensures SkipWord(text, i) == j
  {
    hide SkipWord;
  }

  /** The words of a line that starts with a plain word. */
  lemma TextsStep(text: string, i: nat, w: string)
    requires i + |w| <= |text| && Plain(w) && text[i..i + |w|] == w
    requires i + |w| == |text| || text[i + |w|] == ' '
    ensures TextsFrom(text, i) == [w] + if i + |w| == |text| then [] else TextsFrom(text, i + |w| + 1)
  {
    hide Words, SkipDelimiters, SkipWord, WordText;
    var j := i + |w|;
    PlainSlice(text, i, w);
    WordsStep(text, i);
    SkipWordIs(text, i, j);
    TextsOfFirst(text, Word(i, j), if j == |text| then [] else Words(text, j + 1));
  }

  /** A plain word of the text starts and stays without delimiters. */
  lemma PlainSlice(text: string, i: nat, w: string)
    requires i + |w| <= |text| && Plain(w) && text[i..i + |w|] == w
    ensures forall k :: i <= k < i + |w| ==> !Delimiter(text[k])
    ensures SkipDelimiters(text, i) == i
    ensures WordText(text, Word(i, i + |w|)) == w
  {
    hide SkipDelimiters;
    forall k | i <= k < i + |w| ensures !Delimiter(text[k]) {
      assert text[k] == text[i..i + |w|][k - i];
    }
    assert !Delimiter(text[i]);
  }

  lemma TextsOfFirst(text: string, w: Word, ws: seq<Word>)
    ensures TextsOf(text, [w] + ws) == [WordText(text, w)] + TextsOf(text, ws) && TextsOf(text, []) == []
  {
    hide WordText;
  }

  lemma {:induction false} JoinFrom(p: string, ws: seq<string>)
    requires ws != [] && AllPlain(ws)
    ensures TextsFrom(p + Join(ws), |p|) == ws
    decreases |ws|
  {
    hide TextsFrom, Plain, Join, Words, WordText, SkipDelimiters, SkipWord;
    var w := ws[0];
    JoinStep(ws);
    if |ws| > 1 {
      var j := Join(ws[1..]);
      PrefixWord(p, w, " " + j);
      JoinFrom(p + w + " ", ws[1..]);
      Regroup(p, w, j);
      assert ws == [w] + ws[1..];
    } else {
      PrefixWord(p, w, "");
      assert ws == [w];
    }
  }

  lemma Regroup(p: string, w: string, j: string)
    ensures p + w + " " + j == p + (w + (" " + j))
    ensures |p + w + " "| == |p| + |w| + 1
  {
  }

  lemma PrefixWord(p: string, w: string, tail: string)
    requires Plain(w) && (tail == "" || tail[0] == ' ')
    ensures var text := p + (w + tail);
            TextsFrom(text, |p|) == [w] + if tail == "" then [] else TextsFrom(text, |p| + |w| + 1)
  {
    hide TextsFrom, Plain, Words, WordText, SkipDelimiters, SkipWord;
    var text := p + (w + tail);
    PrefixSlice(p, w, tail);
    TextsStep(text, |p|, w);
  }

  lemma PrefixSlice(p: string, w: string, tail: string)
    ensures var text := p + (w + tail);
            && |text| == |p| + |w| + |tail| && text[|p|..|p| + |w|] == w
            && (tail != "" ==> text[|p| + |w|] == tail[0])
  {
  }

  lemma JoinStep(ws: seq<string>)
    requires ws != []
    ensures Join(ws) == ws[0] + if |ws| == 1 then "" else " " + Join(ws[1..])
  {
  }

  lemma {:induction false} JoinTyped(ws: seq<string>)
    requires AllPlain(ws)
    ensures forall i :: 0 <= i < |Join(ws)| ==> Types(Join(ws)[i])
    decreases |ws|
  {
    if |ws| > 1 {
      JoinTyped(ws[1..]);
    }
  }

  lemma {:induction false} KeysAll(text: string, rest: string)
    requires forall i :: 0 <= i < |text| ==> Types(text[i])
    ensures KeysBefore(text + "\r" + rest) == |text|
  {
    hide KeysBefore;
    var input := text + "\r" + rest;
    var n := KeysBefore(input);
    assert input[|text|] == '\r';
    assert forall i :: 0 <= i < |text| ==> input[i] == text[i];
  }

  /**
   Words typed with spaces between them and a return are the words that are
   executed, if the line has room for them.
   */
  lemma TypedWords(ws: seq<string>, rest: string, users: Table)
    requires AllPlain(ws) && |Join(ws)| <= 63
    ensures Session(Join(ws) + "\r" + rest, users)
         == [ActionFor(ws, users)] + if ActionFor(ws, users).Exit? then [] else Session(rest, users)
  {
    hide Session, ActionFor, Edited, KeysBefore, Words, TextsFrom;
    var text := Join(ws);
    var input := text + "\r" + rest;
    JoinTyped(ws);
    KeysAll(text, rest);
    assert input[..|text|] == text && input[|text| + 1..] == rest && input[|text|] == '\r';
    EditedPrefix(text, SHELL_MAX_LINE_LENGTH - 1);
    SessionStep(input, users);
    if ws == [] {
      NoWords();
    } else {
      JoinFrom("", ws);
      assert "" + text == text;
    }
  }

  lemma NoWords()
    ensures TextsFrom("", 0) == []
  {
  }
}
