/**
 The line editor of the shell (`shell.c`): keys read from a channel, echoed
 to it and collected in a buffer. Characters are unsigned, as on the ARM
 targets.
 */
module ShellEditor {

  const CTRL_D: char := 4 as char
  const BACKSPACE: char := 8 as char
  const DELETE: char := 127 as char

  /** A sequential stream: what can still be read before it is reset, and what was written. */
  class Channel {
    var input: string
    var output: string

    constructor (input: string)
      ensures this.input == input && output == ""
    {
      this.input, output := input, "";
    }

    /** `chSequentialStreamRead` of one character; 0 is read when the channel is reset. */
    method Read() returns (n: nat, c: char)
      modifies this`input
      ensures old(input) == "" ==> n == 0 && input == ""
      ensures old(input) != "" ==> n == 1 && c == old(input)[0] && input == old(input)[1..]
    {
      if input == "" {
        n, c := 0, '\0';
      } else {
        n, c := 1, input[0];
        input := input[1..];
      }
    }

    method Put(s: string)
      modifies this`output
      ensures output == old(output) + s
    {
      output := output + s;
    }
  }

  // ----- what a line of keys means

  predicate Ends(c: char) {
    c == CTRL_D || c == '\r'
  }

  predicate Erases(c: char) {
    c == BACKSPACE || c == DELETE
  }

  predicate Types(c: char) {
    c >= ' ' && c != DELETE
  }

  /** How many keys come before the first that ends the line. */
  function KeysBefore(input: string): (n: nat)
    ensures n <= |input|
    ensures n < |input| ==> Ends(input[n])
    ensures forall i :: 0 <= i < n ==> !Ends(input[i])
  {
    if input == "" || Ends(input[0]) then 0 else 1 + KeysBefore(input[1..])
  }

  /** One key on a bounded stack of characters. */
  function Key(text: string, c: char, capacity: nat): (r: string)
    ensures |text| <= capacity ==> |r| <= capacity
  {
    if Erases(c) then (if text == "" then "" else text[..|text| - 1])
    else if Types(c) && |text| < capacity then text + [c]
    else text
  }

  /** The stack after all keys. */
  function Edited(keys: string, capacity: nat): (text: string)
    ensures |text| <= capacity
    decreases |keys|
  {
    if keys == "" then "" else Key(Edited(keys[..|keys| - 1], capacity), keys[|keys| - 1], capacity)
  }

  /** The line that the editor returns, if it does not give up. */
  datatype Line = Logout | Line(text: string)

  function FirstLine(input: string, capacity: nat): Line {
    var n := KeysBefore(input);
    if n == |input| || input[n] == CTRL_D then Logout else Line(Edited(input[..n], capacity))
  }

  /** What is left for the next line. */
  function AfterLine(input: string): (rest: string)
    ensures input == "" || |rest| < |input|
  {
    var n := KeysBefore(input);
    if n == |input| then "" else input[n + 1..]
  }

  // ----- what the terminal shows

  /** The lines already left, the current line and the cursor in it. */
  datatype Screen = Screen(above: seq<string>, row: string, cursor: nat)

  function Shown(s: Screen, c: char): Screen {
    if c == BACKSPACE then s.(cursor := if s.cursor == 0 then 0 else s.cursor - 1)
    else if c == '\r' then s.(cursor := 0)
    else if c == '\n' then Screen(s.above + [s.row], "", s.cursor)
    else if s.cursor < |s.row| then s.(row := s.row[s.cursor := c], cursor := s.cursor + 1)
    else Screen(s.above, s.row + [c], |s.row| + 1)
  }

  function Display(s: Screen, out: string): Screen
    decreases |out|
  {
    if out == "" then s else Shown(Display(s, out[..|out| - 1]), out[|out| - 1])
  }

  /** The row shows exactly `text` before the cursor, and blanks after it. */
  ghost predicate Shows(s: Screen, above: seq<string>, text: string) {
    && s.above == above
    && s.cursor == |text| <= |s.row|
    && s.row[..s.cursor] == text
    && forall i :: s.cursor <= i < |s.row| ==> s.row[i] == ' '
  }

  lemma {:induction false} DisplayAppend(s: Screen, out: string, more: string)
    ensures Display(s, out + more) == Display(Display(s, out), more)
    decreases |more|
  {
    if more == "" {
      assert out + more == out;
    } else {
      DisplayAppend(s, out, more[..|more| - 1]);
      assert (out + more)[..|out + more| - 1] == out + more[..|more| - 1];
    }
  }

  lemma DisplayOne(s: Screen, c: char)
    ensures Display(s, [c]) == Shown(s, c)
  {
    assert [c][..0] == "";
  }

  lemma ShowsTyped(s: Screen, above: seq<string>, text: string, c: char)
    requires Shows(s, above, text) && Types(c)
    ensures Shows(Display(s, [c]), above, text + [c])
  {
    DisplayOne(s, c);
  }

  const ERASE: string := [BACKSPACE, ' ', BACKSPACE]

  lemma ShowsErased(s: Screen, above: seq<string>, text: string)
    requires Shows(s, above, text) && text != ""
    ensures Shows(Display(s, ERASE), above, text[..|text| - 1])
  {
    hide Display;
    DisplayAppend(s, [BACKSPACE], [' ', BACKSPACE]);
    DisplayAppend(Display(s, [BACKSPACE]), [' '], [BACKSPACE]);
    assert ERASE == [BACKSPACE] + [' ', BACKSPACE] && [' '] + [BACKSPACE] == [' ', BACKSPACE];
    DisplayOne(s, BACKSPACE);
    DisplayOne(Shown(s, BACKSPACE), ' ');
    DisplayOne(Shown(Shown(s, BACKSPACE), ' '), BACKSPACE);
  }

  /** After the end of the line the row is above, and the next one is empty. */
  lemma ShowsEnded(s: Screen, above: seq<string>, text: string)
    requires Shows(s, above, text)
    ensures Display(s, "\r\n") == Screen(above + [s.row], "", 0)
  {
    hide Display;
    DisplayAppend(s, "\r", "\n");
    assert "\r" + "\n" == "\r\n";
    DisplayOne(s, '\r');
    DisplayOne(Shown(s, '\r'), '\n');
  }

  // ----- the editor

  /** The echo of one key, given what was typed before it. */
  function KeyEcho(text: string, c: char, capacity: nat): string {
    if Erases(c) then (if text == "" then "" else ERASE)
    else if Types(c) && |text| < capacity then [c]
    else ""
  }

  function Echo(keys: string, capacity: nat): string
    decreases |keys|
  {
    if keys == "" then "" else
      var front := keys[..|keys| - 1];
      Echo(front, capacity) + KeyEcho(Edited(front, capacity), keys[|keys| - 1], capacity)
  }

  /** The echo that ends the line. */
  function EndEcho(input: string): string {
    var n := KeysBefore(input);
    if n == |input| then "" else if input[n] == CTRL_D then "^D" else "\r\n"
  }

  /** `shellGetLine`; true when the channel was reset or CTRL-D was pressed. */
  method GetLine(chp: Channel, line: array<char>, size: nat) returns (logout: bool)
    requires 1 <= size <= line.Length
    modifies chp, line
    ensures line[size..] == old(line[size..])
    ensures chp.input == AfterLine(old(chp.input))
    ensures chp.output == old(chp.output) + Echo(old(chp.input)[..KeysBefore(old(chp.input))], size - 1)
            + EndEcho(old(chp.input))
    ensures logout <==> FirstLine(old(chp.input), size - 1) == Logout
    ensures !logout ==>
              && var text := FirstLine(old(chp.input), size - 1).text;
              && line[..|text|] == text && line[|text|] == '\0'
  {
    hide KeysBefore, Edited, Echo, FirstLine, AfterLine, EndEcho;
    var p := 0;
    ghost var done := 0;
    ghost var input := chp.input;
    NoKeys(size - 1);
    assert input[..0] == "";
    while true
      invariant done <= KeysBefore(input) && chp.input == input[done..]
      invariant p < size && line[..p] == Edited(input[..done], size - 1)
      invariant line[size..] == old(line[size..])
      invariant chp.output == old(chp.output) + Echo(input[..done], size - 1)
      decreases |chp.input|
    {
      var n, c := chp.Read();
      KeysAt(input, done);
      LineEnds(input, size - 1);
      if n == 0 {
        return true;
      }
      if c == CTRL_D {
        chp.Put("^D");
        return true;
      }
      ghost var text := line[..p];
      NextKey(input, done, size - 1);
      Regroup(old(chp.output), Echo(input[..done], size - 1), KeyEcho(text, c, size - 1));
      if c == BACKSPACE || c == DELETE {
        done := done + 1;
        if p != 0 {
          chp.Put(ERASE);
          p := p - 1;
          assert line[..p] == text[..|text| - 1];
        }
        continue;
      }
      if c == '\r' {
        chp.Put("\r\n");
        line[p] := '\0';
        return false;
      }
      done := done + 1;
      if c < ' ' {
        continue;
      }
      if p < size - 1 {
        chp.Put([c]);
        line[p] := c;
        p := p + 1;
        assert line[..p] == text + [c];
      }
    }
  }

  /** After every key, what was echoed behind any prompt shows exactly the text in the buffer. */
  lemma {:induction false} EchoShows(before: Screen, prompt: string, keys: string, capacity: nat)
    requires Shows(before, before.above, prompt)
    ensures Shows(Display(before, Echo(keys, capacity)), before.above, prompt + Edited(keys, capacity))
    decreases |keys|
  {
    hide Display, Shows, Key, KeyEcho;
    if keys == "" {
      DisplayNone(before);
      assert prompt + "" == prompt;
    } else {
      var front, c := keys[..|keys| - 1], keys[|keys| - 1];
      EchoShows(before, prompt, front, capacity);
      KeyShows(Display(before, Echo(front, capacity)), before.above, prompt, Edited(front, capacity), c, capacity);
      DisplayAppend(before, Echo(front, capacity), KeyEcho(Edited(front, capacity), c, capacity));
    }
  }

  lemma KeyShows(s: Screen, above: seq<string>, prompt: string, text: string, c: char, capacity: nat)
    requires Shows(s, above, prompt + text)
    ensures Shows(Display(s, KeyEcho(text, c, capacity)), above, prompt + Key(text, c, capacity))
  {
    hide Display, Shows;
    DisplayNone(s);
    if Erases(c) && text != "" {
      ShowsErased(s, above, prompt + text);
      assert (prompt + text)[..|prompt + text| - 1] == prompt + text[..|text| - 1];
    } else if Types(c) && |text| < capacity {
      ShowsTyped(s, above, prompt + text, c);
      assert prompt + text + [c] == prompt + (text + [c]);
    }
  }

  /**
   A return leaves the prompt and the text, followed by blanks at most, in the
   row above, and the cursor at the start of an empty row.
   */
  lemma LineShown(before: Screen, prompt: string, input: string, capacity: nat)
    requires Shows(before, before.above, prompt) && FirstLine(input, capacity).Line?
    ensures var echo := Echo(input[..KeysBefore(input)], capacity);
            var row := Display(before, echo).row;
            var text := prompt + FirstLine(input, capacity).text;
            && Display(before, echo + EndEcho(input)) == Screen(before.above + [row], "", 0)
            && |text| <= |row| && row[..|text|] == text && forall i :: |text| <= i < |row| ==> row[i] == ' '
  {
    hide Display, Echo, Edited, KeysBefore;
    var keys := input[..KeysBefore(input)];
    EchoShows(before, prompt, keys, capacity);
    DisplayAppend(before, Echo(keys, capacity), "\r\n");
    ShowsEnded(Display(before, Echo(keys, capacity)), before.above, prompt + Edited(keys, capacity));
  }

  /** CTRL-D shows as ^D behind the text. */
  lemma LogoutShown(before: Screen, prompt: string, input: string, capacity: nat)
    requires Shows(before, before.above, prompt)
    requires KeysBefore(input) < |input| && input[KeysBefore(input)] == 4 as char
    ensures var keys := input[..KeysBefore(input)];
            Shows(Display(before, Echo(keys, capacity) + EndEcho(input)), before.above,
                  prompt + Edited(keys, capacity) + "^D")
  {
    hide Display, Echo, Edited, KeysBefore, Shows;
    var keys := input[..KeysBefore(input)];
    var text := prompt + Edited(keys, capacity);
    var s := Display(before, Echo(keys, capacity));
    EchoShows(before, prompt, keys, capacity);
    DisplayAppend(before, Echo(keys, capacity), "^D");
    DisplayAppend(s, "^", "D");
    assert "^" + "D" == "^D" && text + "^" + "D" == text + "^D";
    ShowsTyped(s, before.above, text, '^');
    ShowsTyped(Display(s, "^"), before.above, text + "^", 'D');
  }

  lemma NoKeys(capacity: nat)
    ensures Edited("", capacity) == "" && Echo("", capacity) == ""
  {
  }

  lemma DisplayNone(s: Screen)
    ensures Display(s, "") == s
  {
  }

  lemma NextKey(input: string, done: nat, capacity: nat)
    requires done < |input|
    ensures var text := Edited(input[..done], capacity);
            && Edited(input[..done + 1], capacity) == Key(text, input[done], capacity)
            && Echo(input[..done + 1], capacity) == Echo(input[..done], capacity) + KeyEcho(text, input[done], capacity)
  {
    assert input[..done + 1][..done] == input[..done];
  }

  lemma Regroup(a: string, b: string, c: string)
    ensures a + (b + c) == a + b + c && b + "" == b
  {
  }

  lemma LineEnds(input: string, capacity: nat)
    ensures var n := KeysBefore(input);
            if n == |input| then FirstLine(input, capacity) == Logout && AfterLine(input) == "" && EndEcho(input) == ""
            else
              && AfterLine(input) == input[n + 1..]
              && (input[n] == CTRL_D ==> FirstLine(input, capacity) == Logout && EndEcho(input) == "^D")
              && (input[n] != CTRL_D ==>
                    FirstLine(input, capacity) == Line(Edited(input[..n], capacity)) && EndEcho(input) == "\r\n")
  {
    hide KeysBefore, Edited;
  }

  lemma KeysAt(input: string, done: nat)
    requires done <= KeysBefore(input)
    ensures done == |input| ==> KeysBefore(input) == |input|
    ensures done < |input| && Ends(input[done]) ==> KeysBefore(input) == done
    ensures done < |input| && !Ends(input[done]) ==> done < KeysBefore(input)
  {
    hide KeysBefore;
  }

  // ----- laws of the editor

  /** Only visible characters get into a line, so no terminator does. */
  lemma {:induction false} EditedTyped(keys: string, capacity: nat)
    ensures forall i :: 0 <= i < |Edited(keys, capacity)| ==> Types(Edited(keys, capacity)[i])
    decreases |keys|
  {
    if keys != "" {
      EditedTyped(keys[..|keys| - 1], capacity);
    }
  }

  /** Without erasing, the line is what was typed, cut off at the capacity. */
  lemma {:induction false} EditedPrefix(keys: string, capacity: nat)
    requires forall i :: 0 <= i < |keys| ==> Types(keys[i])
    ensures Edited(keys, capacity) == if |keys| <= capacity then keys else keys[..capacity]
    decreases |keys|
  {
    if keys != "" {
      EditedPrefix(keys[..|keys| - 1], capacity);
      assert keys == keys[..|keys| - 1] + [keys[|keys| - 1]];
    }
  }

  /** An erase takes back the character before it exactly when that character found room. */
  lemma ErasedExactly(keys: string, c: char, capacity: nat)
    requires Types(c)
    ensures Edited(keys + [c, BACKSPACE], capacity) == Edited(keys, capacity)
       <==> |Edited(keys, capacity)| < capacity || capacity == 0
  {
    hide Echo, KeyEcho, Edited, Key;
    var all := keys + [c, BACKSPACE];
    NextKey(all, |keys| + 1, capacity);
    NextKey(all, |keys|, capacity);
    assert all[..|keys|] == keys && all[..|all|] == all;
    KeyErased(Edited(keys, capacity), c, capacity);
  }

  lemma KeyErased(text: string, c: char, capacity: nat)
    requires Types(c) && |text| <= capacity
    ensures Key(Key(text, c, capacity), BACKSPACE, capacity) == text <==> |text| < capacity || capacity == 0
  {
    if |text| < capacity {
      assert (text + [c])[..|text|] == text;
    }
  }

  // ----- the keys by their codes

  /** Codes 8 and 127 erase, other codes below 32 do nothing, and all others are typed while there is room. */
  lemma KeyIs(text: string, c: char, capacity: nat)
    ensures var k := c as int;
            if k == 8 || k == 127 then Key(text, c, capacity) == if text == "" then "" else text[..|text| - 1]
            else if k < 32 || |text| >= capacity then Key(text, c, capacity) == text
            else Key(text, c, capacity) == text + [c]
  {
  }

  /** Neither a return (13) nor CTRL-D (4) is among the keys. */
  predicate NoEnd(keys: string) {
    forall i :: 0 <= i < |keys| ==> keys[i] as int != 13 && keys[i] as int != 4
  }

  /** The first return ends a line, if no CTRL-D comes before it; CTRL-D and the end of the input log out. */
  lemma LineIs(keys: string, rest: string, capacity: nat)
    requires NoEnd(keys)
    ensures FirstLine(keys + "\r" + rest, capacity) == Line(Edited(keys, capacity))
    ensures FirstLine(keys + [4 as char] + rest, capacity) == Logout
    ensures FirstLine(keys, capacity) == Logout
    ensures AfterLine(keys + "\r" + rest) == rest && AfterLine(keys + [4 as char] + rest) == rest
    ensures AfterLine(keys) == ""
  {
    hide KeysBefore, Edited;
    EndsAt(keys, '\r', rest);
    EndsAt(keys, 4 as char, rest);
    NeverEnds(keys);
  }

  lemma EndsAt(keys: string, c: char, rest: string)
    requires NoEnd(keys) && Ends(c)
    ensures var input := keys + [c] + rest;
            && KeysBefore(input) == |keys| && input[|keys|] == c
            && input[..|keys|] == keys && input[|keys| + 1..] == rest
  {
    hide KeysBefore;
    var input := keys + [c] + rest;
    assert input[|keys|] == c;
    assert forall i :: 0 <= i < |keys| ==> input[i] == keys[i];
  }

  lemma NeverEnds(keys: string)
    requires NoEnd(keys)
    ensures KeysBefore(keys) == |keys|
  {
    hide KeysBefore;
  }
}
