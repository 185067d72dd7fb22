/**
 The tokenizer of the shell (`_strtok` in `shell.c`): it cuts a line into
 words in place, by overwriting one delimiter after each word.
 */
module ShellTokens {
  import opened Numerals

  datatype Pointer = Null | At(index: nat)

  predicate Delimiter(c: char) {
    c == ' ' || c == '\t'
  }

  /** Blank and tabulator. */
  lemma DelimiterIs(c: char)
    ensures Delimiter(c) <==> c as int == 32 || c as int == 9
  {
  }

  // ----- the words of a line

  /** The characters from `start` up to `end`. */
  datatype Word = Word(start: nat, end: nat)

  /** A longest run of characters that are no delimiters. */
  ghost predicate MaximalRun(text: string, w: Word) {
    && w.start < w.end <= |text|
    && (forall i :: w.start <= i < w.end ==> !Delimiter(text[i]))
    && (w.start == 0 || Delimiter(text[w.start - 1]))
    && (w.end == |text| || Delimiter(text[w.end]))
  }

  /** The first index from `i` on that has no delimiter, or the length. */
  function SkipDelimiters(text: string, i: nat): (j: nat)
    requires i <= |text|
    ensures i <= j <= |text| && (j < |text| ==> !Delimiter(text[j]))
    ensures forall k :: i <= k < j ==> Delimiter(text[k])
    decreases |text| - i
  {
    if i < |text| && Delimiter(text[i]) then SkipDelimiters(text, i + 1) else i
  }

  /** The first index from `i` on that has a delimiter, or the length. */
  function SkipWord(text: string, i: nat): (j: nat)
    requires i <= |text|
    ensures i <= j <= |text| && (j < |text| ==> Delimiter(text[j]))
    ensures forall k :: i <= k < j ==> !Delimiter(text[k])
    decreases |text| - i
  {
    if i < |text| && !Delimiter(text[i]) then SkipWord(text, i + 1) else i
  }

  /** The words from an index on, in order. */
  function Words(text: string, i: nat): (ws: seq<Word>)
    requires i <= |text|
    decreases |text| - i
  {
    var a := SkipDelimiters(text, i);
    if a == |text| then [] else
      var b := SkipWord(text, a);
      [Word(a, b)] + if b == |text| then [] else Words(text, b + 1)
  }

  lemma WordsStep(text: string, i: nat)
    requires i <= |text|
    ensures var a := SkipDelimiters(text, i);
            var b := SkipWord(text, a);
            && (a == |text| ==> Words(text, i) == [] && b == |text|)
            && (a < |text| ==> a < b && Words(text, i) == [Word(a, b)] + if b == |text| then [] else Words(text, b + 1))
  {
    hide SkipDelimiters, SkipWord;
  }

  /** Exactly the longest runs that start at `i` or later. */
  ghost predicate AllRuns(text: string, i: nat, ws: seq<Word>) {
    forall w :: w in ws <==> MaximalRun(text, w) && w.start >= i
  }

  /** From left to right, apart from each other. */
  ghost predicate InOrder(i: nat, ws: seq<Word>) {
    && (forall k :: 0 <= k < |ws| ==> i <= ws[k].start < ws[k].end)
    && (forall k, l :: 0 <= k < l < |ws| ==> ws[k].end < ws[l].start)
  }

  /** The words are the longest runs of a line, all of them, from left to right. */
  lemma {:induction false} WordsAreRuns(text: string, i: nat)
    requires i <= |text| && (i == 0 || Delimiter(text[i - 1]))
    ensures AllRuns(text, i, Words(text, i))
    ensures InOrder(i, Words(text, i))
    decreases |text| - i
  {
    hide Words, SkipDelimiters, SkipWord, MaximalRun, AllRuns, InOrder;
    var a := SkipDelimiters(text, i);
    var b := SkipWord(text, a);
    WordsStep(text, i);
    if a == |text| {
      NoRuns(text, i);
    } else if b == |text| {
      NoRuns(text, b);
      MoreRuns(text, i, a, b, b, []);
    } else {
      WordsAreRuns(text, b + 1);
      MoreRuns(text, i, a, b, b + 1, Words(text, b + 1));
    }
  }

  lemma NoRuns(text: string, i: nat)
    requires forall k :: i <= k < |text| ==> Delimiter(text[k])
    ensures AllRuns(text, i, []) && InOrder(i, [])
  {
    forall w: Word | MaximalRun(text, w) ensures w.start < i {
      assert !Delimiter(text[w.start]);
    }
  }

  lemma MoreRuns(text: string, i: nat, a: nat, b: nat, next: nat, rest: seq<Word>)
    requires i <= a < b <= |text| && (i == 0 || Delimiter(text[i - 1]))
    requires forall k :: i <= k < a ==> Delimiter(text[k])
    requires forall k :: a <= k < b ==> !Delimiter(text[k])
    requires if b < |text| then Delimiter(text[b]) && next == b + 1 else next == b && rest == []
    requires AllRuns(text, next, rest) && InOrder(next, rest)
    ensures AllRuns(text, i, [Word(a, b)] + rest)
    ensures InOrder(i, [Word(a, b)] + rest)
  {
    var ws := [Word(a, b)] + rest;
    assert MaximalRun(text, Word(a, b));
    forall w ensures w in ws <==> MaximalRun(text, w) && w.start >= i {
      RunPlace(text, i, a, b, w);
      assert w in ws <==> w == Word(a, b) || w in rest;
    }
  }

  /** A longest run from `i` on is the first one or starts behind the delimiter that ends it. */
  lemma RunPlace(text: string, i: nat, a: nat, b: nat, w: Word)
    requires i <= a < b <= |text|
    requires forall k :: i <= k < a ==> Delimiter(text[k])
    requires forall k :: a <= k < b ==> !Delimiter(text[k])
    requires b < |text| ==> Delimiter(text[b])
    ensures MaximalRun(text, w) && w.start >= i && w != Word(a, b) ==> w.start > b && b < |text|
  {
    if MaximalRun(text, w) && w.start >= i && w != Word(a, b) {
      assert !Delimiter(text[w.start]);
      assert w.start == 0 || Delimiter(text[w.start - 1]);
      assert w.end == |text| || Delimiter(text[w.end]);
    }
  }

  // ----- the tokenizer

  /** `strspn` with the delimiters. */
  method Span(line: array<char>, from: nat, ghost text: string) returns (to: nat)
    requires Holds(line[..], text, from)
    ensures to == SkipDelimiters(text, from)
  {
    to := from;
    while line[to] == ' ' || line[to] == '\t'
      invariant from <= to <= |text| && SkipDelimiters(text, to) == SkipDelimiters(text, from)
      decreases |text| - to
    {
      assert line[..][to] == line[to];
      to := to + 1;
    }
    assert line[..][to] == line[to];
  }

  /** `strpbrk` with the delimiters. */
  method Break(line: array<char>, from: nat, ghost text: string) returns (p: Pointer)
    requires Holds(line[..], text, from)
    ensures p == if SkipWord(text, from) == |text| then Null else At(SkipWord(text, from))
  {
    var to := from;
    while line[to] != '\0'
      invariant from <= to <= |text| && SkipWord(text, to) == SkipWord(text, from)
      decreases |text| - to
    {
      assert line[..][to] == line[to];
      if line[to] == ' ' || line[to] == '\t' {
        return At(to);
      }
      to := to + 1;
    }
    assert line[..][to] == line[to];
    return Null;
  }

  /** From an index on, memory still holds the text and its terminator. */
  ghost predicate Holds(memory: string, text: string, from: nat) {
    && from <= |text| < |memory|
    && (forall i :: from <= i < |text| ==> memory[i] == text[i] && text[i] != '\0')
    && memory[|text|] == '\0'
  }

  /** The words still to come after a saved pointer. */
  ghost function Remaining(text: string, save: Pointer): seq<Word>
    requires save.At? ==> save.index <= |text|
  {
    if save.Null? then [] else Words(text, save.index)
  }

  ghost predicate Saved(memory: string, text: string, save: Pointer) {
    save.At? ==> Holds(memory, text, save.index)
  }

  /** `_strtok`; the string is passed as the saved pointer in the first call. */
  method Strtok(line: array<char>, str: Pointer, saveptr: Pointer, ghost text: string)
    returns (token: Pointer, save: Pointer)
    requires Saved(line[..], text, if str.At? then str else saveptr)
    modifies line
    ensures Saved(line[..], text, save)
    ensures var ws := Remaining(text, if str.At? then str else saveptr);
            if ws == [] then token == Null && save == Null && line[..] == old(line[..])
            else
              && token == At(ws[0].start) && Remaining(text, save) == ws[1..]
              && line[..] == Cut(old(line[..]), text, ws[0])
  {
    hide Words, SkipDelimiters, SkipWord;
    save := if str.At? then str else saveptr;
    if save.Null? {
      return Null, save;
    }
    var start := Span(line, save.index, text);
    ghost var from := save.index;
    assert Holds(line[..], text, start);
    save := Break(line, start, text);
    WordsStep(text, from);
    if save.At? {
      assert line[..][save.index] == text[save.index];
      line[save.index] := '\0';
      save := At(save.index + 1);
    }
    token := if line[start] != '\0' then At(start) else Null;
  }

  /** The memory after a word was cut off. */
  ghost function Cut(memory: string, text: string, w: Word): string
    requires |text| < |memory| && w.end <= |text|
  {
    if w.end == |text| then memory else memory[w.end := '\0']
  }
}
