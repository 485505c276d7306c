/**
 * The console's command normaliser, `ldb_command_normalize`: every run of
 * characters that are not printable collapses into one space, leading and
 * trailing separators disappear. Its meaning is stated through the words of
 * the input: the normalised command is its words joined by single spaces.
 */
module Normalize {
  import opened CText

  /** A word: a non-empty run of printable characters. */
  predicate IsWord(w: string) {
    |w| > 0 && forall i :: 0 <= i < |w| ==> Printable(w[i])
  }

  predicate AllWords(ws: seq<string>) {
    forall i :: 0 <= i < |ws| ==> IsWord(ws[i])
  }

  /** The maximal runs of printable characters of `t`, in order. */
  function Words(t: string): (ws: seq<string>)
    ensures t != [] && Printable(t[|t| - 1]) ==> ws != []
  {
    if t == [] then []
    else
      var c := t[|t| - 1];
      var ws := Words(t[..|t| - 1]);
      if !Printable(c) then ws
      else if |t| > 1 && Printable(t[|t| - 2]) then ws[..|ws| - 1] + [ws[|ws| - 1] + [c]]
      else ws + [[c]]
  }

  /** Every element of `Words(t)` is a word. */
  lemma {:induction false} WordsAreWords(t: string)
    ensures AllWords(Words(t))
  {
    if t != [] {
      WordsAreWords(t[..|t| - 1]);
    }
  }

  /** Words separated by single spaces. */
  function Join(ws: seq<string>): string {
    if ws == [] then []
    else if |ws| == 1 then ws[0]
    else Join(ws[..|ws| - 1]) + [' '] + ws[|ws| - 1]
  }

  /** The normalised form of a command line. */
  function Normalized(text: string): string {
    Join(Words(text))
  }

  /** What the normaliser promises: only printable characters and spaces, no space first or last, never two in a row. */
  predicate Canonical(s: string) {
    && (forall i :: 0 <= i < |s| ==> Printable(s[i]) || s[i] == ' ')
    && (|s| > 0 ==> s[0] != ' ' && s[|s| - 1] != ' ')
    && (forall i :: 0 <= i < |s| - 1 ==> s[i] == ' ' ==> s[i + 1] != ' ')
  }

  /** The printable characters of `t`, in order. */
  function Printables(t: string): string {
    if t == [] then []
    else Printables(t[..|t| - 1]) + (if Printable(t[|t| - 1]) then [t[|t| - 1]] else [])
  }

  /** Words run together. */
  function Concat(ws: seq<string>): string {
    if ws == [] then [] else Concat(ws[..|ws| - 1]) + ws[|ws| - 1]
  }

  /** `ldb_extract_word(n, command)` on a normalised command: its n-th word (from 1), "" past the last. */
  function ExtractWord(n: int, command: string): (w: string)
    ensures w == [] || IsWord(w)
    ensures w == [] <==> !(1 <= n <= |Words(command)|)
  {
    var ws := Words(command);
    WordsAreWords(command);
    if 1 <= n <= |ws| then ws[n - 1] else []
  }

  /** The n-th word of words joined by single spaces is the n-th of those words. */
  lemma ExtractJoined(n: int, ws: seq<string>)
    requires AllWords(ws) && 1 <= n <= |ws|
    ensures ExtractWord(n, Join(ws)) == ws[n - 1]
  {
    WordsOfJoin(ws);
  }

  // ---------------------------------------------------------------------
  // The normaliser itself
  // ---------------------------------------------------------------------

  /** The space the normaliser has written after the last word, pending a next word or the final trim. */
  function Gap(t: string): string {
    if Words(t) != [] && t != [] && !Printable(t[|t| - 1]) then [' '] else []
  }

  /** The contents of the output buffer once the prefix `t` has been read. */
  function Pending(t: string): string {
    Join(Words(t)) + Gap(t)
  }

  /** One character through the normaliser's loop body: kept if printable, else at most one space after a word. */
  function Step(buf: string, c: char): string {
    if Printable(c) then buf + [c]
    else if |buf| > 0 && buf[|buf| - 1] != ' ' then buf + [' ']
    else buf
  }

  /** The buffer after the first `i` characters went through the loop. */
  function Buffer(text: string, i: nat): string
    requires i <= |text|
  {
    if i == 0 then [] else Step(Buffer(text, i - 1), text[i - 1])
  }

  /** `ldb_command_normalize` (src/command.c:52-74). */
  method NormalizeCommand(text: string) returns (r: string)
    ensures r == Normalized(text)
    ensures Canonical(r)
  {
    var tmp, tmpln := CollapseBlanks(text);
    ghost var full := tmp[..tmpln];
    // right trim
    if tmpln > 0 && tmp[tmpln - 1] == ' ' {
      tmpln := tmpln - 1;
    }
    r := tmp[..tmpln];
    TrimmedBuffer(text, full, r);
  }

  /**
   * The loop of `ldb_command_normalize` (src/command.c:58-68): fills a fresh
   * buffer of `strlen + 1` characters with the printable characters, a space
   * standing for each run of blanks after a word.
   */
  method CollapseBlanks(text: string) returns (tmp: array<char>, tmpln: nat)
    ensures tmp.Length == |text| + 1 && tmpln <= |text|
    ensures tmp[..tmpln] == Buffer(text, |text|)
  {
    tmp := new char[|text| + 1];
    tmpln := 0;
    var i := 0;
    while i < |text|
      invariant 0 <= i <= |text|
      invariant tmpln <= i
      invariant tmp[..tmpln] == Buffer(text, i)
    {
      ghost var before := tmp[..tmpln];
      var c := text[i];
      if Printable(c) {
        tmp[tmpln] := c;
        tmpln := tmpln + 1;
        assert tmp[..tmpln] == before + [c];
      } else if tmpln > 0 && tmp[tmpln - 1] != ' ' {
        tmp[tmpln] := ' ';
        tmpln := tmpln + 1;
        assert tmp[..tmpln] == before + [' '];
      }
      i := i + 1;
    }
  }

  /** Trimming the space the loop may leave at the end gives the normalised command. */
  lemma TrimmedBuffer(text: string, full: string, r: string)
    requires full == Buffer(text, |text|)
    requires r == if |full| > 0 && full[|full| - 1] == ' ' then full[..|full| - 1] else full
    ensures r == Normalized(text) && Canonical(r)
  {
    BufferIsPending(text, |text|);
    assert text[..|text|] == text;
    PendingTrim(text);
    NormalizedCanonical(text);
  }

  /** The loop's buffer is the words read so far, joined, plus the space pending after the last one. */
  lemma {:induction false} BufferIsPending(text: string, i: nat)
    requires i <= |text|
    ensures Buffer(text, i) == Pending(text[..i])
  {
    if i == 0 {
      assert text[..0] == [];
    } else {
      BufferIsPending(text, i - 1);
      PendingOfLonger(text[..i - 1], text[i - 1], text[..i], Buffer(text, i - 1));
    }
  }

  lemma PendingOfLonger(t: string, c: char, longer: string, buf: string)
    requires longer == t + [c] && buf == Pending(t)
    ensures Step(buf, c) == Pending(longer)
  {
    PendingStep(t, c);
  }

  // ---------------------------------------------------------------------
  // Facts about Join and Words
  // ---------------------------------------------------------------------

  lemma {:induction false} JoinEndsPrintable(ws: seq<string>)
    requires AllWords(ws) && ws != []
    ensures |Join(ws)| > 0 && Printable(Join(ws)[|Join(ws)| - 1])
  {
    if |ws| > 1 {
      JoinEndsPrintable(ws[..|ws| - 1]);
    }
  }

  lemma JoinSnoc(ws: seq<string>, w: string)
    ensures Join(ws + [w]) == if ws == [] then w else Join(ws) + [' '] + w
  {
    assert (ws + [w])[..|ws|] == ws;
  }

  lemma {:induction false} JoinExtendLast(ws: seq<string>, c: char)
    requires ws != []
    ensures Join(ws[..|ws| - 1] + [ws[|ws| - 1] + [c]]) == Join(ws) + [c]
  {
    JoinSnoc(ws[..|ws| - 1], ws[|ws| - 1] + [c]);
    if |ws| > 1 {
      assert ws == ws[..|ws| - 1] + [ws[|ws| - 1]];
      JoinSnoc(ws[..|ws| - 1], ws[|ws| - 1]);
    }
  }

  /** One more character read: the recursive case of `Words`, restated on `t + [c]`. */
  lemma WordsSnoc(t: string, c: char)
    ensures Words(t + [c]) ==
      if !Printable(c) then Words(t)
      else if |t| > 0 && Printable(t[|t| - 1]) then Words(t)[..|Words(t)| - 1] + [Words(t)[|Words(t)| - 1] + [c]]
      else Words(t) + [[c]]
  {
    assert (t + [c])[..|t|] == t;
  }

  lemma PendingStepPrintable(t: string, c: char)
    requires Printable(c)
    ensures Pending(t + [c]) == Pending(t) + [c]
  {
    WordsSnoc(t, c);
    var ws := Words(t);
    if |t| > 0 && Printable(t[|t| - 1]) {
      JoinExtendLast(ws, c);
    } else {
      JoinSnoc(ws, [c]);
    }
  }

  lemma PendingStepBlank(t: string, c: char)
    requires !Printable(c)
    ensures Pending(t + [c]) ==
      if |Pending(t)| > 0 && Pending(t)[|Pending(t)| - 1] != ' ' then Pending(t) + [' '] else Pending(t)
  {
    WordsSnoc(t, c);
    if Words(t) != [] {
      WordsAreWords(t);
      JoinEndsPrintable(Words(t));
    }
  }

  /** How the output buffer grows with one more input character: the loop body of the normaliser. */
  lemma PendingStep(t: string, c: char)
    ensures Pending(t + [c]) == Step(Pending(t), c)
  {
    if Printable(c) {
      PendingStepPrintable(t, c);
    } else {
      PendingStepBlank(t, c);
    }
  }

  /** The right trim turns the final buffer into the normalised command. */
  lemma PendingTrim(t: string)
    ensures Normalized(t) ==
      if |Pending(t)| > 0 && Pending(t)[|Pending(t)| - 1] == ' ' then Pending(t)[..|Pending(t)| - 1]
      else Pending(t)
  {
    if Words(t) != [] {
      WordsAreWords(t);
      JoinEndsPrintable(Words(t));
    }
  }

  // ---------------------------------------------------------------------
  // Properties of the normalised command
  // ---------------------------------------------------------------------

  lemma {:induction false} JoinCanonical(ws: seq<string>)
    requires AllWords(ws)
    ensures Canonical(Join(ws))
  {
    if |ws| > 1 {
      var a := Join(ws[..|ws| - 1]);
      var w := ws[|ws| - 1];
      JoinCanonical(ws[..|ws| - 1]);
      JoinEndsPrintable(ws[..|ws| - 1]);
      var s := a + [' '] + w;
      forall i | 0 <= i < |s| - 1 && s[i] == ' '
        ensures s[i + 1] != ' '
      {
        if i < |a| - 1 {
          assert s[i] == a[i] && s[i + 1] == a[i + 1];
        } else if i == |a| {
          assert s[i + 1] == w[0];
        }
      }
    }
  }

  /** The normalised command has no leading or trailing space, no double space and nothing but printable characters and spaces. */
  lemma NormalizedCanonical(text: string)
    ensures Canonical(Normalized(text))
  {
    WordsAreWords(text);
    JoinCanonical(Words(text));
  }

  lemma {:induction false} PrintablesAppend(a: string, b: string)
    ensures Printables(a + b) == Printables(a) + Printables(b)
  {
    if b != [] {
      var init, c := b[..|b| - 1], b[|b| - 1];
      var tail := if Printable(c) then [c] else [];
      assert (a + b)[..|a + b| - 1] == a + init;
      assert (a + b)[|a + b| - 1] == c;
      assert Printables(a + b) == Printables(a + init) + tail;
      PrintablesAppend(a, init);
      assert Printables(b) == Printables(init) + tail;
    } else {
      assert a + b == a;
    }
  }

  lemma {:induction false} PrintablesOfWord(w: string)
    requires forall i :: 0 <= i < |w| ==> Printable(w[i])
    ensures Printables(w) == w
  {
    if w != [] {
      PrintablesOfWord(w[..|w| - 1]);
    }
  }

  lemma {:induction false} PrintablesOfJoin(ws: seq<string>)
    requires AllWords(ws)
    ensures Printables(Join(ws)) == Concat(ws)
  {
    if |ws| == 1 {
      PrintablesOfWord(ws[0]);
      assert Concat(ws) == Concat([]) + ws[0];
    } else if |ws| > 1 {
      var init := ws[..|ws| - 1];
      PrintablesOfJoin(init);
      PrintablesAppend(Join(init) + [' '], ws[|ws| - 1]);
      PrintablesAppend(Join(init), [' ']);
      assert Printables([' ']) == [];
      PrintablesOfWord(ws[|ws| - 1]);
    }
  }

  lemma ConcatSnoc(ws: seq<string>, w: string)
    ensures Concat(ws + [w]) == Concat(ws) + w
  {
    assert (ws + [w])[..|ws|] == ws;
  }

  lemma {:induction false} ConcatWords(t: string)
    ensures Concat(Words(t)) == Printables(t)
  {
    if t != [] {
      var c := t[|t| - 1];
      var init := t[..|t| - 1];
      assert t == init + [c];
      ConcatWords(init);
      WordsSnoc(init, c);
      var ws := Words(init);
      if Printable(c) {
        if |init| > 0 && Printable(init[|init| - 1]) {
          ConcatExtendLast(ws, c);
        } else {
          ConcatSnoc(ws, [c]);
        }
      }
    }
  }

  lemma ConcatExtendLast(ws: seq<string>, c: char)
    requires ws != []
    ensures Concat(ws[..|ws| - 1] + [ws[|ws| - 1] + [c]]) == Concat(ws) + [c]
  {
    var init, last := ws[..|ws| - 1], ws[|ws| - 1];
    ConcatSnoc(init, last + [c]);
    assert Concat(ws) == Concat(init) + last;
  }

  /** Every printable character of the input survives, in order, and no other one appears. */
  lemma NormalizedKeepsPrintables(text: string)
    ensures Printables(Normalized(text)) == Printables(text)
  {
    WordsAreWords(text);
    PrintablesOfJoin(Words(text));
    ConcatWords(text);
  }

  lemma WordsAfterBlank(t: string, c: char)
    requires !Printable(c)
    ensures Words(t + [c]) == Words(t)
  {
    assert (t + [c])[..|t|] == t;
  }

  lemma WordsSnocStart(t: string, c: char)
    requires Printable(c) && (t == [] || !Printable(t[|t| - 1]))
    ensures Words(t + [c]) == Words(t) + [[c]]
  {
    WordsSnoc(t, c);
  }

  lemma WordsSnocExtend(t: string, c: char)
    requires Printable(c) && t != [] && Printable(t[|t| - 1])
    ensures Words(t) != []
    ensures Words(t + [c]) == Words(t)[..|Words(t)| - 1] + [Words(t)[|Words(t)| - 1] + [c]]
  {
    WordsSnoc(t, c);
  }

  /** A word read after a separator (or at the start) becomes one more word. */
  lemma {:induction false} WordsAfterBreak(t: string, w: string)
    requires t == [] || !Printable(t[|t| - 1])
    requires IsWord(w)
    ensures Words(t + w) == Words(t) + [w]
  {
    var init := w[..|w| - 1];
    var c := w[|w| - 1];
    assert t + w == (t + init) + [c];
    assert w == init + [c];
    if |w| > 1 {
      WordsAfterBreak(t, init);
      var ws := Words(t + init);
      assert ws == Words(t) + [init];
      assert (t + init)[|t + init| - 1] == init[|init| - 1];
      WordsSnocExtend(t + init, c);
      assert ws[..|ws| - 1] == Words(t);
    } else {
      assert t + init == t;
      WordsSnocStart(t, c);
    }
  }

  /** Splitting joined words gives the words back. */
  lemma {:induction false} WordsOfJoin(ws: seq<string>)
    requires AllWords(ws)
    ensures Words(Join(ws)) == ws
  {
    if |ws| == 1 {
      WordsAfterBreak([], ws[0]);
      assert [] + ws[0] == ws[0];
      assert ws == [] + [ws[0]];
    } else if |ws| > 1 {
      var init, last := ws[..|ws| - 1], ws[|ws| - 1];
      assert AllWords(init);
      WordsOfJoin(init);
      WordsOfJoinSnoc(init, last);
      assert ws == init + [last];
    }
  }

  lemma WordsOfJoinSnoc(init: seq<string>, last: string)
    requires init != [] && Words(Join(init)) == init && IsWord(last)
    ensures Words(Join(init + [last])) == init + [last]
  {
    WordsAfterBlank(Join(init), ' ');
    var t := Join(init) + [' '];
    assert t[|t| - 1] == ' ';
    WordsAfterBreak(t, last);
    JoinSnoc(init, last);
    assert Join(init + [last]) == t + last;
  }

  /** Normalising twice is normalising once. */
  lemma NormalizeIdempotent(text: string)
    ensures Normalized(Normalized(text)) == Normalized(text)
  {
    WordsAreWords(text);
    WordsOfJoin(Words(text));
  }

  /** A prefix without leading or double spaces, made of printable characters and spaces, is its own pending buffer. */
  lemma {:induction false} PendingOfCanonicalPrefix(t: string)
    requires forall i :: 0 <= i < |t| ==> Printable(t[i]) || t[i] == ' '
    requires |t| > 0 ==> t[0] != ' '
    requires forall i :: 0 <= i < |t| - 1 ==> t[i] == ' ' ==> t[i + 1] != ' '
    ensures Pending(t) == t
  {
    if t != [] {
      var init := t[..|t| - 1];
      PendingOfCanonicalPrefix(init);
      PendingStep(init, t[|t| - 1]);
      assert init + [t[|t| - 1]] == t;
      if |init| > 0 && !Printable(t[|t| - 1]) {
        assert init[|init| - 1] != ' ';
      }
    }
  }

  /** The canonical commands are exactly the fixed points of the normaliser. */
  lemma NormalizedFixedPoint(s: string)
    ensures Normalized(s) == s <==> Canonical(s)
  {
    if Canonical(s) {
      PendingOfCanonicalPrefix(s);
      PendingTrim(s);
    } else {
      NormalizedCanonical(s);
    }
  }
}
