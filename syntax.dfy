/**
 * The console's syntax matcher, `ldb_syntax_check`: a normalised command is
 * compared word by word against a table of command templates. A template
 * word `{hex}` or `{ascii}` accepts any word its validator accepts; any other
 * template word must be equal. The first template all of whose words are
 * matched by the command's leading words identifies the command.
 *
 * The template table and the two validators are parameters: the table
 * `ldb_commands` and `ldb_valid_hex`/`ldb_valid_ascii` are not part of this model.
 */
module Syntax {
  import opened Normalize

  /** Whether command word `cword` fulfils template word `kword`. */
  predicate Fulfils(cword: string, kword: string, isHex: string -> bool, isAscii: string -> bool) {
    if kword == "{hex}" then isHex(cword)
    else if kword == "{ascii}" then isAscii(cword)
    else kword == cword
  }

  /** How many leading words of the command fulfil the template, compared pairwise. */
  function Hits(cws: seq<string>, kws: seq<string>, isHex: string -> bool, isAscii: string -> bool): (h: nat)
    ensures h <= |cws| && h <= |kws|
  {
    if cws == [] || kws == [] || !Fulfils(cws[0], kws[0], isHex, isAscii) then 0
    else 1 + Hits(cws[1..], kws[1..], isHex, isAscii)
  }

  /** The words before the `Hits`-th all fulfil their template words, and the next pair, where both exist, does not. */
  lemma {:induction false} HitsFulfilled(cws: seq<string>, kws: seq<string>, isHex: string -> bool, isAscii: string -> bool)
    ensures forall k :: 0 <= k < Hits(cws, kws, isHex, isAscii) ==> Fulfils(cws[k], kws[k], isHex, isAscii)
    ensures var h := Hits(cws, kws, isHex, isAscii);
      h < |cws| && h < |kws| ==> !Fulfils(cws[h], kws[h], isHex, isAscii)
  {
    if cws != [] && kws != [] && Fulfils(cws[0], kws[0], isHex, isAscii) {
      var h := Hits(cws, kws, isHex, isAscii);
      HitsFulfilled(cws[1..], kws[1..], isHex, isAscii);
      forall k | 0 <= k < h ensures Fulfils(cws[k], kws[k], isHex, isAscii) {
        if k > 0 {
          assert cws[1..][k - 1] == cws[k] && kws[1..][k - 1] == kws[k];
        }
      }
      if h < |cws| && h < |kws| {
        assert cws[1..][h - 1] == cws[h] && kws[1..][h - 1] == kws[h];
      }
    }
  }

  /** A command matches a template when every one of the template's words is matched; extra command words are allowed. */
  predicate Recognises(command: string, template: string, isHex: string -> bool, isAscii: string -> bool) {
    Complete(Words(command), Words(template), isHex, isAscii)
  }

  /** Every one of the (at least one) template words `kws` is matched by the command words `cws`. */
  predicate Complete(cws: seq<string>, kws: seq<string>, isHex: string -> bool, isAscii: string -> bool) {
    |kws| > 0 && Hits(cws, kws, isHex, isAscii) == |kws|
  }

  /**
   * `ldb_syntax_check` (src/command.c:85-125). The out-parameters start at 0,
   * the values its caller gives them. On success they name the first
   * matching template and its word count; on failure they still hold the
   * last template that matched at least one word, and how many.
   */
  method SyntaxCheck(command: string, commands: seq<string>, isHex: string -> bool, isAscii: string -> bool)
    returns (ok: bool, commandNr: int, wordNr: int)
    ensures ok <==> exists i :: 0 <= i < |commands| && Recognises(command, commands[i], isHex, isAscii)
    ensures ok ==> 0 <= commandNr < |commands| && Recognises(command, commands[commandNr], isHex, isAscii)
    ensures ok ==> wordNr == |Words(commands[commandNr])|
    ensures ok ==> forall i :: 0 <= i < commandNr ==> !Recognises(command, commands[i], isHex, isAscii)
    ensures !ok && wordNr == 0 ==>
      commandNr == 0 && forall i :: 0 <= i < |commands| ==> Hits(Words(command), Words(commands[i]), isHex, isAscii) == 0
    ensures !ok && wordNr != 0 ==>
      && 0 <= commandNr < |commands|
      && wordNr == Hits(Words(command), Words(commands[commandNr]), isHex, isAscii)
      && forall i :: commandNr < i < |commands| ==> Hits(Words(command), Words(commands[i]), isHex, isAscii) == 0
  {
    commandNr, wordNr := 0, 0;
    var cws := Words(command);
    ghost var kwss := TemplateWords(commands);
    var i := 0;
    while i < |commands|
      invariant 0 <= i <= |commands|
      invariant forall k :: 0 <= k < i ==> !Complete(cws, kwss[k], isHex, isAscii)
      invariant (commandNr, wordNr) == Best(cws, kwss, i, isHex, isAscii)
    {
      var kws := Words(commands[i]);
      assert kws == kwss[i];
      var hits;
      hits, commandNr, wordNr := CompareWords(cws, kws, isHex, isAscii, i, commandNr, wordNr);
      if hits > 0 && hits == |kws| {
        Found(command, commands, cws, kwss, i, wordNr, isHex, isAscii);
        return true, commandNr, wordNr;
      }
      NoneCompleteStep(cws, kwss, i, hits, isHex, isAscii);
      i := i + 1;
    }
    ok := false;
    NotFound(command, commands, cws, kwss, commandNr, wordNr, isHex, isAscii);
  }

  /** A template whose words are not all matched extends the run of unrecognised templates. */
  lemma NoneCompleteStep(cws: seq<string>, kwss: seq<seq<string>>, i: nat, hits: nat, isHex: string -> bool, isAscii: string -> bool)
    requires i < |kwss|
    requires forall k :: 0 <= k < i ==> !Complete(cws, kwss[k], isHex, isAscii)
    requires hits == Hits(cws, kwss[i], isHex, isAscii) && !(hits > 0 && hits == |kwss[i]|)
    ensures forall k :: 0 <= k < i + 1 ==> !Complete(cws, kwss[k], isHex, isAscii)
  {
  }

  /** The postconditions of `SyntaxCheck` when template `i` is the first one recognised. */
  lemma Found(command: string, commands: seq<string>, cws: seq<string>, kwss: seq<seq<string>>, i: nat,
              wordNr: int, isHex: string -> bool, isAscii: string -> bool)
    requires cws == Words(command) && kwss == TemplateWords(commands) && i < |commands|
    requires forall k :: 0 <= k < i ==> !Complete(cws, kwss[k], isHex, isAscii)
    requires wordNr == Hits(cws, kwss[i], isHex, isAscii) && wordNr > 0 && wordNr == |kwss[i]|
    ensures exists j :: 0 <= j < |commands| && Recognises(command, commands[j], isHex, isAscii)
    ensures Recognises(command, commands[i], isHex, isAscii)
    ensures wordNr == |Words(commands[i])|
    ensures forall j :: 0 <= j < i ==> !Recognises(command, commands[j], isHex, isAscii)
  {
    RecognisedByWords(command, commands, cws, kwss, isHex, isAscii);
  }

  /** The postconditions of `SyntaxCheck` when no template is recognised. */
  lemma NotFound(command: string, commands: seq<string>, cws: seq<string>, kwss: seq<seq<string>>,
                 commandNr: int, wordNr: int, isHex: string -> bool, isAscii: string -> bool)
    requires cws == Words(command) && kwss == TemplateWords(commands)
    requires forall k :: 0 <= k < |commands| ==> !Complete(cws, kwss[k], isHex, isAscii)
    requires (commandNr, wordNr) == Best(cws, kwss, |commands|, isHex, isAscii)
    ensures !exists j :: 0 <= j < |commands| && Recognises(command, commands[j], isHex, isAscii)
    ensures wordNr == 0 ==>
      commandNr == 0 && forall j :: 0 <= j < |commands| ==> Hits(Words(command), Words(commands[j]), isHex, isAscii) == 0
    ensures wordNr != 0 ==>
      && 0 <= commandNr < |commands|
      && wordNr == Hits(Words(command), Words(commands[commandNr]), isHex, isAscii)
      && forall j :: commandNr < j < |commands| ==> Hits(Words(command), Words(commands[j]), isHex, isAscii) == 0
  {
    RecognisedByWords(command, commands, cws, kwss, isHex, isAscii);
    BestSpec(cws, kwss, |commands|, isHex, isAscii);
  }

  /** Recognition of each template, read off the word lists. */
  lemma RecognisedByWords(command: string, commands: seq<string>, cws: seq<string>, kwss: seq<seq<string>>,
                          isHex: string -> bool, isAscii: string -> bool)
    requires cws == Words(command) && kwss == TemplateWords(commands)
    ensures forall k :: 0 <= k < |commands| ==>
      (Recognises(command, commands[k], isHex, isAscii) <==> Complete(cws, kwss[k], isHex, isAscii))
  {
  }

  /** The words of every template. */
  ghost function TemplateWords(commands: seq<string>): (kwss: seq<seq<string>>)
    ensures |kwss| == |commands|
    ensures forall k :: 0 <= k < |commands| ==> kwss[k] == Words(commands[k])
  {
    seq(|commands|, k requires 0 <= k < |commands| => Words(commands[k]))
  }

  /**
   * The out-parameters of `ldb_syntax_check` after the first `n` templates,
   * none of which was recognised: the last template that matched at least
   * one word, and how many (0, 0 when there is none).
   */
  ghost function Best(cws: seq<string>, kwss: seq<seq<string>>, n: nat, isHex: string -> bool, isAscii: string -> bool): (int, int)
    requires n <= |kwss|
  {
    if n == 0 then (0, 0)
    else
      var h := Hits(cws, kwss[n - 1], isHex, isAscii);
      if h > 0 then (n - 1, h) else Best(cws, kwss, n - 1, isHex, isAscii)
  }

  /** What `Best` records: the last template with a partial match, or nothing when none matched a word. */
  lemma {:induction false} BestSpec(cws: seq<string>, kwss: seq<seq<string>>, n: nat, isHex: string -> bool, isAscii: string -> bool)
    requires n <= |kwss|
    ensures var (commandNr, wordNr) := Best(cws, kwss, n, isHex, isAscii);
      && (wordNr == 0 ==>
        commandNr == 0 && forall i :: 0 <= i < n ==> Hits(cws, kwss[i], isHex, isAscii) == 0)
      && (wordNr != 0 ==>
        && 0 <= commandNr < n
        && wordNr == Hits(cws, kwss[commandNr], isHex, isAscii)
        && forall i :: commandNr < i < n ==> Hits(cws, kwss[i], isHex, isAscii) == 0)
  {
    if n > 0 {
      BestSpec(cws, kwss, n - 1, isHex, isAscii);
    }
  }

  /**
   * The inner loop of `ldb_syntax_check` (src/command.c:99-119): compares the
   * command's words with template `i`'s, pair by pair, and records every new
   * best match of this template in the out-parameters.
   */
  method CompareWords(cws: seq<string>, kws: seq<string>, isHex: string -> bool, isAscii: string -> bool,
                      i: int, commandNr0: int, wordNr0: int)
    returns (hits: nat, commandNr: int, wordNr: int)
    ensures hits == Hits(cws, kws, isHex, isAscii)
    ensures hits > 0 ==> commandNr == i && wordNr == hits
    ensures hits == 0 ==> commandNr == commandNr0 && wordNr == wordNr0
  {
    commandNr, wordNr := commandNr0, wordNr0;
    var limit := if |cws| < |kws| then |cws| else |kws|;
    hits := 0;
    var j := 1;
    while j <= limit
      invariant 1 <= j <= limit + 1
      invariant hits == j - 1
      invariant forall k :: 0 <= k < hits ==> Fulfils(cws[k], kws[k], isHex, isAscii)
      invariant hits > 0 ==> commandNr == i && wordNr == hits
      invariant hits == 0 ==> commandNr == commandNr0 && wordNr == wordNr0
    {
      if !Fulfils(cws[j - 1], kws[j - 1], isHex, isAscii) {
        break;
      }
      hits := j;
      commandNr, wordNr := i, hits;
      j := j + 1;
    }
    HitsOfPrefix(cws, kws, isHex, isAscii, hits);
  }

  /** `Hits` is the length of the longest run of fulfilled pairs. */
  lemma {:induction false} HitsOfPrefix(cws: seq<string>, kws: seq<string>, isHex: string -> bool, isAscii: string -> bool, h: nat)
    requires h <= |cws| && h <= |kws|
    requires forall k :: 0 <= k < h ==> Fulfils(cws[k], kws[k], isHex, isAscii)
    requires h == |cws| || h == |kws| || !Fulfils(cws[h], kws[h], isHex, isAscii)
    ensures Hits(cws, kws, isHex, isAscii) == h
  {
    if h > 0 {
      HitsOfPrefix(cws[1..], kws[1..], isHex, isAscii, h - 1);
    }
  }

  /** A command that matches a template still matches it with more words after it. */
  lemma {:induction false} HitsWithTrailingWords(cws: seq<string>, extra: seq<string>, kws: seq<string>,
                                                 isHex: string -> bool, isAscii: string -> bool)
    requires Hits(cws, kws, isHex, isAscii) == |kws|
    ensures Hits(cws + extra, kws, isHex, isAscii) == |kws|
  {
    if kws != [] {
      assert (cws + extra)[1..] == cws[1..] + extra;
      HitsWithTrailingWords(cws[1..], extra, kws[1..], isHex, isAscii);
    }
  }

  /** Recognition depends only on the words: trailing words after a recognised command do not matter. */
  lemma RecognisedWithTrailingWords(cws: seq<string>, extra: seq<string>, template: string,
                                    isHex: string -> bool, isAscii: string -> bool)
    requires AllWords(cws) && AllWords(extra)
    requires Recognises(Join(cws), template, isHex, isAscii)
    ensures Recognises(Join(cws + extra), template, isHex, isAscii)
  {
    WordsOfJoin(cws);
    assert AllWords(cws + extra);
    WordsOfJoin(cws + extra);
    HitsWithTrailingWords(cws, extra, Words(template), isHex, isAscii);
  }

  /** A template without placeholders is matched by its own words. */
  lemma {:induction false} LiteralTemplateMatchesItself(kws: seq<string>, isHex: string -> bool, isAscii: string -> bool)
    requires forall j :: 0 <= j < |kws| ==> kws[j] != "{hex}" && kws[j] != "{ascii}"
    ensures Hits(kws, kws, isHex, isAscii) == |kws|
  {
    if kws != [] {
      LiteralTemplateMatchesItself(kws[1..], isHex, isAscii);
    }
  }

  /** A command with fewer words than a template never matches it. */
  lemma ShortCommandNotRecognised(command: string, template: string, isHex: string -> bool, isAscii: string -> bool)
    requires |Words(command)| < |Words(template)|
    ensures !Recognises(command, template, isHex, isAscii)
  {
  }
}
