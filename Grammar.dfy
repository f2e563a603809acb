/** The grammar stage (PuzzleCreator/Grammar.cs): the rule that turns the
    parser's verdict on each recorded sentence into an answer with its end
    mark, and the older heuristic that looks for a subject phrase and a
    verb phrase in a sequence of part-of-speech tags. */
module Grammar {
  import opened Wrappers
  import opened Text

  // ---------------------------------------------------------------------
  // Acceptance rule of CheckGrammer

  /** What the parser reports about one sentence: the bracketed parse tree
      and the typed dependencies, both as the text the library prints. */
  datatype Parse = Parse(tree: string, relations: string)

  /** The end mark a parse tree calls for: '.' when it holds a simple
      declarative clause, which takes precedence, '?' when it holds an
      inverted clause, a direct question or a yes/no question, none
      otherwise. */
  function EndMark(tree: string): Option<char>
  {
    if Contains(tree, "(S ") then Some('.')
    else if Contains(tree, "(SINV ") || Contains(tree, "(SBARQ ") || Contains(tree, "(SQ ") then Some('?')
    else None
  }

  /** A sentence is an answer when its tree calls for an end mark and its
      dependencies name a nominal subject. */
  predicate Admitted(p: Parse)
  {
    EndMark(p.tree).Some? && Contains(p.relations, "nsubj(")
  }

  /** The answers the rule yields for a set of sentences: each admitted
      sentence with its end mark appended. */
  function Answers(sentences: set<string>, parser: string -> Parse): set<string>
  {
    set s | s in sentences && Admitted(parser(s)) :: s + [EndMark(parser(s).tree).value]
  }

  /** Checks every sentence with the parser and returns the admitted ones
      with their end marks; an empty set of sentences yields no result at
      all (the source returns null). The parser is a parameter: the model
      knows only what it reports. */
  method CheckGrammer(sentences: set<string>, parser: string -> Parse) returns (answers: Option<set<string>>)
    ensures answers.None? <==> sentences == {}
    ensures answers.Some? ==> answers.value == Answers(sentences, parser)
  {
    if |sentences| == 0 {
      return None;
    }
    var result: set<string> := {};
    var rest := sentences;
    while rest != {}
      invariant rest <= sentences
      invariant result == Answers(sentences - rest, parser)
      decreases rest
    {
      var curSentence :| curSentence in rest;
      var tempSentence := curSentence;
      var strTree := parser(curSentence).tree;
      var isSentence := false;
      if Contains(strTree, "(S ") {
        tempSentence := curSentence + ".";
        isSentence := true;
      } else if Contains(strTree, "(SINV ") || Contains(strTree, "(SBARQ ") || Contains(strTree, "(SQ ") {
        tempSentence := curSentence + "?";
        isSentence := true;
      }
      ghost var done := sentences - rest;
      AnswersAdd(done, curSentence, parser);
      if isSentence {
        var strRel := parser(curSentence).relations;
        if Contains(strRel, "nsubj(") {
          result := result + {tempSentence};
        }
      }
      rest := rest - {curSentence};
      assert sentences - rest == done + {curSentence};
    }
    return Some(result);
  }

  /** One more sentence adds its answer, if it is admitted, and nothing
      else. */
  lemma AnswersAdd(done: set<string>, s: string, parser: string -> Parse)
    ensures Answers(done + {s}, parser) ==
      Answers(done, parser) + (if Admitted(parser(s)) then {s + [EndMark(parser(s).tree).value]} else {})
  {
    var L := Answers(done + {s}, parser);
    var R := Answers(done, parser) + (if Admitted(parser(s)) then {s + [EndMark(parser(s).tree).value]} else {});
    forall a | a in L ensures a in R {
      var t :| t in done + {s} && Admitted(parser(t)) && a == t + [EndMark(parser(t).tree).value];
      if t != s {
        assert t in done;
      }
    }
    forall a | a in R ensures a in L {
      if a in Answers(done, parser) {
        var t :| t in done && Admitted(parser(t)) && a == t + [EndMark(parser(t).tree).value];
        assert t in done + {s};
      } else {
        assert s in done + {s};
      }
    }
  }

  /** An answer is a sentence of the set with one character appended: '.'
      exactly when the sentence's tree holds a declarative clause, '?'
      exactly when it holds none but an inverted clause or a question; and
      its dependencies name a nominal subject. Every such string is an
      answer. */
  lemma AnswersSpec(sentences: set<string>, parser: string -> Parse, a: string)
    ensures a in Answers(sentences, parser) <==>
      && |a| >= 1
      && a[..|a| - 1] in sentences
      && Contains(parser(a[..|a| - 1]).relations, "nsubj(")
      && var tree := parser(a[..|a| - 1]).tree;
         || (a[|a| - 1] == '.' && Contains(tree, "(S "))
         || (a[|a| - 1] == '?' && !Contains(tree, "(S ")
             && (Contains(tree, "(SINV ") || Contains(tree, "(SBARQ ") || Contains(tree, "(SQ ")))
  {
    if a in Answers(sentences, parser) {
      var s :| s in sentences && Admitted(parser(s)) && a == s + [EndMark(parser(s).tree).value];
      assert a[..|a| - 1] == s;
    } else if |a| >= 1 {
      assert a == a[..|a| - 1] + [a[|a| - 1]];
    }
  }

  /** There are never more answers than sentences. */
  lemma {:induction false} AnswersBound(sentences: set<string>, parser: string -> Parse)
    ensures |Answers(sentences, parser)| <= |sentences|
    decreases sentences
  {
    if sentences != {} {
      var s :| s in sentences;
      var rest := sentences - {s};
      AnswersBound(rest, parser);
      AnswersAdd(rest, s, parser);
      assert rest + {s} == sentences;
    }
  }

  // ---------------------------------------------------------------------
  // Part-of-speech heuristic (compiled only with OLD_GRAMMAR)

  /** Whether a word's tags and the wanted tags share one: both are lists
      of tags separated by spaces. */
  predicate Matches(input: string, desired: string)
  {
    exists w :: w in Split(input) && w in Split(desired)
  }

  /** Walks the word's tags and notes whether any is among the wanted
      tags. */
  method HasMatch(input: string, desired: string) returns (isEqual: bool)
    ensures isEqual == Matches(input, desired)
  {
    var words := Split(input);
    var pos := Split(desired);
    isEqual := false;
    for k := 0 to |words|
      invariant isEqual <==> exists j :: 0 <= j < k && words[j] in pos
    {
      if words[k] in pos {
        isEqual := true;
      }
    }
  }

  /** Tags of the heuristic: nouns and pronouns head a subject phrase,
      adjectives, articles, numbers and determiners modify it; verbs head a
      verb phrase and adverbs and auxiliaries modify it; "c" marks a
      conjunction. */
  const SubjectHead := "n p"
  const SubjectMod := "j a m d"
  const VerbHead := "v"
  const VerbMod := "r h"
  const Conjunction := "c"

  /** The index of the last word of the phrase with head tags b and
      modifier tags mod that starts at word i, or -1 when none does. The
      patterns are tried from one word to five, each only when it fits in
      the sequence, and a later match overrides an earlier one. */
  function PartOfSentence(ps: seq<string>, b: string, mod: string, i: nat): (r: int)
    requires i < |ps|
    ensures r == -1 || (i <= r <= i + 4 && r <= |ps| - 1)
    ensures i == |ps| - 1 ==> (r == i <==> Matches(ps[i], b)) && (r == i || r == -1)
  {
    var lastIndex := |ps| - 1;
    var firstIsBase := Matches(ps[i], b);
    var ret1 := if firstIsBase then i else -1;
    if i + 1 > lastIndex then ret1
    else
      var firstIsMod := Matches(ps[i], mod);
      var secIsBase := Matches(ps[i + 1], b);
      var ret2 := if firstIsMod && secIsBase then i + 1 else ret1;
      if i + 2 > lastIndex then ret2
      else
        var secIsC := Matches(ps[i + 1], Conjunction);
        var thirdIsBase := Matches(ps[i + 2], b);
        var ret3 := if firstIsBase && secIsC && thirdIsBase then i + 2 else ret2;
        if i + 3 > lastIndex then ret3
        else
          var thirdIsMod := Matches(ps[i + 2], mod);
          var fourthIsBase := Matches(ps[i + 3], b);
          var thirdIsC := Matches(ps[i + 2], Conjunction);
          var ret4 :=
            if firstIsBase && secIsC && thirdIsMod && fourthIsBase then i + 3
            else if firstIsMod && secIsBase && thirdIsC && fourthIsBase then i + 3
            else ret3;
          if i + 4 > lastIndex then ret4
          else
            var fourthIsMod := Matches(ps[i + 3], mod);
            var fifthIsBase := Matches(ps[i + 4], b);
            if firstIsMod && secIsBase && thirdIsC && fourthIsMod && fifthIsBase then i + 4 else ret4
  }

  /** The phrase patterns of n words starting at word i, for a head tag
      list b and a modifier tag list mod:
        1: b    2: mod b    3: b c b    4: b c mod b, or mod b c b
        5: mod b c mod b */
  predicate PatternAt(ps: seq<string>, b: string, mod: string, i: nat, n: nat)
    requires 1 <= n <= 5 && i + n <= |ps|
  {
    if n == 1 then Matches(ps[i], b)
    else if n == 2 then Matches(ps[i], mod) && Matches(ps[i + 1], b)
    else if n == 3 then Matches(ps[i], b) && Matches(ps[i + 1], Conjunction) && Matches(ps[i + 2], b)
    else if n == 4 then
      || (Matches(ps[i], b) && Matches(ps[i + 1], Conjunction) && Matches(ps[i + 2], mod) && Matches(ps[i + 3], b))
      || (Matches(ps[i], mod) && Matches(ps[i + 1], b) && Matches(ps[i + 2], Conjunction) && Matches(ps[i + 3], b))
    else
      Matches(ps[i], mod) && Matches(ps[i + 1], b) && Matches(ps[i + 2], Conjunction)
      && Matches(ps[i + 3], mod) && Matches(ps[i + 4], b)
  }

  /** The phrase starting at word i ends at word j: the pattern of
      j - i + 1 words matches there, and no longer pattern that fits in
      the sequence does. */
  ghost predicate LongestPhrase(ps: seq<string>, b: string, mod: string, i: nat, j: int)
  {
    && i <= j < |ps| && j - i < 5
    && PatternAt(ps, b, mod, i, j - i + 1)
    && forall n :: j - i + 1 < n <= 5 && i + n <= |ps| ==> !PatternAt(ps, b, mod, i, n)
  }

  /** No pattern that fits in the sequence matches at word i. */
  ghost predicate NoPhrase(ps: seq<string>, b: string, mod: string, i: nat)
  {
    forall n :: 1 <= n <= 5 && i + n <= |ps| ==> !PatternAt(ps, b, mod, i, n)
  }

  /** The analyser finds the longest phrase: it returns j exactly when the
      longest matching pattern at i ends at j, and -1 exactly when no
      pattern matches. */
  lemma PartOfSentenceLongest(ps: seq<string>, b: string, mod: string, i: nat)
    requires i < |ps|
    ensures PartOfSentence(ps, b, mod, i) == -1 <==> NoPhrase(ps, b, mod, i)
    ensures PartOfSentence(ps, b, mod, i) >= 0 ==> LongestPhrase(ps, b, mod, i, PartOfSentence(ps, b, mod, i))
    ensures forall j :: 0 <= j ==> (PartOfSentence(ps, b, mod, i) == j <==> LongestPhrase(ps, b, mod, i, j))
  {
    var r := PartOfSentence(ps, b, mod, i);
    if r == -1 {
      assert NoPhrase(ps, b, mod, i) by {
        forall n | 1 <= n <= 5 && i + n <= |ps|
          ensures !PatternAt(ps, b, mod, i, n)
        {
        }
      }
    } else {
      assert LongestPhrase(ps, b, mod, i, r) by {
        forall n | r - i + 1 < n <= 5 && i + n <= |ps|
          ensures !PatternAt(ps, b, mod, i, n)
        {
        }
      }
      assert !NoPhrase(ps, b, mod, i) by {
        assert PatternAt(ps, b, mod, i, r - i + 1);
      }
      forall j | LongestPhrase(ps, b, mod, i, j)
        ensures j == r
      {
        LongestUnique(ps, b, mod, i, j, r);
      }
    }
  }

  /** At most one phrase is the longest. */
  lemma LongestUnique(ps: seq<string>, b: string, mod: string, i: nat, j: int, k: int)
    requires LongestPhrase(ps, b, mod, i, j) && LongestPhrase(ps, b, mod, i, k)
    ensures j == k
  {
  }

  /** The test GrammarCheck makes twice, with the roles swapped: the phrase
      of the first kind that starts at the first word is followed directly
      by a phrase of the second kind that ends at the last word. */
  function Follows(ps: seq<string>, b1: string, mod1: string, b2: string, mod2: string): bool
    requires |ps| >= 1
  {
    var len := |ps|;
    var endIndex := PartOfSentence(ps, b1, mod1, 0);
    endIndex > -1 && endIndex + 1 <= len - 1
    && PartOfSentence(ps, b2, mod2, endIndex + 1) == len - 1
  }

  /** Two longest phrases, the first starting at the first word and the
      second ending at the last word, with nothing in between. */
  ghost predicate PhrasePair(ps: seq<string>, b1: string, mod1: string, b2: string, mod2: string)
  {
    exists e :: LongestPhrase(ps, b1, mod1, 0, e)
      && e + 1 < |ps| && LongestPhrase(ps, b2, mod2, e + 1, |ps| - 1)
  }

  /** The test holds exactly when the sequence is such a pair of phrases. */
  lemma FollowsSpec(ps: seq<string>, b1: string, mod1: string, b2: string, mod2: string)
    requires |ps| >= 1
    ensures Follows(ps, b1, mod1, b2, mod2) <==> PhrasePair(ps, b1, mod1, b2, mod2)
  {
    if Follows(ps, b1, mod1, b2, mod2) {
      FollowsPair(ps, b1, mod1, b2, mod2);
    }
    if PhrasePair(ps, b1, mod1, b2, mod2) {
      PairFollows(ps, b1, mod1, b2, mod2);
    }
  }

  lemma FollowsPair(ps: seq<string>, b1: string, mod1: string, b2: string, mod2: string)
    requires |ps| >= 1 && Follows(ps, b1, mod1, b2, mod2)
    ensures PhrasePair(ps, b1, mod1, b2, mod2)
  {
    var e := PartOfSentence(ps, b1, mod1, 0);
    assert e > -1 && e + 1 <= |ps| - 1 && PartOfSentence(ps, b2, mod2, e + 1) == |ps| - 1;
    assert LongestPhrase(ps, b1, mod1, 0, e) by {
      PartOfSentenceLongest(ps, b1, mod1, 0);
    }
    assert LongestPhrase(ps, b2, mod2, e + 1, |ps| - 1) by {
      PartOfSentenceLongest(ps, b2, mod2, e + 1);
    }
  }

  lemma PairFollows(ps: seq<string>, b1: string, mod1: string, b2: string, mod2: string)
    requires |ps| >= 1 && PhrasePair(ps, b1, mod1, b2, mod2)
    ensures Follows(ps, b1, mod1, b2, mod2)
  {
    var e :| LongestPhrase(ps, b1, mod1, 0, e)
      && e + 1 < |ps| && LongestPhrase(ps, b2, mod2, e + 1, |ps| - 1);
    assert PartOfSentence(ps, b1, mod1, 0) == e by {
      PartOfSentenceLongest(ps, b1, mod1, 0);
    }
    assert PartOfSentence(ps, b2, mod2, e + 1) == |ps| - 1 by {
      PartOfSentenceLongest(ps, b2, mod2, e + 1);
    }
  }

  /** A statement: a subject phrase from the first word, followed by a
      verb phrase that ends at the last word. */
  ghost predicate Statement(ps: seq<string>)
  {
    PhrasePair(ps, SubjectHead, SubjectMod, VerbHead, VerbMod)
  }

  /** A question: a verb phrase from the first word, followed by a subject
      phrase that ends at the last word. */
  ghost predicate Question(ps: seq<string>)
  {
    PhrasePair(ps, VerbHead, VerbMod, SubjectHead, SubjectMod)
  }

  /** The heuristic's verdict on a sentence whose words carry the tags ps:
      the sentence with '.' when it reads as a statement, with '?' when it
      reads as a question instead, and nothing otherwise. The source needs
      at least one word (it reads the first word's tags). */
  function GrammarCheck(str: string, ps: seq<string>): (r: Option<string>)
    requires |ps| >= 1
  {
    var isSentence := Follows(ps, SubjectHead, SubjectMod, VerbHead, VerbMod);
    var isQuestion := !isSentence && Follows(ps, VerbHead, VerbMod, SubjectHead, SubjectMod);
    if isSentence then Some(str + ".")
    else if isQuestion then Some(str + "?")
    else None
  }

  /** The verdict is '.' exactly for statements, '?' exactly for questions
      that are not statements, and nothing for the rest. */
  lemma GrammarCheckSpec(str: string, ps: seq<string>)
    requires |ps| >= 1
    ensures GrammarCheck(str, ps) == Some(str + ".") <==> Statement(ps)
    ensures GrammarCheck(str, ps) == Some(str + "?") <==> !Statement(ps) && Question(ps)
    ensures GrammarCheck(str, ps) == None <==> !Statement(ps) && !Question(ps)
  {
    FollowsSpec(ps, SubjectHead, SubjectMod, VerbHead, VerbMod);
    FollowsSpec(ps, VerbHead, VerbMod, SubjectHead, SubjectMod);
    assert str + "." != str + "?" by {
      assert (str + ".")[|str|] != (str + "?")[|str|];
    }
  }
}
