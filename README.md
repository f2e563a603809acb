# PuzzleCreator, modelled in Dafny

PuzzleCreator finds the "hidden sentences" in a line of text. A hidden
sentence is what is left after deleting some of the line's characters,
provided that:

- it splits at spaces into at least two tokens;
- every token is an allowed one- or two-letter word, or a dictionary word
  longer than two characters.

Every accepted candidate goes into a store with its score: the average
dictionary rank of its tokens, rounded down. The store's sentences then go
through a grammar filter, which appends '.' or '?'. The answers are printed
once each, in ascending order of score.

## Deletion masks

The search enumerates deletion masks `1 .. 2^n - 2` of the n-character
input. Bit i of a mask deletes the character at position n - 1 - i.

When a candidate fails at a token k that is not textually equal to its
last token, and characters follow the separator after token k, the search
may skip ahead. Let b be the mask bit that keeps that separator. The search
jumps to `(perm | 1 << b) & (~0 << b)`, provided the input character at
bit b is a space. It thereby passes over exactly the masks that agree with
the current mask on bit b and every bit above it. All of them keep the same
first k + 1 tokens.

The skip is not maximal. Later masks that change bit b can keep the same
rejected first token, and they are still evaluated. On "xyz  ab", mask 1
resumes at mask 8, and mask 8 keeps "xyz ab", which starts with the same
rejected "xyz".

## The main result

The central result is `Search.Program.Process`. The pruned loop leaves the
store exactly where the unpruned enumeration of every mask leaves it.
Every mask it passes over has a rejected candidate, so there is no false
pruning.

## Files

- `Wrappers.dfy`: the `Option` type.
- `Text.dfy`: splitting at spaces, joining, substring search, ASCII case
  mapping and decimal rendering.
- `Masks.dfy`:
  - the candidate a mask leaves;
  - the bit arithmetic of the skip-ahead (`(perm | 1 << b) & (~0 << b)`);
  - the facts about both that the proofs need.
- `Words.dfy`: word acceptance, the first rejected token, scores and the
  dictionary's rank assignment.
- `Search.dfy`: the program's state, modelled as `class Program`.
  - Its fields are the sentence store, the dictionary, the rank map and
    the set of printed answers.
  - Its methods are `InitList`, `Process`, `CheckEnglish` and
    `PrintAnswers`, with their loops.
  - Beside the class sit the specification functions `Step`, `NaiveRun`,
    `SkipPoint` and `NextMask`, and the lemmas that relate them.
- `Grammar.dfy`:
  - `CheckGrammer`, with the natural-language parser as a parameter;
  - the older part-of-speech heuristic (`partOfSentence_analyzer`,
    `HasMatch`, `GrammarCheck`).

## Where the comments and the code differ

The comment on `Process` (PuzzleCreator/Program.cs:180) says the masks run
from 1 to 2^n - 1. The loop at PuzzleCreator/Program.cs:207 stops at
2^n - 2, so the all-ones mask, which deletes everything, is never tried.
The model follows the loop: `Process` is stated over masks 1 .. 2^n - 2.

## Model

| member | source | states |
|---|---|---|
| Search.Program.Process | PuzzleCreator/Program.cs:183-241 | The mask loop with skip-ahead ends with the store equal to the unpruned run over masks 1 .. 2^n - 2. The evaluated masks strictly increase and lie in that range. Every mask not evaluated has a rejected candidate. |
| Search.Program.Round | PuzzleCreator/Program.cs:207-237 | One iteration of the mask loop. It moves strictly forward and stays inside the mask space. It keeps the store equal to the unpruned run up to the new mask, and records the evaluated mask in the trace. |
| Search.ApplyMask | PuzzleCreator/Program.cs:216-223 | Deleting, from the last character to the first, each character whose bit is set yields the mask's candidate. |
| Masks.CandidateKeeps | PuzzleCreator/Program.cs:216-223 | A candidate keeps exactly the characters whose bit is clear, in their original order. Each kept character lands at the index equal to the number of kept characters before it. |
| Masks.CandidateLength | PuzzleCreator/Program.cs:216-223 | A mask inside the input's mask space leaves a candidate as long as the input, less the number of set bits. |
| Search.Step | PuzzleCreator/Program.cs:327-331 | Checking a candidate adds it exactly when it is accepted and not yet stored, with the average rank of its tokens as its score. Every stored sentence keeps its score, and nothing else is added. |
| Search.RunStep | PuzzleCreator/Program.cs:207-237 | Checking mask `index` and resuming after the mask CheckEnglish returns gives the unpruned run's store up to that point. The next mask is greater and within range, and every mask passed over is rejected. |
| Search.NaiveRunRejected | PuzzleCreator/Program.cs:207-237 | Passing over a range of masks whose candidates are all rejected leaves the unpruned run's store unchanged. |
| Search.NextMaskSound | PuzzleCreator/Program.cs:334-368 | No false pruning. The skip never goes backwards and never leaves the mask space. A skip happens only for a rejected candidate, and lands one below the jump at a clear bit whose input character is a space. Every mask skipped has a rejected candidate. |
| Search.SkipRange | PuzzleCreator/Program.cs:354-362 | Every mask strictly between `perm` and the jump at the separator's bit has a rejected candidate. |
| Search.SkipFires | PuzzleCreator/Program.cs:335-362 | The loop moves past perm + 1 exactly when the candidate has a skip point: with spaces as the only separators, the character at the separator's bit is always a space. |
| Search.SkipExample | PuzzleCreator/Program.cs:335-362 | On "xyz qrs" with an empty dictionary, mask 1 leaves "xyz qr", and CheckEnglish returns 7, so masks 2 to 7 are skipped. |
| Search.SkipStopsAtJump | PuzzleCreator/Program.cs:355-361 | On "xyz  ab", mask 1 resumes at mask 8. Mask 8's candidate "xyz ab" starts with the same rejected token and is rejected, but it is evaluated. |
| Masks.JumpBits | PuzzleCreator/Program.cs:357-359 | For a clear bit b, the jump target has the bits of perm above b, bit b set, and every bit below b clear. |
| Masks.JumpKeepsHighBits | PuzzleCreator/Program.cs:357-361 | The jump target is greater than perm. Every mask strictly between them agrees with perm on bit b and every bit above it. |
| Masks.DeleteOne | PuzzleCreator/Program.cs:216-223 | For a tail of n characters, the mask whose only set bit is bit n deletes exactly the one character in front of the tail. |
| Search.SeparatorBitFacts | PuzzleCreator/Program.cs:337-359 | The separator's bit lies inside the input, above bit 0, and is clear. The jump at it passes over at least one mask and stays inside the mask space. |
| Search.PrefixRejected | PuzzleCreator/Program.cs:288-314 | Any text that starts with the tokens up to and including the first rejected one, each followed by a space, is rejected. |
| Search.Program.CheckEnglish | PuzzleCreator/Program.cs:271-371 | The store becomes Step of the old store on the candidate. The returned mask is the skip target the source computes, which is `perm` when no skip applies. `wordSkip` is false exactly when the first rejected token equals the last token. |
| Search.Program.ScanTokens | PuzzleCreator/Program.cs:284-314 | `allWords` holds exactly when no token is rejected, and `wordSkip` as in the source. When a skip applies, `checkLen` is the number of characters after the separator that follows the first rejected token. When no skip applies, the skip point is absent. |
| Search.Program.FreqScore | PuzzleCreator/Program.cs:319-325 | The summed rank of the tokens, counting 0 for a token without a rank. |
| Words.ScoreBounds | PuzzleCreator/Program.cs:319-329 | The rounded-down average of the ranks lies between the smallest and the largest rank of the sentence's tokens. |
| Search.Program.RecordSentence | PuzzleCreator/Program.cs:327-331 | An accepted candidate is added with its score when it is new, and the store and the sentence set stay in step. |
| Words.FirstRejected | PuzzleCreator/Program.cs:288-314 | The index of the first token that is not an allowed short word or a dictionary word longer than two characters. It is absent exactly when every token is a word. |
| Words.LongAllowed | PuzzleCreator/Program.cs:293-302 | A token longer than two characters is a word exactly when it is in the dictionary. |
| Words.FirstRejectedPrefix | PuzzleCreator/Program.cs:288-314 | The tokens after the first rejected token do not change which token is rejected first. |
| Search.SkipPoint | PuzzleCreator/Program.cs:307-335 | When the skip-ahead applies, k is the first rejected token, a later token exists, and `checkLen` counts the characters after the separator that follows token k. That count is at least 1 and less than the candidate's length. |
| Search.SeparatorBit | PuzzleCreator/Program.cs:337-352 | The bit-scanning loop returns the position of the `checkLen + 1`-th clear bit of the mask. |
| Search.Program.SkipMask | PuzzleCreator/Program.cs:354-366 | The returned mask is one below the jump at the separator's bit when the input has a space there, and `perm` otherwise. |
| Search.Program.InitList | PuzzleCreator/Program.cs:138-155 | The rank map becomes the source's assignment over the word list: each new word gets the next rank, and repeats are skipped. The dictionary is the rank map's key set. |
| Words.InitialRanks | PuzzleCreator/Program.cs:144-154 | Starting from an empty map, every distinct word gets its index in the list of distinct words, in order of first occurrence. The map holds no other word. |
| Words.Dedup | PuzzleCreator/Program.cs:148 | The distinct words of the list: no word twice, and the same members as the list. |
| Text.JoinSplit | PuzzleCreator/Program.cs:273 | Splitting at spaces loses nothing: joining the tokens with single spaces gives the text back. |
| Text.SplitJoin | PuzzleCreator/Program.cs:273 | Tokens without spaces, once joined, split back into the same tokens. |
| Text.SplitAfter | PuzzleCreator/Program.cs:273 | Complete tokens, each followed by a space, are the first tokens of whatever text follows them. |
| Search.Program.PrintAnswers | PuzzleCreator/Program.cs:378-398 | Prints exactly the answers not printed before, each once, in ascending order of their sentence's score. Each line is the score, ": " and the answer with its first character upper-cased and the rest lower-cased. The printed set grows by all the answers. |
| Search.Program.AnswerScores | PuzzleCreator/Program.cs:381-386 | Each answer's score is the stored score of the answer without its last character. |
| Search.OrderByScore | PuzzleCreator/Program.cs:388 | Every key appears once, in ascending order of score. |
| Search.Program.PrintOrdered | PuzzleCreator/Program.cs:389-397 | The printed answers are the ordered answers not printed before, in their order, one line each. The printed set grows by every ordered answer. |
| Search.FreshDistinct | PuzzleCreator/Program.cs:389-397 | Filtering out already printed answers keeps the list free of repeats. |
| Search.FreshSorted | PuzzleCreator/Program.cs:389-397 | Filtering out already printed answers keeps the list in ascending order of score. |
| Search.FreshMembers | PuzzleCreator/Program.cs:391 | The filtered list holds exactly the answers not printed before. |
| Search.FormatSpec | PuzzleCreator/Program.cs:393 | A line is the rendered score, then ": ", then the answer up to case. |
| Text.NatToStringSpec | PuzzleCreator/Program.cs:393 | The rendered score has only digits and no leading zero, and reads back as the same number. |
| Text.ToLowerAllTwice | PuzzleCreator/Program.cs:393 | Lower-casing is idempotent. |
| Grammar.CheckGrammer | PuzzleCreator/Grammar.cs:19-71 | No result for an empty set of sentences. Otherwise the result is exactly the set of admitted sentences, each with its end mark. |
| Text.ContainsAt | PuzzleCreator/Grammar.cs:48-64 | The substring test used on the parser's output holds exactly when the text occurs at some index. |
| Grammar.AnswersSpec | PuzzleCreator/Grammar.cs:44-67 | An answer is a sentence plus one character. It ends in '.' exactly when the tree holds "(S ". It ends in '?' exactly when the tree does not hold "(S " but holds "(SINV ", "(SBARQ " or "(SQ ". Its dependencies hold "nsubj(", and every such string is an answer. |
| Grammar.AnswersAdd | PuzzleCreator/Grammar.cs:36-69 | Checking one more sentence adds at most that sentence's answer. |
| Grammar.AnswersBound | PuzzleCreator/Grammar.cs:36-70 | There are never more answers than sentences. |
| Grammar.HasMatch | PuzzleCreator/Grammar.cs:228-242 | True exactly when the word's tags and the wanted tags share a tag. |
| Grammar.PartOfSentence | PuzzleCreator/Grammar.cs:143-224 | The result is -1, or the index of a word from i to i + 4 inside the sequence. At the last word it is that word exactly when the word carries a head tag. |
| Grammar.PartOfSentenceLongest | PuzzleCreator/Grammar.cs:143-224 | The analyser returns -1 exactly when no pattern matches at i. Otherwise it returns the end of the longest of the 1- to 5-word patterns that matches at i and fits in the sequence. |
| Grammar.LongestUnique | PuzzleCreator/Grammar.cs:143-224 | The longest phrase at a position is unique. |
| Grammar.FollowsSpec | PuzzleCreator/Grammar.cs:95-115 | The two-phrase test holds exactly when the sequence is a longest phrase of the first kind from the first word, directly followed by a longest phrase of the second kind ending at the last word. |
| Grammar.GrammarCheckSpec | PuzzleCreator/Grammar.cs:76-129 | The verdict is '.' exactly for a subject phrase followed by a verb phrase. It is '?' exactly for a verb phrase followed by a subject phrase that is not also a statement. Otherwise there is none. |

## Left out

- The SQLite word store, the console input and output, the clock and the
  timing output are not modelled. `InitList` takes the word list, most
  frequent first, as a parameter.
- Search.Program.Process: the percentage display is not modelled, and
  neither is the exception it raises. `loopsPerStep = perms / 100`
  (PuzzleCreator/Program.cs:198) is 0 for inputs of 2 to 6 characters.
  For those inputs, `index % loopsPerStep` (PuzzleCreator/Program.cs:232)
  throws DivideByZeroException after the first mask, and the run ends.
  `Process`'s contract describes the full run over masks 1 .. 2^n - 2,
  which the source reaches only for inputs of 0, 1 or at least 7
  characters.
- `GetFreqAvg` (PuzzleCreator/Program.cs:157-176) is not modelled. No
  modelled operation uses it.
- The Stanford parser is a parameter of `CheckGrammer`: a function from a
  sentence to its printed tree and dependencies. Tokenisation and parsing
  are not modelled.
- Search.Program.Process: it requires an input of at most 31 characters.
  The separator scan shifts a 32-bit `int` (`1 << index`), and C# takes
  that shift count modulo 32. Masks are unbounded naturals in place of
  `ulong`.
- Search.Program.FreqScore: the rank sum is unbounded. The 32-bit
  overflow of `freqScore` is not modelled.
- Text.Split: only ' ' separates tokens, whereas `String.Split(null)`
  also splits at tabs and other white space. With that, the separator after
  the rejected token is always a space of the input (`Search.SkipFires`).
  So the no-skip fallback of the separator test
  (PuzzleCreator/Program.cs:363-366) is never taken in the model. The
  source reaches it only when a tab or another non-space separator sits at
  that bit.
- Text.ToLowerAll: ASCII letters only. Culture-dependent and non-ASCII
  case mapping is not modelled.
- Search.OrderByScore: `OrderBy` is stable over the dictionary's
  enumeration order, and that order is not modelled. Answers of equal score
  come in any order, and `HashSet` iteration in `CheckGrammer` and
  `AnswerScores` is a choice of any element.
- The `skipped` variable at PuzzleCreator/Program.cs:360 is never read and
  is not modelled.
- The `sentences` HashSet (PuzzleCreator/Program.cs:17) is modelled as a
  set that always equals the store's keys.
- Grammar.GrammarCheck: it requires at least one tag, and
  Grammar.PartOfSentence requires i to be inside the tag array. On an empty
  tag array the source throws IndexOutOfRangeException
  (PuzzleCreator/Grammar.cs:151). The model does not represent that
  exception.
- Grammar.GrammarCheck: the final test of the last word's tags
  (PuzzleCreator/Grammar.cs:131-135) guards only a commented-out statement.
  It has no effect and is not modelled. The function returns the
  punctuated sentence, or nothing, in place of the source's no-op.
- Search.Program.PrintAnswers: it requires every answer to be a stored
  sentence plus one character. The source's dictionary lookup throws
  otherwise, and `CheckGrammer` only produces such answers.
