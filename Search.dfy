/** The subsequence sentence search of PuzzleCreator/Program.cs: every
    deletion mask of the input is tried in increasing order, each candidate
    is split into tokens and checked, accepted candidates go into a
    first-write-wins store, and a failed candidate may let the search jump
    over a whole range of masks that all fail the same way. */
module Search {
  import opened Wrappers
  import opened Text
  import opened Masks
  import opened Words

  // ---------------------------------------------------------------------
  // Specification of one step and of the unpruned search

  /** The store after checking one candidate: an accepted candidate that is
      not yet a key is added with its score; nothing else changes. */
  function Step(store: map<string, nat>, str: string, dict: set<string>, ranks: map<string, nat>): (r: map<string, nat>)
    ensures str in r <==> str in store || Accepted(str, dict)
    ensures r.Keys <= store.Keys + {str}
    ensures forall s :: s in store ==> s in r && r[s] == store[s]
    ensures str !in store && Accepted(str, dict) ==> r[str] == Score(Split(str), ranks)
  {
    if Accepted(str, dict) && str !in store then store[str := Score(Split(str), ranks)] else store
  }

  /** The store after the search without skip-ahead has checked every mask
      from 1 up to but excluding `hi`. */
  function NaiveRun(full: string, dict: set<string>, ranks: map<string, nat>, store: map<string, nat>, hi: nat): map<string, nat>
  {
    if hi <= 1 then store
    else Step(NaiveRun(full, dict, ranks, store, hi - 1), Candidate(full, hi - 1), dict, ranks)
  }

  /** One round of the pruned loop: checking mask `index` and resuming
      after NextMask leaves the store where the unpruned search leaves it
      after the same range, the next mask is greater and still in range,
      and every mask passed over has a rejected candidate. */
  lemma RunStep(full: string, dict: set<string>, ranks: map<string, nat>,
                store: map<string, nat>, index: nat, next: nat)
    requires 1 <= index < Pow2(|full|) - 1
    requires next == NextMask(full, index, dict)
    ensures index < next + 1 <= Pow2(|full|) - 1
    ensures Step(NaiveRun(full, dict, ranks, store, index), Candidate(full, index), dict, ranks)
            == NaiveRun(full, dict, ranks, store, next + 1)
    ensures forall m :: index < m <= next ==> !Accepted(Candidate(full, m), dict)
  {
    NextMaskSound(full, index, dict);
    SkipStore(full, dict, ranks, store, index, next);
  }

  /** Checking mask `index` and then passing over masks up to `next`, all
      of whose candidates are rejected, gives the unpruned search's store
      after mask `next`. */
  lemma SkipStore(full: string, dict: set<string>, ranks: map<string, nat>,
                  store: map<string, nat>, index: nat, next: nat)
    requires 1 <= index <= next
    requires forall m :: index < m <= next ==> !Accepted(Candidate(full, m), dict)
    ensures Step(NaiveRun(full, dict, ranks, store, index), Candidate(full, index), dict, ranks)
            == NaiveRun(full, dict, ranks, store, next + 1)
  {
    NaiveRunRejected(full, dict, ranks, store, index + 1, next + 1);
  }

  /** The masks the pruned loop has evaluated below `hi`: they increase,
      lie between 1 and hi - 1, and every other mask in that range has a
      rejected candidate. */
  ghost predicate Trace(full: string, dict: set<string>, ev: seq<nat>, hi: nat)
  {
    && (forall i, j :: 0 <= i < j < |ev| ==> ev[i] < ev[j])
    && (forall m :: m in ev ==> 1 <= m < hi)
    && (forall m :: 1 <= m < hi && m !in ev ==> !Accepted(Candidate(full, m), dict))
  }

  /** Evaluating mask `index` and passing over the rejected masks up to
      `next` extends the trace to next + 1. */
  lemma TraceStep(full: string, dict: set<string>, ev: seq<nat>, index: nat, next: nat)
    requires Trace(full, dict, ev, index) && 1 <= index <= next
    requires forall m :: index < m <= next ==> !Accepted(Candidate(full, m), dict)
    ensures Trace(full, dict, ev + [index], next + 1)
  {
    var ev' := ev + [index];
    forall j | 0 <= j < |ev|
      ensures ev'[j] == ev[j] < index
    {
      assert ev[j] in ev;
    }
    forall m | 1 <= m < next + 1 && m !in ev'
      ensures !Accepted(Candidate(full, m), dict)
    {
      if m < index {
        assert m !in ev;
      }
    }
  }

  /** Where the mask loop stops: at the last mask, or at once when the
      input is empty and there is no mask to try. Either way the store and
      the trace are those of the whole mask space. */
  lemma RunEnd(full: string, dict: set<string>, ranks: map<string, nat>,
               store: map<string, nat>, ev: seq<nat>, index: nat, perms: nat)
    requires 1 <= index <= perms && (perms >= 2 ==> index <= perms - 1)
    requires !(index < perms - 1)
    requires Trace(full, dict, ev, index) && (index == 1 ==> ev == [])
    ensures NaiveRun(full, dict, ranks, store, index) == NaiveRun(full, dict, ranks, store, perms - 1)
    ensures Trace(full, dict, ev, perms - 1)
  {
    if perms < 2 {
      assert index == 1;
    }
  }

  /** Masks whose candidates are all rejected leave the unpruned search's
      store as it was. */
  lemma {:induction false} NaiveRunRejected(full: string, dict: set<string>, ranks: map<string, nat>,
                                            store: map<string, nat>, lo: nat, hi: nat)
    requires 1 <= lo <= hi
    requires forall m :: lo <= m < hi ==> !Accepted(Candidate(full, m), dict)
    ensures NaiveRun(full, dict, ranks, store, hi) == NaiveRun(full, dict, ranks, store, lo)
    decreases hi
  {
    if lo < hi {
      NaiveRunRejected(full, dict, ranks, store, lo, hi - 1);
    }
  }

  // ---------------------------------------------------------------------
  // The skip-ahead

  /** Where the skip-ahead may apply to a candidate: its first rejected
      token and the number of candidate characters after the separator
      that follows that token (checkLen in the source). */
  datatype Skip = Skip(token: nat, checkLen: nat)

  /** The skip-ahead applies when the candidate has at least two tokens,
      its first rejected token k is not textually equal to its last token,
      and characters follow the separator after token k. */
  function SkipPoint(str: string, dict: set<string>): (r: Option<Skip>)
    ensures r.Some? ==>
      var ts := Split(str);
      var k := r.value.token;
      && FirstRejected(ts, dict) == Some(k)
      && k + 1 < |ts|
      && r.value.checkLen == |str| - |JoinSep(ts[..k + 1])|
      && 1 <= r.value.checkLen < |str|
  {
    SkipOf(|str|, Split(str), dict)
  }

  /** The skip point of a text of n characters with tokens ts. */
  function SkipOf(n: nat, ts: seq<string>, dict: set<string>): (r: Option<Skip>)
    ensures r.Some? ==>
      var k := r.value.token;
      && FirstRejected(ts, dict) == Some(k)
      && k + 1 < |ts|
      && r.value.checkLen == n - |JoinSep(ts[..k + 1])|
      && 1 <= r.value.checkLen < n
  {
    var first := FirstRejected(ts, dict);
    if |ts| < 2 || first.None? || ts[first.value] == ts[|ts| - 1] then None
    else
      var k := first.value;
      var checkLen := n - |JoinSep(ts[..k + 1])|;
      if checkLen <= 0 then None
      else Some(Skip(k, checkLen))
  }

  /** The value CheckEnglish hands back to the mask loop for mask `perm`
      (the loop then adds one). When the skip-ahead applies, b is the bit
      of the separator after the rejected token: the checkLen + 1-th clear
      bit of perm. If the input has a space at that bit, the result is the
      jump target at b, minus one; otherwise, and when the skip-ahead does
      not apply, it is `perm` itself. */
  function NextMask(full: string, perm: nat, dict: set<string>): nat
    requires perm < Pow2(|full|)
  {
    SkipFrom(full, perm, Candidate(full, perm), dict)
  }

  /** The mask after which the search resumes once str, a string with as
      many characters as perm keeps of full, has been checked. */
  function SkipFrom(full: string, perm: nat, str: string, dict: set<string>): nat
    requires perm < Pow2(|full|) && |str| == Zeros(perm, |full|)
  {
    match SkipPoint(str, dict)
      case None => perm
      case Some(sk) => SkipTo(full, perm, sk.checkLen + 1)
  }

  /** The mask the skip moves to when the q-th kept character from the end
      is the separator after the rejected token: the last mask before the
      jump at the q-th clear bit of perm, provided the input character that
      bit deletes is a space; otherwise perm itself. */
  function SkipTo(full: string, perm: nat, q: nat): nat
    requires perm < Pow2(|full|) && 2 <= q <= Zeros(perm, |full|)
  {
    var b := NthZero(perm, q);
    SeparatorBitFacts(full, perm, q);
    if full[|full| - 1 - b] == ' ' then Jump(perm, b) - 1 else perm
  }

  /** The q-th clear bit of perm, for q at least 2, is a bit inside the
      input above bit 0 with q - 1 clear bits below it, and the jump at it
      passes over at least one mask and stays inside the mask space. */
  lemma SeparatorBitFacts(full: string, perm: nat, q: nat)
    requires perm < Pow2(|full|) && 2 <= q <= Zeros(perm, |full|)
    ensures var b := NthZero(perm, q);
      && 1 <= b < |full| && Bit(perm, b) == 0
      && Zeros(perm, b) == q - 1
      && perm + 2 <= Jump(perm, b) <= Pow2(|full|) - 1
  {
    var b := NthZero(perm, q);
    NthZeroBound(perm, q, |full|);
    NthZeroSpec(perm, q);
    JumpGap(perm, b);
    JumpBounds(perm, b, |full|);
  }

  /** A text is the tokens up to k, each followed by its separator, and
      then the rest of its tokens joined; the prefix ends in a space. */
  lemma PrefixTokens(str: string, ts: seq<string>, k: nat)
    requires k + 1 < |ts| && Join(ts) == str
    ensures str == JoinSep(ts[..k + 1]) + Join(ts[k + 1..])
    ensures var P := JoinSep(ts[..k + 1]);
      && 1 <= |P| <= |str| && str[..|P|] == P
      && P[|P| - 1] == ' ' && str[|P| - 1] == ' '
  {
    var P := JoinSep(ts[..k + 1]);
    var R := Join(ts[k + 1..]);
    assert str == P + R by {
      JoinAt(ts, k + 1);
    }
    assert P == JoinSep(ts[..k]) + ts[k] + " " by {
      assert ts[..k + 1][..k] == ts[..k];
    }
    assert P[|P| - 1] == ' ';
    assert str[..|P|] == P;
  }

  /** The facts behind the skip. P is the candidate's prefix up to and
      including the separator after token k. The first |full| - b
      characters of the input, under the bits of perm from b up, yield
      exactly P; the character of bit b is the separator, a space; and the
      jump at bit b passes over at least one mask and stays inside the mask
      space. */
  lemma SeparatorPrefix(full: string, perm: nat, str: string, P: string, b: nat)
    requires perm < Pow2(|full|) && str == Candidate(full, perm)
    requires 1 <= |P| < |str| && str[..|P|] == P && str[|P| - 1] == ' '
    requires b == NthZero(perm, |str| - |P| + 1)
    ensures 1 <= b < |full| && Bit(perm, b) == 0
    ensures Candidate(full[..|full| - b], Shr(perm, b)) == P
    ensures full[|full| - 1 - b] == ' '
    ensures perm + 2 <= Jump(perm, b) <= Pow2(|full|) - 1
  {
    SeparatorBitFacts(full, perm, |str| - |P| + 1);
    PrefixBelowBit(full, perm, str, P, b);
  }

  /** The candidate part governed by the bits of perm from b up is the
      prefix P whose length leaves exactly the candidate characters of the
      bits below b; its last character is the character of bit b. */
  lemma PrefixBelowBit(full: string, perm: nat, str: string, P: string, b: nat)
    requires str == Candidate(full, perm)
    requires 1 <= |P| < |str| && str[..|P|] == P && str[|P| - 1] == ' '
    requires 1 <= b < |full| && Bit(perm, b) == 0 && Zeros(perm, b) == |str| - |P|
    ensures Candidate(full[..|full| - b], Shr(perm, b)) == P
    ensures full[|full| - 1 - b] == ' '
  {
    var z := Zeros(perm, b);
    var X := Candidate(full[..|full| - b], Shr(perm, b));
    assert X == str[..|str| - z] && full[|full| - 1 - b] == str[|str| - z - 1] by {
      CandidatePrefix(full, perm, b);
    }
    assert |str| - z == |P|;
  }

  /** A mask strictly between perm and its jump target at b keeps the bits
      of perm from b up, so its candidate starts with the same prefix. */
  lemma SkippedPrefix(full: string, perm: nat, P: string, b: nat, m: nat)
    requires b < |full| && Bit(perm, b) == 0
    requires Candidate(full[..|full| - b], Shr(perm, b)) == P
    requires perm < m < Jump(perm, b)
    ensures Candidate(full, m) == P + Candidate(full[|full| - b..], m)
  {
    JumpKeepsHighBits(perm, b, m);
    CandidateSplit(full, m, b);
  }

  /** A text that starts with the tokens up to the first rejected token k,
      each followed by its separator, is rejected. */
  lemma PrefixRejected(ts: seq<string>, k: nat, rest: string, dict: set<string>)
    requires FirstRejected(ts, dict) == Some(k) && NoSpaces(ts)
    ensures !Accepted(JoinSep(ts[..k + 1]) + rest, dict)
  {
    assert NoSpaces(ts[..k + 1]) by {
      forall t | t in ts[..k + 1] ensures ' ' !in t {
        assert t in ts;
      }
    }
    SplitAfter(ts[..k + 1], rest);
    FirstRejectedPrefix(ts, k, Split(rest), dict);
  }

  /** No false pruning: the mask loop never moves backwards, never leaves the
      mask space, and every mask it skips has a candidate that would be
      rejected, because it begins with the same rejected token k. */
  lemma NextMaskSound(full: string, perm: nat, dict: set<string>)
    requires perm < Pow2(|full|)
    ensures perm <= NextMask(full, perm, dict)
    ensures NextMask(full, perm, dict) != perm ==>
      && !Accepted(Candidate(full, perm), dict)
      && NextMask(full, perm, dict) + 1 <= Pow2(|full|) - 1
      && exists b: nat :: b < |full| && Bit(perm, b) == 0 && full[|full| - 1 - b] == ' '
                       && NextMask(full, perm, dict) + 1 == Jump(perm, b)
    ensures forall m :: perm < m <= NextMask(full, perm, dict) ==> !Accepted(Candidate(full, m), dict)
  {
    var r := NextMask(full, perm, dict);
    var str := Candidate(full, perm);
    match SkipPoint(str, dict)
    case None =>
      assert r == perm;
    case Some(sk) =>
      var q := sk.checkLen + 1;
      var b := NthZero(perm, q);
      assert q <= |str| == Zeros(perm, |full|);
      SeparatorBitFacts(full, perm, q);
      if full[|full| - 1 - b] == ' ' {
        assert r + 1 == Jump(perm, b);
        SkipRange(full, perm, dict, str, sk, b);
      } else {
        assert r == perm;
      }
  }

  /** The skip fires whenever it applies: the separator after the rejected
      token always comes from a space of the input, so the loop moves past
      perm + 1 exactly when the candidate has a skip point. */
  lemma SkipFires(full: string, perm: nat, dict: set<string>)
    requires perm < Pow2(|full|)
    ensures SkipPoint(Candidate(full, perm), dict).Some? <==> NextMask(full, perm, dict) > perm
  {
    var str := Candidate(full, perm);
    match SkipPoint(str, dict)
    case None =>
    case Some(sk) =>
      var P := SkipPrefix(str, dict, sk);
      var b := NthZero(perm, sk.checkLen + 1);
      assert full[|full| - 1 - b] == ' ' && perm + 2 <= Jump(perm, b) by {
        SeparatorPrefix(full, perm, str, P, b);
      }
  }

  /** The candidate text up to and including the separator after the
      rejected token of a skip point: it ends in a space, and checkLen
      characters follow it. */
  lemma SkipPrefix(str: string, dict: set<string>, sk: Skip) returns (P: string)
    requires SkipPoint(str, dict) == Some(sk)
    ensures 1 <= |P| < |str| && str[..|P|] == P && str[|P| - 1] == ' '
    ensures sk.checkLen == |str| - |P|
  {
    var ts := Split(str);
    P := JoinSep(ts[..sk.token + 1]);
    JoinSplit(str);
    PrefixTokens(str, ts, sk.token);
  }

  /** The skip from mask 1 on a seven-character input with a space at
      position 3 whose mask-1 candidate begins with the unknown word "xyz"
      and ends with another token: the loop resumes at mask 8. */
  lemma SkipFromXyz(full: string, ts: seq<string>)
    requires |full| == 7 && full[3] == ' '
    requires 2 <= |ts| && NoSpaces(ts) && ts[0] == "xyz" && ts[|ts| - 1] != "xyz"
    requires Candidate(full, 1) == Join(ts) && |Join(ts)| == 6
    ensures NextMask(full, 1, {}) == 7
  {
    var str := Join(ts);
    assert Split(str) == ts by {
      SplitJoin(ts);
    }
    assert FirstRejected(ts, {}) == Some(0) by {
      LongAllowed("xyz", {});
    }
    assert JoinSep(ts[..1]) == "xyz ";
    assert SkipPoint(str, {}) == Some(Skip(0, 2));
    assert NthZero(1, 3) == 3;
    assert Jump(1, 3) == 8;
  }

  /** The skip on "xyz qrs" from mask 1: the candidate "xyz qr" is rejected
      at "xyz", and the loop resumes at mask 8, passing over masks 2 to 7. */
  lemma SkipExample()
    ensures Candidate("xyz qrs", 1) == "xyz qr"
    ensures NextMask("xyz qrs", 1, {}) == 7
  {
    var full := "xyz qrs";
    assert Candidate(full, 1) == "xyz qr" by {
      DeleteOne("xyz qr", 's', "");
      assert "xyz qr" + ['s'] + "" == full;
    }
    var ts := ["xyz", "qr"];
    assert Join(ts) == "xyz qr";
    assert NoSpaces(ts);
    SkipFromXyz(full, ts);
  }

  /** The skip is not maximal: on "xyz  ab" mask 1 resumes at mask 8,
      whose candidate "xyz ab" starts with the same rejected token but
      differs from mask 1 at bit 3, so it is evaluated rather than
      skipped. */
  lemma SkipStopsAtJump()
    ensures NextMask("xyz  ab", 1, {}) == 7
    ensures Candidate("xyz  ab", 8) == "xyz ab"
    ensures Split(Candidate("xyz  ab", 8))[0] == "xyz"
    ensures !Accepted(Candidate("xyz  ab", 8), {})
  {
    var full := "xyz  ab";
    assert Candidate(full, 1) == "xyz  a" by {
      DeleteOne("xyz  a", 'b', "");
      assert "xyz  a" + ['b'] + "" == full;
    }
    var ts := ["xyz", "", "a"];
    assert Join(ts) == "xyz  a";
    assert NoSpaces(ts);
    SkipFromXyz(full, ts);
    CandidateOfEight();
    XyzAbRejected();
  }

  /** "xyz ab" is rejected at its first token, "xyz". */
  lemma XyzAbRejected()
    ensures Split("xyz ab")[0] == "xyz"
    ensures !Accepted("xyz ab", {})
  {
    var us := ["xyz", "ab"];
    assert Split("xyz ab") == us by {
      assert "xyz" + " " + "ab" == "xyz ab";
      SplitTwo("xyz", "ab");
    }
    assert FirstRejected(us, {}) == Some(0) by {
      LongAllowed("xyz", {});
    }
  }

  /** Two space-free words separated by one space split into those two
      words. */
  lemma SplitTwo(x: string, y: string)
    requires ' ' !in x && ' ' !in y
    ensures Split(x + " " + y) == [x, y]
  {
    var ts := [x, y];
    assert ts[1..] == [y];
    assert Join(ts) == x + " " + y;
    SplitJoin(ts);
  }

  /** Mask 8 deletes the fourth character from the end of "xyz  ab". */
  lemma CandidateOfEight()
    ensures Candidate("xyz  ab", 8) == "xyz ab"
  {
    DeleteOne("xyz", ' ', " ab");
    assert "xyz" + [' '] + " ab" == "xyz  ab";
    assert Pow2(3) == 8;
  }

  /** The range a skip passes over: every mask strictly between perm and
      the jump target has a rejected candidate. */
  lemma SkipRange(full: string, perm: nat, dict: set<string>, str: string, sk: Skip, b: nat)
    requires perm < Pow2(|full|) && str == Candidate(full, perm)
    requires SkipPoint(str, dict) == Some(sk)
    requires b == NthZero(perm, sk.checkLen + 1)
    ensures forall m :: perm < m < Jump(perm, b) ==> !Accepted(Candidate(full, m), dict)
  {
    var ts := Split(str);
    var k := sk.token;
    var P := JoinSep(ts[..k + 1]);
    assert FirstRejected(ts, dict) == Some(k) && k + 1 < |ts|;
    assert sk.checkLen == |str| - |P| && 1 <= sk.checkLen;
    assert 1 <= |P| < |str| && str[..|P|] == P && str[|P| - 1] == ' ' by {
      JoinSplit(str);
      PrefixTokens(str, ts, k);
    }
    assert b < |full| && Bit(perm, b) == 0 && Candidate(full[..|full| - b], Shr(perm, b)) == P by {
      SeparatorPrefix(full, perm, str, P, b);
    }
    RejectedBelowJump(full, perm, dict, ts, k, b);
  }

  /** When the bits of perm from b up yield the tokens up to the first
      rejected token k, each followed by its separator, every mask between
      perm and its jump target at b has a rejected candidate. */
  lemma RejectedBelowJump(full: string, perm: nat, dict: set<string>, ts: seq<string>, k: nat, b: nat)
    requires FirstRejected(ts, dict) == Some(k) && NoSpaces(ts)
    requires b < |full| && Bit(perm, b) == 0
    requires Candidate(full[..|full| - b], Shr(perm, b)) == JoinSep(ts[..k + 1])
    ensures forall m :: perm < m < Jump(perm, b) ==> !Accepted(Candidate(full, m), dict)
  {
    var P := JoinSep(ts[..k + 1]);
    forall m | perm < m < Jump(perm, b)
      ensures !Accepted(Candidate(full, m), dict)
    {
      SkippedPrefix(full, perm, P, b, m);
      PrefixRejected(ts, k, Candidate(full[|full| - b..], m), dict);
    }
  }

  // ---------------------------------------------------------------------
  // The loops of the search

  /** Deletes the characters mask `index` selects, from the last character
      to the first (PuzzleCreator/Program.cs, the inner loop of Process). */
  method ApplyMask(str: string, index: nat) returns (temp: string)
    ensures temp == Candidate(str, index)
  {
    var len := |str|;
    temp := str;
    for i := 0 to len
      invariant temp == str[..len - i] + Candidate(str[len - i..], index)
    {
      ghost var tail := Candidate(str[len - i..], index);
      ghost var t := str[len - 1 - i..];
      CandidateSplit(t, index, i);
      assert t[..1] == [str[len - 1 - i]] && t[1..] == str[len - i..];
      assert str[..len - i] == str[..len - 1 - i] + [str[len - 1 - i]];
      if Bit(index, i) == 1 {
        temp := temp[..len - 1 - i] + temp[len - i..];
        assert temp == str[..len - 1 - i] + tail;
      }
    }
    assert str[len - len..] == str;
  }

  /** The position of the checkLen + 1-th clear bit of perm, found by
      testing bits upward from bit 0. */
  method SeparatorBit(perm: nat, checkLen: nat) returns (index: nat)
    ensures index == NthZero(perm, checkLen + 1)
  {
    ghost var z := NthZero(perm, checkLen + 1);
    NthZeroSpec(perm, checkLen + 1);
    index := 0;
    var zeroFound := 0;
    while zeroFound <= checkLen
      invariant zeroFound == Zeros(perm, index)
      invariant index <= z + 1
      invariant index <= z ==> zeroFound <= checkLen
      invariant index == z + 1 ==> zeroFound == checkLen + 1
      decreases z + 1 - index
    {
      NthZeroZeros(perm, checkLen + 1, index + 1);
      ZerosLast(perm, index);
      if Bit(perm, index) == 0 {
        zeroFound := zeroFound + 1;
      }
      index := index + 1;
    }
    if index != 0 {
      index := index - 1;
    }
  }

  // ---------------------------------------------------------------------
  // Output

  /** A result line: the score, ": ", and the sentence with its first
      character upper-cased and the rest lower-cased. */
  function Format(score: nat, key: string): string
    requires |key| >= 1
  {
    NatToString(score) + ": " + [ToUpper(key[0])] + ToLowerAll(key[1..])
  }

  /** A result line starts with the rendered score (which reads back, by
      NatToStringSpec), followed by ": ", and the rest of the line is the
      answer up to case. */
  lemma FormatSpec(score: nat, key: string)
    requires |key| >= 1
    ensures var r := Format(score, key);
      var d := NatToString(score);
      && |r| == |d| + 2 + |key|
      && r[..|d|] == d
      && r[|d|..|d| + 2] == ": "
      && ToLowerAll(r[|d| + 2..]) == ToLowerAll(key)
  {
    var d := NatToString(score);
    var r := Format(score, key);
    assert r[..|d|] == d;
    var tail := [ToUpper(key[0])] + ToLowerAll(key[1..]);
    assert r[|d| + 2..] == tail;
    ToLowerAllTwice(key[1..]);
    assert tail[1..] == ToLowerAll(key[1..]);
    assert ToLowerAll(tail) == [ToLower(ToUpper(key[0]))] + ToLowerAll(key[1..]);
  }

  /** The elements of xs that are not in `seen`, in their order in xs. */
  function Fresh(xs: seq<string>, seen: set<string>): seq<string>
  {
    if xs == [] then []
    else Fresh(xs[..|xs| - 1], seen) + (if xs[|xs| - 1] in seen then [] else [xs[|xs| - 1]])
  }

  /** Fresh keeps exactly the elements of xs outside `seen`. */
  lemma {:induction false} FreshMembers(xs: seq<string>, seen: set<string>)
    ensures forall a :: a in Fresh(xs, seen) <==> a in xs && a !in seen
  {
    if xs != [] {
      FreshMembers(xs[..|xs| - 1], seen);
      assert xs == xs[..|xs| - 1] + [xs[|xs| - 1]];
    }
  }

  /** What the word check of CheckEnglish finds, restated as the skip
      point of the candidate with tokens ts. */
  lemma ScanOutcome(n: nat, ts: seq<string>, dict: set<string>, allWords: bool, wordSkip: bool, checkLen: int)
    requires |ts| >= 2
    requires allWords <==> FirstRejected(ts, dict).None?
    requires var k := FirstRejected(ts, dict); wordSkip == !(k.Some? && ts[k.value] == ts[|ts| - 1])
    requires !allWords ==> checkLen == n - |JoinSep(ts[..FirstRejected(ts, dict).value + 1])|
    ensures !allWords && wordSkip && checkLen > 0 ==>
              SkipOf(n, ts, dict) == Some(Skip(FirstRejected(ts, dict).value, checkLen))
    ensures !(!allWords && wordSkip && checkLen > 0) ==> SkipOf(n, ts, dict) == None
  {
  }

  /** One more element of a sequence without repetitions: it is not among
      the earlier ones, and Fresh grows by it unless it is in `seen`. */
  lemma FreshStep(xs: seq<string>, i: nat, seen: set<string>)
    requires Distinct(xs) && i < |xs|
    ensures xs[i] !in xs[..i]
    ensures forall a :: a in xs[..i + 1] <==> a in xs[..i] || a == xs[i]
    ensures Fresh(xs[..i + 1], seen) == Fresh(xs[..i], seen) + (if xs[i] in seen then [] else [xs[i]])
  {
    assert xs[..i + 1] == xs[..i] + [xs[i]];
    assert forall j :: 0 <= j < i ==> xs[..i][j] == xs[j];
  }

  /** Appending an answer and its formatted line keeps line p the
      formatted answer p. */
  lemma LineAppended(lines: seq<string>, printed: seq<string>, f: map<string, nat>, cur: string)
    requires cur in f && |cur| >= 1 && |lines| == |printed|
    requires forall a :: a in printed ==> a in f && |a| >= 1
    requires forall p :: 0 <= p < |printed| ==> lines[p] == Format(f[printed[p]], printed[p])
    ensures forall p :: 0 <= p < |printed| + 1 ==>
      (lines + [Format(f[cur], cur)])[p] == Format(f[(printed + [cur])[p]], (printed + [cur])[p])
  {
  }

  /** No element occurs twice. */
  predicate Distinct(s: seq<string>)
  {
    forall i, j :: 0 <= i < j < |s| ==> s[i] != s[j]
  }

  /** Every element has a score in f and the scores do not decrease. */
  predicate SortedBy(s: seq<string>, f: map<string, nat>)
  {
    && (forall i :: 0 <= i < |s| ==> s[i] in f)
    && (forall i, j :: 0 <= i < j < |s| ==> f[s[i]] <= f[s[j]])
  }

  /** Fresh of a sequence without repetitions has no repetitions. */
  lemma {:induction false} FreshDistinct(xs: seq<string>, seen: set<string>)
    requires Distinct(xs)
    ensures Distinct(Fresh(xs, seen))
  {
    if xs != [] {
      var init := xs[..|xs| - 1];
      var last := xs[|xs| - 1];
      assert Distinct(init) by {
        assert forall i :: 0 <= i < |init| ==> init[i] == xs[i];
      }
      FreshDistinct(init, seen);
      FreshMembers(init, seen);
      var r0 := Fresh(init, seen);
      if last in seen {
        assert Fresh(xs, seen) == r0 + [] == r0;
      } else {
        assert last !in init by {
          assert forall i :: 0 <= i < |init| ==> init[i] == xs[i] && xs[i] != last;
        }
        var r := r0 + [last];
        assert Fresh(xs, seen) == r;
        forall i, j | 0 <= i < j < |r|
          ensures r[i] != r[j]
        {
          if j == |r0| {
            assert r[i] == r0[i] && r0[i] in r0;
          } else {
            assert r[i] == r0[i] && r[j] == r0[j];
          }
        }
      }
    }
  }

  /** Fresh of a sequence in ascending order of score is in ascending
      order of score. */
  lemma {:induction false} FreshSorted(xs: seq<string>, seen: set<string>, f: map<string, nat>)
    requires SortedBy(xs, f)
    ensures SortedBy(Fresh(xs, seen), f)
  {
    if xs != [] {
      var init := xs[..|xs| - 1];
      var last := xs[|xs| - 1];
      assert SortedBy(init, f) by {
        assert forall i :: 0 <= i < |init| ==> init[i] == xs[i];
      }
      FreshSorted(init, seen, f);
      FreshMembers(init, seen);
      var r0 := Fresh(init, seen);
      if last in seen {
        assert Fresh(xs, seen) == r0 + [] == r0;
      } else {
        var r := r0 + [last];
        assert Fresh(xs, seen) == r;
        forall i | 0 <= i < |r0|
          ensures f[r0[i]] <= f[last]
        {
          assert r0[i] in init;
          var k :| 0 <= k < |init| && init[k] == r0[i];
          assert xs[k] == r0[i];
        }
        forall i, j | 0 <= i < j < |r|
          ensures f[r[i]] <= f[r[j]]
        {
          assert r[i] == r0[i];
        }
      }
    }
  }

  /** A non-empty set has an element of least value under `f`. */
  lemma {:induction false} MinExists(s: set<string>, f: map<string, nat>)
    requires s != {} && s <= f.Keys
    ensures exists x :: x in s && forall y :: y in s ==> f[x] <= f[y]
    decreases |s|
  {
    var x :| x in s;
    if s != {x} {
      MinExists(s - {x}, f);
      var x' :| x' in s - {x} && forall y :: y in s - {x} ==> f[x'] <= f[y];
      if f[x] <= f[x'] {
        assert forall y :: y in s ==> f[x] <= f[y];
      } else {
        assert forall y :: y in s ==> f[x'] <= f[y];
      }
    } else {
      assert forall y :: y in s ==> y == x;
    }
  }

  // ---------------------------------------------------------------------
  // The program's state

  class Program {
    var wordSkip: bool
    /** Accepted sentences and their scores (`sentencesFreq`), and the same
        sentences as a set (`sentences`). */
    var sentencesFreq: map<string, nat>
    var sentences: set<string>
    /** The dictionary and each word's rank. */
    var dict: set<string>
    var dictFreq: map<string, nat>
    var alreadyPrinted: set<string>
    /** The masks the search has evaluated, in order. */
    ghost var evaluated: seq<nat>

    ghost predicate Valid()
      reads this
    {
      sentences == sentencesFreq.Keys && dict == dictFreq.Keys
    }

    constructor ()
      ensures Valid()
      ensures sentencesFreq == map[] && dictFreq == map[] && alreadyPrinted == {}
      ensures evaluated == []
    {
      wordSkip := false;
      sentencesFreq := map[];
      sentences := {};
      dict := {};
      dictFreq := map[];
      alreadyPrinted := {};
      evaluated := [];
    }

    /** Loads the word list (most frequent first) into the dictionary:
        a word not seen yet gets the next rank, repeats are skipped. */
    method InitList(words: seq<string>)
      requires Valid()
      modifies this`dict, this`dictFreq
      ensures Valid()
      ensures dictFreq == AssignRanks(old(dictFreq), words, 0)
    {
      var n := 0;
      var i := 0;
      while i < |words|
        invariant 0 <= i <= |words|
        invariant dict == dictFreq.Keys
        invariant AssignRanks(dictFreq, words[i..], n) == AssignRanks(old(dictFreq), words, 0)
      {
        var word := words[i];
        assert words[i..][1..] == words[i + 1..];
        if word !in dictFreq {
          dictFreq := dictFreq[word := n];
          dict := dict + {word};
          n := n + 1;
        }
        i := i + 1;
      }
    }

    /** Tries every deletion mask from 1 to 2^|full| - 2 in increasing order,
        advancing by one or by the skip CheckEnglish asks for. The store ends
        as the unpruned search leaves it; the masks evaluated increase, stay
        in range, and every mask not evaluated has a rejected candidate. */
    method Process(full: string)
      requires Valid() && |full| <= 31
      modifies this`sentencesFreq, this`sentences, this`wordSkip, this`evaluated
      ensures Valid()
      ensures sentencesFreq == NaiveRun(full, dict, dictFreq, old(sentencesFreq), Pow2(|full|) - 1)
      ensures Trace(full, dict, evaluated, Pow2(|full|) - 1)
    {
      var perms := Pow2(|full|);
      evaluated := [];
      var index := 1;
      while index < perms - 1
        invariant Valid()
        invariant 1 <= index <= perms && (perms >= 2 ==> index <= perms - 1)
        invariant sentencesFreq == NaiveRun(full, dict, dictFreq, old(sentencesFreq), index)
        invariant Trace(full, dict, evaluated, index) && (index == 1 ==> evaluated == [])
        decreases perms - index
      {
        index := Round(full, index, old(sentencesFreq));
      }
      RunEnd(full, dict, dictFreq, old(sentencesFreq), evaluated, index, perms);
    }

    /** One iteration of the mask loop of Process: deletes the characters
        mask `index` selects, checks the result, and returns the next mask
        to try. The store and the masks evaluated advance as the unpruned
        search and the trace say. */
    method Round(full: string, index: nat, ghost store: map<string, nat>) returns (after: nat)
      requires Valid() && 1 <= index < Pow2(|full|) - 1
      requires sentencesFreq == NaiveRun(full, dict, dictFreq, store, index)
      requires Trace(full, dict, evaluated, index)
      modifies this`sentencesFreq, this`sentences, this`wordSkip, this`evaluated
      ensures Valid() && index < after <= Pow2(|full|) - 1
      ensures sentencesFreq == NaiveRun(full, dict, dictFreq, store, after)
      ensures evaluated == old(evaluated) + [index]
      ensures Trace(full, dict, evaluated, after)
    {
      var temp := ApplyMask(full, index);
      evaluated := evaluated + [index];
      var next := CheckEnglish(temp, index, full);
      assert next == NextMask(full, index, dict);
      RunStep(full, dict, dictFreq, store, index, next);
      TraceStep(full, dict, old(evaluated), index, next);
      after := next + 1;
    }

    /** Checks one candidate `str` of mask `perm`: records it with its score
        if it is accepted and new, and returns the mask after which the
        search resumes. */
    method CheckEnglish(str: string, perm: nat, full: string) returns (next: nat)
      requires Valid() && perm < Pow2(|full|) && |str| == Zeros(perm, |full|)
      modifies this`sentencesFreq, this`sentences, this`wordSkip
      ensures Valid()
      ensures sentencesFreq == Step(old(sentencesFreq), str, dict, dictFreq)
      ensures next == SkipFrom(full, perm, str, dict)
      ensures var ts := Split(str);
              var k := FirstRejected(ts, dict);
              wordSkip == if |ts| < 2 then old(wordSkip) else !(k.Some? && ts[k.value] == ts[|ts| - 1])
    {
      var subStrings := Split(str);
      var numWords := |subStrings|;
      if numWords < 2 {
        assert SkipPoint(str, dict).None?;
        return perm;
      }
      var allWords, checkLen;
      allWords, wordSkip, checkLen := ScanTokens(subStrings, |str|);
      assert SkipPoint(str, dict) == SkipOf(|str|, subStrings, dict);
      if allWords {
        RecordSentence(str, subStrings);
        return perm;
      }
      if wordSkip && checkLen > 0 {
        assert checkLen + 1 <= |str|;
        next := SkipMask(full, perm, checkLen);
        return;
      }
      return perm;
    }

    /** The accepted branch of CheckEnglish: a sentence all of whose tokens
        are words is stored, unless already present, with the average rank
        of its tokens rounded down. */
    method RecordSentence(str: string, subStrings: seq<string>)
      requires Valid() && subStrings == Split(str) && Accepted(str, dict)
      modifies this`sentencesFreq, this`sentences
      ensures Valid()
      ensures sentencesFreq == Step(old(sentencesFreq), str, dict, dictFreq)
    {
      var numWords := |subStrings|;
      var freqScore := FreqScore(subStrings);
      if str !in sentencesFreq {
        assert freqScore / numWords == Score(Split(str), dictFreq);
        sentencesFreq := sentencesFreq[str := freqScore / numWords];
        sentences := sentences + {str};
      }
    }

    /** The skip of CheckEnglish: finds the bit of the separator that
        follows the rejected token and, when that character of the input is
        a space, returns the mask just below the jump at that bit. */
    method SkipMask(full: string, perm: nat, checkLen: nat) returns (next: nat)
      requires perm < Pow2(|full|) && 1 <= checkLen && checkLen + 1 <= Zeros(perm, |full|)
      ensures next == SkipTo(full, perm, checkLen + 1)
    {
      var index := SeparatorBit(perm, checkLen);
      SeparatorBitFacts(full, perm, checkLen + 1);
      if full[|full| - index - 1] == ' ' {
        var newPerm := ClearBelow(SetBit(perm, index), index);
        return newPerm - 1;
      }
      return perm;
    }

    /** The word check of CheckEnglish: walks the tokens until one is not a
        word. Returns whether all are words; otherwise whether the rejected
        token differs from the last token (the skip is then allowed), and
        the number of characters after the separator that follows it. */
    method ScanTokens(subStrings: seq<string>, strLen: nat) returns (allWords: bool, wordSkip: bool, checkLen: int)
      requires |subStrings| >= 2
      ensures allWords <==> FirstRejected(subStrings, dict).None?
      ensures var k := FirstRejected(subStrings, dict);
              wordSkip == !(k.Some? && subStrings[k.value] == subStrings[|subStrings| - 1])
      ensures !allWords && wordSkip && checkLen > 0 ==>
                SkipOf(strLen, subStrings, dict) == Some(Skip(FirstRejected(subStrings, dict).value, checkLen))
      ensures !(!allWords && wordSkip && checkLen > 0) ==> SkipOf(strLen, subStrings, dict) == None
    {
      var numWords := |subStrings|;
      checkLen := 0;
      allWords := true;
      wordSkip := true;
      var i := 0;
      while i < numWords
        invariant 0 <= i <= numWords
        invariant allWords && wordSkip
        invariant forall j :: 0 <= j < i ==> Allowed(subStrings[j], dict)
        invariant checkLen == |JoinSep(subStrings[..i])|
      {
        var cur := subStrings[i];
        JoinSepStep(subStrings, i);
        checkLen := checkLen + |cur| + 1;
        if cur in OneLetterWords || cur in TwoLetterWords {
        } else if |cur| > 2 && cur in dict {
        } else {
          if cur == subStrings[numWords - 1] {
            wordSkip := false;
          }
          checkLen := strLen - checkLen;
          allWords := false;
          FirstRejectedAt(subStrings, dict, i);
          break;
        }
        i := i + 1;
      }
      ScanOutcome(strLen, subStrings, dict, allWords, wordSkip, checkLen);
    }

    /** The sum of the ranks of the tokens; a token without a rank adds 0. */
    method FreqScore(subStrings: seq<string>) returns (freqScore: nat)
      ensures freqScore == RankSum(subStrings, dictFreq)
    {
      freqScore := 0;
      for j := 0 to |subStrings|
        invariant freqScore == RankSum(subStrings[..j], dictFreq)
      {
        assert subStrings[..j + 1][..j] == subStrings[..j];
        var cur := subStrings[j];
        var rank := if cur in dictFreq then dictFreq[cur] else 0;
        freqScore := freqScore + rank;
      }
      assert subStrings[..|subStrings|] == subStrings;
    }

    /** Prints the answers not printed before, in ascending order of score;
        an answer's score is that of the sentence it was made from (the
        answer without its final punctuation). Returns the lines printed and
        the answers they show. */
    method PrintAnswers(answers: set<string>) returns (lines: seq<string>, printed: seq<string>)
      requires forall a :: a in answers ==> |a| >= 1 && a[..|a| - 1] in sentencesFreq
      modifies this`alreadyPrinted
      ensures alreadyPrinted == old(alreadyPrinted) + answers
      ensures forall a :: a in printed <==> a in answers && a !in old(alreadyPrinted)
      ensures Distinct(printed)
      ensures forall a :: a in printed ==> |a| >= 1 && a[..|a| - 1] in sentencesFreq
      ensures forall i, j :: 0 <= i < j < |printed| ==>
        sentencesFreq[printed[i][..|printed[i]| - 1]] <= sentencesFreq[printed[j][..|printed[j]| - 1]]
      ensures |lines| == |printed|
      ensures forall i :: 0 <= i < |printed| ==>
        lines[i] == Format(sentencesFreq[printed[i][..|printed[i]| - 1]], printed[i])
    {
      var answerFreq := AnswerScores(answers);
      var ordered := OrderByScore(answerFreq);
      ghost var seen := alreadyPrinted;
      lines, printed := PrintOrdered(ordered, answerFreq);
      FreshMembers(ordered, seen);
      FreshDistinct(ordered, seen);
      FreshSorted(ordered, seen, answerFreq);
      assert alreadyPrinted == old(alreadyPrinted) + answers;
      assert forall p :: 0 <= p < |printed| ==> printed[p] in printed;
    }

    /** The print loop of PrintAnswers: goes through `ordered` and prints
        each answer not printed before, adding it to alreadyPrinted. */
    method PrintOrdered(ordered: seq<string>, answerFreq: map<string, nat>) returns (lines: seq<string>, printed: seq<string>)
      requires Distinct(ordered)
      requires forall a :: a in ordered ==> a in answerFreq && |a| >= 1
      modifies this`alreadyPrinted
      ensures forall a :: a in alreadyPrinted <==> a in old(alreadyPrinted) || a in ordered
      ensures printed == Fresh(ordered, old(alreadyPrinted))
      ensures forall a :: a in printed ==> a in answerFreq && |a| >= 1
      ensures |lines| == |printed|
      ensures forall p :: 0 <= p < |printed| ==> lines[p] == Format(answerFreq[printed[p]], printed[p])
    {
      ghost var seen := alreadyPrinted;
      lines, printed := [], [];
      for i := 0 to |ordered|
        invariant forall a :: a in alreadyPrinted <==> a in seen || a in ordered[..i]
        invariant printed == Fresh(ordered[..i], seen)
        invariant forall a :: a in printed ==> a in answerFreq && |a| >= 1
        invariant |lines| == |printed|
        invariant forall p :: 0 <= p < |printed| ==> lines[p] == Format(answerFreq[printed[p]], printed[p])
      {
        lines, printed := PrintNext(ordered, answerFreq, i, seen, lines, printed);
      }
      assert ordered[..|ordered|] == ordered;
    }

    /** One iteration of the print loop: answer i is printed, and added to
        alreadyPrinted, unless it was printed before. */
    method PrintNext(ordered: seq<string>, answerFreq: map<string, nat>, i: nat, ghost seen: set<string>,
                     lines: seq<string>, printed: seq<string>) returns (lines': seq<string>, printed': seq<string>)
      requires Distinct(ordered) && i < |ordered|
      requires forall a :: a in ordered ==> a in answerFreq && |a| >= 1
      requires forall a :: a in alreadyPrinted <==> a in seen || a in ordered[..i]
      requires printed == Fresh(ordered[..i], seen)
      requires forall a :: a in printed ==> a in answerFreq && |a| >= 1
      requires |lines| == |printed|
      requires forall p :: 0 <= p < |printed| ==> lines[p] == Format(answerFreq[printed[p]], printed[p])
      modifies this`alreadyPrinted
      ensures forall a :: a in alreadyPrinted <==> a in seen || a in ordered[..i + 1]
      ensures printed' == Fresh(ordered[..i + 1], seen)
      ensures forall a :: a in printed' ==> a in answerFreq && |a| >= 1
      ensures |lines'| == |printed'|
      ensures forall p :: 0 <= p < |printed'| ==> lines'[p] == Format(answerFreq[printed'[p]], printed'[p])
    {
      var cur := ordered[i];
      FreshStep(ordered, i, seen);
      lines', printed' := lines, printed;
      if cur !in alreadyPrinted {
        LineAppended(lines, printed, answerFreq, cur);
        lines' := lines + [Format(answerFreq[cur], cur)];
        printed' := printed + [cur];
        alreadyPrinted := alreadyPrinted + {cur};
      }
    }

    /** The score of every answer: the score of the sentence it was made
        from, the answer without its last character. */
    method AnswerScores(answers: set<string>) returns (answerFreq: map<string, nat>)
      requires forall a :: a in answers ==> |a| >= 1 && a[..|a| - 1] in sentencesFreq
      ensures answerFreq.Keys == answers
      ensures forall a :: a in answerFreq ==> answerFreq[a] == sentencesFreq[a[..|a| - 1]]
    {
      answerFreq := map[];
      var rest := answers;
      while rest != {}
        invariant rest <= answers
        invariant answerFreq.Keys == answers - rest
        invariant forall a :: a in answerFreq ==> answerFreq[a] == sentencesFreq[a[..|a| - 1]]
        decreases rest
      {
        var cur :| cur in rest;
        answerFreq := answerFreq[cur := sentencesFreq[cur[..|cur| - 1]]];
        rest := rest - {cur};
      }
    }
  }

  /** The keys of `scores` in ascending order of score, each once; keys of
      equal score come in any order. */
  method OrderByScore(scores: map<string, nat>) returns (ordered: seq<string>)
    ensures forall a :: a in ordered <==> a in scores
    ensures Distinct(ordered) && SortedBy(ordered, scores)
  {
    ordered := [];
    var pending := scores.Keys;
    while pending != {}
      invariant pending <= scores.Keys
      invariant forall a :: a in ordered <==> a in scores && a !in pending
      invariant forall i, j :: 0 <= i < j < |ordered| ==> ordered[i] != ordered[j]
      invariant forall i, j :: 0 <= i < j < |ordered| ==> scores[ordered[i]] <= scores[ordered[j]]
      invariant forall i, a :: 0 <= i < |ordered| && a in pending ==> scores[ordered[i]] <= scores[a]
      decreases pending
    {
      MinExists(pending, scores);
      var cur :| cur in pending && forall a :: a in pending ==> scores[cur] <= scores[a];
      ordered := ordered + [cur];
      pending := pending - {cur};
    }
  }
}
