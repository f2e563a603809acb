/** Which tokens count as words, how a candidate's tokens are scored, and
    how the dictionary's ranks are assigned. */
module Words {
  import opened Wrappers
  import opened Text

  /** One-letter words accepted without a dictionary lookup. */
  const OneLetterWords: set<string> := {"a", "i"}

  /** Two-letter words accepted without a dictionary lookup. */
  const TwoLetterWords: set<string> := {
    "ad", "am", "an", "as", "at", "be", "by", "do", "go", "ha", "he", "hi", "if", "in",
    "is", "it", "me", "my", "no", "of", "ok", "on", "or", "so", "to", "up", "us", "we"
  }

  /** A token is a word if it is one of the fixed short words, or longer
      than two characters and in the dictionary. */
  predicate Allowed(t: string, dict: set<string>)
  {
    t in OneLetterWords || t in TwoLetterWords || (|t| > 2 && t in dict)
  }

  /** A token longer than two characters is a word exactly when it is in
      the dictionary: the fixed words have one or two letters. */
  lemma LongAllowed(t: string, dict: set<string>)
    requires |t| > 2
    ensures Allowed(t, dict) <==> t in dict
  {
    assert forall w :: w in OneLetterWords ==> |w| == 1;
    assert forall w :: w in TwoLetterWords ==> |w| == 2;
  }

  /** The index of the first token that is not a word, if there is one. */
  function FirstRejected(ts: seq<string>, dict: set<string>): (r: Option<nat>)
    ensures r.None? <==> forall j :: 0 <= j < |ts| ==> Allowed(ts[j], dict)
    ensures r.Some? ==> r.value < |ts| && !Allowed(ts[r.value], dict)
    ensures r.Some? ==> forall j :: 0 <= j < r.value ==> Allowed(ts[j], dict)
    decreases |ts|
  {
    if ts == [] then None
    else if !Allowed(ts[0], dict) then Some(0)
    else match FirstRejected(ts[1..], dict)
      case None => None
      case Some(k) => Some(k + 1)
  }

  /** A token that is not a word, after tokens that all are, is the first
      rejected one. */
  lemma FirstRejectedAt(ts: seq<string>, dict: set<string>, i: nat)
    requires i < |ts| && !Allowed(ts[i], dict)
    requires forall j :: 0 <= j < i ==> Allowed(ts[j], dict)
    ensures FirstRejected(ts, dict) == Some(i)
  {
    var r := FirstRejected(ts, dict);
    assert r.Some?;
    assert !(r.value < i);
  }

  /** What follows the first rejected token does not change which token is
      rejected first. */
  lemma FirstRejectedPrefix(ts: seq<string>, k: nat, rest: seq<string>, dict: set<string>)
    requires FirstRejected(ts, dict) == Some(k)
    ensures FirstRejected(ts[..k + 1] + rest, dict) == Some(k)
  {
    var us := ts[..k + 1] + rest;
    assert forall j :: 0 <= j <= k ==> us[j] == ts[j];
  }

  /** A candidate is recorded when it has at least two tokens and all of
      them are words. */
  predicate Accepted(str: string, dict: set<string>)
  {
    var ts := Split(str);
    |ts| >= 2 && FirstRejected(ts, dict).None?
  }

  /** The rank a token contributes: its dictionary rank, or 0 when it has
      none. */
  function RankOf(t: string, ranks: map<string, nat>): nat
  {
    if t in ranks then ranks[t] else 0
  }

  function RankSum(ts: seq<string>, ranks: map<string, nat>): nat
  {
    if ts == [] then 0 else RankSum(ts[..|ts| - 1], ranks) + RankOf(ts[|ts| - 1], ranks)
  }

  /** The score of a sentence: the average rank of its tokens, rounded
      down. */
  function Score(ts: seq<string>, ranks: map<string, nat>): nat
    requires |ts| >= 1
  {
    RankSum(ts, ranks) / |ts|
  }

  lemma {:induction false} RankSumBounds(ts: seq<string>, ranks: map<string, nat>, lo: nat, hi: nat)
    requires forall t :: t in ts ==> lo <= RankOf(t, ranks) <= hi
    ensures |ts| * lo <= RankSum(ts, ranks) <= |ts| * hi
    decreases |ts|
  {
    if ts != [] {
      var init := ts[..|ts| - 1];
      var last := ts[|ts| - 1];
      assert lo <= RankOf(last, ranks) <= hi by {
        assert last in ts;
      }
      assert |init| * lo <= RankSum(init, ranks) <= |init| * hi by {
        assert forall t :: t in init ==> t in ts;
        RankSumBounds(init, ranks, lo, hi);
      }
      MulSucc(|init|, lo);
      MulSucc(|init|, hi);
    }
  }

  lemma MulSucc(n: nat, x: nat)
    ensures (n + 1) * x == n * x + x
  {
  }

  /** The score is an average: it lies between the smallest and the largest
      rank of the sentence's tokens. */
  lemma ScoreBounds(ts: seq<string>, ranks: map<string, nat>, lo: nat, hi: nat)
    requires |ts| >= 1
    requires forall t :: t in ts ==> lo <= RankOf(t, ranks) <= hi
    ensures lo <= Score(ts, ranks) <= hi
  {
    RankSumBounds(ts, ranks, lo, hi);
    DivBetween(RankSum(ts, ranks), |ts|, lo, hi);
  }

  lemma MulMonotone(n: nat, a: int, b: int)
    requires a <= b
    ensures n * a <= n * b
  {
    assert n * b - n * a == n * (b - a);
  }

  lemma DivBetween(s: nat, n: nat, lo: nat, hi: nat)
    requires n >= 1 && n * lo <= s <= n * hi
    ensures lo <= s / n <= hi
  {
    var q, r := s / n, s % n;
    assert s == n * q + r && r < n;
    if q > hi {
      MulMonotone(n, hi + 1, q);
    }
    if q < lo {
      MulMonotone(n, q + 1, lo);
    }
  }

  // ---------------------------------------------------------------------
  // Dictionary ranks

  /** The rank assignment of the dictionary loader: each word not seen yet
      gets the next rank n, a repeated word is skipped. */
  function AssignRanks(ranks: map<string, nat>, words: seq<string>, n: nat): map<string, nat>
    decreases |words|
  {
    if words == [] then ranks
    else if words[0] in ranks then AssignRanks(ranks, words[1..], n)
    else AssignRanks(ranks[words[0] := n], words[1..], n + 1)
  }

  /** The distinct words in order of first occurrence. */
  function Dedup(words: seq<string>): (r: seq<string>)
    ensures forall i, j :: 0 <= i < j < |r| ==> r[i] != r[j]
    ensures forall w :: w in r <==> w in words
  {
    if words == [] then []
    else
      var d := Dedup(words[..|words| - 1]);
      var w := words[|words| - 1];
      assert words == words[..|words| - 1] + [w];
      if w in d then d else d + [w]
  }

  /** `ranks` gives each word of `d` its index in `d`, and nothing else. */
  ghost predicate RanksOf(ranks: map<string, nat>, d: seq<string>)
  {
    && ranks.Keys == (set w | w in d)
    && forall i :: 0 <= i < |d| ==> d[i] in ranks && ranks[d[i]] == i
  }

  lemma {:induction false} AssignRanksDense(ranks: map<string, nat>, seen: seq<string>, words: seq<string>, n: nat)
    requires RanksOf(ranks, Dedup(seen)) && n == |Dedup(seen)|
    ensures RanksOf(AssignRanks(ranks, words, n), Dedup(seen + words))
    decreases |words|
  {
    if words == [] {
      assert seen + words == seen;
    } else {
      var w := words[0];
      var seen' := seen + [w];
      var d := Dedup(seen);
      assert seen'[..|seen'| - 1] == seen;
      assert seen' + words[1..] == seen + words;
      assert w in ranks <==> w in d;
      if w in ranks {
        AssignRanksDense(ranks, seen', words[1..], n);
      } else {
        var ranks' := ranks[w := n];
        var d' := d + [w];
        assert Dedup(seen') == d';
        assert ranks'.Keys == (set x | x in d') by {
          forall x ensures x in ranks'.Keys <==> x in d' {
            assert x in d' <==> x in d || x == w;
          }
        }
        forall i | 0 <= i < |d'| ensures d'[i] in ranks' && ranks'[d'[i]] == i {
          if i < |d| {
            assert d'[i] == d[i] && d[i] != w;
          }
        }
        AssignRanksDense(ranks', seen', words[1..], n + 1);
      }
    }
  }

  /** Loading a word list into an empty dictionary ranks the distinct words
      0, 1, 2, ... in order of first occurrence, skipping repeats. */
  lemma InitialRanks(words: seq<string>)
    ensures RanksOf(AssignRanks(map[], words, 0), Dedup(words))
  {
    assert RanksOf(map[], Dedup([]));
    AssignRanksDense(map[], [], words, 0);
    assert [] + words == words;
  }
}
