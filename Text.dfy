/** String helpers shared by the search and by the grammar rules: splitting
    at spaces, joining, substring search, ASCII case mapping and decimal
    rendering of scores. */
module Text {

  /** The tokens of `s`, split at every space the way `String.Split(null)`
      splits: two adjacent spaces give an empty token, and there is always
      at least one token. Only ' ' is treated as whitespace. */
  function Split(s: string): (r: seq<string>)
    ensures |r| >= 1
    ensures forall t :: t in r ==> ' ' !in t
    decreases |s|
  {
    if s == [] then [""]
    else
      var rest := Split(s[1..]);
      if s[0] == ' ' then [""] + rest
      else [[s[0]] + rest[0]] + rest[1..]
  }

  /** The tokens separated by single spaces: the inverse of Split. */
  function Join(ts: seq<string>): string
    requires |ts| >= 1
  {
    if |ts| == 1 then ts[0] else ts[0] + " " + Join(ts[1..])
  }

  /** Every token followed by one space: the text of a candidate up to and
      including the separator after its last token in `ts`. */
  function JoinSep(ts: seq<string>): (r: string)
    ensures |r| >= |ts|
  {
    if ts == [] then "" else JoinSep(ts[..|ts| - 1]) + ts[|ts| - 1] + " "
  }

  /** One more token adds its length and one separator. */
  lemma JoinSepStep(ts: seq<string>, i: nat)
    requires i < |ts|
    ensures |JoinSep(ts[..i + 1])| == |JoinSep(ts[..i])| + |ts[i]| + 1
  {
    assert ts[..i + 1][..i] == ts[..i];
  }

  predicate NoSpaces(ts: seq<string>)
  {
    forall t :: t in ts ==> ' ' !in t
  }

  /** Splitting and joining are inverse: no text is lost by Split. */
  lemma {:induction false} JoinSplit(s: string)
    ensures Join(Split(s)) == s
    decreases |s|
  {
    if s != [] {
      var rest := Split(s[1..]);
      JoinSplit(s[1..]);
      assert s == [s[0]] + s[1..];
      if s[0] == ' ' {
        assert Split(s)[1..] == rest;
      } else if |rest| > 1 {
        var r := Split(s);
        assert r[1..] == rest[1..];
        calc {
          Join(r);
          r[0] + " " + Join(r[1..]);
          [s[0]] + rest[0] + " " + Join(rest[1..]);
          [s[0]] + Join(rest);
        }
      }
    }
  }

  /** A space-free word is a single token. */
  lemma {:induction false} SplitWord(t: string)
    requires ' ' !in t
    ensures Split(t) == [t]
    decreases |t|
  {
    if t != [] {
      SplitWord(t[1..]);
      assert t == [t[0]] + t[1..];
    }
  }

  /** A space-free word followed by a space is the first token of what
      follows it. */
  lemma {:induction false} SplitToken(t: string, rest: string)
    requires ' ' !in t
    ensures Split(t + " " + rest) == [t] + Split(rest)
    decreases |t|
  {
    var s := t + " " + rest;
    if t == [] {
      assert s[1..] == rest;
    } else {
      assert s[1..] == t[1..] + " " + rest;
      SplitToken(t[1..], rest);
      assert t == [t[0]] + t[1..];
    }
  }

  /** The other half of the round trip: space-free tokens come back out of
      Split unchanged. */
  lemma {:induction false} SplitJoin(ts: seq<string>)
    requires |ts| >= 1 && NoSpaces(ts)
    ensures Split(Join(ts)) == ts
    decreases |ts|
  {
    if |ts| == 1 {
      SplitWord(ts[0]);
    } else {
      SplitJoin(ts[1..]);
      SplitToken(ts[0], Join(ts[1..]));
      assert ts == [ts[0]] + ts[1..];
    }
  }

  /** Whatever follows a run of complete tokens, those tokens are the first
      tokens of the whole text. */
  lemma {:induction false} SplitAfter(ts: seq<string>, rest: string)
    requires NoSpaces(ts)
    ensures Split(JoinSep(ts) + rest) == ts + Split(rest)
    decreases |ts|
  {
    if ts != [] {
      var init, last := ts[..|ts| - 1], ts[|ts| - 1];
      var tail := last + " " + rest;
      assert ' ' !in last by { assert last in ts; }
      assert NoSpaces(init) by {
        forall t | t in init ensures ' ' !in t {
          assert t in ts;
        }
      }
      calc {
        Split(JoinSep(ts) + rest);
        { assert JoinSep(ts) + rest == JoinSep(init) + tail; }
        Split(JoinSep(init) + tail);
        { SplitAfter(init, tail); }
        init + Split(tail);
        { SplitToken(last, rest); }
        init + ([last] + Split(rest));
        { assert ts == init + [last]; }
        ts + Split(rest);
      }
    } else {
      assert JoinSep(ts) + rest == rest;
    }
  }

  /** Joined text, cut after the separator that follows token k - 1. */
  lemma {:induction false} JoinAt(ts: seq<string>, k: nat)
    requires k < |ts|
    ensures Join(ts) == JoinSep(ts[..k]) + Join(ts[k..])
    decreases k
  {
    if k > 0 {
      JoinAt(ts, k - 1);
      assert ts[k - 1..][1..] == ts[k..];
      assert ts[..k][..k - 1] == ts[..k - 1];
      assert Join(ts[k - 1..]) == ts[k - 1] + " " + Join(ts[k..]);
    }
  }

  /** Substring test, as `String.Contains`. */
  predicate Contains(s: string, sub: string)
    decreases |s|
  {
    (|sub| <= |s| && s[..|sub|] == sub) || (s != [] && Contains(s[1..], sub))
  }

  /** `sub` occurs in `s` starting at index i. */
  predicate OccursAt(s: string, sub: string, i: nat)
  {
    i + |sub| <= |s| && s[i..i + |sub|] == sub
  }

  /** The substring test finds `sub` exactly when it occurs in `s` at
      some index. */
  lemma {:induction false} ContainsAt(s: string, sub: string)
    ensures Contains(s, sub) <==> exists i: nat :: OccursAt(s, sub, i)
    decreases |s|
  {
    if Contains(s, sub) {
      if |sub| <= |s| && s[..|sub|] == sub {
        assert OccursAt(s, sub, 0);
      } else {
        ContainsAt(s[1..], sub);
        var i: nat :| OccursAt(s[1..], sub, i);
        assert s[1..][i..i + |sub|] == s[i + 1..i + 1 + |sub|];
        assert OccursAt(s, sub, i + 1);
      }
    }
    if exists i: nat :: OccursAt(s, sub, i) {
      var i: nat :| OccursAt(s, sub, i);
      if i == 0 {
        assert s[..|sub|] == sub;
      } else {
        assert s[1..][i - 1..i - 1 + |sub|] == s[i..i + |sub|];
        assert OccursAt(s[1..], sub, i - 1);
        ContainsAt(s[1..], sub);
      }
    }
  }

  function ToUpper(c: char): char
  {
    if 'a' <= c <= 'z' then (c as int - 32) as char else c
  }

  function ToLower(c: char): char
  {
    if 'A' <= c <= 'Z' then (c as int + 32) as char else c
  }

  function ToLowerAll(s: string): (r: string)
    ensures |r| == |s|
  {
    if s == [] then [] else [ToLower(s[0])] + ToLowerAll(s[1..])
  }

  /** Lower-casing twice is lower-casing once. */
  lemma {:induction false} ToLowerAllTwice(s: string)
    ensures ToLowerAll(ToLowerAll(s)) == ToLowerAll(s)
  {
    if s != [] {
      ToLowerAllTwice(s[1..]);
      var r := ToLowerAll(s);
      assert r[1..] == ToLowerAll(s[1..]);
    }
  }

  predicate IsDigit(c: char)
  {
    '0' <= c <= '9'
  }

  function DigitChar(d: nat): char
    requires d < 10
  {
    ('0' as int + d) as char
  }

  /** Decimal rendering of a non-negative integer, as `int.ToString()`:
      only digits, and no leading zero. */
  function NatToString(n: nat): (r: string)
    ensures |r| >= 1
  {
    if n < 10 then [DigitChar(n)] else NatToString(n / 10) + [DigitChar(n % 10)]
  }

  /** Reads decimal digits back: the reference for NatToString. */
  function ParseDigits(s: string): nat
    requires forall j :: 0 <= j < |s| ==> IsDigit(s[j])
  {
    if s == [] then 0
    else
      var c := s[|s| - 1];
      assert IsDigit(c);
      10 * ParseDigits(s[..|s| - 1]) + (c as int - '0' as int)
  }

  /** A rendered score holds only digits, has no leading zero and reads
      back as the same number. */
  lemma {:induction false} NatToStringSpec(n: nat)
    ensures forall j :: 0 <= j < |NatToString(n)| ==> IsDigit(NatToString(n)[j])
    ensures NatToString(n)[0] == '0' ==> n == 0
    ensures ParseDigits(NatToString(n)) == n
  {
    var r := NatToString(n);
    if n >= 10 {
      NatToStringSpec(n / 10);
      assert r[..|r| - 1] == NatToString(n / 10);
    }
  }
}
