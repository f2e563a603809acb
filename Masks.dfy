/** Deletion masks. A mask is a non-negative integer; bit i (0 is the least
    significant) belongs to the character at position |s| - 1 - i of the
    input, and a set bit deletes that character. This module gives the
    candidate a mask leaves, the bit arithmetic of the skip-ahead and the
    facts about both that the search relies on. */
module Masks {

  function Pow2(n: nat): (r: nat)
    ensures r >= 1
  {
    if n == 0 then 1 else 2 * Pow2(n - 1)
  }

  /** `m >> b`. */
  function Shr(m: nat, b: nat): nat
  {
    if b == 0 then m else Shr(m / 2, b - 1)
  }

  /** Bit i of m: `1 & (m >> i)`. */
  function Bit(m: nat, i: nat): nat
  {
    Shr(m, i) % 2
  }

  /** The number of clear bits among bits 0 .. n - 1 of m. */
  function Zeros(m: nat, n: nat): (r: nat)
    ensures r <= n
  {
    if n == 0 then 0 else (if m % 2 == 0 then 1 else 0) + Zeros(m / 2, n - 1)
  }

  /** The number of set bits of m. */
  function Popcount(m: nat): nat
  {
    if m == 0 then 0 else m % 2 + Popcount(m / 2)
  }

  /** What is left of `s` once mask m has deleted its characters: s[j] stays
      exactly when bit |s| - 1 - j of m is clear. Its length is the number of
      clear bits among the |s| bits the mask uses. */
  function Candidate(s: string, m: nat): (r: string)
    ensures |r| == Zeros(m, |s|)
    decreases |s|
  {
    if s == [] then []
    else Candidate(s[..|s| - 1], m / 2) + (if m % 2 == 0 then [s[|s| - 1]] else [])
  }

  /** The position of the q-th clear bit of m, counting from bit 0. */
  function NthZero(m: nat, q: nat): nat
    requires q >= 1
    decreases m + q
  {
    if m % 2 == 0 then (if q == 1 then 0 else 1 + NthZero(m / 2, q - 1))
    else 1 + NthZero(m / 2, q)
  }

  /** `m | (1 << b)`. */
  function SetBit(m: nat, b: nat): nat
  {
    if b == 0 then (if m % 2 == 1 then m else m + 1)
    else 2 * SetBit(m / 2, b - 1) + m % 2
  }

  /** `m & (~0 << b)`: the bits below b cleared. */
  function ClearBelow(m: nat, b: nat): nat
  {
    if b == 0 then m else 2 * ClearBelow(m / 2, b - 1)
  }

  /** The mask the skip-ahead moves to from `perm` at bit b:
      `(perm | (1 << b)) & (~0 << b)`. */
  function Jump(perm: nat, b: nat): nat
  {
    ClearBelow(SetBit(perm, b), b)
  }

  /** Bit j of `m >> b` is bit b + j of m. */
  lemma {:induction false} ShiftBit(m: nat, b: nat, j: nat)
    ensures Bit(Shr(m, b), j) == Bit(m, b + j)
    decreases b
  {
    if b > 0 {
      ShiftBit(m / 2, b - 1, j);
    }
  }

  // ---------------------------------------------------------------------
  // Clear bits

  lemma {:induction false} ZerosMonotone(m: nat, i: nat, j: nat)
    requires i <= j
    ensures Zeros(m, i) <= Zeros(m, j)
    decreases i
  {
    if i > 0 {
      ZerosMonotone(m / 2, i - 1, j - 1);
    }
  }

  /** Counting one bit further adds one exactly when that bit is clear. */
  lemma {:induction false} ZerosLast(m: nat, n: nat)
    ensures Zeros(m, n + 1) == Zeros(m, n) + (if Bit(m, n) == 0 then 1 else 0)
    decreases n
  {
    if n > 0 {
      ZerosLast(m / 2, n - 1);
    }
  }

  /** NthZero(m, q) is a clear bit with exactly q - 1 clear bits below it. */
  lemma {:induction false} NthZeroSpec(m: nat, q: nat)
    requires q >= 1
    ensures Bit(m, NthZero(m, q)) == 0
    ensures Zeros(m, NthZero(m, q)) == q - 1
    decreases m + q
  {
    if m % 2 == 0 && q == 1 {
    } else {
      var q' := if m % 2 == 0 then q - 1 else q;
      NthZeroSpec(m / 2, q');
    }
  }

  /** If the low n bits hold at least q clear bits, the q-th is among them. */
  lemma NthZeroBound(m: nat, q: nat, n: nat)
    requires 1 <= q <= Zeros(m, n)
    ensures NthZero(m, q) < n
  {
    var z := NthZero(m, q);
    NthZeroSpec(m, q);
    if z >= n {
      ZerosMonotone(m, n, z);
    }
  }

  /** Below the position of the q-th clear bit there are fewer than q clear
      bits; at and above it, at least q. */
  lemma NthZeroZeros(m: nat, q: nat, i: nat)
    requires q >= 1
    ensures i <= NthZero(m, q) ==> Zeros(m, i) <= q - 1
    ensures i > NthZero(m, q) ==> Zeros(m, i) >= q
  {
    var z := NthZero(m, q);
    NthZeroSpec(m, q);
    if i <= z {
      ZerosMonotone(m, i, z);
    } else {
      ZerosLast(m, z);
      ZerosMonotone(m, z + 1, i);
    }
  }

  /** Counting zeros within n bits is n minus the population count, for a
      mask that fits in n bits. */
  lemma {:induction false} ZerosPopcount(m: nat, n: nat)
    requires m < Pow2(n)
    ensures Zeros(m, n) == n - Popcount(m)
    decreases n
  {
    if n == 0 {
      assert m == 0;
    } else {
      ZerosPopcount(m / 2, n - 1);
    }
  }

  // ---------------------------------------------------------------------
  // Candidates

  /** Mask 0 deletes nothing. */
  lemma {:induction false} CandidateNone(s: string)
    ensures Candidate(s, 0) == s
    decreases |s|
  {
    if s != [] {
      CandidateNone(s[..|s| - 1]);
      assert s == s[..|s| - 1] + [s[|s| - 1]];
    }
  }

  /** The mask 2^|y|, whose bits inside y are all clear, keeps all of y. */
  lemma {:induction false} CandidateLowClear(y: string)
    ensures Candidate(y, Pow2(|y|)) == y
    decreases |y|
  {
    if y != [] {
      var y' := y[..|y| - 1];
      assert Pow2(|y|) / 2 == Pow2(|y'|) && Pow2(|y|) % 2 == 0;
      CandidateLowClear(y');
      assert y == y' + [y[|y| - 1]];
    }
  }

  /** Shifting 2^n right by n bits leaves 1. */
  lemma {:induction false} ShrPow2(n: nat)
    ensures Shr(Pow2(n), n) == 1
  {
    if n > 0 {
      assert Pow2(n) / 2 == Pow2(n - 1);
      ShrPow2(n - 1);
    }
  }

  /** The candidate of a concatenation: the last |y| bits of the mask
      govern y, the bits above them govern x. */
  lemma {:induction false} CandidateAppend(x: string, y: string, m: nat)
    ensures Candidate(x + y, m) == Candidate(x, Shr(m, |y|)) + Candidate(y, m)
    decreases |y|
  {
    if y == [] {
      assert x + y == x;
    } else {
      var y' := y[..|y| - 1];
      var L := if m % 2 == 0 then [y[|y| - 1]] else [];
      assert (x + y)[..|x + y| - 1] == x + y';
      CandidateAppend(x, y', m / 2);
      var X := Candidate(x, Shr(m, |y|));
      var Y := Candidate(y', m / 2);
      assert Candidate(x + y, m) == (X + Y) + L;
      assert (X + Y) + L == X + (Y + L);
    }
  }

  /** The candidate splits at any bit boundary: the first |s| - b characters
      are governed by `m >> b`, the last b by the low bits of m. */
  lemma CandidateSplit(s: string, m: nat, b: nat)
    requires b <= |s|
    ensures Candidate(s, m) == Candidate(s[..|s| - b], Shr(m, b)) + Candidate(s[|s| - b..], m)
  {
    var x, y := s[..|s| - b], s[|s| - b..];
    assert s == x + y && |y| == b;
    CandidateAppend(x, y, m);
  }

  /** The mask with only bit |y| set deletes exactly the character c that
      precedes y. */
  lemma DeleteOne(x: string, c: char, y: string)
    ensures Candidate(x + [c] + y, Pow2(|y|)) == x + y
  {
    var xc := x + [c];
    var m := Pow2(|y|);
    assert Candidate(xc + y, m) == Candidate(xc, Shr(m, |y|)) + Candidate(y, m) by {
      CandidateAppend(xc, y, m);
    }
    assert Shr(m, |y|) == 1 by {
      ShrPow2(|y|);
    }
    assert Candidate(y, m) == y by {
      CandidateLowClear(y);
    }
    assert Candidate(xc, 1) == x by {
      DropLast(x, c);
    }
  }

  /** Mask 1 deletes the last character. */
  lemma DropLast(x: string, c: char)
    ensures Candidate(x + [c], 1) == x
  {
    var xc := x + [c];
    assert xc[..|xc| - 1] == x;
    assert Candidate(xc, 1) == Candidate(x, 0);
    CandidateNone(x);
  }

  /** The candidate keeps exactly the characters whose bit is clear, in
      their original order: the kept character at position p lands at index
      "number of kept characters before p". */
  lemma {:induction false} CandidateKeeps(s: string, m: nat, p: nat)
    requires p < |s| && Bit(m, |s| - 1 - p) == 0
    ensures 0 <= Zeros(m, |s|) - Zeros(m, |s| - p) < |Candidate(s, m)|
    ensures Candidate(s, m)[Zeros(m, |s|) - Zeros(m, |s| - p)] == s[p]
    decreases |s|
  {
    if p < |s| - 1 {
      var s' := s[..|s| - 1];
      CandidateKeeps(s', m / 2, p);
    }
  }

  /** The candidate of a mask that fits the input has the input length
      minus the number of deleted characters. */
  lemma CandidateLength(s: string, m: nat)
    requires m < Pow2(|s|)
    ensures |Candidate(s, m)| == |s| - Popcount(m)
  {
    ZerosPopcount(m, |s|);
  }

  /** Dropping the characters of the low b bits: the candidate of the first
      |s| - b characters under m >> b is the candidate without its last
      Zeros(m, b) characters, and when bit b is clear the character of bit
      b is the last one it keeps. */
  lemma CandidatePrefix(s: string, m: nat, b: nat)
    requires b < |s| && Bit(m, b) == 0
    ensures var c := Candidate(s, m);
      && Zeros(m, b) < |c|
      && Candidate(s[..|s| - b], Shr(m, b)) == c[..|c| - Zeros(m, b)]
      && c[|c| - Zeros(m, b) - 1] == s[|s| - 1 - b]
  {
    CandidateSplit(s, m, b);
    assert |s[|s| - b..]| == b;
    var p := s[..|s| - b];
    assert p[|p| - 1] == s[|s| - 1 - b];
  }

  // ---------------------------------------------------------------------
  // The skip-ahead jump

  /** Jumping at bit b > 0 is jumping at bit b - 1 one position up. */
  lemma JumpStep(perm: nat, b: nat)
    requires b > 0
    ensures Jump(perm, b) == 2 * Jump(perm / 2, b - 1)
  {
  }

  /** The jump sets bit b, clears the bits below it and keeps those above. */
  lemma {:induction false} JumpBits(perm: nat, b: nat, i: nat)
    requires Bit(perm, b) == 0
    ensures Bit(Jump(perm, b), i) == if i < b then 0 else if i == b then 1 else Bit(perm, i)
    decreases b
  {
    if b == 0 {
      if i > 0 {
        ShiftBit(perm + 1, 1, i - 1);
        ShiftBit(perm, 1, i - 1);
      }
    } else {
      JumpStep(perm, b);
      ShiftBit(perm, 1, b - 1);
      if i > 0 {
        ShiftBit(perm, 1, i - 1);
        ShiftBit(Jump(perm, b), 1, i - 1);
        JumpBits(perm / 2, b - 1, i - 1);
      }
    }
  }

  /** The jump moves forward, and every mask strictly between perm and the
      jump target agrees with perm on bit b and every bit above it. */
  lemma {:induction false} JumpKeepsHighBits(perm: nat, b: nat, m: nat)
    requires Bit(perm, b) == 0
    ensures perm < Jump(perm, b)
    ensures perm < m < Jump(perm, b) ==> Shr(m, b) == Shr(perm, b)
    decreases b
  {
    if b > 0 {
      JumpStep(perm, b);
      ShiftBit(perm, 1, b - 1);
      JumpKeepsHighBits(perm / 2, b - 1, m / 2);
    }
  }

  /** When a clear bit lies below b, the jump passes over at least one mask
      besides perm itself. */
  lemma {:induction false} JumpGap(perm: nat, b: nat)
    requires Bit(perm, b) == 0 && Zeros(perm, b) >= 1
    ensures perm + 2 <= Jump(perm, b)
    decreases b
  {
    JumpStep(perm, b);
    assert Bit(perm / 2, b - 1) == 0;
    if Zeros(perm / 2, b - 1) >= 1 {
      JumpGap(perm / 2, b - 1);
    } else {
      JumpKeepsHighBits(perm / 2, b - 1, perm / 2);
    }
  }

  /** The jump stays inside the n-bit mask space. */
  lemma {:induction false} JumpBounds(perm: nat, b: nat, n: nat)
    requires perm < Pow2(n) && b < n && Bit(perm, b) == 0
    ensures Jump(perm, b) <= Pow2(n) - 1
    decreases b
  {
    if b > 0 {
      JumpStep(perm, b);
      ShiftBit(perm, 1, b - 1);
      JumpBounds(perm / 2, b - 1, n - 1);
    }
  }
}
