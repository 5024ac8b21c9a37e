/**
 * Reference definitions for subsequence-deletion ("Morse subtraction").
 *
 * Deletions(h, n) is the set of every string obtained from the haystack h by
 * removing one occurrence of the needle n as a subsequence.  It is defined by
 * the plain "skip or take the first character" recursion, and is tied to the
 * positional reading (increasing positions p0 < ... < pk-1 with h[pi] == n[i],
 * result = the fragments of h outside those positions) by DeletionsSound and
 * DeletionsComplete.  Branches is the first-match decomposition that the
 * scanning search of MorseSubtraction walks through.
 */
module MorseSpec {

  /** Puts p in front of every string of s. */
  function Prefixed(p: string, s: set<string>): set<string>
  {
    set x | x in s :: p + x
  }

  /** All strings left over after deleting one subsequence occurrence of n from h. */
  function Deletions(h: string, n: string): set<string>
    decreases |h|
  {
    if |n| == 0 then {h}
    else if |h| == 0 then {}
    else
      (if h[0] == n[0] then Deletions(h[1..], n[1..]) else {})
      + Prefixed([h[0]], Deletions(h[1..], n))
  }

  /** What one subtraction step produces: the deletions, without the empty string. */
  function Subtract(h: string, n: string): set<string>
  {
    Deletions(h, n) - {""}
  }

  // ---------------------------------------------------------------------
  // Algebra of Prefixed

  lemma PrefixedNil(s: set<string>)
    ensures Prefixed([], s) == s
  {
    forall x | x in s ensures x in Prefixed([], s) {
      assert [] + x == x;
    }
    forall y | y in Prefixed([], s) ensures y in s {
      var x :| x in s && y == [] + x;
      assert [] + x == x;
    }
  }

  lemma PrefixedUnion(p: string, a: set<string>, b: set<string>)
    ensures Prefixed(p, a + b) == Prefixed(p, a) + Prefixed(p, b)
  {
  }

  lemma PrefixedAppend(p: string, q: string, s: set<string>)
    ensures Prefixed(p, Prefixed(q, s)) == Prefixed(p + q, s)
  {
    forall x | x in s ensures p + (q + x) == (p + q) + x {
    }
    forall y | y in Prefixed(p + q, s) ensures y in Prefixed(p, Prefixed(q, s)) {
      var x :| x in s && y == (p + q) + x;
      assert y == p + (q + x);
    }
  }

  lemma {:induction false} PrefixedCard(p: string, s: set<string>)
    ensures |Prefixed(p, s)| == |s|
    decreases |s|
  {
    if s != {} {
      var x :| x in s;
      var rest := s - {x};
      PrefixedCard(p, rest);
      assert Prefixed(p, s) == Prefixed(p, rest) + {p + x};
      forall y | y in Prefixed(p, rest) ensures y != p + x {
        var z :| z in rest && y == p + z;
        assert (p + z)[|p|..] == z;
        assert (p + x)[|p|..] == x;
      }
    }
  }

  // ---------------------------------------------------------------------
  // Shape of the deletion set

  /** Every deletion is exactly |n| characters shorter than the haystack. */
  lemma {:induction false} DeletionsLength(h: string, n: string, r: string)
    requires r in Deletions(h, n)
    ensures |r| == |h| - |n|
    decreases |h|
  {
    if |n| != 0 && |h| != 0 {
      if h[0] == n[0] && r in Deletions(h[1..], n[1..]) {
        DeletionsLength(h[1..], n[1..], r);
      } else {
        var r' :| r' in Deletions(h[1..], n) && r == [h[0]] + r';
        DeletionsLength(h[1..], n, r');
      }
    }
  }

  /** A needle longer than the haystack cannot be deleted from it. */
  lemma DeletionsTooLong(h: string, n: string)
    requires |n| > |h|
    ensures Deletions(h, n) == {}
  {
    forall r | r in Deletions(h, n) ensures false {
      DeletionsLength(h, n, r);
    }
  }

  /** Deleting a string from itself leaves only the empty string. */
  lemma {:induction false} DeletionsSelf(h: string)
    ensures Deletions(h, h) == {""}
    decreases |h|
  {
    if |h| != 0 {
      DeletionsSelf(h[1..]);
    }
    forall r | r in Deletions(h, h) ensures r == "" {
      DeletionsLength(h, h, r);
    }
  }

  /** An empty needle leaves the haystack itself, dropped when that is empty. */
  lemma SubtractEmptyNeedle(h: string)
    ensures Subtract(h, "") == if h == "" then {} else {h}
  {
  }

  /** A needle longer than the haystack, or equal to it, gives nothing. */
  lemma SubtractNothingLeft(h: string, n: string)
    requires |n| > |h| || n == h
    ensures Subtract(h, n) == {}
  {
    if |n| > |h| {
      DeletionsTooLong(h, n);
    } else {
      DeletionsSelf(h);
    }
  }

  /** Every result of a subtraction is non-empty and |n| shorter than h. */
  lemma SubtractLength(h: string, n: string, r: string)
    requires r in Subtract(h, n)
    ensures |r| == |h| - |n| > 0
  {
    DeletionsLength(h, n, r);
  }

  // ---------------------------------------------------------------------
  // Counting: the deletion set is no larger than the number of occurrences

  lemma PrefixedSingleton(p: string, x: string)
    ensures Prefixed(p, {x}) == {p + x}
  {
  }

  /** R (*-*) minus E (*): the first or the last dot can go. */
  lemma SubtractExample()
    ensures Subtract("*-*", "*") == {"-*", "*-"}
  {
    assert Deletions("*", "*") == {""};
    PrefixedSingleton("-", "");
    assert "-" + "" == "-";
    assert Deletions("-*", "*") == {"-"};
    PrefixedSingleton("*", "-");
    assert "*" + "-" == "*-";
    assert Deletions("*-*", "*") == {"-*", "*-"};
  }

  /** The number of occurrences of n as a subsequence of h. */
  function Occurrences(h: string, n: string): nat
    decreases |h|
  {
    if |n| == 0 then 1
    else if |h| == 0 then 0
    else (if h[0] == n[0] then Occurrences(h[1..], n[1..]) else 0) + Occurrences(h[1..], n)
  }

  lemma {:induction false} DeletionsAtMostOccurrences(h: string, n: string)
    ensures |Deletions(h, n)| <= Occurrences(h, n)
    decreases |h|
  {
    if |n| != 0 && |h| != 0 {
      DeletionsAtMostOccurrences(h[1..], n);
      PrefixedCard([h[0]], Deletions(h[1..], n));
      if h[0] == n[0] {
        DeletionsAtMostOccurrences(h[1..], n[1..]);
      }
    }
  }

  // ---------------------------------------------------------------------
  // Positional reading of an occurrence

  /** ps lists, in strictly increasing order, haystack positions that spell the needle. */
  ghost predicate IsOccurrence(h: string, n: string, ps: seq<int>)
  {
    && |ps| == |n|
    && (forall i :: 0 <= i < |ps| ==> 0 <= ps[i] < |h| && h[ps[i]] == n[i])
    && (forall i, j :: 0 <= i < j < |ps| ==> ps[i] < ps[j])
  }

  /** The fragments of h from lo on that lie outside the positions ps, concatenated. */
  function Fragments(h: string, ps: seq<int>, lo: int): string
    requires 0 <= lo <= |h|
    requires forall i :: 0 <= i < |ps| ==> lo <= ps[i] < |h|
    requires forall i, j :: 0 <= i < j < |ps| ==> ps[i] < ps[j]
    decreases |ps|
  {
    if |ps| == 0 then h[lo..]
    else h[lo..ps[0]] + Fragments(h, ps[1..], ps[0] + 1)
  }

  /** h with the characters at positions ps removed. */
  function Erase(h: string, ps: seq<int>): string
    requires forall i :: 0 <= i < |ps| ==> 0 <= ps[i] < |h|
    requires forall i, j :: 0 <= i < j < |ps| ==> ps[i] < ps[j]
  {
    Fragments(h, ps, 0)
  }

  function Shift(ps: seq<int>, d: int): (r: seq<int>)
    ensures |r| == |ps|
    ensures forall i :: 0 <= i < |ps| ==> r[i] == ps[i] + d
  {
    seq(|ps|, i requires 0 <= i < |ps| => ps[i] + d)
  }

  lemma SliceOfTail(h: string, a: int, b: int)
    requires 1 <= a <= b <= |h|
    ensures h[a..b] == h[1..][a - 1..b - 1]
  {
    forall k | 0 <= k < b - a ensures h[a..b][k] == h[1..][a - 1..b - 1][k] {
    }
  }

  /** Dropping the first haystack character shifts every fragment boundary by one. */
  lemma {:induction false} FragmentsShift(h: string, ps: seq<int>, lo: int)
    requires 1 <= lo <= |h|
    requires forall i :: 0 <= i < |ps| ==> lo <= ps[i] < |h|
    requires forall i, j :: 0 <= i < j < |ps| ==> ps[i] < ps[j]
    ensures Fragments(h, ps, lo) == Fragments(h[1..], Shift(ps, -1), lo - 1)
    decreases |ps|
  {
    if |ps| == 0 {
      SliceOfTail(h, lo, |h|);
    } else {
      SliceOfTail(h, lo, ps[0]);
      assert Shift(ps, -1)[1..] == Shift(ps[1..], -1);
      FragmentsShift(h, ps[1..], ps[0] + 1);
    }
  }

  /** A kept character at lo comes first in the fragments. */
  lemma FragmentsPeel(h: string, ps: seq<int>, lo: int)
    requires 0 <= lo < |h|
    requires forall i :: 0 <= i < |ps| ==> lo < ps[i] < |h|
    requires forall i, j :: 0 <= i < j < |ps| ==> ps[i] < ps[j]
    ensures Fragments(h, ps, lo) == [h[lo]] + Fragments(h, ps, lo + 1)
  {
    if |ps| == 0 {
      assert h[lo..] == [h[lo]] + h[lo + 1..];
    } else {
      var rest := Fragments(h, ps[1..], ps[0] + 1);
      assert Fragments(h, ps, lo) == h[lo..ps[0]] + rest;
      assert Fragments(h, ps, lo + 1) == h[lo + 1..ps[0]] + rest;
      assert h[lo..ps[0]] == [h[lo]] + h[lo + 1..ps[0]];
    }
  }

  /** Positions ps shifted one place right, with position 0 in front. */
  function Cons0(ps: seq<int>): (r: seq<int>)
    ensures |r| == |ps| + 1 && r[0] == 0 && r[1..] == Shift(ps, 1)
    ensures forall i :: 0 < i < |r| ==> r[i] == ps[i - 1] + 1
  {
    [0] + Shift(ps, 1)
  }

  /** Matching the first needle character at haystack position 0. */
  lemma OccurrenceTake(h: string, n: string, ps': seq<int>)
    requires |h| > 0 && |n| > 0 && h[0] == n[0]
    requires IsOccurrence(h[1..], n[1..], ps')
    ensures IsOccurrence(h, n, Cons0(ps'))
    ensures Erase(h, Cons0(ps')) == Erase(h[1..], ps')
  {
    var ps := Cons0(ps');
    forall i | 0 <= i < |ps| ensures 0 <= ps[i] < |h| && h[ps[i]] == n[i] {
      if i > 0 {
        assert h[ps[i]] == h[1..][ps'[i - 1]];
      }
    }
    forall i, j | 0 <= i < j < |ps| ensures ps[i] < ps[j] {
      if i > 0 {
        assert ps'[i - 1] < ps'[j - 1];
      }
    }
    assert IsOccurrence(h, n, ps);
    assert Shift(Shift(ps', 1), -1) == ps';
    FragmentsShift(h, Shift(ps', 1), 1);
  }

  /** Keeping haystack position 0 and matching the needle further on. */
  lemma OccurrenceSkip(h: string, n: string, ps': seq<int>)
    requires |h| > 0
    requires IsOccurrence(h[1..], n, ps')
    ensures IsOccurrence(h, n, Shift(ps', 1))
    ensures Erase(h, Shift(ps', 1)) == [h[0]] + Erase(h[1..], ps')
  {
    var ps := Shift(ps', 1);
    assert Shift(ps, -1) == ps';
    FragmentsPeel(h, ps, 0);
    FragmentsShift(h, ps, 1);
  }

  /** An occurrence that uses haystack position 0 continues as one in the tail. */
  lemma OccurrenceUntake(h: string, n: string, ps: seq<int>)
    requires IsOccurrence(h, n, ps) && |n| > 0 && ps[0] == 0
    ensures |h| > 0 && h[0] == n[0]
    ensures IsOccurrence(h[1..], n[1..], Shift(ps[1..], -1))
    ensures Erase(h, ps) == Erase(h[1..], Shift(ps[1..], -1))
  {
    FragmentsShift(h, ps[1..], 1);
  }

  /** An occurrence that skips haystack position 0 is one in the tail. */
  lemma OccurrenceUnskip(h: string, n: string, ps: seq<int>)
    requires IsOccurrence(h, n, ps) && |h| > 0
    requires |ps| == 0 || ps[0] > 0
    ensures IsOccurrence(h[1..], n, Shift(ps, -1))
    ensures Erase(h, ps) == [h[0]] + Erase(h[1..], Shift(ps, -1))
  {
    assert forall i :: 0 <= i < |ps| ==> ps[0] <= ps[i];
    FragmentsPeel(h, ps, 0);
    FragmentsShift(h, ps, 1);
  }

  /** Soundness: every deletion is the erasure of some occurrence. */
  lemma {:induction false} DeletionsSound(h: string, n: string, r: string)
    requires r in Deletions(h, n)
    ensures exists ps :: IsOccurrence(h, n, ps) && Erase(h, ps) == r
    decreases |h|
  {
    if |n| == 0 {
      assert IsOccurrence(h, n, []) && Erase(h, []) == r;
    } else if h[0] == n[0] && r in Deletions(h[1..], n[1..]) {
      DeletionsSound(h[1..], n[1..], r);
      var ps' :| IsOccurrence(h[1..], n[1..], ps') && Erase(h[1..], ps') == r;
      OccurrenceTake(h, n, ps');
    } else {
      var r' :| r' in Deletions(h[1..], n) && r == [h[0]] + r';
      DeletionsSound(h[1..], n, r');
      var ps' :| IsOccurrence(h[1..], n, ps') && Erase(h[1..], ps') == r';
      OccurrenceSkip(h, n, ps');
    }
  }

  /** Completeness: the erasure of every occurrence is a deletion. */
  lemma {:induction false} DeletionsComplete(h: string, n: string, ps: seq<int>)
    requires IsOccurrence(h, n, ps)
    ensures Erase(h, ps) in Deletions(h, n)
    decreases |h|
  {
    if |n| != 0 {
      assert 0 <= ps[0] < |h|;
      if ps[0] == 0 {
        OccurrenceUntake(h, n, ps);
        DeletionsComplete(h[1..], n[1..], Shift(ps[1..], -1));
      } else {
        OccurrenceUnskip(h, n, ps);
        DeletionsComplete(h[1..], n, Shift(ps, -1));
      }
    }
  }

  /** The result of one subtraction, read positionally. */
  lemma SubtractCharacterization(h: string, n: string, r: string)
    ensures r in Subtract(h, n) <==> r != "" && exists ps :: IsOccurrence(h, n, ps) && Erase(h, ps) == r
  {
    if r in Deletions(h, n) {
      DeletionsSound(h, n, r);
    }
    if exists ps :: IsOccurrence(h, n, ps) && Erase(h, ps) == r {
      var ps :| IsOccurrence(h, n, ps) && Erase(h, ps) == r;
      DeletionsComplete(h, n, ps);
    }
  }

  // ---------------------------------------------------------------------
  // First-match decomposition, the shape of the scanning search

  /**
   * The deletions whose first needle character is matched at a haystack
   * position below k: for each such position j with h[j] == n[0], the
   * prefix h[..j] is kept and the rest of the needle is deleted from h[j+1..].
   */
  function Branches(h: string, n: string, k: int): set<string>
    requires |n| > 0 && 0 <= k <= |h|
    decreases k
  {
    if k == 0 then {}
    else
      Branches(h, n, k - 1)
      + (if h[k - 1] == n[0] then Prefixed(h[..k - 1], Deletions(h[k..], n[1..])) else {})
  }

  /** Positions that do not match, or that leave too little haystack, add nothing. */
  lemma {:induction false} BranchesStable(h: string, n: string, lo: int, hi: int)
    requires |n| > 0 && 0 <= lo <= hi <= |h|
    requires forall j :: lo <= j < hi ==> h[j] != n[0] || |h| - j < |n|
    ensures Branches(h, n, lo) == Branches(h, n, hi)
    decreases hi
  {
    if lo < hi {
      BranchesStable(h, n, lo, hi - 1);
      if h[hi - 1] == n[0] {
        DeletionsTooLong(h[hi..], n[1..]);
      }
    }
  }

  /** Peeling the first haystack character off the first-match decomposition. */
  lemma {:induction false} BranchesCons(h: string, n: string, k: int)
    requires |n| > 0 && 0 <= k < |h|
    ensures Branches(h, n, k + 1)
         == (if h[0] == n[0] then Deletions(h[1..], n[1..]) else {})
            + Prefixed([h[0]], Branches(h[1..], n, k))
    decreases k
  {
    var t := h[1..];
    if k == 0 {
      assert h[..0] == [];
      PrefixedNil(if h[0] == n[0] then Deletions(h[1..], n[1..]) else {});
    } else {
      BranchesCons(h, n, k - 1);
      var d := Deletions(h[k + 1..], n[1..]);
      assert h[k] == t[k - 1] && h[k + 1..] == t[k..];
      assert h[..k] == [h[0]] + t[..k - 1];
      PrefixedUnion([h[0]], Branches(t, n, k - 1),
                    if t[k - 1] == n[0] then Prefixed(t[..k - 1], d) else {});
      PrefixedAppend([h[0]], t[..k - 1], d);
    }
  }

  /** The deletions are exactly the union over every first-match position. */
  lemma {:induction false} DeletionsFirstMatch(h: string, n: string)
    requires |n| > 0
    ensures Deletions(h, n) == Branches(h, n, |h|)
    decreases |h|
  {
    if |h| > 0 {
      BranchesCons(h, n, |h| - 1);
      DeletionsFirstMatch(h[1..], n);
    }
  }

  /**
   * The scan may stop at position k once no later position both matches the
   * first needle character and leaves room for the rest of the needle: the
   * positions scanned so far already account for every deletion.
   */
  lemma EarlyStopLosesNothing(h: string, n: string, k: int)
    requires |n| > 0 && 0 <= k <= |h|
    requires forall j :: k <= j < |h| ==> h[j] != n[0] || |h| - j < |n|
    ensures Branches(h, n, k) == Deletions(h, n)
  {
    BranchesStable(h, n, k, |h|);
    DeletionsFirstMatch(h, n);
  }

  // ---------------------------------------------------------------------
  // Needles as long as the haystack

  /** A needle as long as the haystack but different from it cannot be deleted. */
  lemma DeletionsTooLongOrDifferent(h: string, n: string)
    requires |n| >= |h| && n != h
    ensures Deletions(h, n) == {}
  {
    if |n| > |h| {
      DeletionsTooLong(h, n);
    } else {
      forall r | r in Deletions(h, n) ensures false {
        DeletionsLength(h, n, r);
        assert r == "";
        DeletionsSound(h, n, r);
        var ps :| IsOccurrence(h, n, ps) && Erase(h, ps) == r;
        OccurrenceFillsHaystack(h, n, ps);
      }
    }
  }

  /** An occurrence of a needle as long as the haystack is the haystack itself. */
  lemma OccurrenceFillsHaystack(h: string, n: string, ps: seq<int>)
    requires IsOccurrence(h, n, ps) && |n| == |h|
    ensures n == h
  {
    forall i | 0 <= i < |ps| ensures ps[i] == i {
      OccurrencePositionBounds(h, n, ps, i);
    }
  }

  /** The i-th matched position leaves room for i characters before it and the rest after it. */
  lemma {:induction false} OccurrencePositionBounds(h: string, n: string, ps: seq<int>, i: int)
    requires IsOccurrence(h, n, ps) && 0 <= i < |ps|
    ensures i <= ps[i] <= |h| - |ps| + i
    decreases |ps| - i
  {
    if i + 1 < |ps| {
      OccurrencePositionBounds(h, n, ps, i + 1);
    }
    LowerBound(ps, i);
  }

  lemma {:induction false} LowerBound(ps: seq<int>, i: int)
    requires 0 <= i < |ps|
    requires forall k :: 0 <= k < |ps| ==> 0 <= ps[k]
    requires forall k, j :: 0 <= k < j < |ps| ==> ps[k] < ps[j]
    ensures i <= ps[i]
    decreases i
  {
    if i > 0 {
      LowerBound(ps, i - 1);
    }
  }
}
