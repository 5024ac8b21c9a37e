/**
 * The chain of subtractions: the first message is the only starting
 * candidate, and each later message is subtracted from every candidate in
 * turn, the new candidate set being the union of the results.
 */
module MorseChain {
  import opened MorseSpec

  /** One chain step: every subtraction of b from every current candidate. */
  function Step(candidates: set<string>, b: string): set<string>
  {
    set a, r | a in candidates && r in Subtract(a, b) :: r
  }

  /** The candidates left after subtracting each of rest, in order. */
  function ReduceFrom(candidates: set<string>, rest: seq<string>): set<string>
    decreases |rest|
  {
    if |rest| == 0 then candidates
    else ReduceFrom(Step(candidates, rest[0]), rest[1..])
  }

  /** The result of the chain over messages, starting from the first one. */
  function Reduce(messages: seq<string>): set<string>
    requires |messages| > 0
  {
    ReduceFrom({messages[0]}, messages[1..])
  }

  lemma StepAdd(done: set<string>, a: string, b: string)
    ensures Step(done + {a}, b) == Step(done, b) + Subtract(a, b)
  {
  }

  /** With two messages the chain is a single subtraction. */
  lemma ReduceTwo(a: string, b: string)
    ensures Reduce([a, b]) == Subtract(a, b)
  {
    assert [a, b][1..] == [b] && [b][1..] == [];
    assert Reduce([a, b]) == ReduceFrom(Step({a}, b), []);
    assert Step({a}, b) == Subtract(a, b);
  }

  /** Once no candidate is left, none ever comes back. */
  lemma {:induction false} ReduceFromEmpty(rest: seq<string>)
    ensures ReduceFrom({}, rest) == {}
    decreases |rest|
  {
    if |rest| > 0 {
      assert Step({}, rest[0]) == {};
      ReduceFromEmpty(rest[1..]);
    }
  }

  /** The chain over xs + ys is the chain over ys started from the chain over xs. */
  lemma {:induction false} ReduceFromAppend(candidates: set<string>, xs: seq<string>, ys: seq<string>)
    ensures ReduceFrom(candidates, xs + ys) == ReduceFrom(ReduceFrom(candidates, xs), ys)
    decreases |xs|
  {
    if |xs| == 0 {
      assert xs + ys == ys;
    } else {
      assert (xs + ys)[0] == xs[0] && (xs + ys)[1..] == xs[1..] + ys;
      ReduceFromAppend(Step(candidates, xs[0]), xs[1..], ys);
    }
  }

  /** If some prefix of the chain already leaves nothing, so does the whole chain. */
  lemma EmptyStaysEmpty(messages: seq<string>, k: int)
    requires 1 <= k <= |messages|
    requires Reduce(messages[..k]) == {}
    ensures Reduce(messages) == {}
  {
    assert messages[1..] == messages[..k][1..] + messages[k..];
    ReduceFromAppend({messages[0]}, messages[..k][1..], messages[k..]);
    ReduceFromEmpty(messages[k..]);
  }

  /** Total length of a list of messages. */
  function TotalLength(ms: seq<string>): nat
    decreases |ms|
  {
    if |ms| == 0 then 0 else |ms[0]| + TotalLength(ms[1..])
  }

  /** Every candidate the chain leaves has lost exactly the later messages' length. */
  lemma {:induction false} ReduceFromLength(candidates: set<string>, rest: seq<string>, len: int, r: string)
    requires forall a :: a in candidates ==> |a| == len
    requires r in ReduceFrom(candidates, rest)
    ensures |r| == len - TotalLength(rest)
    decreases |rest|
  {
    if |rest| > 0 {
      forall x | x in Step(candidates, rest[0]) ensures |x| == len - |rest[0]| {
        var a :| a in candidates && x in Subtract(a, rest[0]);
        SubtractLength(a, rest[0], x);
      }
      ReduceFromLength(Step(candidates, rest[0]), rest[1..], len - |rest[0]|, r);
    }
  }

  // ---------------------------------------------------------------------
  // Subtracting two needles one after the other does not depend on their order

  /** Deletions of c from every string of s, the empty string kept. */
  function Then(s: set<string>, c: string): set<string>
  {
    set x, r | x in s && r in Deletions(x, c) :: r
  }

  /**
   * Deletions of two needles b and c at disjoint positions of h: each
   * haystack character is kept, matched to b's next character, or matched
   * to c's next character.
   */
  function Deletions2(h: string, b: string, c: string): set<string>
    decreases |h|
  {
    if |h| == 0 then (if |b| == 0 && |c| == 0 then {""} else {})
    else
      Prefixed([h[0]], Deletions2(h[1..], b, c))
      + (if |b| > 0 && h[0] == b[0] then Deletions2(h[1..], b[1..], c) else {})
      + (if |c| > 0 && h[0] == c[0] then Deletions2(h[1..], b, c[1..]) else {})
  }

  lemma {:induction false} Deletions2Symmetric(h: string, b: string, c: string)
    ensures Deletions2(h, b, c) == Deletions2(h, c, b)
    decreases |h|
  {
    if |h| > 0 {
      Deletions2Symmetric(h[1..], b, c);
      if |b| > 0 {
        Deletions2Symmetric(h[1..], b[1..], c);
      }
      if |c| > 0 {
        Deletions2Symmetric(h[1..], b, c[1..]);
      }
    }
  }

  lemma {:induction false} Deletions2NoFirst(h: string, c: string)
    ensures Deletions2(h, [], c) == Deletions(h, c)
    decreases |h|
  {
    if |h| > 0 {
      Deletions2NoFirst(h[1..], c);
      if |c| > 0 {
        Deletions2NoFirst(h[1..], c[1..]);
      } else {
        assert Prefixed([h[0]], {h[1..]}) == {h} by {
          assert [h[0]] + h[1..] == h;
        }
      }
    }
  }

  lemma ThenUnion(a: set<string>, b: set<string>, c: string)
    ensures Then(a + b, c) == Then(a, c) + Then(b, c)
  {
  }

  /** Deletions of c from a string that starts with x. */
  lemma DeletionsCons(x: char, s: string, c: string)
    ensures Deletions([x] + s, c)
         == Prefixed([x], Deletions(s, c))
            + (if |c| > 0 && x == c[0] then Deletions(s, c[1..]) else {})
  {
    var h := [x] + s;
    assert h[0] == x && h[1..] == s;
    if |c| == 0 {
      assert Prefixed([x], {s}) == {h};
    }
  }

  lemma ThenPrefixed(x: char, s: set<string>, c: string)
    ensures Then(Prefixed([x], s), c)
         == Prefixed([x], Then(s, c))
            + (if |c| > 0 && x == c[0] then Then(s, c[1..]) else {})
  {
    var lhs := Then(Prefixed([x], s), c);
    var rhs := Prefixed([x], Then(s, c)) + (if |c| > 0 && x == c[0] then Then(s, c[1..]) else {});
    forall r | r in lhs ensures r in rhs {
      var y, s' :| y in Prefixed([x], s) && r in Deletions(y, c) && s' in s && y == [x] + s';
      DeletionsCons(x, s', c);
    }
    forall r | r in rhs ensures r in lhs {
      if r in Prefixed([x], Then(s, c)) {
        var r' :| r' in Then(s, c) && r == [x] + r';
        var s' :| s' in s && r' in Deletions(s', c);
        DeletionsCons(x, s', c);
        assert r in Deletions([x] + s', c);
      } else {
        var s' :| s' in s && r in Deletions(s', c[1..]);
        DeletionsCons(x, s', c);
        assert r in Deletions([x] + s', c);
      }
    }
  }

  /** Deleting b and then c removes b and c at disjoint positions. */
  lemma {:induction false} ThenDeletions(h: string, b: string, c: string)
    ensures Then(Deletions(h, b), c) == Deletions2(h, b, c)
    decreases |h|
  {
    if |b| == 0 {
      Deletions2NoFirst(h, c);
    } else if |h| > 0 {
      var t := h[1..];
      var first := if h[0] == b[0] then Deletions(t, b[1..]) else {};
      ThenUnion(first, Prefixed([h[0]], Deletions(t, b)), c);
      ThenPrefixed(h[0], Deletions(t, b), c);
      ThenDeletions(t, b, c);
      if h[0] == b[0] {
        ThenDeletions(t, b[1..], c);
      }
      if |c| > 0 {
        ThenDeletions(t, b, c[1..]);
      }
    }
  }

  /** Deletions2 of b and c from every candidate. */
  function Deletions2Over(candidates: set<string>, b: string, c: string): set<string>
  {
    set a, r | a in candidates && r in Deletions2(a, b, c) :: r
  }

  /** Two chain steps read as one removal of both needles from each candidate. */
  lemma StepStep(candidates: set<string>, b: string, c: string)
    ensures Step(Step(candidates, b), c) == Deletions2Over(candidates, b, c) - {""}
  {
    var lhs := Step(Step(candidates, b), c);
    var rhs := Deletions2Over(candidates, b, c) - {""};
    forall r | r in lhs ensures r in rhs {
      var s, a :| s in Step(candidates, b) && r in Subtract(s, c) && a in candidates && s in Subtract(a, b);
      ThenDeletions(a, b, c);
      assert r in Then(Deletions(a, b), c);
    }
    forall r | r in rhs ensures r in lhs {
      var a :| a in candidates && r in Deletions2(a, b, c);
      ThenDeletions(a, b, c);
      var s :| s in Deletions(a, b) && r in Deletions(s, c);
      DeletionsLength(s, c, r);
      assert a in candidates && s in Subtract(a, b);
      assert s in Step(candidates, b);
      assert r in Subtract(s, c);
    }
    assert lhs == rhs;
  }

  /** Two consecutive chain steps commute. */
  lemma StepsCommute(candidates: set<string>, b: string, c: string)
    ensures Step(Step(candidates, b), c) == Step(Step(candidates, c), b)
  {
    StepStep(candidates, b, c);
    StepStep(candidates, c, b);
    forall a | a in candidates ensures Deletions2(a, b, c) == Deletions2(a, c, b) {
      Deletions2Symmetric(a, b, c);
    }
    var bc := Deletions2Over(candidates, b, c);
    var cb := Deletions2Over(candidates, c, b);
    forall r | r in bc ensures r in cb {
      var a :| a in candidates && r in Deletions2(a, b, c);
      assert r in Deletions2(a, c, b);
    }
    forall r | r in cb ensures r in bc {
      var a :| a in candidates && r in Deletions2(a, c, b);
      assert r in Deletions2(a, b, c);
    }
    assert bc == cb;
  }

  /** Swapping two neighbouring messages after the first leaves the chain's result unchanged. */
  lemma ReduceSwap(messages: seq<string>, i: int)
    requires 1 <= i < |messages| - 1
    ensures Reduce(messages) == Reduce(messages[i := messages[i + 1]][i + 1 := messages[i]])
  {
    var swapped := messages[i := messages[i + 1]][i + 1 := messages[i]];
    var b, c := messages[i], messages[i + 1];
    var start := ReduceFrom({messages[0]}, messages[1..i]);
    assert messages[1..] == messages[1..i] + ([b, c] + messages[i + 2..]);
    assert swapped[1..] == messages[1..i] + ([c, b] + messages[i + 2..]);
    ReduceFromAppend({messages[0]}, messages[1..i], [b, c] + messages[i + 2..]);
    ReduceFromAppend({messages[0]}, messages[1..i], [c, b] + messages[i + 2..]);
    assert ([b, c] + messages[i + 2..])[1..][1..] == messages[i + 2..];
    assert ([c, b] + messages[i + 2..])[1..][1..] == messages[i + 2..];
    StepsCommute(start, b, c);
  }

  /** Subtracting x first, or later after zs, gives the same chain. */
  lemma {:induction false} ReduceFromMoveToFront(candidates: set<string>, zs: seq<string>, x: string, ws: seq<string>)
    ensures ReduceFrom(candidates, zs + [x] + ws) == ReduceFrom(Step(candidates, x), zs + ws)
    decreases |zs|
  {
    if |zs| == 0 {
      assert zs + [x] + ws == [x] + ws && ([x] + ws)[1..] == ws && zs + ws == ws;
    } else {
      var a := zs[0];
      assert (zs + [x] + ws)[0] == a && (zs + [x] + ws)[1..] == zs[1..] + [x] + ws;
      assert (zs + ws)[0] == a && (zs + ws)[1..] == zs[1..] + ws;
      ReduceFromMoveToFront(Step(candidates, a), zs[1..], x, ws);
      StepsCommute(candidates, a, x);
    }
  }

  /** Where the first of xs sits in ys, when both hold the same messages. */
  lemma MatchingPosition(xs: seq<string>, ys: seq<string>) returns (p: int)
    requires multiset(xs) == multiset(ys) && |xs| > 0
    ensures 0 <= p < |ys| && ys == ys[..p] + [xs[0]] + ys[p + 1..]
    ensures multiset(xs[1..]) == multiset(ys[..p] + ys[p + 1..])
  {
    var x := xs[0];
    assert xs == [x] + xs[1..];
    assert x in multiset(ys);
    p :| 0 <= p < |ys| && ys[p] == x;
    var zs, ws := ys[..p], ys[p + 1..];
    assert ys == zs + [x] + ws;
    assert multiset(xs) == multiset([x]) + multiset(xs[1..]);
    assert multiset(ys) == multiset(zs + [x] + ws) == multiset(zs) + multiset([x]) + multiset(ws);
    assert multiset(zs + ws) == multiset(zs) + multiset(ws);
    assert multiset(xs[1..]) == multiset(xs) - multiset([x]);
    assert multiset(zs + ws) == multiset(ys) - multiset([x]);
  }

  /** The chain depends only on the multiset of the messages subtracted, not on their order. */
  lemma {:induction false} ReduceFromPermutation(candidates: set<string>, xs: seq<string>, ys: seq<string>)
    requires multiset(xs) == multiset(ys)
    ensures ReduceFrom(candidates, xs) == ReduceFrom(candidates, ys)
    decreases |xs|
  {
    if |xs| == 0 {
      assert |ys| == |multiset(ys)| == 0;
    } else {
      var x := xs[0];
      var p := MatchingPosition(xs, ys);
      var zs, ws := ys[..p], ys[p + 1..];
      ReduceFromPermutation(Step(candidates, x), xs[1..], zs + ws);
      ReduceFromMoveToFront(candidates, zs, x, ws);
    }
  }

  /** Any reordering of the messages after the first leaves the chain's result unchanged. */
  lemma ReduceReorder(messages: seq<string>, reordered: seq<string>)
    requires |messages| > 0 && |reordered| > 0 && reordered[0] == messages[0]
    requires multiset(messages[1..]) == multiset(reordered[1..])
    ensures Reduce(messages) == Reduce(reordered)
  {
    ReduceFromPermutation({messages[0]}, messages[1..], reordered[1..]);
  }
}
