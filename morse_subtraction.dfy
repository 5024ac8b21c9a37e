/**
 * The operations of the MorseSubtraction program: decoding a message
 * identifier, the recursive scanning search that collects every deletion of
 * a needle from a haystack into a shared result set, the wrapper that drops
 * the empty string, and the left-to-right chain over a list of messages.
 */
module MorseSubtraction {
  import opened MorseSpec
  import opened MorseChain

  datatype Result<T> = Success(value: T) | Failure(error: string)

  /** The built-in table of named messages. */
  const DefaultMessages: map<string, string> := map[
    "AB" := "*-_-***",
    "R" := "*-*",
    "HELLO" := "****_*_*-**_*-**_---___*--_---_*-*_*-**_-**",
    "HELP" := "****_*_*-**_*--*",
    "ABCD" := "*-_-***_-*-*_-**",
    "ST" := "***_-",
    "ZN" := "--**_-*",
    "STARWARS" := "-_****_*___***_-_*-_*-*___*--_*-_*-*_***___***_*-_--*_*-",
    "YODA" := "-*--_---_-**_*-",
    "LEIA" := "*-**_*_**_*-"
  ]

  predicate IsSymbol(c: char)
  {
    c == '*' || c == '_' || c == '-'
  }

  /** The whole of id matches the pattern [*_-]+. */
  predicate IsSymbolString(id: string)
  {
    |id| > 0 && forall i :: 0 <= i < |id| ==> IsSymbol(id[i])
  }

  /** A table name if id is one, else id itself if it is a symbol string, else an error. */
  function DecodeMessage(id: string): (r: Result<string>)
    ensures id in DefaultMessages ==> r == Success(DefaultMessages[id])
    ensures id !in DefaultMessages ==> (r.Success? <==> IsSymbolString(id))
    ensures id !in DefaultMessages && r.Success? ==> r.value == id
    ensures r.Failure? ==> r.error == "Unknown or malformed message " + id
  {
    if id in DefaultMessages then Success(DefaultMessages[id])
    else if IsSymbolString(id) then Success(id)
    else Failure("Unknown or malformed message " + id)
  }

  lemma SymbolStringConcat(a: string, b: string)
    requires IsSymbolString(a) && IsSymbolString(b)
    ensures IsSymbolString(a + b)
  {
  }

  lemma ShortEntriesAreSymbolStrings()
    ensures IsSymbolString("*-_-***") && IsSymbolString("*-*") && IsSymbolString("****_*_*-**_*--*")
    ensures IsSymbolString("*-_-***_-*-*_-**") && IsSymbolString("***_-") && IsSymbolString("--**_-*")
    ensures IsSymbolString("-*--_---_-**_*-") && IsSymbolString("*-**_*_**_*-")
  {
  }

  lemma LongEntriesAreSymbolStrings()
    ensures IsSymbolString("****_*_*-**_*-**_---___*--_---_*-*_*-**_-**")
    ensures IsSymbolString("-_****_*___***_-_*-_*-*___*--_*-_*-*_***___***_*-_--*_*-")
  {
    SymbolStringConcat("****_*_*-**_*-**_---", "___*--_---_*-*_*-**_-**");
    SymbolStringConcat("-_****_*___***_-_*-_*-*", "___*--_*-_*-*_***___");
    SymbolStringConcat("-_****_*___***_-_*-_*-*___*--_*-_*-*_***___", "***_*-_--*_*-");
  }

  /** Every table entry is itself a symbol string. */
  lemma DefaultMessagesAreSymbolStrings()
    ensures forall id :: id in DefaultMessages ==> IsSymbolString(DefaultMessages[id])
  {
    ShortEntriesAreSymbolStrings();
    LongEntriesAreSymbolStrings();
    assert DefaultMessages.Keys == {"AB", "R", "HELLO", "HELP", "ABCD", "ST", "ZN", "STARWARS", "YODA", "LEIA"};
  }

  /** No table name is a symbol string, so the two ways of decoding never overlap. */
  lemma DefaultNamesAreNotSymbolStrings()
    ensures forall id :: id in DefaultMessages ==> !IsSymbolString(id)
  {
    assert DefaultMessages.Keys == {"AB", "R", "HELLO", "HELP", "ABCD", "ST", "ZN", "STARWARS", "YODA", "LEIA"};
    assert "AB"[0] == 'A' && "R"[0] == 'R' && "HELLO"[0] == 'H' && "HELP"[0] == 'H' && "ABCD"[0] == 'A';
    assert "ST"[0] == 'S' && "ZN"[0] == 'Z' && "STARWARS"[0] == 'S' && "YODA"[0] == 'Y' && "LEIA"[0] == 'L';
  }

  /** Whatever decodes successfully is a symbol string. */
  lemma DecodeYieldsSymbolString(id: string)
    requires DecodeMessage(id).Success?
    ensures IsSymbolString(DecodeMessage(id).value)
  {
    DefaultMessagesAreSymbolStrings();
  }

  /** Decoding a decoded message gives it back unchanged. */
  lemma DecodeIdempotent(id: string)
    requires DecodeMessage(id).Success?
    ensures DecodeMessage(DecodeMessage(id).value) == DecodeMessage(id)
  {
    DefaultMessagesAreSymbolStrings();
    DefaultNamesAreNotSymbolStrings();
  }

  // ---------------------------------------------------------------------
  // The scanning search

  /** The set of results that the recursive search shares across its calls. */
  class ResultSet {
    var elems: set<string>

    constructor ()
      ensures elems == {}
    {
      elems := {};
    }

    method Add(s: string)
      modifies this
      ensures elems == old(elems) + {s}
    {
      elems := elems + {s};
    }

    method Remove(s: string)
      modifies this
      ensures elems == old(elems) - {s}
    {
      elems := elems - {s};
    }
  }

  /**
   * The first index at or after from (a negative from counts as 0) where s
   * holds c, or -1 when there is none.
   */
  function IndexOf(s: string, c: char, from: int): (k: int)
    ensures k == -1 || (0 <= from <= k < |s| || (from < 0 && 0 <= k < |s|))
    ensures k != -1 ==> s[k] == c
    ensures forall j :: 0 <= j < |s| && from <= j && (k == -1 || j < k) ==> s[j] != c
    decreases |s| - from
  {
    if from < 0 then IndexOf(s, c, 0)
    else if from >= |s| then -1
    else if s[from] == c then from
    else IndexOf(s, c, from + 1)
  }

  /**
   * Adds to results every deletion of remainingNeedle from remainingHaystack,
   * each with partial in front, and nothing else.
   */
  method SearchByScanning(partial: string, remainingHaystack: string, remainingNeedle: string, results: ResultSet)
    modifies results
    ensures results.elems == old(results.elems) + Prefixed(partial, Deletions(remainingHaystack, remainingNeedle))
    decreases |remainingHaystack|
  {
    if |remainingNeedle| == 0 {
      assert Prefixed(partial, {remainingHaystack}) == {partial + remainingHaystack};
      results.Add(partial + remainingHaystack);
      return;
    }

    if |remainingNeedle| >= |remainingHaystack| {
      if remainingNeedle == remainingHaystack {
        DeletionsSelf(remainingHaystack);
        assert Prefixed(partial, {""}) == {partial} by {
          assert partial + "" == partial;
        }
        results.Add(partial);
      } else {
        DeletionsTooLongOrDifferent(remainingHaystack, remainingNeedle);
      }
      return;
    }

    var i := -1;
    while true
      invariant -1 <= i < |remainingHaystack|
      invariant results.elems == old(results.elems) + Prefixed(partial, Branches(remainingHaystack, remainingNeedle, i + 1))
      decreases |remainingHaystack| - i
    {
      ghost var scanned := i + 1;
      i := IndexOf(remainingHaystack, remainingNeedle[0], i + 1);
      if (i < 0) || ((|remainingHaystack| - i) < |remainingNeedle|) {
        EarlyStopLosesNothing(remainingHaystack, remainingNeedle, scanned);
        return;
      }

      BranchesStable(remainingHaystack, remainingNeedle, scanned, i);
      SearchByScanning(
        partial + remainingHaystack[..i],
        remainingHaystack[i + 1..],
        remainingNeedle[1..],
        results);
      ghost var found := Deletions(remainingHaystack[i + 1..], remainingNeedle[1..]);
      PrefixedUnion(partial, Branches(remainingHaystack, remainingNeedle, i), Prefixed(remainingHaystack[..i], found));
      PrefixedAppend(partial, remainingHaystack[..i], found);
    }
  }

  /** Every deletion of needle from haystack except the empty string. */
  method BruteForce(haystack: string, needle: string) returns (r: set<string>)
    ensures r == Subtract(haystack, needle)
  {
    var results := new ResultSet();
    SearchByScanning("", haystack, needle, results);
    PrefixedNil(Deletions(haystack, needle));
    results.Remove("");
    r := results.elems;
  }

  /** Subtracts each later message, in order, from every candidate left by the earlier ones. */
  method BruteForceSequence(messages: seq<string>) returns (results: set<string>)
    requires |messages| > 0
    ensures results == Reduce(messages)
  {
    results := {messages[0]};
    for i := 1 to |messages|
      invariant ReduceFrom(results, messages[i..]) == Reduce(messages)
    {
      var b := messages[i];
      var newResults := {};
      var pending := results;
      while pending != {}
        invariant pending <= results
        invariant newResults == Step(results - pending, b)
        decreases pending
      {
        var a :| a in pending;
        var sub := BruteForce(a, b);
        StepAdd(results - pending, a, b);
        assert (results - pending) + {a} == results - (pending - {a});
        newResults := newResults + sub;
        pending := pending - {a};
      }
      assert results - pending == results;
      assert messages[i..][0] == b && messages[i..][1..] == messages[i + 1..];
      assert ReduceFrom(results, messages[i..]) == ReduceFrom(newResults, messages[i + 1..]);
      results := newResults;
    }
  }
}
