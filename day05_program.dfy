/// Polymer reactions (Day05/Program.cs): adjacent units of the same type and
/// opposite polarity (the same letter in opposite case) destroy each other,
/// leftmost pair first, until no pair reacts.
module Day05Program {
  import opened Linq

  /// `char.ToLowerInvariant` on ASCII letters; other characters unchanged.
  function ToLower(c: char): (r: char)
    ensures 'A' <= c && c <= 'Z' ==> r as int == c as int + 32
    ensures !('A' <= c && c <= 'Z') ==> r == c
  {
    if 'A' <= c && c <= 'Z' then (c as int + 32) as char else c
  }

  /// `char.ToUpperInvariant` on ASCII letters; other characters unchanged.
  function ToUpper(c: char): (r: char)
    ensures 'a' <= c && c <= 'z' ==> r as int == c as int - 32
    ensures !('a' <= c && c <= 'z') ==> r == c
  {
    if 'a' <= c && c <= 'z' then (c as int - 32) as char else c
  }

  /// `Reacts`: different units of the same type.
  predicate Reacts(a: char, b: char)
  {
    a != b && ToLower(a) == ToLower(b)
  }

  /// The units at `j` and `j + 1` react.
  predicate ReactsAt(s: string, j: int)
    requires 0 <= j && j + 1 < |s|
  {
    Reacts(s[j], s[j + 1])
  }

  /// Reacting units are one letter in its two cases.
  lemma ReactsMeans(a: char, b: char)
    ensures Reacts(a, b) <==>
      ('a' <= a && a <= 'z' && b as int == a as int - 32) || ('a' <= b && b <= 'z' && a as int == b as int - 32)
  {
  }

  function Min(a: int, b: int): int
  {
    if a < b then a else b
  }

  /// No adjacent pair starting before `i` reacts.
  predicate NoneReactBefore(s: string, i: int)
  {
    forall j :: 0 <= j < i && j + 1 < |s| ==> !ReactsAt(s, j)
  }

  /// `Buffer(2, 1)`: the window of two units starting at each position, the
  /// last one holding a single unit.
  function Buffer2(s: string): (ws: seq<string>)
    ensures |ws| == |s|
    ensures forall j :: 0 <= j < |s| ==> ws[j] == s[j..Min(j + 2, |s|)]
  {
    if s == [] then [] else [s[..Min(2, |s|)]] + Buffer2(s[1..])
  }

  /// The `TakeWhile` predicate: not a full reacting pair.
  predicate KeepsGoing(pair: string)
  {
    |pair| != 2 || !Reacts(pair[0], pair[1])
  }

  /// `TakeWhile(KeepsGoing).Count()`.
  function CountWhile(ws: seq<string>): (n: nat)
    ensures n <= |ws|
    ensures forall j :: 0 <= j < n ==> KeepsGoing(ws[j])
    ensures n < |ws| ==> !KeepsGoing(ws[n])
  {
    if ws == [] || !KeepsGoing(ws[0]) then 0 else 1 + CountWhile(ws[1..])
  }

  /// `indexOfFirstReactableUnit`.
  function FirstReactable(s: string): (i: nat)
    ensures i <= |s|
    ensures i < |s| ==> i + 1 < |s| && ReactsAt(s, i)
    ensures NoneReactBefore(s, i)
  {
    var ws := Buffer2(s);
    var n := CountWhile(ws);
    assert NoneReactBefore(s, n) by {
      forall j | 0 <= j < n && j + 1 < |s| ensures !ReactsAt(s, j) {
        assert KeepsGoing(ws[j]) && ws[j] == s[j..j + 2];
      }
    }
    assert n < |s| ==> n + 1 < |s| && ReactsAt(s, n) by {
      if n < |s| {
        assert !KeepsGoing(ws[n]) && ws[n] == s[n..Min(n + 2, |s|)];
      }
    }
    n
  }

  /// The first reacting pair is at `i` when it reacts and nothing before it
  /// does.
  lemma FirstReactableAt(s: string, i: nat)
    requires i + 1 < |s| && ReactsAt(s, i)
    requires forall j :: 0 <= j < i ==> !ReactsAt(s, j)
    ensures FirstReactable(s) == i
  {
  }

  /// Nothing reacts: the count runs over every window.
  lemma FirstReactableNone(s: string)
    requires forall j :: 0 <= j < |s| - 1 ==> !ReactsAt(s, j)
    ensures FirstReactable(s) == |s|
  {
  }

  /// The `(bool, string)` pair `ProcessOneReaction` returns.
  datatype Reaction = Reaction(reacted: bool, polymer: string)

  /// `ProcessOneReaction`: whether a pair reacted, and the polymer after
  /// removing it.
  function ProcessOneReaction(s: string): (r: Reaction)
    ensures |r.polymer| == if r.reacted then |s| - 2 else |s|
  {
    var i := FirstReactable(s);
    var hasReaction := i != |s|;
    Reaction(hasReaction, if hasReaction then s[..i] + s[i + 2..] else s)
  }

  /// A reaction happens exactly when some adjacent pair reacts; it removes
  /// the leftmost such pair and keeps everything else in order. Without one,
  /// the polymer is returned unchanged.
  lemma ProcessOneReactionMeans(s: string)
    ensures ProcessOneReaction(s).reacted <==> exists j :: 0 <= j < |s| - 1 && ReactsAt(s, j)
    ensures ProcessOneReaction(s).reacted ==>
      exists i :: 0 <= i < |s| - 1 && ReactsAt(s, i) &&
        NoneReactBefore(s, i) &&
        ProcessOneReaction(s).polymer == s[..i] + s[i + 2..]
    ensures !ProcessOneReaction(s).reacted ==> ProcessOneReaction(s).polymer == s
  {
    var i := FirstReactable(s);
    if i == |s| {
      forall j | 0 <= j < |s| - 1 ensures !ReactsAt(s, j) { }
    }
  }

  function Last(r: seq<string>): string
    requires |r| > 0
  {
    r[|r| - 1]
  }

  /// `ProcessAllReactions`: the polymer, then the result of each reaction
  /// until one reports that nothing reacted.
  function ProcessAllReactions(s: string): (r: seq<string>)
    ensures |r| >= 1 && r[0] == s
    decreases |s|
  {
    var step := ProcessOneReaction(s);
    if step.reacted then [s] + ProcessAllReactions(step.polymer) else [s]
  }

  /// Each listed polymer is one reaction away from the one before it.
  lemma {:induction false} ProcessAllReactionsSteps(s: string)
    ensures forall k {:trigger ProcessOneReaction(ProcessAllReactions(s)[k])} :: 0 <= k < |ProcessAllReactions(s)| - 1 ==>
      ProcessOneReaction(ProcessAllReactions(s)[k]) == Reaction(true, ProcessAllReactions(s)[k + 1])
    decreases |s|
  {
    var step := ProcessOneReaction(s);
    if step.reacted {
      ProcessAllReactionsSteps(step.polymer);
      var rest := ProcessAllReactions(step.polymer);
      assert ProcessAllReactions(s) == [s] + rest;
      forall k | 1 <= k < |rest|
        ensures ProcessOneReaction(ProcessAllReactions(s)[k]) == Reaction(true, ProcessAllReactions(s)[k + 1])
      {
        assert ProcessOneReaction(rest[k - 1]) == Reaction(true, rest[k]);
      }
    }
  }

  /// The last of a list with something put in front is the last of the
  /// list.
  lemma LastOfCons(s: string, rest: seq<string>)
    requires |rest| > 0
    ensures Last([s] + rest) == Last(rest)
  {
  }

  /// The last listed polymer has no reacting pair.
  lemma {:induction false} ProcessAllReactionsEnds(s: string)
    ensures !ProcessOneReaction(Last(ProcessAllReactions(s))).reacted
    decreases |s|
  {
    var step := ProcessOneReaction(s);
    if step.reacted {
      var rest := ProcessAllReactions(step.polymer);
      assert ProcessAllReactions(s) == [s] + rest;
      LastOfCons(s, rest);
      ProcessAllReactionsEnds(step.polymer);
    } else {
      assert ProcessAllReactions(s) == [s];
    }
  }

  /// Each listed polymer is two units shorter than the one before it.
  lemma {:induction false} ProcessAllReactionsLengths(s: string)
    ensures forall k :: 0 <= k < |ProcessAllReactions(s)| ==> |ProcessAllReactions(s)[k]| == |s| - 2 * k
    decreases |s|
  {
    var step := ProcessOneReaction(s);
    if step.reacted {
      ProcessAllReactionsLengths(step.polymer);
      var rest := ProcessAllReactions(step.polymer);
      forall k | 1 <= k < |rest| + 1 ensures |ProcessAllReactions(s)[k]| == |s| - 2 * k {
        assert ProcessAllReactions(s)[k] == rest[k - 1];
      }
    }
  }

  /// `Part1`: the length of the fully reacted polymer.
  function Part1(s: string): (n: nat)
    ensures n <= |s| && (|s| - n) % 2 == 0
  {
    var steps := ProcessAllReactions(s);
    ProcessAllReactionsLengths(s);
    assert |Last(steps)| == |s| - 2 * (|steps| - 1);
    |Last(steps)|
  }

  /// What part 1 measures has no reacting pair left.
  lemma Part1Reacted(s: string)
    ensures var p := Last(ProcessAllReactions(s));
      |p| == Part1(s) && forall j :: 0 <= j < |p| - 1 ==> !ReactsAt(p, j)
  {
    ProcessAllReactionsEnds(s);
    ProcessOneReactionMeans(Last(ProcessAllReactions(s)));
  }

  /// `Replace(c.ToString(), "")`: every unit `c` removed.
  function Remove(s: string, c: char): (r: string)
    ensures forall x :: x in r <==> x in s && x != c
    ensures |r| <= |s|
  {
    if s == [] then []
    else (if s[0] == c then [] else [s[0]]) + Remove(s[1..], c)
  }

  /// `Remove` works unit by unit: a lone unit goes exactly when it is `c`
  /// (`RemoveUnit`), and removing from a concatenation removes from each
  /// part, so every other unit stays, in order.
  lemma {:induction false} RemoveAppend(a: string, b: string, c: char)
    ensures Remove(a + b, c) == Remove(a, c) + Remove(b, c)
  {
    if a == [] {
      assert a + b == b;
    } else {
      assert (a + b)[0] == a[0] && (a + b)[1..] == a[1..] + b;
      RemoveAppend(a[1..], b, c);
    }
  }

  lemma RemoveUnit(x: char, c: char)
    ensures Remove([x], c) == if x == c then [] else [x]
  {
    assert [x][1..] == [];
  }

  /// The polymer with one unit type removed in both cases.
  function WithoutUnit(s: string, unit: char): (r: string)
    ensures forall x :: x in r <==> x in s && x != unit && x != ToUpper(unit)
    ensures |r| <= |s|
  {
    Remove(Remove(s, unit), ToUpper(unit))
  }

  function Lowered(s: string): (r: string)
    ensures |r| == |s| && forall i :: 0 <= i < |s| ==> r[i] == ToLower(s[i])
  {
    seq(|s|, i requires 0 <= i < |s| => ToLower(s[i]))
  }

  /// The least of `start` and the fully reacted lengths after removing
  /// each of `units` in turn.
  function Shortest(input: string, units: seq<char>, start: int): int
  {
    if units == [] then start
    else
      var rest := Shortest(input, units[..|units| - 1], start);
      var reacted := Part1(WithoutUnit(input, units[|units| - 1]));
      if reacted < rest then reacted else rest
  }

  /// `Shortest` is at most `start` and every unit's reacted length, and
  /// is `start` or one of them.
  lemma {:induction false} ShortestMeans(input: string, units: seq<char>, start: int)
    ensures var m := Shortest(input, units, start);
      m <= start &&
      (forall u :: u in units ==> m <= Part1(WithoutUnit(input, u))) &&
      (m == start || exists u :: u in units && m == Part1(WithoutUnit(input, u)))
    decreases |units|
  {
    if units != [] {
      var front := units[..|units| - 1];
      ShortestMeans(input, front, start);
      assert forall u :: u in units <==> u in front || u == units[|units| - 1];
    }
  }

  /// `Part2`: the shortest fully reacted polymer after removing one unit
  /// type, starting from the input's own length.
  method Part2(input: string) returns (min: int)
    ensures min == Shortest(input, Distinct(Lowered(input)), |input|)
    ensures min <= |input|
    ensures forall u :: u in Distinct(Lowered(input)) ==> min <= Part1(WithoutUnit(input, u))
    ensures min == |input| || exists u :: u in Distinct(Lowered(input)) && min == Part1(WithoutUnit(input, u))
  {
    var unitTypes := Distinct(Lowered(input));
    min := |input|;
    var k := 0;
    assert unitTypes[..0] == [];
    while k < |unitTypes|
      invariant 0 <= k <= |unitTypes|
      invariant min == Shortest(input, unitTypes[..k], |input|)
    {
      var unitToRemove := unitTypes[k];
      var modifiedInput := WithoutUnit(input, unitToRemove);
      var reactedLength := Part1(modifiedInput);
      assert unitTypes[..k + 1][..k] == unitTypes[..k];
      if reactedLength < min {
        min := reactedLength;
      }
      k := k + 1;
    }
    assert unitTypes[..k] == unitTypes;
    ShortestMeans(input, unitTypes, |input|);
  }

  /// The single-reaction examples.
  lemma ReactionExample1(s: string)
    requires s == "aA"
    ensures ProcessOneReaction(s) == Reaction(true, "")
  {
    FirstReactableAt(s, 0);
  }

  lemma ReactionExample2(s: string)
    requires s == "abBA"
    ensures ProcessOneReaction(s) == Reaction(true, "aA")
  {
    assert !ReactsAt(s, 0) && ReactsAt(s, 1);
    FirstReactableAt(s, 1);
    assert s[..1] + s[3..] == "aA";
  }

  lemma ReactionExample3(s: string)
    requires s == "abAB"
    ensures ProcessOneReaction(s) == Reaction(false, s)
  {
    assert !ReactsAt(s, 0) && !ReactsAt(s, 1) && !ReactsAt(s, 2);
    FirstReactableNone(s);
  }

  lemma ReactionExample4(s: string)
    requires s == "aabAAB"
    ensures ProcessOneReaction(s) == Reaction(false, s)
  {
    assert !ReactsAt(s, 0) && !ReactsAt(s, 1) && !ReactsAt(s, 2) && !ReactsAt(s, 3) && !ReactsAt(s, 4);
    FirstReactableNone(s);
  }

  lemma ExampleStep1(s: string)
    requires s == "dabAcCaCBAcCcaDA"
    ensures ProcessOneReaction(s) == Reaction(true, "dabAaCBAcCcaDA")
  {
    assert !ReactsAt(s, 0) && !ReactsAt(s, 1) && !ReactsAt(s, 2) && !ReactsAt(s, 3);
    assert ReactsAt(s, 4);
    FirstReactableAt(s, 4);
    assert s[..4] + s[6..] == "dabAaCBAcCcaDA";
  }

  lemma ExampleStep2(s: string)
    requires s == "dabAaCBAcCcaDA"
    ensures ProcessOneReaction(s) == Reaction(true, "dabCBAcCcaDA")
  {
    assert !ReactsAt(s, 0) && !ReactsAt(s, 1) && !ReactsAt(s, 2);
    assert ReactsAt(s, 3);
    FirstReactableAt(s, 3);
    assert s[..3] + s[5..] == "dabCBAcCcaDA";
  }

  lemma ExampleStep3(s: string)
    requires s == "dabCBAcCcaDA"
    ensures ProcessOneReaction(s) == Reaction(true, "dabCBAcaDA")
  {
    assert !ReactsAt(s, 0) && !ReactsAt(s, 1) && !ReactsAt(s, 2) && !ReactsAt(s, 3);
    assert !ReactsAt(s, 4) && !ReactsAt(s, 5);
    assert ReactsAt(s, 6);
    FirstReactableAt(s, 6);
    assert s[..6] + s[8..] == "dabCBAcaDA";
  }

  lemma ExampleStep4(s: string)
    requires s == "dabCBAcaDA"
    ensures ProcessOneReaction(s) == Reaction(false, s)
  {
    assert !ReactsAt(s, 0) && !ReactsAt(s, 1) && !ReactsAt(s, 2) && !ReactsAt(s, 3);
    assert !ReactsAt(s, 4) && !ReactsAt(s, 5) && !ReactsAt(s, 6) && !ReactsAt(s, 7);
    assert !ReactsAt(s, 8);
    FirstReactableNone(s);
  }

  /// A reaction that happens puts its input in front of the rest of the
  /// list.
  lemma ProcessAllReactionsStep(s: string, t: string)
    requires ProcessOneReaction(s) == Reaction(true, t)
    ensures |ProcessAllReactions(s)| == |ProcessAllReactions(t)| + 1
    ensures forall k :: 0 < k < |ProcessAllReactions(s)| ==> ProcessAllReactions(s)[k] == ProcessAllReactions(t)[k - 1]
  {
  }

  lemma ExampleFrom4(s: string)
    requires s == "dabCBAcaDA"
    ensures |ProcessAllReactions(s)| == 1
  {
    ExampleStep4(s);
  }

  lemma ExampleFrom3(s: string)
    requires s == "dabCBAcCcaDA"
    ensures |ProcessAllReactions(s)| == 2 && ProcessAllReactions(s)[1] == "dabCBAcaDA"
  {
    ExampleStep3(s);
    ExampleFrom4("dabCBAcaDA");
    ProcessAllReactionsStep(s, "dabCBAcaDA");
  }

  lemma ExampleFrom2(s: string)
    requires s == "dabAaCBAcCcaDA"
    ensures |ProcessAllReactions(s)| == 3
    ensures ProcessAllReactions(s)[1] == "dabCBAcCcaDA" && ProcessAllReactions(s)[2] == "dabCBAcaDA"
  {
    ExampleStep2(s);
    ExampleFrom3("dabCBAcCcaDA");
    ProcessAllReactionsStep(s, "dabCBAcCcaDA");
  }

  /// The worked polymer reacts in three steps to `dabCBAcaDA`.
  lemma Example(s: string)
    requires s == "dabAcCaCBAcCcaDA"
    ensures |ProcessAllReactions(s)| == 4
    ensures ProcessAllReactions(s)[1] == "dabAaCBAcCcaDA"
    ensures ProcessAllReactions(s)[2] == "dabCBAcCcaDA"
    ensures ProcessAllReactions(s)[3] == "dabCBAcaDA"
  {
    ExampleStep1(s);
    ExampleFrom2("dabAaCBAcCcaDA");
    ProcessAllReactionsStep(s, "dabAaCBAcCcaDA");
  }

  /// Its fully reacted length is 10.
  lemma Part1Example(s: string)
    requires s == "dabAcCaCBAcCcaDA"
    ensures Part1(s) == 10
  {
    Example(s);
    assert |Last(ProcessAllReactions(s))| == |"dabCBAcaDA"|;
  }
}
