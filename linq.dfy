/// The standard sequence operators the solutions rely on, as far as their
/// results matter here.
module Linq {
  import opened Wrappers

  /// LINQ `Distinct`: the first occurrence of each value, in order.
  function Distinct<T(==,!new)>(s: seq<T>): (r: seq<T>)
    ensures forall x :: x in r <==> x in s
    ensures forall i, j :: 0 <= i < j < |r| ==> r[i] != r[j]
    ensures |r| <= |s|
    decreases |s|
  {
    if s == [] then []
    else
      var d := Distinct(s[..|s| - 1]);
      var last := s[|s| - 1];
      assert forall x :: x in s <==> x in s[..|s| - 1] || x == last;
      if last in d then d else d + [last]
  }

  /// `Distinct` leaves a sequence without duplicates as it is.
  lemma {:induction false} DistinctUnchanged<T(!new)>(s: seq<T>)
    requires forall i, j :: 0 <= i < j < |s| ==> s[i] != s[j]
    ensures Distinct(s) == s
    decreases |s|
  {
    if s != [] {
      var front := s[..|s| - 1];
      DistinctUnchanged(front);
      assert s[|s| - 1] !in front;
      assert front + [s[|s| - 1]] == s;
    }
  }

  /// A non-empty set has an element to pick.
  lemma HasElement(s: set<int>)
    requires |s| > 0
    ensures exists a :: a in s
  {
    if forall a :: a !in s {
      assert false;
    }
  }

  /// LINQ `Max` over a non-empty set of values.
  ghost function SetMax(s: set<int>): (m: int)
    requires s != {}
    ensures m in s && forall x :: x in s ==> x <= m
    decreases |s|
  {
    HasElement(s);
    var a :| a in s;
    if s == {a} then a
    else
      var rest := SetMax(s - {a});
      assert forall x :: x in s ==> x == a || x in s - {a};
      if a < rest then rest else a
  }

  /// LINQ `Sum`.
  function Sum(xs: seq<int>): int
  {
    if xs == [] then 0 else xs[0] + Sum(xs[1..])
  }

  lemma {:induction false} SumAppend(a: seq<int>, b: seq<int>)
    ensures Sum(a + b) == Sum(a) + Sum(b)
  {
    if a == [] {
      assert a + b == b;
    } else {
      assert (a + b)[0] == a[0] && (a + b)[1..] == a[1..] + b;
      SumAppend(a[1..], b);
    }
  }

  /// Changing one entry changes the sum by the difference.
  lemma {:induction false} SumUpdate(xs: seq<int>, i: int, v: int)
    requires 0 <= i < |xs|
    ensures Sum(xs[i := v]) == Sum(xs) - xs[i] + v
  {
    if i > 0 {
      assert xs[i := v][0] == xs[0] && xs[i := v][1..] == xs[1..][i - 1 := v];
      SumUpdate(xs[1..], i - 1, v);
    } else {
      assert xs[i := v][1..] == xs[1..];
    }
  }

  /// LINQ `Max` over a sequence: the largest element, and an
  /// `InvalidOperationException` when the sequence is empty.
  function SeqMax(xs: seq<int>): (r: Option<int>)
    ensures r.None? <==> xs == []
    ensures r.Some? ==> r.value in xs && forall x :: x in xs ==> x <= r.value
  {
    if xs == [] then None
    else
      match SeqMax(xs[1..])
      case None => Some(xs[0])
      case Some(m) =>
        assert forall x :: x in xs ==> x == xs[0] || x in xs[1..];
        Some(if xs[0] < m then m else xs[0])
  }

  /// `EnumerableEx.Generate`: `start`, then `iterate` applied again and
  /// again, for as long as `condition` holds; at most `fuel` elements.
  function Generate<T>(start: T, condition: T -> bool, iterate: T -> T, fuel: nat): (r: seq<T>)
    ensures |r| <= fuel
    ensures r != [] ==> r[0] == start
    decreases fuel
  {
    if fuel == 0 || !condition(start) then []
    else [start] + Generate(iterate(start), condition, iterate, fuel - 1)
  }

  /// A property `iterate` preserves holds of every generated element.
  lemma {:induction false} GenerateKeeps<T>(P: T -> bool, start: T, condition: T -> bool, iterate: T -> T, fuel: nat, i: int)
    requires P(start) && 0 <= i < |Generate(start, condition, iterate, fuel)|
    requires forall x :: P(x) ==> P(iterate(x))
    ensures P(Generate(start, condition, iterate, fuel)[i])
    decreases fuel
  {
    if i > 0 {
      GenerateKeeps(P, iterate(start), condition, iterate, fuel - 1, i - 1);
    }
  }

  /// LINQ `Skip`: all but the first `n` elements.
  function Skip<T>(s: seq<T>, n: nat): (r: seq<T>)
    ensures |r| == if n <= |s| then |s| - n else 0
    ensures forall i :: 0 <= i < |r| ==> r[i] == s[i + n]
  {
    if n <= |s| then s[n..] else []
  }
}
