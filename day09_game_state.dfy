/// Day 9: the circle of marbles (`GameState`).
module Day09GameState {
  import opened Wrappers

  /// `GameState`: the marbles in clockwise order, the index of the current
  /// marble and the number of the last turn played.
  datatype GameState = GameState(marbles: seq<int>, current: int, lastTurn: int)

  /// `ImmutableList.Insert`.
  function InsertAt(s: seq<int>, p: int, v: int): (r: seq<int>)
    requires 0 <= p <= |s|
    ensures |r| == |s| + 1 && r[p] == v
    ensures forall i :: 0 <= i < p ==> r[i] == s[i]
    ensures forall i :: p < i < |r| ==> r[i] == s[i - 1]
  {
    s[..p] + [v] + s[p..]
  }

  /// `ImmutableList.RemoveAt`.
  function RemoveAt(s: seq<int>, p: int): (r: seq<int>)
    requires 0 <= p < |s|
    ensures |r| == |s| - 1
    ensures forall i :: 0 <= i < p ==> r[i] == s[i]
    ensures forall i :: p <= i < |r| ==> r[i] == s[i + 1]
  {
    s[..p] + s[p + 1..]
  }

  /// Removing what was inserted gives the list back, and inserting what
  /// was removed does too.
  lemma InsertRemove(s: seq<int>, p: int, v: int)
    requires 0 <= p <= |s|
    ensures RemoveAt(InsertAt(s, p, v), p) == s
  {
  }

  lemma RemoveInsert(s: seq<int>, p: int)
    requires 0 <= p < |s|
    ensures InsertAt(RemoveAt(s, p), p, s[p]) == s
  {
  }

  /// C#'s `%` on a non-negative dividend, by repeated subtraction.
  function Mod(a: int, n: int): (r: int)
    requires a >= 0 && n > 0
    ensures 0 <= r < n
    decreases a
  {
    if a < n then a else Mod(a - n, n)
  }

  /// A dividend below twice the divisor needs at most one subtraction.
  lemma ModOnce(a: int, n: int)
    requires 0 <= a < 2 * n
    ensures Mod(a, n) == if a < n then a else a - n
  {
  }

  lemma {:induction false} MulAtLeast(d: int, n: int)
    requires d >= 1 && n > 0
    ensures d * n >= n
    decreases d
  {
    if d > 1 {
      MulAtLeast(d - 1, n);
      assert d * n == (d - 1) * n + n;
    }
  }

  /// A remainder below the divisor is the remainder.
  lemma RemainderUnique(a: int, n: int, q: int, r: int)
    requires n > 0 && 0 <= r < n && a == q * n + r
    ensures a % n == r
  {
    var q', r' := a / n, a % n;
    assert a == q' * n + r';
    var d := q - q';
    assert d * n == r' - r;
    if d >= 1 {
      MulAtLeast(d, n);
    } else if d <= -1 {
      assert (-d) * n == -(d * n);
      MulAtLeast(-d, n);
    }
  }

  lemma ModShift(a: int, n: int)
    requires a >= n > 0
    ensures (a - n) % n == a % n
  {
    var q := a / n;
    var r := a % n;
    assert a - n == (q - 1) * n + r;
    RemainderUnique(a - n, n, q - 1, r);
  }

  /// `Mod` is the remainder of integer division.
  lemma {:induction false} ModIsRemainder(a: int, n: int)
    requires a >= 0 && n > 0
    ensures Mod(a, n) == a % n
    decreases a
  {
    if a >= n {
      ModIsRemainder(a - n, n);
      ModShift(a, n);
    }
  }

  /// The number of marbles on the circle after `t` turns: one more per
  /// turn, except that every 23rd turn removes one instead of adding one.
  function MarbleCount(t: int): int
  {
    1 + t - 2 * (t / 23)
  }

  /// What every state reached from `Initial` satisfies and `Next` needs:
  /// the count above, and the current index within the list (after a
  /// removal it may point just past the end).
  ghost predicate Reachable(g: GameState)
  {
    g.lastTurn >= 0 &&
    |g.marbles| == MarbleCount(g.lastTurn) &&
    0 <= g.current <= |g.marbles|
  }

  /// The marbles on the circle are distinct and numbered from 0 to the
  /// last turn.
  ghost predicate DistinctMarbles(g: GameState)
  {
    (forall i :: 0 <= i < |g.marbles| ==> 0 <= g.marbles[i] <= g.lastTurn) &&
    (forall i, j :: 0 <= i < j < |g.marbles| ==> g.marbles[i] != g.marbles[j])
  }

  /// `GameState.Initial`: the single marble 0, current, before turn 1.
  function Initial(): (g: GameState)
    ensures Reachable(g) && DistinctMarbles(g)
    ensures g.marbles == [0] && g.current == 0 && g.lastTurn == 0
  {
    GameState([0], 0, 0)
  }

  lemma MarbleCountStep(t: int)
    requires t >= 0
    ensures (t + 1) % 23 == 0 ==> MarbleCount(t + 1) == MarbleCount(t) - 1 && MarbleCount(t) >= 23
    ensures (t + 1) % 23 != 0 ==> MarbleCount(t + 1) == MarbleCount(t) + 1
  {
    if (t + 1) % 23 == 0 {
      assert t / 23 == (t + 1) / 23 - 1;
    } else {
      assert t / 23 == (t + 1) / 23;
    }
  }

  /// The ordinary turn: the turn's marble goes between the marbles one and
  /// two places clockwise of the current one and becomes current.
  function Place(g: GameState): (r: GameState)
    requires Reachable(g) && (g.lastTurn + 1) % 23 != 0
    ensures Reachable(r) && r.lastTurn == g.lastTurn + 1
    ensures r.current == Mod(g.current + 1, |g.marbles|) + 1
  {
    MarbleCountStep(g.lastTurn);
    var newPosition := Mod(g.current + 1, |g.marbles|) + 1;
    GameState(InsertAt(g.marbles, newPosition, g.lastTurn + 1), newPosition, g.lastTurn + 1)
  }

  /// The 23rd turn: the marble seven places anticlockwise is removed and
  /// the one after it becomes current; the removed marble is returned.
  function Take(g: GameState): (r: (GameState, int))
    requires Reachable(g) && (g.lastTurn + 1) % 23 == 0
    ensures Reachable(r.0) && r.0.lastTurn == g.lastTurn + 1
    ensures |g.marbles| >= 23 && r.0.current == Mod(g.current - 7 + |g.marbles|, |g.marbles|)
  {
    MarbleCountStep(g.lastTurn);
    var n := |g.marbles|;
    var marbleToRemove := Mod(g.current - 7 + n, n);
    (GameState(RemoveAt(g.marbles, marbleToRemove), marbleToRemove, g.lastTurn + 1), g.marbles[marbleToRemove])
  }

  /// `Next`: play turn `lastTurn + 1`. A multiple of 23 takes a marble and
  /// scores it plus the turn; any other turn places the turn's marble and
  /// scores nothing.
  function Next(g: GameState): (r: (GameState, Option<int>))
    requires Reachable(g)
    ensures Reachable(r.0)
    ensures r.0.lastTurn == g.lastTurn + 1
    ensures r.1.Some? <==> r.0.lastTurn % 23 == 0
  {
    if (g.lastTurn + 1) % 23 == 0 then
      var (next, removed) := Take(g);
      (next, Some(removed + next.lastTurn))
    else
      (Place(g), None)
  }

  /// What `Next` does to the circle. An ordinary turn puts its marble one
  /// place further clockwise than the one after the current marble, so
  /// that removing it again gives the old circle; a 23rd turn takes the
  /// marble seven places anticlockwise, so that putting the removed
  /// marble back gives the old circle, and scores it plus the turn.
  lemma NextMeans(g: GameState)
    requires Reachable(g)
    ensures var r := Next(g);
      r.1.None? ==>
        r.0.current == (g.current + 1) % |g.marbles| + 1 &&
        r.0.marbles[r.0.current] == r.0.lastTurn &&
        RemoveAt(r.0.marbles, r.0.current) == g.marbles
    ensures var r := Next(g);
      r.1.Some? ==>
        r.0.current == (g.current - 7 + |g.marbles|) % |g.marbles| &&
        InsertAt(r.0.marbles, r.0.current, r.1.value - r.0.lastTurn) == g.marbles
  {
    var n := |g.marbles|;
    if (g.lastTurn + 1) % 23 == 0 {
      NextTakes(g);
      ModIsRemainder(g.current - 7 + n, n);
      RemoveInsert(g.marbles, Mod(g.current - 7 + n, n));
    } else {
      NextPlaces(g);
      ModIsRemainder(g.current + 1, n);
      InsertRemove(g.marbles, Mod(g.current + 1, n) + 1, g.lastTurn + 1);
    }
  }

  /// Removing a marble keeps the others distinct and within `bound`.
  lemma RemoveAtDistinct(s: seq<int>, p: int, bound: int)
    requires 0 <= p < |s|
    requires forall i :: 0 <= i < |s| ==> 0 <= s[i] <= bound
    requires forall i, j :: 0 <= i < j < |s| ==> s[i] != s[j]
    ensures var r := RemoveAt(s, p);
      (forall i :: 0 <= i < |r| ==> 0 <= r[i] <= bound) &&
      (forall i, j :: 0 <= i < j < |r| ==> r[i] != r[j])
  {
    var r := RemoveAt(s, p);
    forall i, j | 0 <= i < j < |r| ensures r[i] != r[j] {
      var i' := if i < p then i else i + 1;
      var j' := if j < p then j else j + 1;
      assert r[i] == s[i'] && r[j] == s[j'];
    }
  }

  /// Inserting a new marble `v`, above every other, keeps the marbles
  /// distinct and within `v`.
  lemma InsertAtDistinct(s: seq<int>, p: int, v: int)
    requires 0 <= p <= |s|
    requires v >= 0 && forall i :: 0 <= i < |s| ==> 0 <= s[i] < v
    requires forall i, j :: 0 <= i < j < |s| ==> s[i] != s[j]
    ensures var r := InsertAt(s, p, v);
      (forall i :: 0 <= i < |r| ==> 0 <= r[i] <= v) &&
      (forall i, j :: 0 <= i < j < |r| ==> r[i] != r[j])
  {
    var r := InsertAt(s, p, v);
    forall i | 0 <= i < |r| ensures 0 <= r[i] <= v {
      if i < p { assert r[i] == s[i]; } else if i > p { assert r[i] == s[i - 1]; }
    }
    forall i, j | 0 <= i < j < |r| ensures r[i] != r[j] {
      if i != p && j != p {
        var i' := if i < p then i else i - 1;
        var j' := if j < p then j else j - 1;
        assert r[i] == s[i'] && r[j] == s[j'];
      }
    }
  }

  /// `Next` keeps the marbles distinct and numbered up to the last turn.
  lemma NextDistinct(g: GameState)
    requires Reachable(g) && DistinctMarbles(g)
    ensures DistinctMarbles(Next(g).0)
  {
    var n := Next(g).0;
    if (g.lastTurn + 1) % 23 == 0 {
      NextTakes(g);
      var p := Mod(g.current - 7 + |g.marbles|, |g.marbles|);
      RemoveAtDistinct(g.marbles, p, g.lastTurn + 1);
      assert n.marbles == RemoveAt(g.marbles, p);
    } else {
      NextPlaces(g);
      var p := Mod(g.current + 1, |g.marbles|) + 1;
      InsertAtDistinct(g.marbles, p, g.lastTurn + 1);
      assert n.marbles == InsertAt(g.marbles, p, g.lastTurn + 1);
    }
  }

  /// `Next` of an ordinary turn, as a list insertion.
  lemma NextPlaces(g: GameState)
    requires Reachable(g) && (g.lastTurn + 1) % 23 != 0
    ensures var p := Mod(g.current + 1, |g.marbles|) + 1;
      Next(g) == (GameState(InsertAt(g.marbles, p, g.lastTurn + 1), p, g.lastTurn + 1), None)
  {
  }

  /// `Next` of a 23rd turn, as a list removal.
  lemma NextTakes(g: GameState)
    requires Reachable(g) && (g.lastTurn + 1) % 23 == 0
    ensures |g.marbles| >= 23
    ensures var p := Mod(g.current - 7 + |g.marbles|, |g.marbles|);
      Next(g) == (GameState(RemoveAt(g.marbles, p), p, g.lastTurn + 1), Some(g.marbles[p] + g.lastTurn + 1))
  {
    MarbleCountStep(g.lastTurn);
  }
}
