/// Day13/State.cs: one tick of the mine, in which every cart moves once, in
/// list order, and any cart arriving where a cart already is records a
/// collision.
module Day13State {
  import opened Wrappers
  import opened CSharpInts
  import opened Day13CartState
  import opened Day13Map

  datatype State = State(tracks: Map, carts: seq<CartState>)

  function At(cart: CartState): Position
  {
    (cart.x, cart.y)
  }

  /// The move cart `cart` makes over the track under it.
  function MoveOn(m: Map, cart: CartState): Result<CartState>
  {
    Move(cart, Get(m, cart.x, cart.y))
  }

  /// Whether any cart of the list is at `p` (`Any`).
  predicate AnyAt(carts: seq<CartState>, p: Position)
  {
    exists k :: 0 <= k < |carts| && At(carts[k]) == p
  }

  /// One step of the `Aggregate`: move cart `i` of the partly updated list
  /// and record its new position as a collision when a cart of that list
  /// (before the update) is already there.
  function UpdateStep(m: Map, carts: seq<CartState>, collisions: seq<Position>, i: int)
    : (r: Result<(seq<CartState>, seq<Position>)>)
    requires 0 <= i < |carts|
    ensures r.Success? <==> MoveOn(m, carts[i]).Success?
    ensures r.Success? ==> |r.value.0| == |carts| && r.value.0[i] == MoveOn(m, carts[i]).value
    ensures r.Success? ==> forall j :: 0 <= j < |carts| && j != i ==> r.value.0[j] == carts[j]
  {
    var updated :- MoveOn(m, carts[i]);
    Success((carts[i := updated], if AnyAt(carts, At(updated)) then collisions + [At(updated)] else collisions))
  }

  /// The `Aggregate` over `Range(i, |carts| - i)`; the first move that
  /// throws ends it.
  function UpdateFrom(m: Map, carts: seq<CartState>, collisions: seq<Position>, i: int)
    : Result<(seq<CartState>, seq<Position>)>
    requires 0 <= i <= |carts|
    decreases |carts| - i
  {
    if i == |carts| then Success((carts, collisions))
    else
      var next :- UpdateStep(m, carts, collisions, i);
      UpdateFrom(m, next.0, next.1, i + 1)
  }

  /// `Update`: the state after one tick and the collisions it recorded, in
  /// the order they happened. The map is passed on unchanged.
  function Update(s: State): Result<(State, seq<Position>)>
  {
    var (carts, collisions) :- UpdateFrom(s.tracks, s.carts, [], 0);
    Success((State(s.tracks, carts), collisions))
  }

  /// Every cart can make its move.
  predicate AllMove(m: Map, carts: seq<CartState>)
  {
    forall j :: 0 <= j < |carts| ==> MoveOn(m, carts[j]).Success?
  }

  /// Each cart moved on its own, from where it started the tick.
  function MovedAll(m: Map, carts: seq<CartState>): (r: seq<CartState>)
    requires AllMove(m, carts)
    ensures |r| == |carts|
  {
    seq(|carts|, j requires 0 <= j < |carts| => MoveOn(m, carts[j]).value)
  }

  /// The list cart `j` sees when it moves: carts before it have moved,
  /// carts from it on have not.
  function Partial(carts: seq<CartState>, moved: seq<CartState>, j: int): seq<CartState>
    requires |moved| == |carts| && 0 <= j <= |carts|
  {
    moved[..j] + carts[j..]
  }

  /// Cart `j` arrives where a cart of the list it sees already is.
  predicate Hit(carts: seq<CartState>, moved: seq<CartState>, j: int)
    requires |moved| == |carts| && 0 <= j < |carts|
  {
    exists k :: 0 <= k < |carts| && At(Partial(carts, moved, j)[k]) == At(moved[j])
  }

  /// The positions of the first `j` carts' arrivals that hit a cart, in
  /// order.
  function CollisionsUpTo(carts: seq<CartState>, moved: seq<CartState>, j: int): seq<Position>
    requires |moved| == |carts| && 0 <= j <= |carts|
  {
    if j == 0 then []
    else CollisionsUpTo(carts, moved, j - 1) + (if Hit(carts, moved, j - 1) then [At(moved[j - 1])] else [])
  }

  /// `Update` moves every cart exactly once, from where it started the
  /// tick, keeps the number and order of the carts and the map, and
  /// records a collision for exactly the carts that arrive where a cart of
  /// the partly updated list is; it fails exactly when some cart cannot
  /// move, with the error of the first such cart.
  lemma UpdateMeaning(s: State)
    ensures Update(s).Success? <==> AllMove(s.tracks, s.carts)
    ensures AllMove(s.tracks, s.carts) ==>
      var moved := MovedAll(s.tracks, s.carts);
      Update(s) == Success((State(s.tracks, moved), CollisionsUpTo(s.carts, moved, |s.carts|)))
    ensures forall f :: (0 <= f < |s.carts| && MoveOn(s.tracks, s.carts[f]).Failure? &&
      (forall j :: 0 <= j < f ==> MoveOn(s.tracks, s.carts[j]).Success?)) ==>
      Update(s) == Failure(MoveOn(s.tracks, s.carts[f]).error)
  {
    if AllMove(s.tracks, s.carts) {
      var moved := MovedAll(s.tracks, s.carts);
      assert Partial(s.carts, moved, 0) == s.carts;
      UpdateFromMoves(s.tracks, s.carts, moved, 0);
    } else {
      var f :| 0 <= f < |s.carts| && MoveOn(s.tracks, s.carts[f]).Failure?;
      f := FirstFailure(s.tracks, s.carts, f);
      UpdateFromFails(s.tracks, s.carts, f, s.carts, [], 0);
    }
    forall f | 0 <= f < |s.carts| && MoveOn(s.tracks, s.carts[f]).Failure? &&
      (forall j :: 0 <= j < f ==> MoveOn(s.tracks, s.carts[j]).Success?)
      ensures Update(s) == Failure(MoveOn(s.tracks, s.carts[f]).error)
    {
      UpdateFromFails(s.tracks, s.carts, f, s.carts, [], 0);
    }
  }

  /// The first cart that cannot move, at or before a given one.
  lemma FirstFailure(m: Map, carts: seq<CartState>, g: int) returns (f: int)
    requires 0 <= g < |carts| && MoveOn(m, carts[g]).Failure?
    ensures 0 <= f <= g && MoveOn(m, carts[f]).Failure?
    ensures forall j :: 0 <= j < f ==> MoveOn(m, carts[j]).Success?
  {
    f := g;
    while exists j :: 0 <= j < f && MoveOn(m, carts[j]).Failure?
      invariant 0 <= f <= g && MoveOn(m, carts[f]).Failure?
      decreases f
    {
      var j :| 0 <= j < f && MoveOn(m, carts[j]).Failure?;
      f := j;
    }
  }

  /// From step `i` on, with the list and collisions as the reference says,
  /// the `Aggregate` ends with every cart moved and every collision.
  lemma {:induction false} UpdateFromMoves(m: Map, carts: seq<CartState>, moved: seq<CartState>, i: int)
    requires AllMove(m, carts) && moved == MovedAll(m, carts) && 0 <= i <= |carts|
    ensures UpdateFrom(m, Partial(carts, moved, i), CollisionsUpTo(carts, moved, i), i) ==
      Success((moved, CollisionsUpTo(carts, moved, |carts|)))
    decreases |carts| - i
  {
    if i == |carts| {
      assert Partial(carts, moved, i) == moved;
    } else {
      var current := Partial(carts, moved, i);
      assert current[i] == carts[i];
      assert MoveOn(m, current[i]) == Success(moved[i]);
      assert current[i := moved[i]] == Partial(carts, moved, i + 1);
      assert AnyAt(current, At(moved[i])) <==> Hit(carts, moved, i);
      assert CollisionsUpTo(carts, moved, i + 1) ==
        CollisionsUpTo(carts, moved, i) + (if Hit(carts, moved, i) then [At(moved[i])] else []);
      var step := UpdateStep(m, current, CollisionsUpTo(carts, moved, i), i);
      assert step.Success?;
      assert step.value.0 == Partial(carts, moved, i + 1);
      assert step.value.1 == CollisionsUpTo(carts, moved, i + 1);
      UpdateFromMoves(m, carts, moved, i + 1);
    }
  }

  /// With cart `f` the first that cannot move, the `Aggregate` fails with
  /// its error from any step up to `f` at which carts from there on have
  /// not moved yet.
  lemma {:induction false} UpdateFromFails(m: Map, original: seq<CartState>, f: int,
                                           carts: seq<CartState>, collisions: seq<Position>, i: int)
    requires 0 <= i <= f < |original| == |carts|
    requires MoveOn(m, original[f]).Failure?
    requires forall j :: 0 <= j < f ==> MoveOn(m, original[j]).Success?
    requires forall j :: i <= j < |carts| ==> carts[j] == original[j]
    ensures UpdateFrom(m, carts, collisions, i) == Failure(MoveOn(m, original[f]).error)
    decreases |carts| - i
  {
    if i < f {
      var next := UpdateStep(m, carts, collisions, i);
      assert next.Success?;
      UpdateFromFails(m, original, f, next.value.0, next.value.1, i + 1);
    }
  }

  /// A cart never collides with itself: it always leaves the cell it
  /// started the tick on, so a hit is always with another cart.
  lemma HitIsOther(carts: seq<CartState>, moved: seq<CartState>, m: Map, j: int)
    requires AllMove(m, carts) && moved == MovedAll(m, carts) && 0 <= j < |carts|
    ensures Hit(carts, moved, j) <==>
      exists k :: 0 <= k < |carts| && k != j && At(Partial(carts, moved, j)[k]) == At(moved[j])
  {
    MoveSteps(carts[j], Get(m, carts[j].x, carts[j].y));
    assert Partial(carts, moved, j)[j] == carts[j];
  }
}
