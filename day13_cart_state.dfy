/// Day13/CartState.cs: a mine cart and the move it makes over one track
/// cell.
module Day13CartState {
  import opened Wrappers
  import opened CSharpInts

  /// `CartDirection`, whose numeric values run clockwise from north.
  datatype Direction = North | East | South | West

  /// `TrackCell`: the piece of track under a map position.
  datatype TrackCell =
    | Empty                 // ' ', or any position the map does not hold
    | NorthSouth            // '|'
    | EastWest              // '-'
    | NorthEastSouthWest    // '/'
    | NorthWestSouthEast    // '\'
    | Intersection          // '+'

  /// `(int) direction`.
  function Ordinal(d: Direction): (n: int)
    ensures 0 <= n < 4
  {
    match d
    case North => 0
    case East => 1
    case South => 2
    case West => 3
  }

  /// `(CartDirection) n` for `n` in `[0, 4)`.
  function FromOrdinal(n: int): (d: Direction)
    requires 0 <= n < 4
    ensures Ordinal(d) == n
  {
    if n == 0 then North else if n == 1 then East else if n == 2 then South else West
  }

  datatype CartState = CartState(x: int, y: int, direction: Direction, intersectionsEncountered: int)

  /// The turn a `/` track makes.
  function ForwardCurve(d: Direction): Direction
  {
    match d
    case North => East
    case South => West
    case East => North
    case West => South
  }

  /// The turn a `\` track makes.
  function BackCurve(d: Direction): Direction
  {
    match d
    case North => West
    case South => East
    case East => South
    case West => North
  }

  /// The unit step `(dx, dy)` of a direction; north is towards smaller `y`.
  function Delta(d: Direction): (int, int)
  {
    match d
    case North => (0, -1)
    case South => (0, 1)
    case West => (-1, 0)
    case East => (1, 0)
  }

  /// `Move`: the cart after crossing `track`. A straight track must run the
  /// way the cart moves; an empty cell is not a track. The `k`th
  /// intersection (counting from 0) turns the cart by `k % 3 - 1` quarter
  /// turns clockwise.
  function Move(cart: CartState, track: TrackCell): Result<CartState>
  {
    var i := cart.intersectionsEncountered;
    var d := cart.direction;
    var turned: Result<(Direction, int)> :=
      match track
      case NorthSouth =>
        if d == North || d == South then Success((d, i)) else Failure(InvalidOperation)
      case EastWest =>
        if d == East || d == West then Success((d, i)) else Failure(InvalidOperation)
      case NorthEastSouthWest => Success((ForwardCurve(d), i))
      case NorthWestSouthEast => Success((BackCurve(d), i))
      case Intersection =>
        var turnDelta := Rem(i, 3) - 1;
        Success((FromOrdinal((Ordinal(d) + turnDelta + 4) % 4), i + 1))
      case Empty => Failure(ArgumentOutOfRange);
    var (nd, ni) :- turned;
    var (dx, dy) := Delta(nd);
    Success(CartState(cart.x + dx, cart.y + dy, nd, ni))
  }

  /// The direction pointing the other way.
  function Opposite(d: Direction): Direction
  {
    match d
    case North => South
    case South => North
    case East => West
    case West => East
  }

  /// A quarter turn anticlockwise.
  function TurnLeft(d: Direction): Direction
  {
    match d
    case North => West
    case West => South
    case South => East
    case East => North
  }

  /// A quarter turn clockwise.
  function TurnRight(d: Direction): Direction
  {
    match d
    case North => East
    case East => South
    case South => West
    case West => North
  }

  /// A cart moves exactly one cell, in the direction it ends up facing, and
  /// never stays where it was.
  lemma MoveSteps(cart: CartState, track: TrackCell)
    requires Move(cart, track).Success?
    ensures var next := Move(cart, track).value;
      next.x == cart.x + Delta(next.direction).0 && next.y == cart.y + Delta(next.direction).1 &&
      Abs(next.x - cart.x) + Abs(next.y - cart.y) == 1
  {
  }

  /// A straight track keeps a cart that runs along it going the same way,
  /// and turns away (`InvalidOperation`) a cart that would cross it.
  lemma MoveStraight(cart: CartState, track: TrackCell)
    requires track == NorthSouth || track == EastWest
    ensures var along := if track == NorthSouth then cart.direction in {North, South}
                         else cart.direction in {East, West};
      Move(cart, track) == if along then Success(CartState(cart.x + Delta(cart.direction).0,
          cart.y + Delta(cart.direction).1, cart.direction, cart.intersectionsEncountered))
        else Failure(InvalidOperation)
  {
  }

  /// Only an empty cell (`ArgumentOutOfRange`) or a cart crossing a
  /// straight track (`InvalidOperation`) stops a cart; curves and
  /// intersections accept a cart from every direction.
  lemma MoveFails(cart: CartState, track: TrackCell)
    ensures Move(cart, track).Failure? <==>
      track == Empty ||
      (track == NorthSouth && cart.direction in {East, West}) ||
      (track == EastWest && cart.direction in {North, South})
    ensures track == Empty ==> Move(cart, track) == Failure(ArgumentOutOfRange)
  {
  }

  /// Curves are reversible: a cart running back through a curve along the
  /// way another cart left it comes out the way that cart went in, and only
  /// intersections count towards the crossing count.
  lemma CurveReversible(cart: CartState, track: TrackCell)
    requires track == NorthEastSouthWest || track == NorthWestSouthEast
    ensures var next := Move(cart, track);
      next.Success? &&
      next.value.intersectionsEncountered == cart.intersectionsEncountered &&
      var back := Move(CartState(next.value.x, next.value.y, Opposite(next.value.direction), 0), track);
      back.Success? && back.value.direction == Opposite(cart.direction)
  {
  }

  /// At an intersection a cart turns left, goes straight on, or turns right
  /// as the number of intersections it has already crossed is 0, 1 or 2
  /// modulo 3, and the count goes up by one.
  lemma IntersectionTurns(cart: CartState)
    requires cart.intersectionsEncountered >= 0
    ensures var next := Move(cart, Intersection);
      var k := cart.intersectionsEncountered % 3;
      next.Success? &&
      next.value.intersectionsEncountered == cart.intersectionsEncountered + 1 &&
      next.value.direction == (if k == 0 then TurnLeft(cart.direction)
                               else if k == 1 then cart.direction
                               else TurnRight(cart.direction))
  {
  }

  /// Three intersections in a row, wherever the cart is in its cycle, turn
  /// it left, straight and right in some order, so it comes out facing the
  /// way it went in.
  lemma {:induction false} ThreeIntersections(cart: CartState)
    requires cart.intersectionsEncountered >= 0
    ensures var a := Move(cart, Intersection).value;
      var b := Move(a, Intersection).value;
      var c := Move(b, Intersection).value;
      c.direction == cart.direction && c.intersectionsEncountered == cart.intersectionsEncountered + 3
  {
    var a := Move(cart, Intersection).value;
    var b := Move(a, Intersection).value;
    IntersectionTurns(cart);
    IntersectionTurns(a);
    IntersectionTurns(b);
  }

  /// The intersection cases of `Day13Tests`: facing each way with 0, 1 or 2
  /// intersections behind it, the cart turns left, goes straight or turns
  /// right, and moves one cell from (2, 2).
  lemma IntersectionExamples()
    ensures Move(CartState(2, 2, North, 0), Intersection) == Success(CartState(1, 2, West, 1))
    ensures Move(CartState(2, 2, North, 4), Intersection) == Success(CartState(2, 1, North, 5))
    ensures Move(CartState(2, 2, West, 8), Intersection) == Success(CartState(2, 1, North, 9))
    ensures Move(CartState(2, 2, South, 3), Intersection) == Success(CartState(3, 2, East, 4))
    ensures Move(CartState(2, 2, East, 2), Intersection) == Success(CartState(2, 3, South, 3))
  {
  }
}
