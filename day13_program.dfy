/// Day13/Program.cs: reading the track map, with its carts, from the input
/// text, and running ticks until the first collision.
module Day13Program {
  import opened Wrappers
  import opened Day13CartState
  import opened Day13Map
  import opened Day13State

  /// The callback the input parser makes on the map receiver for one
  /// character (or line ending) of the input (`pInputChar`).
  datatype MapAction = CellAction(cell: TrackCell) | CartAction(direction: Direction) | NewLineAction

  /// `pTrackCell`.
  function ParseTrack(c: char): Option<TrackCell>
  {
    match c
    case ' ' => Some(Empty)
    case '|' => Some(NorthSouth)
    case '-' => Some(EastWest)
    case '\\' => Some(NorthWestSouthEast)
    case '/' => Some(NorthEastSouthWest)
    case '+' => Some(Intersection)
    case _ => None
  }

  /// `pCartDirection`.
  function ParseCart(c: char): Option<Direction>
  {
    match c
    case '>' => Some(East)
    case '<' => Some(West)
    case '^' => Some(North)
    case 'v' => Some(South)
    case _ => None
  }

  /// `many(pInputChar)` over `text[i..]`, with `ProcessLine` requiring the
  /// whole text to be consumed: `None` where the process would stop with a
  /// parse error. A line ends with "\n" or "\r\n".
  function ParseFrom(text: string, i: nat): Option<seq<MapAction>>
    requires i <= |text|
    decreases |text| - i
  {
    if i == |text| then Some([])
    else
      var c := text[i];
      if ParseTrack(c).Some? then Prepend(CellAction(ParseTrack(c).value), ParseFrom(text, i + 1))
      else if ParseCart(c).Some? then Prepend(CartAction(ParseCart(c).value), ParseFrom(text, i + 1))
      else if c == '\n' then Prepend(NewLineAction, ParseFrom(text, i + 1))
      else if c == '\r' && i + 1 < |text| && text[i + 1] == '\n' then Prepend(NewLineAction, ParseFrom(text, i + 2))
      else None
  }

  function Prepend(a: MapAction, rest: Option<seq<MapAction>>): Option<seq<MapAction>>
  {
    if rest.Some? then Some([a] + rest.value) else None
  }

  function ParseMap(text: string): Option<seq<MapAction>>
  {
    ParseFrom(text, 0)
  }

  /// The fields of `MapReceiver`, as a value.
  datatype Receiver = Receiver(currentX: int, currentY: int, cells: map<Position, TrackCell>,
                               carts: seq<CartState>, width: int, height: int)

  /// A fresh `MapReceiver`.
  const Initial := Receiver(0, 0, map[], [], 0, 0)

  /// The track a cart's letter stands on: `|` under `^` and `v`, `-` under
  /// `<` and `>`.
  function CartTrack(d: Direction): TrackCell
  {
    if d == North || d == South then NorthSouth else EastWest
  }

  /// Every stored cell lies before the cursor, in reading order, so the
  /// next `Cell` adds a new key; `Width` is one past the largest column
  /// stored and `Height` the current line.
  ghost predicate CellsBeforeCursor(r: Receiver)
  {
    0 <= r.currentX && 0 <= r.currentY && r.height == r.currentY && 0 <= r.width &&
    (forall p :: p in r.cells ==>
      0 <= p.0 < r.width && 0 <= p.1 <= r.currentY && (p.1 < r.currentY || p.0 < r.currentX)) &&
    (r.width == 0 || exists p :: p in r.cells && p.0 == r.width - 1)
  }

  /// A cart stands on the track its letter stands for and has crossed no
  /// intersection yet.
  ghost predicate OnTrack(cells: map<Position, TrackCell>, cart: CartState)
  {
    At(cart) in cells && cells[At(cart)] == CartTrack(cart.direction) && cart.intersectionsEncountered == 0
  }

  /// What holds of the receiver between callbacks.
  ghost predicate ReceiverValid(r: Receiver)
  {
    CellsBeforeCursor(r) && forall k :: 0 <= k < |r.carts| ==> OnTrack(r.cells, r.carts[k])
  }

  /// Every cart is on its track, or is at the cursor waiting for `cell` to
  /// be stored under it.
  ghost predicate CartsAwait(r: Receiver, cell: TrackCell)
  {
    forall k :: 0 <= k < |r.carts| ==>
      OnTrack(r.cells, r.carts[k]) ||
      (At(r.carts[k]) == (r.currentX, r.currentY) && CartTrack(r.carts[k].direction) == cell &&
       r.carts[k].intersectionsEncountered == 0)
  }

  /// `Cell`: store the track at the cursor, step right, and keep `Width`
  /// at the furthest column reached.
  function ReceiveCell(r: Receiver, cell: TrackCell): (next: Receiver)
    requires CellsBeforeCursor(r) && CartsAwait(r, cell)
    ensures ReceiverValid(next)
    ensures (r.currentX, r.currentY) !in r.cells
  {
    var next := Receiver(r.currentX + 1, r.currentY, r.cells[(r.currentX, r.currentY) := cell], r.carts,
                         if r.width < r.currentX + 1 then r.currentX + 1 else r.width, r.height);
    assert (r.currentX, r.currentY) in next.cells;
    assert forall k :: 0 <= k < |r.carts| && OnTrack(r.cells, r.carts[k]) ==> OnTrack(next.cells, r.carts[k]);
    next
  }

  /// `Cart`: record a cart at the cursor with no intersections crossed, then
  /// store the track under it.
  function ReceiveCart(r: Receiver, d: Direction): (next: Receiver)
    requires ReceiverValid(r)
    ensures ReceiverValid(next)
  {
    var withCart := r.(carts := r.carts + [CartState(r.currentX, r.currentY, d, 0)]);
    ReceiveCell(withCart, CartTrack(d))
  }

  /// `NewLine`: move the cursor to the start of the next line.
  function ReceiveNewLine(r: Receiver): (next: Receiver)
    requires ReceiverValid(r)
    ensures ReceiverValid(next)
  {
    Receiver(0, r.currentY + 1, r.cells, r.carts, r.width, r.currentY + 1)
  }

  function Receive(r: Receiver, a: MapAction): (next: Receiver)
    requires ReceiverValid(r)
    ensures ReceiverValid(next)
  {
    match a
    case CellAction(c) => ReceiveCell(r, c)
    case CartAction(d) => ReceiveCart(r, d)
    case NewLineAction => ReceiveNewLine(r)
  }

  /// The receiver after the callbacks of `actions`, in order (the
  /// `Aggregate` of `LoadMap`).
  function Received(actions: seq<MapAction>): (r: Receiver)
    ensures ReceiverValid(r)
  {
    if actions == [] then Initial
    else Receive(Received(actions[..|actions| - 1]), actions[|actions| - 1])
  }

  /// `MapReceiver`: the cursor, the cells and carts read so far, and the
  /// map's size.
  class MapReceiver {
    var currentX: int
    var currentY: int
    var cells: map<Position, TrackCell>
    var carts: seq<CartState>
    var width: int
    var height: int

    function Snapshot(): Receiver
      reads this
    {
      Receiver(currentX, currentY, cells, carts, width, height)
    }

    ghost predicate Valid()
      reads this
    {
      ReceiverValid(Snapshot())
    }

    constructor()
      ensures Snapshot() == Initial && Valid()
    {
      currentX := 0;
      currentY := 0;
      cells := map[];
      carts := [];
      width := 0;
      height := 0;
    }

    /// `Cell`: the key at the cursor is always new, so the dictionary's
    /// `Add` does not throw.
    method Cell(cell: TrackCell)
      requires CellsBeforeCursor(Snapshot()) && CartsAwait(Snapshot(), cell)
      modifies this
      ensures Snapshot() == ReceiveCell(old(Snapshot()), cell) && Valid()
    {
      cells := cells[(currentX, currentY) := cell];
      currentX := currentX + 1;
      width := if width < currentX then currentX else width;
    }

    method Cart(direction: Direction)
      requires Valid()
      modifies this
      ensures Snapshot() == ReceiveCart(old(Snapshot()), direction) && Valid()
    {
      carts := carts + [CartState(currentX, currentY, direction, 0)];
      assert CartsAwait(Snapshot(), CartTrack(direction));
      match direction {
        case North => Cell(NorthSouth);
        case South => Cell(NorthSouth);
        case West => Cell(EastWest);
        case East => Cell(EastWest);
      }
    }

    method NewLine()
      requires Valid()
      modifies this
      ensures Snapshot() == ReceiveNewLine(old(Snapshot())) && Valid()
    {
      currentY := currentY + 1;
      height := currentY;
      currentX := 0;
    }

    /// The parsed action for one input character, run on this receiver.
    method Act(a: MapAction)
      requires Valid()
      modifies this
      ensures Snapshot() == Receive(old(Snapshot()), a) && Valid()
    {
      match a {
        case CellAction(c) => Cell(c);
        case CartAction(d) => Cart(d);
        case NewLineAction => NewLine();
      }
    }
  }

  /// The state `LoadMap` builds from the receiver.
  function Loaded(r: Receiver): State
  {
    State(Map(r.width, r.height, r.cells), r.carts)
  }

  /// `LoadMap`: parse the text, run each callback on a fresh receiver, and
  /// build the state from it; `None` where the parse would stop the
  /// process.
  method LoadMap(text: string) returns (r: Option<State>)
    ensures ParseMap(text).None? ==> r.None?
    ensures ParseMap(text).Some? ==> r == Some(Loaded(Received(ParseMap(text).value)))
  {
    var parsed := ParseMap(text);
    if parsed.None? {
      return None;
    }
    var actions := parsed.value;
    var mapr := new MapReceiver();
    for i := 0 to |actions|
      invariant mapr.Valid() && mapr.Snapshot() == Received(actions[..i])
    {
      assert actions[..i + 1][..i] == actions[..i];
      mapr.Act(actions[i]);
    }
    assert actions[..|actions|] == actions;
    r := Some(State(Map(mapr.width, mapr.height, mapr.cells), mapr.carts));
  }

  /// The number of line endings in `actions`.
  function Row(actions: seq<MapAction>): nat
  {
    if actions == [] then 0
    else Row(actions[..|actions| - 1]) + (if actions[|actions| - 1] == NewLineAction then 1 else 0)
  }

  /// The number of characters since the last line ending.
  function Column(actions: seq<MapAction>): nat
  {
    if actions == [] then 0
    else if actions[|actions| - 1] == NewLineAction then 0
    else Column(actions[..|actions| - 1]) + 1
  }

  /// The carts of the input, in input order, each where its letter is and
  /// with no intersection crossed.
  function CartsOf(actions: seq<MapAction>): seq<CartState>
  {
    if actions == [] then []
    else
      var before := actions[..|actions| - 1];
      CartsOf(before) + match actions[|actions| - 1]
        case CartAction(d) => [CartState(Column(before), Row(before), d, 0)]
        case _ => []
  }

  /// The receiver's cursor is at the column and line of the next character,
  /// and its carts are those of the input in order.
  lemma {:induction false} ReceivedMeaning(actions: seq<MapAction>)
    ensures var r := Received(actions);
      r.currentX == Column(actions) && r.currentY == Row(actions) && r.height == Row(actions) &&
      r.carts == CartsOf(actions)
  {
    if actions != [] {
      ReceivedMeaning(actions[..|actions| - 1]);
    }
  }

  /// Every cart of a loaded map stands on the straight track its letter
  /// stands for, facing along it, so its first move succeeds and keeps its
  /// direction.
  lemma CartsOnTrack(actions: seq<MapAction>, k: int)
    requires 0 <= k < |Received(actions).carts|
    ensures var s := Loaded(Received(actions));
      var cart := s.carts[k];
      Get(s.tracks, cart.x, cart.y) == CartTrack(cart.direction) &&
      MoveOn(s.tracks, cart).Success? && MoveOn(s.tracks, cart).value.direction == cart.direction
  {
    var s := Loaded(Received(actions));
    var cart := s.carts[k];
    MoveStraight(cart, CartTrack(cart.direction));
  }

  /// The collisions of tick `n` (counting from 0) from state `s`.
  function TickCollisions(s: State, n: nat): Result<seq<Position>>
    decreases n
  {
    var (next, collisions) :- Update(s);
    if n == 0 then Success(collisions) else TickCollisions(next, n - 1)
  }

  /// Tick `n` is the first with a collision, and `p` is its first.
  ghost predicate FirstAt(s: State, n: nat, p: Position)
  {
    (forall m :: 0 <= m < n ==> TickCollisions(s, m) == Success([])) &&
    TickCollisions(s, n).Success? && |TickCollisions(s, n).value| > 0 && TickCollisions(s, n).value[0] == p
  }

  /// The `Generate ... SelectMany ... First` of `SolvePart1`: the first
  /// collision of the first tick that has any, within `fuel` ticks; a move
  /// that throws ends the search with its error.
  function FirstCollision(s: State, fuel: nat): Result<Option<Position>>
    decreases fuel
  {
    if fuel == 0 then Success(None)
    else
      var (next, collisions) :- Update(s);
      if collisions != [] then Success(Some(collisions[0])) else FirstCollision(next, fuel - 1)
  }

  /// After a tick that succeeds, the ticks that follow are those of the
  /// state it produced.
  lemma TickShift(s: State, n: nat)
    requires Update(s).Success?
    ensures TickCollisions(s, n + 1) == TickCollisions(Update(s).value.0, n)
  {
  }

  /// `SolvePart1` finds `p` within `fuel` ticks exactly when, for some tick
  /// before `fuel`, no earlier tick had a collision and `p` is that tick's
  /// first collision.
  lemma {:induction false} FirstCollisionMeaning(s: State, fuel: nat, p: Position)
    ensures FirstCollision(s, fuel) == Success(Some(p)) <==> exists n :: 0 <= n < fuel && FirstAt(s, n, p)
    decreases fuel
  {
    if fuel > 0 && Update(s).Success? {
      var (next, collisions) := Update(s).value;
      FirstCollisionMeaning(next, fuel - 1, p);
      if collisions == [] {
        forall n | 0 <= n < fuel - 1
          ensures FirstAt(s, n + 1, p) <==> FirstAt(next, n, p)
        {
          forall m | 0 <= m <= n
            ensures TickCollisions(s, m + 1) == TickCollisions(next, m)
          {
            TickShift(s, m);
          }
          assert TickCollisions(s, 0) == Success([]);
          assert forall m :: 1 <= m <= n + 1 ==> TickCollisions(s, m) == TickCollisions(next, m - 1);
        }
        if FirstCollision(s, fuel) == Success(Some(p)) {
          var n :| 0 <= n < fuel - 1 && FirstAt(next, n, p);
          assert FirstAt(s, n + 1, p);
        }
        if n :| 0 <= n < fuel && FirstAt(s, n, p) {
          assert n != 0;
          assert FirstAt(next, n - 1, p);
        }
      } else {
        assert FirstAt(s, 0, p) <==> collisions[0] == p;
        forall n | 0 < n < fuel
          ensures !FirstAt(s, n, p)
        {
          assert TickCollisions(s, 0) != Success([]);
        }
      }
    } else if fuel > 0 {
      forall n | 0 <= n < fuel
        ensures !FirstAt(s, n, p)
      {
        assert TickCollisions(s, 0).Failure?;
      }
    }
  }

  /// `SolvePart1`: load the map and look for the first collision within
  /// `fuel` ticks (the source searches without bound).
  method SolvePart1(text: string, fuel: nat) returns (r: Result<Option<Position>>)
    requires ParseMap(text).Some?
    ensures r == FirstCollision(Loaded(Received(ParseMap(text).value)), fuel)
  {
    var s := LoadMap(text);
    r := FirstCollision(s.value, fuel);
  }

  /// The map of the `SimpleCollision` test after loading: a vertical track
  /// at column 0, one cart heading south at (0, 1) and one heading north at
  /// (0, 5).
  function SimpleMap(): Map
  {
    Map(1, 6, map[(0, 0) := NorthSouth, (0, 1) := NorthSouth, (0, 2) := NorthSouth, (0, 3) := NorthSouth,
                  (0, 4) := NorthSouth, (0, 5) := NorthSouth, (0, 6) := NorthSouth])
  }

  /// `SimpleCollision`: the carts pass (0, 2) and (0, 4) without meeting,
  /// then the southbound cart reaches (0, 3) and the northbound one arrives
  /// there too.
  lemma SimpleCollision()
    ensures var s0 := State(SimpleMap(), [CartState(0, 1, South, 0), CartState(0, 5, North, 0)]);
      var s1 := State(SimpleMap(), [CartState(0, 2, South, 0), CartState(0, 4, North, 0)]);
      Update(s0) == Success((s1, [])) &&
      Update(s1) == Success((State(SimpleMap(), [CartState(0, 3, South, 0), CartState(0, 3, North, 0)]), [(0, 3)]))
  {
    var m := SimpleMap();
    var c0 := [CartState(0, 1, South, 0), CartState(0, 5, North, 0)];
    var half0 := [CartState(0, 2, South, 0), CartState(0, 5, North, 0)];
    var c1 := [CartState(0, 2, South, 0), CartState(0, 4, North, 0)];
    var half1 := [CartState(0, 3, South, 0), CartState(0, 4, North, 0)];
    var c2 := [CartState(0, 3, South, 0), CartState(0, 3, North, 0)];
    assert Get(m, 0, 1) == NorthSouth;
    assert MoveOn(m, c0[0]) == Success(half0[0]);
    assert c0[0 := half0[0]] == half0;
    assert !AnyAt(c0, (0, 2));
    assert UpdateStep(m, c0, [], 0) == Success((half0, []));
    assert Get(m, 0, 5) == NorthSouth;
    assert MoveOn(m, half0[1]) == Success(c1[1]);
    assert half0[1 := c1[1]] == c1;
    assert !AnyAt(half0, (0, 4));
    assert UpdateStep(m, half0, [], 1) == Success((c1, []));
    assert UpdateFrom(m, c0, [], 0) == Success((c1, []));
    assert Get(m, 0, 2) == NorthSouth;
    assert MoveOn(m, c1[0]) == Success(half1[0]);
    assert c1[0 := half1[0]] == half1;
    assert !AnyAt(c1, (0, 3));
    assert UpdateStep(m, c1, [], 0) == Success((half1, []));
    assert Get(m, 0, 4) == NorthSouth;
    assert MoveOn(m, half1[1]) == Success(c2[1]);
    assert half1[1 := c2[1]] == c2;
    assert At(half1[0]) == At(c2[1]);
    assert AnyAt(half1, At(c2[1]));
    assert [] + [At(c2[1])] == [(0, 3)];
    assert UpdateStep(m, half1, [], 1) == Success((c2, [(0, 3)]));
    assert UpdateFrom(m, c1, [], 0) == Success((c2, [(0, 3)]));
  }
}
