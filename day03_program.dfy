/// Fabric claims (Day03/Program.cs): rectangles of square inches claimed by
/// numbered elves, the cells claimed more than once, and the one claim that
/// overlaps no other.
module Day03Program {
  import opened Wrappers
  import opened Linq

  type Cell = (int, int)

  /// The claims on each cell of the fabric; a cell nobody claimed is absent.
  type State = map<Cell, set<int>>

  /// A parsed line `#id @ x,y: wxh`.
  datatype Claim = Claim(id: int, x: int, y: int, w: int, h: int)

  /// `GetEmptyState`: nothing claimed.
  const EmptyState: State := map[]

  function ClaimsAt(state: State, c: Cell): set<int>
  {
    if c in state then state[c] else {}
  }

  predicate Covers(x: int, y: int, w: int, h: int, c: Cell)
  {
    x <= c.0 < x + w && y <= c.1 < y + h
  }

  predicate CoversCell(r: Claim, c: Cell)
  {
    Covers(r.x, r.y, r.w, r.h, c)
  }

  function Offset(x: int, y: int, i: int, j: int): Cell
  {
    (x + i, y + j)
  }

  lemma RectCellsCover(x: int, y: int, w: int, h: int)
    ensures forall c :: c in (set i, j | 0 <= i < w && 0 <= j < h :: Offset(x, y, i, j)) <==> Covers(x, y, w, h, c)
  {
    var cells := set i, j | 0 <= i < w && 0 <= j < h :: Offset(x, y, i, j);
    forall c | Covers(x, y, w, h, c) ensures c in cells {
      var i, j := c.0 - x, c.1 - y;
      assert c == Offset(x, y, i, j);
    }
  }

  /// The cells (x+i, y+j) with 0 <= i < w and 0 <= j < h.
  function RectCells(x: int, y: int, w: int, h: int): (r: set<Cell>)
    ensures forall c :: c in r <==> Covers(x, y, w, h, c)
  {
    RectCellsCover(x, y, w, h);
    set i, j | 0 <= i < w && 0 <= j < h :: Offset(x, y, i, j)
  }

  /// The state after `claim` is added to every cell of the rectangle: those
  /// cells gain the claim, every other cell is unchanged.
  function WithRectangle(state: State, claim: int, x: int, y: int, w: int, h: int): (r: State)
    ensures forall c :: c in r <==> c in state || Covers(x, y, w, h, c)
    ensures forall c :: Covers(x, y, w, h, c) ==> r[c] == ClaimsAt(state, c) + {claim}
    ensures forall c :: c in state && !Covers(x, y, w, h, c) ==> r[c] == state[c]
    ensures forall c :: c in state ==> state[c] <= r[c]
  {
    map c | c in state.Keys + RectCells(x, y, w, h) ::
      if Covers(x, y, w, h, c) then ClaimsAt(state, c) + {claim} else state[c]
  }

  /// Claims are sets, so adding the same rectangle twice is adding it once.
  lemma WithRectangleTwice(state: State, claim: int, x: int, y: int, w: int, h: int)
    ensures WithRectangle(WithRectangle(state, claim, x, y, w, h), claim, x, y, w, h)
         == WithRectangle(state, claim, x, y, w, h)
  {
    var once := WithRectangle(state, claim, x, y, w, h);
    var twice := WithRectangle(once, claim, x, y, w, h);
    assert twice.Keys == once.Keys;
    forall c | c in once ensures twice[c] == once[c] {
      if Covers(x, y, w, h, c) {
        assert ClaimsAt(once, c) == ClaimsAt(state, c) + {claim};
      }
    }
  }

  /// Cells of rows before row `j`, and of row `j` before column `i`.
  predicate Done(x: int, y: int, w: int, j: int, i: int, c: Cell)
  {
    x <= c.0 < x + w && y <= c.1 && (c.1 < y + j || (c.1 == y + j && c.0 < x + i))
  }

  /// `AddRectangle`: rows outermost, then columns, adding the claim to the
  /// cell's set or starting a new one-claim set.
  method AddRectangle(state: State, claim: int, x: int, y: int, w: int, h: int) returns (r: State)
    ensures r == WithRectangle(state, claim, x, y, w, h)
  {
    r := state;
    var j := 0;
    while j < h
      invariant 0 <= j && (j <= h || j == 0)
      invariant Filled(r, state, claim, x, y, w, j, 0)
    {
      r := AddRow(r, state, claim, x, y, w, j);
      j := j + 1;
    }
    var spec := WithRectangle(state, claim, x, y, w, h);
    assert forall c :: Done(x, y, w, j, 0, c) <==> Covers(x, y, w, h, c);
    assert r.Keys == spec.Keys;
  }

  /// The state holds the claim on exactly the cells already visited, and
  /// the original sets elsewhere.
  ghost predicate Filled(r: State, state: State, claim: int, x: int, y: int, w: int, j: int, i: int)
  {
    (forall c :: c in r <==> c in state || Done(x, y, w, j, i, c)) &&
    (forall c :: c in r ==> r[c] == if Done(x, y, w, j, i, c) then ClaimsAt(state, c) + {claim} else state[c])
  }

  /// The inner loop of `AddRectangle`: the columns of row `j`.
  method AddRow(r0: State, state: State, claim: int, x: int, y: int, w: int, j: int) returns (r: State)
    requires 0 <= j && Filled(r0, state, claim, x, y, w, j, 0)
    ensures Filled(r, state, claim, x, y, w, j + 1, 0)
  {
    r := r0;
    var i := 0;
    while i < w
      invariant 0 <= i && (i <= w || i == 0)
      invariant Filled(r, state, claim, x, y, w, j, i)
    {
      var key := (x + i, y + j);
      var before := r;
      if key in r {
        r := r[key := r[key] + {claim}];
      } else {
        r := r[key := {claim}];
      }
      FilledStep(before, r, state, claim, x, y, w, j, i);
      i := i + 1;
    }
    FilledRow(r, state, claim, x, y, w, j, i);
  }

  /// A finished row is the start of the next one.
  lemma FilledRow(r: State, state: State, claim: int, x: int, y: int, w: int, j: int, i: int)
    requires 0 <= i && (i == w || (w < 0 && i == 0)) && Filled(r, state, claim, x, y, w, j, i)
    ensures Filled(r, state, claim, x, y, w, j + 1, 0)
  {
    assert forall c :: Done(x, y, w, j, i, c) <==> Done(x, y, w, j + 1, 0, c);
  }

  /// Visiting cell (x + i, y + j) extends the visited cells by that one.
  lemma FilledStep(r: State, r': State, state: State, claim: int, x: int, y: int, w: int, j: int, i: int)
    requires 0 <= j && 0 <= i < w && Filled(r, state, claim, x, y, w, j, i)
    requires var key := (x + i, y + j);
      r' == if key in r then r[key := r[key] + {claim}] else r[key := {claim}]
    ensures Filled(r', state, claim, x, y, w, j, i + 1)
  {
    var key := (x + i, y + j);
    assert forall c :: Done(x, y, w, j, i + 1, c) <==> Done(x, y, w, j, i, c) || c == key;
    assert !Done(x, y, w, j, i, key);
  }

  /// `Aggregate(GetEmptyState(), AddRectangle)` over the parsed claims.
  function Fabric(rs: seq<Claim>): State
    decreases |rs|
  {
    if rs == [] then EmptyState
    else
      var r := rs[|rs| - 1];
      WithRectangle(Fabric(rs[..|rs| - 1]), r.id, r.x, r.y, r.w, r.h)
  }

  /// Reference definition: the ids of the claims whose rectangle covers `c`.
  function ClaimsCovering(rs: seq<Claim>, c: Cell): set<int>
  {
    set k | 0 <= k < |rs| && CoversCell(rs[k], c) :: rs[k].id
  }

  lemma CoveringSnoc(rs: seq<Claim>, r: Claim, c: Cell)
    ensures ClaimsCovering(rs + [r], c) == ClaimsCovering(rs, c) + (if CoversCell(r, c) then {r.id} else {})
  {
    var all := rs + [r];
    forall id | id in ClaimsCovering(all, c)
      ensures id in ClaimsCovering(rs, c) + (if CoversCell(r, c) then {r.id} else {})
    {
      var k :| 0 <= k < |all| && CoversCell(all[k], c) && all[k].id == id;
      if k < |rs| {
        assert rs[k] == all[k];
      }
    }
    forall id | id in ClaimsCovering(rs, c) ensures id in ClaimsCovering(all, c) {
      var k :| 0 <= k < |rs| && CoversCell(rs[k], c) && rs[k].id == id;
      assert all[k] == rs[k];
    }
    if CoversCell(r, c) {
      assert all[|rs|] == r;
    }
  }

  /// After all the claims, a cell is present exactly when some claim covers
  /// it, and it holds the ids of the claims covering it.
  lemma {:induction false} FabricMeans(rs: seq<Claim>)
    ensures forall c :: c in Fabric(rs) <==> ClaimsCovering(rs, c) != {}
    ensures forall c :: c in Fabric(rs) ==> Fabric(rs)[c] == ClaimsCovering(rs, c)
    ensures BuiltFrom(Fabric(rs), rs)
    decreases |rs|
  {
    if rs == [] {
      forall c ensures ClaimsCovering(rs, c) == {} { }
    } else {
      var p, r := rs[..|rs| - 1], rs[|rs| - 1];
      assert rs == p + [r];
      FabricMeans(p);
      forall c ensures ClaimsCovering(rs, c) == ClaimsCovering(p, c) + (if CoversCell(r, c) then {r.id} else {}) {
        CoveringSnoc(p, r, c);
      }
    }
  }

  /// The facts `FabricMeans` gives about the state built from `rs`.
  ghost predicate BuiltFrom(f: State, rs: seq<Claim>)
  {
    (forall c :: c in f <==> ClaimsCovering(rs, c) != {}) &&
    forall c :: c in f ==> f[c] == ClaimsCovering(rs, c)
  }

  /// `CountOverlappingCells`: cells holding more than one claim.
  function CountOverlappingCells(state: State): (n: nat)
    ensures n <= |state|
  {
    var shared := set c | c in state.Keys && |state[c]| > 1;
    assert shared <= state.Keys;
    SubsetSize(shared, state.Keys);
    |shared|
  }

  lemma SubsetSize<T>(a: set<T>, b: set<T>)
    requires a <= b
    ensures |a| <= |b|
  {
    assert b == a + (b - a);
  }

  /// A set has more than one element exactly when it has two different ones.
  lemma MoreThanOne(s: set<int>)
    ensures |s| > 1 <==> exists a, b :: a in s && b in s && a != b
  {
    if |s| > 1 {
      HasElement(s);
      var a :| a in s;
      HasElement(s - {a});
      var b :| b in s - {a};
    } else if exists a, b :: a in s && b in s && a != b {
      var a, b :| a in s && b in s && a != b;
      assert {a, b} <= s;
      SubsetSize({a, b}, s);
    }
  }

  /// Two claims with different ids covering the cell.
  predicate SharedBy(rs: seq<Claim>, c: Cell)
  {
    exists a, b :: 0 <= a < |rs| && 0 <= b < |rs| && rs[a].id != rs[b].id && CoversCell(rs[a], c) && CoversCell(rs[b], c)
  }

  lemma SharedByMeans(rs: seq<Claim>, c: Cell)
    ensures SharedBy(rs, c) <==> |ClaimsCovering(rs, c)| > 1
  {
    var ids := ClaimsCovering(rs, c);
    MoreThanOne(ids);
    if |ids| > 1 {
      var p, q :| p in ids && q in ids && p != q;
      var a :| 0 <= a < |rs| && CoversCell(rs[a], c) && rs[a].id == p;
      var b :| 0 <= b < |rs| && CoversCell(rs[b], c) && rs[b].id == q;
    }
    if SharedBy(rs, c) {
      var a, b :| 0 <= a < |rs| && 0 <= b < |rs| && rs[a].id != rs[b].id && CoversCell(rs[a], c) && CoversCell(rs[b], c);
      assert rs[a].id in ids && rs[b].id in ids;
    }
  }

  /// The cells of `f` covered by two claims of `rs` with different ids.
  ghost function SharedCells(rs: seq<Claim>, f: State): set<Cell>
  {
    set c | c in f.Keys && SharedBy(rs, c)
  }

  /// Part 1 counts the cells covered by two claims with different ids.
  lemma CountOverlappingCellsMeans(rs: seq<Claim>)
    ensures CountOverlappingCells(Fabric(rs)) == |SharedCells(rs, Fabric(rs))|
  {
    var f := Fabric(rs);
    FabricMeans(rs);
    forall c | c in f ensures (|f[c]| > 1) == SharedBy(rs, c) {
      SharedByMeans(rs, c);
    }
    assert (set c | c in f.Keys && |f[c]| > 1) == SharedCells(rs, f);
  }

  /// The inner aggregate of `FindNonOverlappingClaim` for one cell: every
  /// claim on it records the larger of its recorded share and this cell's
  /// claim count. The claims are distinct, so the order of the inner
  /// aggregate does not matter and is not modelled.
  function UpdateShares(m: map<int, int>, claims: set<int>): (r: map<int, int>)
    ensures forall c :: c in r <==> c in m || c in claims
  {
    map c | c in m.Keys + claims ::
      if c in claims then
        (if c in m && |claims| < m[c] then m[c] else |claims|)
      else m[c]
  }

  /// The key a dictionary enumeration visits last in this model.
  ghost function PickKey(state: State): Cell
    requires state != map[]
  {
    var k :| k in state; k
  }

  /// The outer aggregate of `FindNonOverlappingClaim`: for each claim, the
  /// largest number of claims on any of its cells.
  ghost function MaxShares(state: State): map<int, int>
    decreases |state|
  {
    if state == map[] then map[]
    else
      var k := PickKey(state);
      UpdateShares(MaxShares(state - {k}), state[k])
  }

  lemma {:induction false} MaxSharesDomain(state: State)
    ensures forall c :: c in MaxShares(state) <==> exists k :: k in state && c in state[k]
    decreases |state|
  {
    if state != map[] {
      var k := PickKey(state);
      var rest := state - {k};
      MaxSharesDomain(rest);
      forall c | c in MaxShares(state) ensures exists k' :: k' in state && c in state[k'] {
        if c !in state[k] {
          assert c in MaxShares(rest);
          var k' :| k' in rest && c in rest[k'];
          assert k' in state && state[k'] == rest[k'];
        }
      }
      forall c, k' | k' in state && c in state[k'] ensures c in MaxShares(state) {
        if k' != k {
          assert k' in rest && rest[k'] == state[k'];
        }
      }
    }
  }

  lemma {:induction false} MaxSharesBound(state: State)
    ensures forall c, k :: k in state && c in state[k] ==> c in MaxShares(state) && |state[k]| <= MaxShares(state)[c]
    decreases |state|
  {
    MaxSharesDomain(state);
    if state != map[] {
      var k := PickKey(state);
      var rest := state - {k};
      MaxSharesBound(rest);
      MaxSharesDomain(rest);
      forall c, k' | k' in state && c in state[k'] ensures c in MaxShares(state) && |state[k']| <= MaxShares(state)[c] {
        if k' != k {
          assert k' in rest && rest[k'] == state[k'];
        }
      }
    }
  }

  lemma {:induction false} MaxSharesAttained(state: State)
    ensures forall c :: c in MaxShares(state) ==>
      exists k :: k in state && c in state[k] && MaxShares(state)[c] == |state[k]|
    decreases |state|
  {
    if state != map[] {
      var k := PickKey(state);
      var rest := state - {k};
      MaxSharesAttained(rest);
      var m', m := MaxShares(rest), MaxShares(state);
      forall c | c in m ensures exists k' :: k' in state && c in state[k'] && m[c] == |state[k']| {
        if c in state[k] && !(c in m' && |state[k]| < m'[c]) {
          assert m[c] == |state[k]|;
        } else {
          var k' :| k' in rest && c in rest[k'] && m'[c] == |rest[k']|;
          assert k' in state && state[k'] == rest[k'];
        }
      }
    }
  }

  lemma MaxSharesMeans(state: State)
    ensures forall c :: c in MaxShares(state) <==> exists k :: k in state && c in state[k]
    ensures forall c, k :: k in state && c in state[k] ==> c in MaxShares(state) && |state[k]| <= MaxShares(state)[c]
    ensures forall c :: c in MaxShares(state) ==>
      exists k :: k in state && c in state[k] && MaxShares(state)[c] == |state[k]|
  {
    MaxSharesDomain(state);
    MaxSharesBound(state);
    MaxSharesAttained(state);
  }

  /// The claim is on some cell, and every cell it is on holds it alone.
  ghost predicate Alone(state: State, c: int)
  {
    (exists k :: k in state && c in state[k]) &&
    forall k :: k in state && c in state[k] ==> |state[k]| == 1
  }

  lemma OnesAreAlone(state: State, c: int)
    ensures (c in MaxShares(state) && MaxShares(state)[c] == 1) <==> Alone(state, c)
  {
    MaxSharesMeans(state);
    if Alone(state, c) {
      var k :| k in state && c in state[k] && MaxShares(state)[c] == |state[k]|;
    }
    if c in MaxShares(state) && MaxShares(state)[c] == 1 {
      forall k | k in state && c in state[k] ensures |state[k]| == 1 {
        assert |state[k]| >= 1 by {
          assert {c} <= state[k];
          SubsetSize({c}, state[k]);
        }
      }
    }
  }

  /// `FindNonOverlappingClaim`: `Single` over the claims whose largest
  /// share is 1, throwing when there is not exactly one.
  ghost function FindNonOverlappingClaim(state: State): Result<int>
  {
    var m := MaxShares(state);
    var ones := set c | c in m && m[c] == 1;
    if |ones| == 1 then
      HasElement(ones);
      var c :| c in ones; Success(c)
    else Failure(InvalidOperation)
  }

  lemma SingletonIs(s: set<int>, c: int)
    requires c in s
    ensures |s| == 1 <==> s == {c}
  {
    if |s| == 1 {
      assert |s - {c}| == 0;
      assert s - {c} == {};
    }
  }

  /// The result is the claim that is alone on all its cells when exactly
  /// one such claim exists, and `InvalidOperation` otherwise.
  lemma FindNonOverlappingClaimMeans(state: State, c: int)
    ensures FindNonOverlappingClaim(state) == Success(c) <==>
      Alone(state, c) && forall d :: Alone(state, d) ==> d == c
    ensures FindNonOverlappingClaim(state).Failure? ==> FindNonOverlappingClaim(state).error == InvalidOperation
  {
    var m := MaxShares(state);
    var ones := set d | d in m && m[d] == 1;
    forall d ensures d in ones <==> Alone(state, d) {
      OnesAreAlone(state, d);
    }
    if FindNonOverlappingClaim(state) == Success(c) {
      assert c in ones;
      SingletonIs(ones, c);
    }
    if Alone(state, c) && forall d :: Alone(state, d) ==> d == c {
      assert c in ones;
      assert forall d :: d in ones ==> d == c;
      assert ones == {c};
    }
  }

  /// On the fabric, a claim is alone when it has a non-empty rectangle and
  /// no claim with another id touches any of its cells.
  lemma AloneMeans(rs: seq<Claim>, f: State, c: int)
    requires BuiltFrom(f, rs)
    ensures Alone(f, c) <==>
      (exists k, cell :: 0 <= k < |rs| && rs[k].id == c && CoversCell(rs[k], cell)) &&
      forall k, cell :: 0 <= k < |rs| && rs[k].id == c && CoversCell(rs[k], cell) ==>
        ClaimsCovering(rs, cell) == {c}
  {
    forall cell | c in ClaimsCovering(rs, cell) ensures |ClaimsCovering(rs, cell)| == 1 <==> ClaimsCovering(rs, cell) == {c} {
      SingletonIs(ClaimsCovering(rs, cell), c);
    }
    if Alone(f, c) {
      var cell :| cell in f && c in f[cell];
      var k :| 0 <= k < |rs| && CoversCell(rs[k], cell) && rs[k].id == c;
      forall k', cell' | 0 <= k' < |rs| && rs[k'].id == c && CoversCell(rs[k'], cell')
        ensures ClaimsCovering(rs, cell') == {c}
      {
        assert c in ClaimsCovering(rs, cell');
      }
    }
    if (exists k, cell :: 0 <= k < |rs| && rs[k].id == c && CoversCell(rs[k], cell)) &&
      forall k, cell :: 0 <= k < |rs| && rs[k].id == c && CoversCell(rs[k], cell) ==>
        ClaimsCovering(rs, cell) == {c}
    {
      var k, cell :| 0 <= k < |rs| && rs[k].id == c && CoversCell(rs[k], cell);
      assert c in ClaimsCovering(rs, cell);
      forall cell' | cell' in f && c in f[cell'] ensures |f[cell']| == 1 {
        var k' :| 0 <= k' < |rs| && CoversCell(rs[k'], cell') && rs[k'].id == c;
      }
    }
  }

  function Max(a: int, b: int): int
  {
    if a < b then b else a
  }

  /// `GetDimensions`: the largest x and the largest y among the claimed
  /// cells, never below (0, 0).
  ghost function GetDimensions(state: State): (r: (int, int))
    ensures r.0 >= 0 && r.1 >= 0
    ensures forall k :: k in state ==> k.0 <= r.0 && k.1 <= r.1
    ensures r.0 == 0 || exists k :: k in state && k.0 == r.0
    ensures r.1 == 0 || exists k :: k in state && k.1 == r.1
    decreases |state|
  {
    if state == map[] then (0, 0)
    else
      var k := PickKey(state);
      var rest := state - {k};
      var d := GetDimensions(rest);
      assert forall k' :: k' in state ==> k' == k || k' in rest;
      assert forall k' :: k' in rest ==> k' in state;
      (Max(d.0, k.0), Max(d.1, k.1))
  }

  /// The three worked claims #1 @ 1,3: 4x4, #2 @ 3,1: 4x4, #3 @ 5,5: 2x2.
  predicate ExampleClaims(rs: seq<Claim>)
  {
    rs == [Claim(1, 1, 3, 4, 4), Claim(2, 3, 1, 4, 4), Claim(3, 5, 5, 2, 2)]
  }

  lemma ExampleShared(rs: seq<Claim>, c: Cell)
    requires ExampleClaims(rs)
    ensures SharedBy(rs, c) <==> c in {(3, 3), (3, 4), (4, 3), (4, 4)}
  {
    if c in {(3, 3), (3, 4), (4, 3), (4, 4)} {
      assert CoversCell(rs[0], c) && CoversCell(rs[1], c);
    }
    if SharedBy(rs, c) {
      var a, b :| 0 <= a < |rs| && 0 <= b < |rs| && rs[a].id != rs[b].id && CoversCell(rs[a], c) && CoversCell(rs[b], c);
    }
  }

  lemma ExampleSharedCells(rs: seq<Claim>, f: State)
    requires ExampleClaims(rs) && BuiltFrom(f, rs)
    ensures SharedCells(rs, f) == {(3, 3), (3, 4), (4, 3), (4, 4)}
  {
    var expected := {(3, 3), (3, 4), (4, 3), (4, 4)};
    forall c ensures (c in f.Keys && SharedBy(rs, c)) <==> c in expected {
      ExampleShared(rs, c);
      if c in expected {
        assert CoversCell(rs[0], c);
        assert rs[0].id in ClaimsCovering(rs, c);
      }
    }
  }

  lemma ExampleOverlaps(rs: seq<Claim>)
    requires ExampleClaims(rs)
    ensures CountOverlappingCells(Fabric(rs)) == 4
  {
    FabricMeans(rs);
    CountOverlappingCellsMeans(rs);
    ExampleSharedCells(rs, Fabric(rs));
    ExampleCount(SharedCells(rs, Fabric(rs)));
  }

  lemma ExampleCount(e: set<Cell>)
    requires e == {(3, 3), (3, 4), (4, 3), (4, 4)}
    ensures |e| == 4
  {
  }

  lemma ExampleThreeAlone(rs: seq<Claim>, cell: Cell)
    requires ExampleClaims(rs) && CoversCell(rs[2], cell)
    ensures ClaimsCovering(rs, cell) == {3}
  {
    assert rs[2].id in ClaimsCovering(rs, cell);
    forall id | id in ClaimsCovering(rs, cell) ensures id == 3 {
      var k :| 0 <= k < |rs| && CoversCell(rs[k], cell) && rs[k].id == id;
    }
  }

  lemma ExampleCornerShared(rs: seq<Claim>)
    requires ExampleClaims(rs)
    ensures CoversCell(rs[0], (3, 3)) && CoversCell(rs[1], (3, 3))
    ensures 1 in ClaimsCovering(rs, (3, 3)) && 2 in ClaimsCovering(rs, (3, 3))
  {
    assert rs[0].id in ClaimsCovering(rs, (3, 3)) && rs[1].id in ClaimsCovering(rs, (3, 3));
  }

  lemma ExampleOnlyThree(rs: seq<Claim>, f: State)
    requires ExampleClaims(rs) && BuiltFrom(f, rs)
    ensures FindNonOverlappingClaim(f) == Success(3)
  {
    AloneMeans(rs, f, 3);
    forall k, cell | 0 <= k < |rs| && rs[k].id == 3 && CoversCell(rs[k], cell)
      ensures ClaimsCovering(rs, cell) == {3}
    {
      ExampleThreeAlone(rs, cell);
    }
    assert CoversCell(rs[2], (5, 5));
    forall d | Alone(f, d) ensures d == 3 {
      AloneMeans(rs, f, d);
      var k, cell :| 0 <= k < |rs| && rs[k].id == d && CoversCell(rs[k], cell);
      if d != 3 {
        ExampleCornerShared(rs);
      }
    }
    FindNonOverlappingClaimMeans(f, 3);
  }

  lemma ExampleNonOverlapping(rs: seq<Claim>)
    requires ExampleClaims(rs)
    ensures FindNonOverlappingClaim(Fabric(rs)) == Success(3)
  {
    FabricMeans(rs);
    ExampleOnlyThree(rs, Fabric(rs));
  }
}
