/// Day14/Program.cs: two elves build a scoreboard of recipe scores. Each
/// round appends the decimal digits of the sum of the elves' current
/// recipes, then every elf steps forward one more than its recipe's score,
/// wrapping round the board.
module Day14Program {
  import opened CSharpInts

  // ---------------------------------------------------------------------
  // Digits

  /// The decimal digits of `n`, most significant first, with no leading
  /// zero; empty for 0.
  function SignificantDigits(n: nat): (r: seq<Byte>)
    ensures |r| == 0 <==> n == 0
    ensures n > 0 ==> r[0] != 0
    ensures forall k :: 0 <= k < |r| ==> 0 <= r[k] < 10
  {
    if n == 0 then [] else SignificantDigits(n / 10) + [n % 10]
  }

  /// The recipes a round adds for a total of `total`: its digits, or a
  /// single 0 when the total is 0.
  function Digits(total: nat): (r: seq<Byte>)
    ensures 1 <= |r| && forall k :: 0 <= k < |r| ==> 0 <= r[k] < 10
    ensures r[0] == 0 ==> total == 0
  {
    if total == 0 then [0] else SignificantDigits(total)
  }

  /// The number a sequence of decimal digits spells, most significant
  /// first.
  function Value(ds: seq<Byte>): int
  {
    if ds == [] then 0 else Value(ds[..|ds| - 1]) * 10 + ds[|ds| - 1]
  }

  function Pow10(k: nat): (r: nat)
    ensures r >= 1
  {
    if k == 0 then 1 else 10 * Pow10(k - 1)
  }

  /// The digit count `1 + (int) Math.Log10(Math.Max(1, total))`, computed
  /// on integers: one more than the number of times 10 divides into it.
  function DigitCount(total: nat): (r: int)
    ensures r >= 1
  {
    if total < 10 then 1 else 1 + DigitCount(total / 10)
  }

  /// Reading the digits back gives the total.
  lemma {:induction false} DigitsValue(total: nat)
    ensures Value(Digits(total)) == total
  {
    if total > 0 {
      SignificantDigitsValue(total);
    }
  }

  lemma {:induction false} SignificantDigitsValue(n: nat)
    ensures Value(SignificantDigits(n)) == n
  {
    if n > 0 {
      var ds := SignificantDigits(n);
      assert ds[..|ds| - 1] == SignificantDigits(n / 10);
      SignificantDigitsValue(n / 10);
    }
  }

  /// Digits with no leading zero (or a lone 0) are the digits of the
  /// number they spell: the digit sequence of a total is unique.
  lemma {:induction false} ValueDigits(ds: seq<Byte>)
    requires ds != [] && forall k :: 0 <= k < |ds| ==> ds[k] < 10
    requires ds[0] != 0 || ds == [0]
    ensures Value(ds) >= 0 && Digits(Value(ds)) == ds
  {
    if ds != [0] {
      ValueSignificant(ds);
    }
  }

  lemma {:induction false} ValueSignificant(ds: seq<Byte>)
    requires forall k :: 0 <= k < |ds| ==> ds[k] < 10
    requires ds != [] ==> ds[0] != 0
    ensures Value(ds) >= 0 && SignificantDigits(Value(ds)) == ds
    ensures ds != [] ==> Value(ds) > 0
    decreases |ds|
  {
    if ds != [] {
      var front := ds[..|ds| - 1];
      ValueSignificant(front);
      var v := Value(ds);
      assert v == Value(front) * 10 + ds[|ds| - 1];
      assert v / 10 == Value(front) && v % 10 == ds[|ds| - 1];
      assert ds == front + [ds[|ds| - 1]];
    }
  }

  /// The logarithm digit count is the number of digits a round adds: it is
  /// the `k` with `10^(k-1) <= max(1, total) < 10^k`.
  lemma {:induction false} DigitCountIsLog(total: nat)
    ensures DigitCount(total) == |Digits(total)|
    ensures Pow10(DigitCount(total) - 1) <= (if total < 1 then 1 else total) < Pow10(DigitCount(total))
  {
    if total >= 10 {
      DigitCountIsLog(total / 10);
      assert Digits(total) == Digits(total / 10) + [total % 10];
    }
  }

  // ---------------------------------------------------------------------
  // Rounds on values

  /// The scores and the elves' positions on them.
  datatype Board = Board(scores: seq<Byte>, positions: seq<int>)

  /// Every score is a digit and every elf stands on a recipe.
  predicate Valid(b: Board)
  {
    (forall k :: 0 <= k < |b.scores| ==> b.scores[k] < 10) &&
    (forall i :: 0 <= i < |b.positions| ==> 0 <= b.positions[i] < |b.scores|)
  }

  /// `elfPositions.Sum(p => scoreboard[p])`.
  function Total(scores: seq<Byte>, positions: seq<int>): nat
    requires forall i :: 0 <= i < |positions| ==> 0 <= positions[i] < |scores|
  {
    if positions == [] then 0
    else Total(scores, positions[..|positions| - 1]) + scores[positions[|positions| - 1]]
  }

  /// The total of the elves' recipes is at most 9 per elf.
  lemma {:induction false} TotalBound(b: Board)
    requires Valid(b)
    ensures 0 <= Total(b.scores, b.positions) <= 9 * |b.positions|
    decreases |b.positions|
  {
    if b.positions != [] {
      TotalBound(Board(b.scores, b.positions[..|b.positions| - 1]));
    }
  }

  /// Each elf steps forward one more than the score it stands on, round a
  /// board of `newSize` recipes.
  function Advance(scores: seq<Byte>, positions: seq<int>, newSize: int): seq<int>
    requires forall i :: 0 <= i < |positions| ==> 0 <= positions[i] < |scores|
    requires newSize > 0
  {
    seq(|positions|, i requires 0 <= i < |positions| => (positions[i] + scores[positions[i]] + 1) % newSize)
  }

  /// A round: the digits of the total are appended and every elf moves on
  /// round the grown board. It keeps the board valid, keeps the recipes
  /// already there and adds one or more.
  function Round(b: Board): (r: Board)
    requires Valid(b)
    ensures Valid(r) && |r.positions| == |b.positions|
    ensures |b.scores| < |r.scores| && r.scores[..|b.scores|] == b.scores
  {
    TotalBound(b);
    var digits := Digits(Total(b.scores, b.positions));
    var r := Board(b.scores + digits, Advance(b.scores, b.positions, |b.scores| + |digits|));
    assert r.scores[..|b.scores|] == b.scores;
    r
  }

  /// The two starting recipes, 3 and 7, with one elf on each.
  function Start(): (b: Board)
    ensures Valid(b)
  {
    Board([3, 7], [0, 1])
  }

  /// The first `length` recipes of the boards that rounds grow from `b`.
  function Fill(b: Board, length: nat): (r: seq<Byte>)
    requires Valid(b)
    ensures |r| == length && forall k :: 0 <= k < length ==> r[k] < 10
    decreases length - |b.scores|
  {
    if length <= |b.scores| then b.scores[..length] else Fill(Round(b), length)
  }

  /// `Fill` keeps the recipes of `b`.
  lemma {:induction false} FillMeaning(b: Board, length: nat)
    requires Valid(b)
    ensures forall k :: 0 <= k < length && k < |b.scores| ==> Fill(b, length)[k] == b.scores[k]
    decreases length - |b.scores|
  {
    if length > |b.scores| {
      var r := Round(b);
      FillMeaning(r, length);
      assert forall k :: 0 <= k < |b.scores| ==> r.scores[k] == b.scores[k];
    }
  }

  /// Asking for fewer recipes gives a prefix of asking for more: a recipe's
  /// score does not depend on how long a board is built.
  lemma {:induction false} FillPrefix(b: Board, m: nat, n: nat)
    requires Valid(b) && m <= n
    ensures Fill(b, m) == Fill(b, n)[..m]
    decreases n - |b.scores|
  {
    FillMeaning(b, n);
    if n > |b.scores| {
      if m <= |b.scores| {
        FillMeaning(Round(b), n);
        assert Fill(b, n)[..m] == Round(b).scores[..m];
        assert Round(b).scores[..|b.scores|][..m] == b.scores[..m];
      } else {
        FillPrefix(Round(b), m, n);
      }
    }
  }

  /// The first `length` recipes of the scoreboard.
  function Scoreboard(length: nat): (r: seq<Byte>)
    ensures |r| == length && forall k :: 0 <= k < length ==> r[k] < 10
  {
    Fill(Start(), length)
  }

  /// The scoreboard has exactly `length` digits, starting 3, 7, and any
  /// shorter scoreboard is a prefix of it.
  lemma ScoreboardMeaning(length: nat)
    requires length >= 2
    ensures var s := Scoreboard(length);
      |s| == length && s[0] == 3 && s[1] == 7 &&
      (forall m :: 0 <= m <= length ==> Scoreboard(m) == s[..m])
  {
    FillMeaning(Start(), length);
    forall m | 0 <= m <= length
      ensures Scoreboard(m) == Scoreboard(length)[..m]
    {
      FillPrefix(Start(), m, length);
    }
  }

  /// With the two elves of the puzzle a round adds one or two recipes.
  lemma TwoElvesAddAtMostTwo(b: Board)
    requires Valid(b) && |b.positions| == 2
    ensures |b.scores| + 1 <= |Round(b).scores| <= |b.scores| + 2
  {
    TotalBound(b);
    var t := Total(b.scores, b.positions);
    if t >= 10 {
      assert SignificantDigits(t) == SignificantDigits(t / 10) + [t % 10];
      assert SignificantDigits(t / 10) == SignificantDigits(0) + [t / 10 % 10];
    } else if t > 0 {
      assert SignificantDigits(t) == SignificantDigits(0) + [t % 10];
    }
  }

  /// A round with two elves, written out: the digits of the two scores'
  /// sum are appended and each elf steps on round the grown board.
  lemma RoundOfTwo(b: Board)
    requires Valid(b) && |b.positions| == 2
    ensures var p := b.positions[0];
      var q := b.positions[1];
      var digits := Digits(b.scores[p] as int + b.scores[q]);
      var size := |b.scores| + |digits|;
      Round(b) == Board(b.scores + digits, [(p + b.scores[p] + 1) % size, (q + b.scores[q] + 1) % size])
  {
    var p := b.positions[0];
    var q := b.positions[1];
    assert b.positions == [p, q];
    TotalOfTwo(b.scores, p, q);
    var digits := Digits(b.scores[p] as int + b.scores[q]);
    AdvanceOfTwo(b.scores, p, q, |b.scores| + |digits|);
  }

  lemma TotalOfTwo(scores: seq<Byte>, p: int, q: int)
    requires 0 <= p < |scores| && 0 <= q < |scores|
    ensures Total(scores, [p, q]) == scores[p] as int + scores[q]
  {
    assert [p][..0] == [];
    assert Total(scores, [p]) == scores[p];
    assert [p, q][..1] == [p];
  }

  lemma AdvanceOfTwo(scores: seq<Byte>, p: int, q: int, size: int)
    requires 0 <= p < |scores| && 0 <= q < |scores| && size > 0
    ensures Advance(scores, [p, q], size) == [(p + scores[p] + 1) % size, (q + scores[q] + 1) % size]
  {
  }

  /// A sum below 10 is a single recipe; 10 to 18 are two, the first a 1.
  lemma SmallDigits(t: nat)
    requires t <= 18
    ensures t < 10 ==> Digits(t) == [t]
    ensures 10 <= t ==> Digits(t) == [1, t - 10]
  {
    if t >= 10 {
      assert SignificantDigits(t) == SignificantDigits(1) + [t - 10];
      assert SignificantDigits(1) == SignificantDigits(0) + [1];
    } else if t > 0 {
      assert SignificantDigits(t) == SignificantDigits(0) + [t];
    }
  }

  /// `GetNewRecipesExample1`: elves on 3 and 7 make 1, 0 and stay put.
  lemma GetNewRecipesExample1(scores: seq<Byte>, positions: seq<int>)
    requires scores == [3, 7] && positions == [0, 1]
    ensures Digits(Total(scores, positions)) == [1, 0]
    ensures Advance(scores, positions, 4) == [0, 1]
  {
    TotalOfTwo(scores, 0, 1);
    assert Total(scores, positions) == 10;
    SmallDigits(10);
    AdvanceOfTwo(scores, 0, 1, 4);
  }

  /// `GetNewRecipesExample2`: on a board of four the same elves make 1, 0 and move
  /// to 4 and 3.
  lemma GetNewRecipesExample2(scores: seq<Byte>, positions: seq<int>)
    requires scores == [3, 7, 1, 0] && positions == [0, 1]
    ensures Digits(Total(scores, positions)) == [1, 0]
    ensures Advance(scores, positions, 6) == [4, 3]
  {
    TotalOfTwo(scores, 0, 1);
    assert Total(scores, positions) == 10;
    SmallDigits(10);
    AdvanceOfTwo(scores, 0, 1, 6);
  }

  /// `GetNewRecipesExample3`: elves on 1 and 0 make a 1 and move to 6 and 4.
  lemma GetNewRecipesExample3(scores: seq<Byte>, positions: seq<int>)
    requires scores == [3, 7, 1, 0, 1, 0] && positions == [4, 3]
    ensures Digits(Total(scores, positions)) == [1]
    ensures Advance(scores, positions, 7) == [6, 4]
  {
    TotalOfTwo(scores, 4, 3);
    assert Total(scores, positions) == 1;
    SmallDigits(1);
    AdvanceOfTwo(scores, 4, 3, 7);
  }

  /// `GetNewRecipesExample4`: elves on 1 and 1 make a 2 and move to 0 and 6.
  lemma GetNewRecipesExample4(scores: seq<Byte>, positions: seq<int>)
    requires scores == [3, 7, 1, 0, 1, 0, 1] && positions == [6, 4]
    ensures Digits(Total(scores, positions)) == [2]
    ensures Advance(scores, positions, 8) == [0, 6]
  {
    TotalOfTwo(scores, 6, 4);
    assert Total(scores, positions) == 2;
    SmallDigits(2);
    AdvanceOfTwo(scores, 6, 4, 8);
  }

  // ---------------------------------------------------------------------
  // The arrays

  /// `DigitArrays`: ten reusable buffers, the `i`th of them `i + 1` long,
  /// through which `GetNewRecipes` hands back its digits.
  class DigitArrays {
    const arrays: seq<array<Byte>>

    ghost predicate Valid()
    {
      |arrays| == 10 &&
      (forall i :: 0 <= i < 10 ==> arrays[i].Length == i + 1) &&
      (forall i, j :: 0 <= i < j < 10 ==> arrays[i] != arrays[j])
    }

    constructor ()
      ensures Valid() && forall i :: 0 <= i < 10 ==> fresh(arrays[i])
    {
      var made: seq<array<Byte>> := [];
      for n := 0 to 10
        invariant |made| == n
        invariant forall i :: 0 <= i < n ==> made[i].Length == i + 1 && fresh(made[i])
        invariant forall i, j :: 0 <= i < j < n ==> made[i] != made[j]
      {
        var buffer := new Byte[n + 1];
        made := made + [buffer];
      }
      arrays := made;
    }
  }

  /// `GetNewRecipes`: writes the digits of the elves' total into the buffer
  /// of that length and returns it, and moves the elves in place round a
  /// board grown by that many recipes, returning the same positions array.
  /// The other buffers are untouched.
  method GetNewRecipes(digitArrays: DigitArrays, scoreboard: array<Byte>, scoreboardSize: int,
                       elfPositions: array<int>)
    returns (newRecipeScores: array<Byte>, positions: array<int>)
    requires digitArrays.Valid() && scoreboard !in digitArrays.arrays
    requires forall i :: 0 <= i < elfPositions.Length ==> 0 <= elfPositions[i] < scoreboard.Length
    requires scoreboardSize >= 0
    requires Total(scoreboard[..], elfPositions[..]) < TotalLimit
    modifies digitArrays.arrays, elfPositions
    ensures var total := Total(old(scoreboard[..]), old(elfPositions[..]));
      newRecipeScores in digitArrays.arrays && newRecipeScores[..] == Digits(total) &&
      positions == elfPositions &&
      elfPositions[..] == Advance(old(scoreboard[..]), old(elfPositions[..]), scoreboardSize + |Digits(total)|)
    ensures forall i :: 0 <= i < 10 && digitArrays.arrays[i] != newRecipeScores ==>
      digitArrays.arrays[i][..] == old(digitArrays.arrays[i][..])
  {
    var total := Total(scoreboard[..], elfPositions[..]);
    var digits := DigitCount(total);
    DigitCountIsLog(total);
    DigitsBelow(total);
    newRecipeScores := digitArrays.arrays[digits - 1];
    var digit := WriteDigits(newRecipeScores, total);
    MovePositions(scoreboard, elfPositions, scoreboardSize + digit);
    positions := elfPositions;
  }

  /// The digit loop of `GetNewRecipes`: the digits of `total` fill a buffer
  /// of exactly their number, least significant last; the count written
  /// comes back.
  method WriteDigits(buffer: array<Byte>, total: nat) returns (digit: int)
    requires buffer.Length == |Digits(total)|
    modifies buffer
    ensures buffer[..] == Digits(total) && digit == buffer.Length
  {
    var tt := total;
    digit := 0;
    while digit == 0 || tt != 0
      invariant 0 <= digit <= buffer.Length && tt >= 0
      invariant digit == 0 ==> tt == total
      invariant digit > 0 ==> (|SignificantDigits(tt)| == buffer.Length - digit &&
        Digits(total) == SignificantDigits(tt) + buffer[buffer.Length - digit..])
      decreases buffer.Length - digit
    {
      WriteDigit(buffer, total, tt, digit);
      tt := tt / 10;
      digit := digit + 1;
    }
    assert buffer[buffer.Length - digit..] == buffer[..];
  }

  /// The position loop of `GetNewRecipes`: every elf moves on in place.
  method MovePositions(scoreboard: array<Byte>, elfPositions: array<int>, newScoreboardSize: int)
    requires forall i :: 0 <= i < elfPositions.Length ==> 0 <= elfPositions[i] < scoreboard.Length
    requires newScoreboardSize > 0
    modifies elfPositions
    ensures elfPositions[..] == Advance(scoreboard[..], old(elfPositions[..]), newScoreboardSize)
  {
    for i := 0 to elfPositions.Length
      invariant forall j :: 0 <= j < i ==>
        elfPositions[j] == Advance(scoreboard[..], old(elfPositions[..]), newScoreboardSize)[j]
      invariant forall j :: i <= j < elfPositions.Length ==> elfPositions[j] == old(elfPositions[j])
    {
      var p := elfPositions[i];
      elfPositions[i] := (p + scoreboard[p] + 1) % newScoreboardSize;
    }
  }

  /// 10^10: the totals whose digits fit one of the ten buffers lie below
  /// it.
  const TotalLimit: int := 10_000_000_000

  /// A total below 10^10 has at most ten digits, so a buffer fits it.
  lemma {:induction false} DigitsBelow(total: nat)
    requires total < TotalLimit
    ensures |Digits(total)| <= 10
  {
    DigitCountIsLog(total);
    assert Pow10(10) == TotalLimit;
    if |Digits(total)| > 10 {
      PowMonotone(10, DigitCount(total) - 1);
    }
  }

  lemma {:induction false} PowMonotone(j: nat, k: nat)
    requires j <= k
    ensures Pow10(j) <= Pow10(k)
    decreases k
  {
    if j < k {
      PowMonotone(j, k - 1);
    }
  }

  /// One pass of the digit loop: the least significant digit still to
  /// write goes just in front of those already written.
  method WriteDigit(buffer: array<Byte>, total: nat, tt: nat, digit: nat)
    requires digit == 0 ==> tt == total
    requires digit == 0 ==> |Digits(total)| == buffer.Length
    requires digit > 0 ==> (tt != 0 && |SignificantDigits(tt)| == buffer.Length - digit &&
      Digits(total) == SignificantDigits(tt) + buffer[buffer.Length - digit..])
    modifies buffer
    ensures digit + 1 <= buffer.Length
    ensures buffer[..] == old(buffer[..])[buffer.Length - 1 - digit := tt % 10]
    ensures |SignificantDigits(tt / 10)| == buffer.Length - (digit + 1)
    ensures Digits(total) == SignificantDigits(tt / 10) + buffer[buffer.Length - (digit + 1)..]
  {
    var len := buffer.Length;
    if digit == 0 && total == 0 {
      buffer[len - 1] := 0;
      assert buffer[len - 1..] == [0];
    } else {
      assert SignificantDigits(tt) == SignificantDigits(tt / 10) + [tt % 10];
      var rest := buffer[len - digit..];
      buffer[len - 1 - digit] := tt % 10;
      assert buffer[len - (digit + 1)..] == [tt % 10] + rest;
    }
  }

  /// Reading the scores only at the elves' positions, the total and the
  /// moves do not depend on what lies beyond the recipes made so far.
  lemma {:induction false} ReadsOnlyPositions(scores: seq<Byte>, more: seq<Byte>, positions: seq<int>, newSize: int)
    requires forall i :: 0 <= i < |positions| ==> 0 <= positions[i] < |scores|
    requires newSize > 0
    ensures Total(scores + more, positions) == Total(scores, positions)
    ensures Advance(scores + more, positions, newSize) == Advance(scores, positions, newSize)
    decreases |positions|
  {
    if positions != [] {
      ReadsOnlyPositions(scores, more, positions[..|positions| - 1], newSize);
    }
  }

  /// `GenerateScoreboard`: the first `length` recipe scores, built in an
  /// array by rounds until it is full; the last round's digits are cut off
  /// at the end of the array.
  method GenerateScoreboard(digitArrays: DigitArrays, length: int) returns (scoreboard: array<Byte>)
    requires digitArrays.Valid() && length >= 2
    modifies digitArrays.arrays
    ensures fresh(scoreboard) && scoreboard[..] == Scoreboard(length)
  {
    scoreboard := new Byte[length];
    scoreboard[0] := 3;
    scoreboard[1] := 7;
    var next := 2;
    var positions := new int[2];
    positions[0] := 0;
    positions[1] := 1;
    ghost var b := Start();
    ghost var target := Scoreboard(length);
    assert scoreboard[..next] == b.scores;
    while next < length
      invariant fresh(scoreboard) && scoreboard.Length == length && fresh(positions)
      invariant Valid(b) && |b.positions| == 2 && Fill(b, length) == target
      invariant 2 <= next <= length
      invariant next < length ==> next == |b.scores| && scoreboard[..next] == b.scores && positions[..] == b.positions
      invariant next == length ==> scoreboard[..] == target
      decreases length - next
    {
      next := AddRound(digitArrays, scoreboard, next, positions, b);
      RoundFill(b, length, next, scoreboard[..next]);
      if next < length {
        b := Round(b);
      } else {
        assert scoreboard[..] == scoreboard[..next];
      }
    }
  }

  /// One pass of `GenerateScoreboard`'s loop: a round's digits are copied
  /// in, up to the end of the array, and the elves have moved.
  method AddRound(digitArrays: DigitArrays, scoreboard: array<Byte>, next: int, positions: array<int>,
                  ghost b: Board)
    returns (after: int)
    requires digitArrays.Valid() && scoreboard !in digitArrays.arrays
    requires Valid(b) && |b.positions| == 2
    requires next == |b.scores| < scoreboard.Length && scoreboard[..next] == b.scores && positions[..] == b.positions
    modifies digitArrays.arrays, scoreboard, positions
    ensures after == if |Round(b).scores| < scoreboard.Length then |Round(b).scores| else scoreboard.Length
    ensures scoreboard[..after] == Round(b).scores[..after] && positions[..] == Round(b).positions
  {
    TotalBound(b);
    var total := Total(b.scores, b.positions);
    ghost var digits := Digits(total);
    ReadsOnlyPositions(b.scores, scoreboard[next..], b.positions, next + |digits|);
    assert scoreboard[..] == b.scores + scoreboard[next..];
    RoundParts(b);
    var newRecipes, newPositions := GetNewRecipes(digitArrays, scoreboard, next, positions);
    assert newRecipes[..] == digits;
    after := CopyRecipes(scoreboard, next, newRecipes);
    AppendPrefix(b.scores, digits, after - next);
  }

  /// `Round` written out.
  lemma RoundParts(b: Board)
    requires Valid(b)
    ensures var digits := Digits(Total(b.scores, b.positions));
      Round(b) == Board(b.scores + digits, Advance(b.scores, b.positions, |b.scores| + |digits|))
  {
  }

  lemma AppendPrefix<T>(a: seq<T>, c: seq<T>, k: int)
    requires 0 <= k <= |c|
    ensures (a + c)[..|a| + k] == a + c[..k]
  {
  }

  /// After a round that grows a board, asking for `length` recipes gives
  /// what it gave before, and a board the round fills is the answer.
  lemma RoundFill(b: Board, length: nat, after: int, filled: seq<Byte>)
    requires Valid(b) && |b.scores| < length
    requires after == if |Round(b).scores| < length then |Round(b).scores| else length
    requires filled == Round(b).scores[..after]
    ensures Fill(Round(b), length) == Fill(b, length)
    ensures after < length ==> filled == Round(b).scores
    ensures after == length ==> filled == Fill(b, length)
  {
  }

  /// The copy loop of `GenerateScoreboard`: the new recipes go in after
  /// the first `next`, as many as fit.
  method CopyRecipes(scoreboard: array<Byte>, next: int, newRecipes: array<Byte>) returns (after: int)
    requires 0 <= next < scoreboard.Length && scoreboard != newRecipes
    modifies scoreboard
    ensures after == if next + newRecipes.Length < scoreboard.Length then next + newRecipes.Length
                     else scoreboard.Length
    ensures scoreboard[..after] == old(scoreboard[..next]) + newRecipes[..after - next]
  {
    after := next;
    var i := 0;
    while after < scoreboard.Length && i < newRecipes.Length
      invariant 0 <= i <= newRecipes.Length
      invariant after == next + i <= scoreboard.Length
      invariant scoreboard[..after] == old(scoreboard[..next]) + newRecipes[..i]
    {
      scoreboard[after] := newRecipes[i];
      after := after + 1;
      i := i + 1;
    }
  }

  // ---------------------------------------------------------------------
  // Answers

  /// `Select(i => (char) ('0' + i))`.
  function ToText(ds: seq<Byte>): (r: string)
    ensures |r| == |ds|
  {
    seq(|ds|, i requires 0 <= i < |ds| => ('0' as int + ds[i]) as char)
  }

  /// `pattern` occurs in `text` starting at `i`.
  predicate OccursAt(text: string, pattern: string, i: int)
  {
    0 <= i && i + |pattern| <= |text| && text[i..i + |pattern|] == pattern
  }

  /// `string.IndexOf`, comparing characters ordinally: the first index from
  /// `from` on where `pattern` occurs in `text`, or -1.
  function IndexFrom(text: string, pattern: string, from: nat): (r: int)
    requires from <= |text| + 1
    ensures r == -1 || from <= r <= |text| - |pattern|
    ensures r >= 0 ==> OccursAt(text, pattern, r)
    ensures forall i :: from <= i && (r == -1 || i < r) ==> !OccursAt(text, pattern, i)
    decreases |text| + 1 - from
  {
    if from + |pattern| > |text| then -1
    else if text[from..from + |pattern|] == pattern then from
    else IndexFrom(text, pattern, from + 1)
  }

  function IndexOf(text: string, pattern: string): (r: int)
  {
    IndexFrom(text, pattern, 0)
  }

  /// `SolvePart1`: the ten scores after the first `count`, as text. A
  /// negative `count` skips nothing.
  method SolvePart1(digitArrays: DigitArrays, count: int) returns (r: string)
    requires digitArrays.Valid() && count + 10 >= 2
    modifies digitArrays.arrays
    ensures r == ToText(Scoreboard(count + 10)[if count < 0 then 0 else count..])
  {
    var board := GenerateScoreboard(digitArrays, count + 10);
    r := ToText(board[if count < 0 then 0 else count..]);
  }

  /// The part-one answer is the ten recipes after the first `count` of any
  /// longer scoreboard: ten digits, whatever length is built.
  lemma SolvePart1Stable(count: nat, length: nat)
    requires count + 10 <= length
    ensures var answer := Scoreboard(count + 10)[count..];
      |answer| == 10 && (forall k :: 0 <= k < 10 ==> answer[k] < 10) &&
      answer == Scoreboard(length)[count..count + 10]
  {
    ScoreboardMeaning(length);
  }

  /// `SolvePart2`: where `pattern` first occurs among the first
  /// `n + |pattern|` scores, or -1.
  method SolvePart2(digitArrays: DigitArrays, n: int, pattern: string) returns (r: int)
    requires digitArrays.Valid() && n + |pattern| >= 2
    modifies digitArrays.arrays
    ensures r == IndexOf(ToText(Scoreboard(n + |pattern|)), pattern)
  {
    var board := GenerateScoreboard(digitArrays, n + |pattern|);
    var firstN := ToText(board[..]);
    r := IndexOf(firstN, pattern);
  }

  /// An occurrence found among the first recipes is where the pattern first
  /// occurs on every longer scoreboard too.
  lemma SolvePart2Stable(n: nat, pattern: string, length: nat)
    requires 2 <= n + |pattern| <= length
    requires IndexOf(ToText(Scoreboard(n + |pattern|)), pattern) >= 0
    ensures IndexOf(ToText(Scoreboard(length)), pattern) == IndexOf(ToText(Scoreboard(n + |pattern|)), pattern)
  {
    var short := n + |pattern|;
    ScoreboardMeaning(length);
    ToTextPrefix(Scoreboard(length), short);
    IndexOfPrefix(ToText(Scoreboard(length)), short, pattern);
  }

  lemma ToTextPrefix(ds: seq<Byte>, n: nat)
    requires n <= |ds|
    ensures ToText(ds[..n]) == ToText(ds)[..n]
  {
  }

  /// An occurrence in a prefix of a text is the first in the whole text
  /// when it is the first in the prefix.
  lemma IndexOfPrefix(text: string, n: nat, pattern: string)
    requires n <= |text| && IndexOf(text[..n], pattern) >= 0
    ensures IndexOf(text, pattern) == IndexOf(text[..n], pattern)
  {
    var r := IndexOf(text[..n], pattern);
    assert text[..n][r..r + |pattern|] == text[r..r + |pattern|];
    forall i | 0 <= i < r
      ensures !OccursAt(text, pattern, i)
    {
      assert !OccursAt(text[..n], pattern, i);
      assert text[..n][i..i + |pattern|] == text[i..i + |pattern|];
    }
    IndexFirst(text, pattern, r);
  }

  /// A first occurrence at `r` is what `IndexOf` finds.
  lemma IndexFirst(text: string, pattern: string, r: nat)
    requires OccursAt(text, pattern, r)
    requires forall i :: 0 <= i < r ==> !OccursAt(text, pattern, i)
    ensures IndexOf(text, pattern) == r
  {
  }
}
