/// Day11/Program.cs: the power of the fuel cells of a 300 x 300 grid, summed
/// over sliding windows. Sums are held in `sbyte`s and so wrap modulo 256;
/// coordinates are 0-based as in the source.
module Day11Program {
  import opened Wrappers
  import opened CSharpInts

  const GridWidth := 300
  const GridHeight := 300

  /// `CalculatePower`: the hundreds digit of
  /// `((x + 10) * y + serialNumber) * (x + 10)`, minus 5, in unchecked `int`
  /// arithmetic with C#'s truncating `/` and `%`.
  function CalculatePower(x: int, y: int, serialNumber: int): (r: SByte)
    requires IsInt32(x) && IsInt32(y) && IsInt32(serialNumber)
    ensures -14 <= r <= 4
  {
    var rackId := Wrap32(x + 10);
    var powerLevel := Wrap32(rackId * y);
    var withSerial := Wrap32(powerLevel + serialNumber);
    var scaled := Wrap32(withSerial * rackId);
    var hundredths := Rem(Quot(scaled, 100), 10);
    Wrap8(hundredths - 5)
  }

  /// On the grid, with a serial number in [0, 6000000], nothing wraps and
  /// the power is the hundreds digit of `((x + 10) * y + serialNumber) *
  /// (x + 10)`, minus 5.
  lemma PowerIsHundredsDigit(x: int, y: int, serialNumber: int)
    requires 0 <= x < GridWidth && 0 <= y < GridHeight && 0 <= serialNumber <= 6_000_000
    ensures var v := ((x + 10) * y + serialNumber) * (x + 10);
      -5 <= CalculatePower(x, y, serialNumber) == v / 100 % 10 - 5
  {
    var v := ProductNoWrap(x, y, serialNumber);
    HundredsDigit(v);
  }

  /// The three unchecked steps of `CalculatePower` give the exact product.
  lemma ProductNoWrap(x: int, y: int, serialNumber: int) returns (v: int)
    requires 0 <= x < GridWidth && 0 <= y < GridHeight && 0 <= serialNumber <= 6_000_000
    ensures v == ((x + 10) * y + serialNumber) * (x + 10) && 0 <= v < 0x8000_0000
    ensures var rackId := Wrap32(x + 10);
      Wrap32(Wrap32(Wrap32(rackId * y) + serialNumber) * rackId) == v
  {
    var rackId := x + 10;
    MulAtMost(rackId, y, 309, 299);
    var s := rackId * y + serialNumber;
    MulAtMost(s, rackId, 6_092_391, 309);
    v := s * rackId;
  }

  /// C#'s `(v / 100) % 10` is the hundreds digit of a non-negative `v`.
  lemma HundredsDigit(v: int)
    requires 0 <= v
    ensures Rem(Quot(v, 100), 10) == v / 100 % 10
  {
  }

  /// Products of non-negative numbers grow with their factors.
  lemma MulAtMost(a: int, b: int, c: int, d: int)
    requires 0 <= a <= c && 0 <= b <= d
    ensures 0 <= a * b <= c * d
  {
    assert a * b <= c * b;
    assert c * b <= c * d;
  }

  /// A product with a factor of at least one is at least the other factor.
  lemma MulAtLeast(a: int, b: int)
    requires a >= 0 && b >= 1
    ensures a * b >= a
  {
    assert a * b == a * (b - 1) + a;
  }

  /// The worked examples of the puzzle: serial 8 at (3, 5), serial 57 at
  /// (122, 79), serial 39 at (217, 196) and serial 71 at (101, 153).
  lemma PowerExample1()
    ensures CalculatePower(3, 5, 8) == 4
  {
    assert Wrap32(13 * 5 + 8) == 73 && Wrap32(73 * 13) == 949;
    assert Quot(949, 100) == 9 && Rem(9, 10) == 9;
  }

  lemma PowerExample2()
    ensures CalculatePower(122, 79, 57) == -5
  {
    assert Wrap32(132 * 79 + 57) == 10485 && Wrap32(10485 * 132) == 1384020;
    assert Quot(1384020, 100) == 13840 && Rem(13840, 10) == 0;
  }

  lemma PowerExample3()
    ensures CalculatePower(217, 196, 39) == 0
  {
    assert Wrap32(227 * 196 + 39) == 44531 && Wrap32(44531 * 227) == 10108537;
    assert Quot(10108537, 100) == 101085 && Rem(101085, 10) == 5;
  }

  lemma PowerExample4()
    ensures CalculatePower(101, 153, 71) == 4
  {
    assert Wrap32(111 * 153 + 71) == 17054 && Wrap32(17054 * 111) == 1892994;
    assert Quot(1892994, 100) == 18929 && Rem(18929, 10) == 9;
  }

  /// The power of cell `(x, y)`.
  ghost function PowerAt(serialNumber: int, y: int, x: int): SByte
    requires IsInt32(serialNumber) && IsInt32(y) && 0 <= x < GridWidth
  {
    Delayed(serialNumber, y, x, 1)
  }

  ghost function Delayed(serialNumber: int, y: int, x: int, steps: nat): SByte
    requires IsInt32(serialNumber) && IsInt32(y) && 0 <= x < GridWidth
  {
    if steps == 0 then CalculatePower(x, y, serialNumber) else Delayed(serialNumber, y, x, steps - 1)
  }

  /// `PowerAt` is `CalculatePower`, and so lies in [-14, 4].
  lemma PowerAtIs(serialNumber: int, y: int, x: int)
    requires IsInt32(serialNumber) && IsInt32(y) && 0 <= x < GridWidth
    ensures PowerAt(serialNumber, y, x) == CalculatePower(x, y, serialNumber)
    ensures -14 <= PowerAt(serialNumber, y, x) <= 4
  {
    assert Delayed(serialNumber, y, x, 0) == CalculatePower(x, y, serialNumber);
  }

  /// The exact sum of the powers at `x` in `[lo, hi)` on row `y`.
  ghost function RowPower(serialNumber: int, y: int, lo: int, hi: int): int
    requires IsInt32(serialNumber) && IsInt32(y) && 0 <= lo && hi <= GridWidth
    decreases hi - lo
  {
    if hi <= lo then 0 else RowPower(serialNumber, y, lo, hi - 1) + PowerAt(serialNumber, y, hi - 1)
  }

  /// A row sum can equally be taken apart at its first cell.
  lemma {:induction false} RowPowerFirst(serialNumber: int, y: int, lo: int, hi: int)
    requires IsInt32(serialNumber) && IsInt32(y) && 0 <= lo < hi <= GridWidth
    ensures RowPower(serialNumber, y, lo, hi) == PowerAt(serialNumber, y, lo) + RowPower(serialNumber, y, lo + 1, hi)
    decreases hi - lo
  {
    if lo + 1 < hi {
      RowPowerFirst(serialNumber, y, lo, hi - 1);
    }
  }

  /// Every power lies in [-14, 4], so a sum of `n` of them lies in
  /// [-14 n, 4 n].
  lemma {:induction false} RowPowerBounds(serialNumber: int, y: int, lo: int, hi: int)
    requires IsInt32(serialNumber) && IsInt32(y) && 0 <= lo <= hi <= GridWidth
    ensures -14 * (hi - lo) <= RowPower(serialNumber, y, lo, hi) <= 4 * (hi - lo)
    decreases hi - lo
  {
    if lo < hi {
      RowPowerBounds(serialNumber, y, lo, hi - 1);
      PowerAtIs(serialNumber, y, hi - 1);
    }
  }

  /// The first cell of the window that ends just before `x`, for a window
  /// of `size` cells.
  function WindowStart(x: int, size: int): int
  {
    if x < size then 0 else x - size
  }

  /// The entries of `SummedRow` known once the cells before `x` have been
  /// seen: one per window that ends before `x`.
  ghost function SummedPrefix(serialNumber: int, y: int, windowSize: int, x: int): (r: seq<int>)
    requires IsInt32(serialNumber) && IsInt32(y) && 1 <= windowSize && 0 <= x <= GridWidth
    ensures |r| == WindowStart(x + 1, windowSize)
  {
    if x < windowSize then []
    else SummedPrefix(serialNumber, y, windowSize, x - 1) + [Wrap8(RowPower(serialNumber, y, x - windowSize, x))]
  }

  lemma {:induction false} SummedPrefixAt(serialNumber: int, y: int, windowSize: int, x: int)
    requires IsInt32(serialNumber) && IsInt32(y) && 1 <= windowSize && 0 <= x <= GridWidth
    ensures forall i :: 0 <= i < |SummedPrefix(serialNumber, y, windowSize, x)| ==>
      SummedPrefix(serialNumber, y, windowSize, x)[i] == Wrap8(RowPower(serialNumber, y, i, i + windowSize))
    decreases x
  {
    if x >= windowSize {
      SummedPrefixAt(serialNumber, y, windowSize, x - 1);
    }
  }
  /// The row `GenerateSummedRow` computes: entry `i` is the window of
  /// `windowSize` cells starting at `x = i`, summed as an `sbyte`
  /// (`SummedRowAt`).
  ghost function SummedRow(serialNumber: int, y: int, windowSize: int): (r: seq<int>)
    requires IsInt32(serialNumber) && IsInt32(y) && 1 <= windowSize <= GridWidth + 1
    ensures |r| == GridWidth - windowSize + 1
  {
    SummedPrefix(serialNumber, y, windowSize, GridWidth)
  }

  /// The value of the row leaving the window at column `i`, if any.
  function Leave(oldRow: Option<seq<int>>, i: int): int
    requires oldRow.Some? ==> 0 <= i < |oldRow.value|
  {
    if oldRow.Some? then oldRow.value[i] else 0
  }

  /// A column total after the leaving row is subtracted and the entering
  /// row added, both in `sbyte` arithmetic.
  function ColumnUpdate(total: int, leaving: int, entering: int): SByte
  {
    Wrap8(Wrap8(total - leaving) + entering)
  }

  /// `sbyte` subtraction then addition wraps like the exact sum.
  lemma WrapUpdate(total: int, out: int, add: int, sum: int, outSum: int, addSum: int)
    requires total == Wrap8(sum) && out == Wrap8(outSum) && add == Wrap8(addSum)
    ensures ColumnUpdate(total, out, add) == Wrap8(sum - outSum + addSum)
  {
    var k1 := Wrap8Offset(sum);
    var k2 := Wrap8Offset(outSum);
    var k3 := Wrap8Offset(addSum);
    var k4 := Wrap8Offset(total - out);
    var k := k1 - k2 + k3 + k4;
    assert sum - outSum + addSum == Wrap8(total - out) + add + 256 * k;
    Wrap8Shift(Wrap8(total - out) + add, k);
  }

  /// The remainder is determined by any quotient-remainder decomposition.
  lemma ModUnique(x: int, size: int, q: int, r: int)
    requires size >= 1 && x == size * q + r && 0 <= r < size
    ensures x % size == r
  {
    var d := q - x / size;
    assert size * d == x % size - r;
    if d >= 1 {
      MulAtLeast(size, d);
    } else if d <= -1 {
      MulAtLeast(size, -d);
    }
  }

  /// Positions less than `size` apart fall in different ring-buffer slots.
  lemma ModDistinct(k: int, x: int, size: int)
    requires 0 <= k < x < k + size
    ensures k % size != x % size
  {
    if k % size == x % size {
      ModUnique(x - k, size, x / size - k / size, 0);
    }
  }

  /// The slot `x % size` of the ring buffer: `x` itself before it has
  /// wrapped, the slot of `x - size` after.
  lemma ModSlot(x: int, size: int)
    requires 0 <= x && 1 <= size
    ensures x % size == if x < size then x else (x - size) % size
  {
    if x < size {
      ModUnique(x, size, 0, x);
    } else {
      ModUnique(x, size, (x - size) / size + 1, (x - size) % size);
    }
  }

  /// The power that leaves the window of `size` cells when `x` enters it
  /// (zero while the window is still filling).
  ghost function Leaving(serialNumber: int, y: int, x: int, size: int): SByte
    requires IsInt32(serialNumber) && IsInt32(y) && 0 <= x < GridWidth && 1 <= size
  {
    if x < size then 0 else PowerAt(serialNumber, y, x - size)
  }

  /// The ring buffer of `GenerateSummedRow` before cell `x`: the slot of
  /// each of the last `size` cells holds its power, and a slot not yet
  /// reached holds zero.
  ghost predicate Ring(window: seq<SByte>, serialNumber: int, y: int, x: int, size: int)
    requires IsInt32(serialNumber) && IsInt32(y) && 0 <= x <= GridWidth && 1 <= size == |window|
  {
    (forall k :: WindowStart(x, size) <= k < x ==> window[k % size] == PowerAt(serialNumber, y, k)) &&
    (forall j :: x <= j < size ==> window[j] == 0)
  }

  /// The slot of `x` holds the power leaving the window, and writing the
  /// power of `x` there gives the ring buffer before `x + 1`.
  lemma RingStep(window: seq<SByte>, serialNumber: int, y: int, x: int, size: int)
    requires IsInt32(serialNumber) && IsInt32(y) && 0 <= x < GridWidth && 1 <= size == |window|
    requires Ring(window, serialNumber, y, x, size)
    ensures window[x % size] == Leaving(serialNumber, y, x, size)
    ensures Ring(window[x % size := PowerAt(serialNumber, y, x)], serialNumber, y, x + 1, size)
  {
    ModSlot(x, size);
    var w := window[x % size := PowerAt(serialNumber, y, x)];
    forall k | WindowStart(x + 1, size) <= k < x
      ensures w[k % size] == PowerAt(serialNumber, y, k)
    {
      ModDistinct(k, x, size);
    }
  }

  /// The ring buffer of `GenerateSummedRow` before cell `x`: all zeros, then
  /// the power of each cell written, in order, to slot `cell % size`.
  ghost function RingContents(serialNumber: int, y: int, x: int, size: int): (r: seq<SByte>)
    requires IsInt32(serialNumber) && IsInt32(y) && 0 <= x <= GridWidth && 1 <= size
    ensures |r| == size
  {
    if x == 0 then seq(size, _ => 0)
    else RingContents(serialNumber, y, x - 1, size)[(x - 1) % size := PowerAt(serialNumber, y, x - 1)]
  }

  /// After `x` writes the ring buffer holds the last `size` powers, each in
  /// its slot, and zeros in the slots not yet reached.
  lemma {:induction false} RingContentsRing(serialNumber: int, y: int, x: int, size: int)
    requires IsInt32(serialNumber) && IsInt32(y) && 0 <= x <= GridWidth && 1 <= size
    ensures Ring(RingContents(serialNumber, y, x, size), serialNumber, y, x, size)
  {
    if x > 0 {
      RingContentsRing(serialNumber, y, x - 1, size);
      RingStep(RingContents(serialNumber, y, x - 1, size), serialNumber, y, x - 1, size);
    }
  }

  /// Taking the leaving power out of the running total and adding the power
  /// of `x`, both in `sbyte` arithmetic, gives the window ending at `x`.
  lemma TotalStep(serialNumber: int, y: int, x: int, size: int, total: int)
    requires IsInt32(serialNumber) && IsInt32(y) && 0 <= x < GridWidth && 1 <= size
    requires total == Wrap8(RowPower(serialNumber, y, WindowStart(x, size), x))
    ensures ColumnUpdate(total, Leaving(serialNumber, y, x, size), PowerAt(serialNumber, y, x)) ==
      Wrap8(RowPower(serialNumber, y, WindowStart(x + 1, size), x + 1))
  {
    var sum := RowPower(serialNumber, y, WindowStart(x, size), x);
    var out := Leaving(serialNumber, y, x, size);
    var value := PowerAt(serialNumber, y, x);
    WrapUpdate(total, out, value, sum, out, value);
    if x >= size {
      RowPowerFirst(serialNumber, y, x - size, x + 1);
    }
    assert RowPower(serialNumber, y, WindowStart(x + 1, size), x + 1) == sum - out + value;
  }

  /// One cell of `GenerateSummedRow`: the slot of `x` holds the leaving
  /// power, the updated total is the window ending at `x`, the ring buffer
  /// becomes the one before `x + 1`, and a full window adds its sum to the
  /// row.
  lemma RowCellStep(window: seq<SByte>, total: int, serialNumber: int, y: int, x: int, size: int)
    requires IsInt32(serialNumber) && IsInt32(y) && 0 <= x < GridWidth && 1 <= size
    requires window == RingContents(serialNumber, y, x, size)
    requires total == Wrap8(RowPower(serialNumber, y, WindowStart(x, size), x))
    ensures window[x % size] == Leaving(serialNumber, y, x, size)
    ensures RingContents(serialNumber, y, x + 1, size) == window[x % size := PowerAt(serialNumber, y, x)]
    ensures var next := ColumnUpdate(total, window[x % size], PowerAt(serialNumber, y, x));
      next == Wrap8(RowPower(serialNumber, y, WindowStart(x + 1, size), x + 1)) &&
      SummedPrefix(serialNumber, y, size, x + 1) ==
        if x + 1 < size then [] else SummedPrefix(serialNumber, y, size, x) + [next]
  {
    RingContentsRing(serialNumber, y, x, size);
    RingStep(window, serialNumber, y, x, size);
    TotalStep(serialNumber, y, x, size, total);
  }

  /// One cell of `GenerateSummedRow`: take the power leaving the window out
  /// of the running total, write the power of `x` into its slot of the ring
  /// buffer and add it to the total.
  method RollWindow(window: array<SByte>, total: SByte, serialNumber: int, y: int, x: int)
      returns (next: SByte)
    requires IsInt32(serialNumber) && IsInt32(y) && 0 <= x < GridWidth && 1 <= window.Length
    requires window[..] == RingContents(serialNumber, y, x, window.Length)
    requires total == Wrap8(RowPower(serialNumber, y, WindowStart(x, window.Length), x))
    modifies window
    ensures window[..] == RingContents(serialNumber, y, x + 1, window.Length)
    ensures next == Wrap8(RowPower(serialNumber, y, WindowStart(x + 1, window.Length), x + 1))
    ensures SummedPrefix(serialNumber, y, window.Length, x + 1) ==
      if x + 1 < window.Length then [] else SummedPrefix(serialNumber, y, window.Length, x) + [next]
  {
    var windowPos := x % window.Length;
    RowCellStep(window[..], total, serialNumber, y, x, window.Length);
    next := Wrap8(total - window[windowPos]);
    var value := CalculatePower(x, y, serialNumber);
    PowerAtIs(serialNumber, y, x);
    window[windowPos] := value;
    next := Wrap8(next + value);
  }

  /// `GenerateSummedRow`: the sums of every window of `windowSize` cells on
  /// row `y`, kept as a running `sbyte` total over a ring buffer of the last
  /// `windowSize` powers.
  method GenerateSummedRow(windowSize: int, y: int, serialNumber: int) returns (result: array<SByte>)
    requires 1 <= windowSize <= GridWidth + 1 && IsInt32(y) && IsInt32(serialNumber)
    ensures fresh(result)
    ensures result[..] == SummedRow(serialNumber, y, windowSize)
  {
    result := new SByte[GridWidth - windowSize + 1](_ => 0);
    var window := new SByte[windowSize](_ => 0);
    assert window[..] == RingContents(serialNumber, y, 0, windowSize);
    var total: SByte := 0;
    ghost var sums: seq<int> := [];
    for x := 0 to GridWidth
      invariant total == Wrap8(RowPower(serialNumber, y, WindowStart(x, windowSize), x))
      invariant window[..] == RingContents(serialNumber, y, x, windowSize)
      invariant sums == SummedPrefix(serialNumber, y, windowSize, x)
      invariant forall i :: 0 <= i < |sums| ==> result[i] == sums[i]
    {
      total := RollWindow(window, total, serialNumber, y, x);
      var resultIndex := x - windowSize + 1;
      if resultIndex >= 0 {
        result[resultIndex] := total;
        sums := sums + [total];
      }
    }
    assert result[..] == sums;
  }

  /// An entry of `SummedRow`.
  lemma SummedRowAt(serialNumber: int, y: int, windowSize: int, x: int)
    requires IsInt32(serialNumber) && IsInt32(y) && 1 <= windowSize <= GridWidth + 1
    requires 0 <= x <= GridWidth - windowSize
    ensures SummedRow(serialNumber, y, windowSize)[x] == Wrap8(RowPower(serialNumber, y, x, x + windowSize))
  {
    SummedPrefixAt(serialNumber, y, windowSize, GridWidth);
  }

  /// The exact sum over rows `[lo, hi)` of the windows of `width` cells
  /// starting at column `x`.
  ghost function ColumnPower(serialNumber: int, x: int, width: int, lo: int, hi: int): int
    requires IsInt32(serialNumber) && 0 <= x && 1 <= width && x + width <= GridWidth && 0 <= lo && hi <= GridHeight
    decreases hi - lo
  {
    if hi <= lo then 0 else ColumnPower(serialNumber, x, width, lo, hi - 1) + RowPower(serialNumber, hi - 1, x, x + width)
  }

  /// The exact power of the `width` x `height` block whose top-left cell is
  /// `(x, y)`.
  ghost function BlockPower(serialNumber: int, x: int, y: int, width: int, height: int): int
    requires IsInt32(serialNumber) && 0 <= x && 1 <= width && x + width <= GridWidth
    requires 0 <= y && 1 <= height && y + height <= GridHeight
  {
    ColumnPower(serialNumber, x, width, y, y + height)
  }

  /// A column sum can equally be taken apart at its first row.
  lemma {:induction false} ColumnPowerFirst(serialNumber: int, x: int, width: int, lo: int, hi: int)
    requires IsInt32(serialNumber) && 0 <= x && 1 <= width && x + width <= GridWidth && 0 <= lo < hi <= GridHeight
    ensures ColumnPower(serialNumber, x, width, lo, hi) ==
      RowPower(serialNumber, lo, x, x + width) + ColumnPower(serialNumber, x, width, lo + 1, hi)
    decreases hi - lo
  {
    if lo + 1 < hi {
      ColumnPowerFirst(serialNumber, x, width, lo, hi - 1);
      var last := RowPower(serialNumber, hi - 1, x, x + width);
      assert ColumnPower(serialNumber, x, width, lo, hi) == ColumnPower(serialNumber, x, width, lo, hi - 1) + last;
      assert ColumnPower(serialNumber, x, width, lo + 1, hi) == ColumnPower(serialNumber, x, width, lo + 1, hi - 1) + last;
    } else {
      assert ColumnPower(serialNumber, x, width, lo, lo) == 0;
      assert ColumnPower(serialNumber, x, width, lo + 1, hi) == 0;
    }
  }

  /// The row that leaves the window of `height` rows when row `y` enters
  /// it, at column `x` (zero while the window is still filling).
  ghost function LeavingRow(serialNumber: int, x: int, width: int, y: int, height: int): SByte
    requires IsInt32(serialNumber) && 0 <= x && 1 <= width && x + width <= GridWidth && 0 <= y < GridHeight && 1 <= height
  {
    if y < height then 0 else Wrap8(RowPower(serialNumber, y - height, x, x + width))
  }

  /// The column total of `GenerateSummedGrid` at `x`: taking the leaving
  /// row out and adding row `y`, in `sbyte` arithmetic, gives the window of
  /// rows ending at `y`.
  lemma ColumnStep(serialNumber: int, x: int, width: int, y: int, height: int, total: int, leaving: int, entering: int)
    requires IsInt32(serialNumber) && 0 <= x && 1 <= width && x + width <= GridWidth && 0 <= y < GridHeight && 1 <= height
    requires total == Wrap8(ColumnPower(serialNumber, x, width, WindowStart(y, height), y))
    requires leaving == LeavingRow(serialNumber, x, width, y, height)
    requires entering == Wrap8(RowPower(serialNumber, y, x, x + width))
    ensures ColumnUpdate(total, leaving, entering) ==
      Wrap8(ColumnPower(serialNumber, x, width, WindowStart(y + 1, height), y + 1))
  {
    var sum := ColumnPower(serialNumber, x, width, WindowStart(y, height), y);
    var row := RowPower(serialNumber, y, x, x + width);
    if y < height {
      WrapUpdate(total, 0, entering, sum, 0, row);
    } else {
      var out := RowPower(serialNumber, y - height, x, x + width);
      WrapUpdate(total, leaving, entering, sum, out, row);
      ColumnPowerFirst(serialNumber, x, width, y - height, y + 1);
    }
  }

  /// Once the window of rows ending at `y` is full, the column total at `x`
  /// is the block whose top row is `y - height + 1`.
  lemma ColumnIsBlock(serialNumber: int, x: int, width: int, y: int, height: int)
    requires IsInt32(serialNumber) && 0 <= x && 1 <= width && x + width <= GridWidth && 0 <= y < GridHeight
    requires 1 <= height <= y + 1
    ensures ColumnPower(serialNumber, x, width, WindowStart(y + 1, height), y + 1) ==
      BlockPower(serialNumber, x, y - height + 1, width, height)
  {
  }

  /// The ring buffer of rows of `GenerateSummedGrid` before row `y`: the
  /// slot of each of the last `height` rows holds its summed row, and a
  /// slot not yet reached holds nothing.
  ghost predicate RowRing(window: seq<Option<seq<int>>>, serialNumber: int, y: int, width: int, height: int)
    requires IsInt32(serialNumber) && 0 <= y <= GridHeight && 1 <= width <= GridWidth + 1 && 1 <= height == |window|
  {
    (forall k :: WindowStart(y, height) <= k < y ==> window[k % height] == Some(SummedRow(serialNumber, k, width))) &&
    (forall j :: y <= j < height ==> window[j] == None)
  }

  /// The slot of row `y` holds the row leaving the window, and storing row
  /// `y` there gives the ring buffer before `y + 1`.
  lemma RowRingStep(window: seq<Option<seq<int>>>, serialNumber: int, y: int, width: int, height: int)
    requires IsInt32(serialNumber) && 0 <= y < GridHeight && 1 <= width <= GridWidth + 1 && 1 <= height == |window|
    requires RowRing(window, serialNumber, y, width, height)
    ensures window[y % height] == if y < height then None else Some(SummedRow(serialNumber, y - height, width))
    ensures RowRing(window[y % height := Some(SummedRow(serialNumber, y, width))], serialNumber, y + 1, width, height)
  {
    ModSlot(y, height);
    var w := window[y % height := Some(SummedRow(serialNumber, y, width))];
    forall k | WindowStart(y + 1, height) <= k < y
      ensures w[k % height] == Some(SummedRow(serialNumber, k, width))
    {
      ModDistinct(k, y, height);
    }
  }

  /// The results of `GenerateSummedGrid` in the rows above `row` are all
  /// written.
  ghost predicate RowsDone(result: array2<SByte>, serialNumber: int, width: int, height: int, row: int)
    requires IsInt32(serialNumber) && 1 <= width <= GridWidth + 1 && 1 <= height <= GridHeight + 1
    requires result.Length0 == GridWidth - width + 1 && result.Length1 == GridHeight - height + 1
    reads result
  {
    forall xx, r :: 0 <= xx < result.Length0 && 0 <= r < row && r < result.Length1 ==>
      result[xx, r] == Wrap8(BlockPower(serialNumber, xx, r, width, height))
  }

  /// The first `x` results of `GenerateSummedGrid` in `row` are written.
  ghost predicate RowPrefixDone(result: array2<SByte>, serialNumber: int, width: int, height: int, row: int, x: int)
    requires IsInt32(serialNumber) && 1 <= width <= GridWidth + 1 && 1 <= height <= GridHeight + 1
    requires result.Length0 == GridWidth - width + 1 && result.Length1 == GridHeight - height + 1
    requires 0 <= row < result.Length1 && x <= result.Length0
    reads result
  {
    forall xx :: 0 <= xx < x ==> result[xx, row] == Wrap8(BlockPower(serialNumber, xx, row, width, height))
  }

  /// A complete row of results extends `RowsDone` by one row.
  lemma RowsDoneExtend(result: array2<SByte>, serialNumber: int, width: int, height: int, row: int)
    requires IsInt32(serialNumber) && 1 <= width <= GridWidth + 1 && 1 <= height <= GridHeight + 1
    requires result.Length0 == GridWidth - width + 1 && result.Length1 == GridHeight - height + 1
    requires 0 <= row < result.Length1
    requires RowsDone(result, serialNumber, width, height, row)
    requires RowPrefixDone(result, serialNumber, width, height, row, result.Length0)
    ensures RowsDone(result, serialNumber, width, height, row + 1)
  {
  }

  /// The column totals of `GenerateSummedGrid` before row `y`: the total
  /// at `x` is the column of the last `height` rows above `y`, wrapped to
  /// an `sbyte`.
  ghost function ColumnTotals(serialNumber: int, width: int, height: int, y: int): (r: seq<SByte>)
    requires IsInt32(serialNumber) && 1 <= width <= GridWidth + 1 && 1 <= height && 0 <= y <= GridHeight
    ensures |r| == GridWidth - width + 1
  {
    seq(GridWidth - width + 1, xx requires 0 <= xx < GridWidth - width + 1 =>
      Wrap8(ColumnPower(serialNumber, xx, width, WindowStart(y, height), y)))
  }

  /// The column totals after the inner loop of `GenerateSummedGrid`: the
  /// leaving row taken out and the new row added, each in `sbyte`
  /// arithmetic.
  ghost function Accumulated(before: seq<SByte>, oldRow: Option<seq<int>>, newRow: seq<SByte>): (r: seq<SByte>)
    requires |newRow| == |before| && (oldRow.Some? ==> |before| <= |oldRow.value|)
    ensures |r| == |before|
  {
    seq(|before|, i requires 0 <= i < |before| => ColumnUpdate(before[i], Leave(oldRow, i), newRow[i]))
  }

  /// The inner loop of `GenerateSummedGrid` for row `y`: each column
  /// total takes the leaving row out and the new row in, in `sbyte`
  /// arithmetic, the results of the block row ending at `y` (`resultY`,
  /// when there is one) are the new totals, and the new row is stored in
  /// its ring-buffer slot.  Nothing else changes.
  method AccumulateRow(totals: array<SByte>, window: array<Option<seq<int>>>, result: array2<SByte>,
                       oldRow: Option<seq<int>>, newRow: seq<SByte>,
                       y: int, windowWidth: int, windowHeight: int, serialNumber: int)
    requires 1 <= windowWidth <= GridWidth + 1 && 1 <= windowHeight <= GridHeight + 1 && IsInt32(serialNumber)
    requires 0 <= y && windowHeight == window.Length
    requires result.Length0 == GridWidth - windowWidth + 1 && result.Length1 == GridHeight - windowHeight + 1
    requires |newRow| == totals.Length == result.Length0
    requires oldRow.Some? ==> totals.Length <= |oldRow.value|
    requires y - windowHeight + 1 < result.Length1
    requires RowsDone(result, serialNumber, windowWidth, windowHeight, WindowStart(y + 1, windowHeight))
    modifies totals, window, result
    ensures totals[..] == Accumulated(old(totals[..]), oldRow, newRow)
    ensures window[..] == if totals.Length == 0 then old(window[..])
      else old(window[..])[y % windowHeight := Some(newRow)]
    ensures y - windowHeight + 1 >= 0 ==> forall xx :: 0 <= xx < totals.Length ==>
      result[xx, y - windowHeight + 1] == totals[xx]
    ensures forall xx, r :: 0 <= xx < result.Length0 && 0 <= r < result.Length1 && r != y - windowHeight + 1 ==>
      result[xx, r] == old(result[xx, r])
    ensures RowsDone(result, serialNumber, windowWidth, windowHeight, WindowStart(y + 1, windowHeight))
  {
    var windowPos := y % windowHeight;
    var resultY := y - windowHeight + 1;
    for x := 0 to totals.Length
      invariant forall xx :: 0 <= xx < x ==> totals[xx] == ColumnUpdate(old(totals[xx]), Leave(oldRow, xx), newRow[xx])
      invariant forall xx :: x <= xx < totals.Length ==> totals[xx] == old(totals[xx])
      invariant window[..] == if x == 0 then old(window[..]) else old(window[..])[windowPos := Some(newRow)]
      invariant resultY >= 0 ==> forall xx :: 0 <= xx < x ==> result[xx, resultY] == totals[xx]
      invariant forall xx, r :: 0 <= xx < result.Length0 && 0 <= r < result.Length1 && r != resultY ==>
        result[xx, r] == old(result[xx, r])
    {
      totals[x] := Wrap8(totals[x] as int - if oldRow.Some? then oldRow.value[x] else 0);
      totals[x] := Wrap8(totals[x] as int + newRow[x]);
      if resultY >= 0 {
        result[x, resultY] := totals[x];
      }
      window[windowPos] := Some(newRow);
    }
    ghost var after := Accumulated(old(totals[..]), oldRow, newRow);
    assert forall xx :: 0 <= xx < totals.Length ==> totals[..][xx] == after[xx];
    assert totals[..] == after;
  }

  /// One row of `GenerateSummedGrid` moves every column total from the
  /// window of rows ending before `y` to the window ending at `y`.
  lemma TotalsAdvance(oldRow: Option<seq<int>>, newRow: seq<SByte>, serialNumber: int, width: int, y: int, height: int)
    requires IsInt32(serialNumber) && 1 <= width <= GridWidth + 1 && 1 <= height <= GridHeight + 1 && 0 <= y < GridHeight
    requires newRow == SummedRow(serialNumber, y, width)
    requires GridWidth - width + 1 > 0 ==>
      oldRow == if y < height then None else Some(SummedRow(serialNumber, y - height, width))
    ensures oldRow.Some? ==> GridWidth - width + 1 <= |oldRow.value|
    ensures Accumulated(ColumnTotals(serialNumber, width, height, y), oldRow, newRow) ==
      ColumnTotals(serialNumber, width, height, y + 1)
  {
    var before := ColumnTotals(serialNumber, width, height, y);
    var after := Accumulated(before, oldRow, newRow);
    forall xx | 0 <= xx < |after|
      ensures after[xx] == Wrap8(ColumnPower(serialNumber, xx, width, WindowStart(y + 1, height), y + 1))
    {
      ColumnAdvance(oldRow, newRow, serialNumber, width, y, height, xx, before[xx]);
    }
  }

  /// `TotalsAdvance` at column `x`.
  lemma ColumnAdvance(oldRow: Option<seq<int>>, newRow: seq<SByte>, serialNumber: int, width: int, y: int, height: int,
                      x: int, total: int)
    requires IsInt32(serialNumber) && 1 <= width <= GridWidth + 1 && 1 <= height <= GridHeight + 1 && 0 <= y < GridHeight
    requires newRow == SummedRow(serialNumber, y, width)
    requires 0 <= x < GridWidth - width + 1
    requires oldRow == if y < height then None else Some(SummedRow(serialNumber, y - height, width))
    requires total == Wrap8(ColumnPower(serialNumber, x, width, WindowStart(y, height), y))
    ensures ColumnUpdate(total, Leave(oldRow, x), newRow[x]) ==
      Wrap8(ColumnPower(serialNumber, x, width, WindowStart(y + 1, height), y + 1))
  {
    SummedRowAt(serialNumber, y, width, x);
    if oldRow.Some? {
      SummedRowAt(serialNumber, y - height, width, x);
    }
    ColumnStep(serialNumber, x, width, y, height, total, LeavingRow(serialNumber, x, width, y, height), newRow[x]);
  }

  /// Once the window of rows ending at `y` is full, the column totals are
  /// the results of the block row `row = y - height + 1`, which is then
  /// done.
  lemma ResultsAdvance(result: array2<SByte>, totals: seq<SByte>, serialNumber: int, width: int, y: int, height: int, row: int)
    requires IsInt32(serialNumber) && 1 <= width <= GridWidth + 1 && 1 <= height <= GridHeight + 1 && 0 <= y < GridHeight
    requires result.Length0 == GridWidth - width + 1 && result.Length1 == GridHeight - height + 1
    requires row == y - height + 1 && 0 <= row
    requires totals == ColumnTotals(serialNumber, width, height, y + 1)
    requires forall xx :: 0 <= xx < result.Length0 ==> result[xx, row] == totals[xx]
    requires RowsDone(result, serialNumber, width, height, row)
    ensures RowsDone(result, serialNumber, width, height, row + 1)
  {
    forall xx | 0 <= xx < result.Length0
      ensures result[xx, row] == Wrap8(BlockPower(serialNumber, xx, row, width, height))
    {
      ColumnIsBlock(serialNumber, xx, width, y, height);
    }
    RowsDoneExtend(result, serialNumber, width, height, row);
  }

  /// One row of `GenerateSummedGrid`: sum the windows of row `y`, fold them
  /// into the column totals and the ring buffer of rows, and write the block
  /// row that the window of rows ending at `y` completes.
  method AdvanceGrid(totals: array<SByte>, window: array<Option<seq<int>>>, result: array2<SByte>,
                     y: int, windowWidth: int, windowHeight: int, serialNumber: int)
    requires 1 <= windowWidth <= GridWidth + 1 && 1 <= windowHeight <= GridHeight + 1 && IsInt32(serialNumber)
    requires 0 <= y < GridHeight && windowHeight == window.Length && totals.Length == GridWidth - windowWidth + 1
    requires result.Length0 == GridWidth - windowWidth + 1 && result.Length1 == GridHeight - windowHeight + 1
    requires totals[..] == ColumnTotals(serialNumber, windowWidth, windowHeight, y)
    requires totals.Length > 0 ==> RowRing(window[..], serialNumber, y, windowWidth, windowHeight)
    requires RowsDone(result, serialNumber, windowWidth, windowHeight, WindowStart(y + 1, windowHeight))
    modifies totals, window, result
    ensures totals[..] == ColumnTotals(serialNumber, windowWidth, windowHeight, y + 1)
    ensures totals.Length > 0 ==> RowRing(window[..], serialNumber, y + 1, windowWidth, windowHeight)
    ensures RowsDone(result, serialNumber, windowWidth, windowHeight, WindowStart(y + 2, windowHeight))
  {
    var windowPos := y % windowHeight;
    var oldRow := window[windowPos];
    var newRow := GenerateSummedRow(windowWidth, y, serialNumber);
    if totals.Length > 0 {
      RowRingStep(window[..], serialNumber, y, windowWidth, windowHeight);
    }
    TotalsAdvance(oldRow, newRow[..], serialNumber, windowWidth, y, windowHeight);
    AccumulateRow(totals, window, result, oldRow, newRow[..], y, windowWidth, windowHeight, serialNumber);
    var resultY := y - windowHeight + 1;
    if resultY >= 0 {
      ResultsAdvance(result, totals[..], serialNumber, windowWidth, y, windowHeight, resultY);
    }
  }

  /// `GenerateSummedGrid`: the `sbyte` sum of every `windowWidth` x
  /// `windowHeight` block, indexed by its top-left cell, kept as running
  /// column totals over a ring buffer of the last `windowHeight` summed rows.
  method GenerateSummedGrid(windowWidth: int, windowHeight: int, serialNumber: int) returns (result: array2<SByte>)
    requires 1 <= windowWidth <= GridWidth + 1 && 1 <= windowHeight <= GridHeight + 1 && IsInt32(serialNumber)
    ensures fresh(result)
    ensures result.Length0 == GridWidth - windowWidth + 1 && result.Length1 == GridHeight - windowHeight + 1
    ensures forall x, y :: 0 <= x < result.Length0 && 0 <= y < result.Length1 ==>
      result[x, y] == Wrap8(BlockPower(serialNumber, x, y, windowWidth, windowHeight))
  {
    var outputWidth := GridWidth - windowWidth + 1;
    result := new SByte[outputWidth, GridHeight - windowHeight + 1]((_, _) => 0);
    var window := new Option<seq<int>>[windowHeight](_ => None);
    var totals := new SByte[outputWidth](_ => 0);
    assert totals[..] == ColumnTotals(serialNumber, windowWidth, windowHeight, 0);
    for y := 0 to GridHeight
      invariant totals[..] == ColumnTotals(serialNumber, windowWidth, windowHeight, y)
      invariant outputWidth > 0 ==> RowRing(window[..], serialNumber, y, windowWidth, windowHeight)
      invariant RowsDone(result, serialNumber, windowWidth, windowHeight, WindowStart(y + 1, windowHeight))
    {
      AdvanceGrid(totals, window, result, y, windowWidth, windowHeight, serialNumber);
    }
  }

  /// `(x1, y1)` comes before `(x2, y2)` when scanning x-major: by column,
  /// then by row within a column.
  predicate XMajorBefore(x1: int, y1: int, x2: int, y2: int)
  {
    x1 < x2 || (x1 == x2 && y1 < y2)
  }

  /// `FindMax`: the first cell, scanning x-major, holding the largest value;
  /// `(0, 0)` for an empty grid.
  method FindMax(values: array2<SByte>) returns (mx: int, my: int)
    ensures values.Length0 == 0 || values.Length1 == 0 ==> mx == 0 && my == 0
    ensures values.Length0 > 0 && values.Length1 > 0 ==>
      0 <= mx < values.Length0 && 0 <= my < values.Length1 &&
      (forall x, y :: 0 <= x < values.Length0 && 0 <= y < values.Length1 ==> values[x, y] <= values[mx, my]) &&
      (forall x, y :: 0 <= x < values.Length0 && 0 <= y < values.Length1 && XMajorBefore(x, y, mx, my) ==>
        values[x, y] < values[mx, my])
  {
    var max := -128;
    mx, my := 0, 0;
    var w := values.Length0;
    var h := values.Length1;
    for x := 0 to w
      invariant (max == -128 && mx == 0 && my == 0) || (0 <= mx < w && 0 <= my < h && max == values[mx, my])
      invariant forall xx, yy :: 0 <= xx < x && 0 <= yy < h ==> values[xx, yy] <= max
      invariant forall xx, yy :: 0 <= xx < w && 0 <= yy < h && XMajorBefore(xx, yy, mx, my) ==> values[xx, yy] < max
    {
      for y := 0 to h
        invariant (max == -128 && mx == 0 && my == 0) || (0 <= mx < w && 0 <= my < h && max == values[mx, my])
        invariant forall xx, yy :: 0 <= xx < w && 0 <= yy < h && XMajorBefore(xx, yy, x, y) ==> values[xx, yy] <= max
        invariant forall xx, yy :: 0 <= xx < w && 0 <= yy < h && XMajorBefore(xx, yy, mx, my) ==> values[xx, yy] < max
      {
        var v := values[x, y];
        if v > max {
          mx := x;
          my := y;
          max := v;
        }
      }
    }
  }

  /// A window of three cells on a row.
  lemma Row3Sum(serialNumber: int, y: int, x: int)
    requires IsInt32(serialNumber) && IsInt32(y) && 0 <= x <= GridWidth - 3
    ensures RowPower(serialNumber, y, x, x + 3) ==
      PowerAt(serialNumber, y, x) + PowerAt(serialNumber, y, x + 1) + PowerAt(serialNumber, y, x + 2)
  {
    assert RowPower(serialNumber, y, x, x + 1) == PowerAt(serialNumber, y, x);
    assert RowPower(serialNumber, y, x, x + 2) == RowPower(serialNumber, y, x, x + 1) + PowerAt(serialNumber, y, x + 1);
  }

  /// A 3 x 3 block is the sum of its three row windows.
  lemma Block3Sum(serialNumber: int, x: int, y: int)
    requires IsInt32(serialNumber) && 0 <= x <= GridWidth - 3 && 0 <= y <= GridHeight - 3
    ensures BlockPower(serialNumber, x, y, 3, 3) ==
      RowPower(serialNumber, y, x, x + 3) + RowPower(serialNumber, y + 1, x, x + 3) + RowPower(serialNumber, y + 2, x, x + 3)
  {
    assert ColumnPower(serialNumber, x, 3, y, y + 1) == RowPower(serialNumber, y, x, x + 3);
    assert ColumnPower(serialNumber, x, 3, y, y + 2) ==
      ColumnPower(serialNumber, x, 3, y, y + 1) + RowPower(serialNumber, y + 1, x, x + 3);
  }

  /// A 3 x 3 block holds nine powers in [-14, 4], so its sum lies in
  /// [-126, 36] and fits an `sbyte` unwrapped.
  lemma Block3Bounds(serialNumber: int, x: int, y: int)
    requires IsInt32(serialNumber) && 0 <= x <= GridWidth - 3 && 0 <= y <= GridHeight - 3
    ensures -126 <= BlockPower(serialNumber, x, y, 3, 3) <= 36
    ensures Wrap8(BlockPower(serialNumber, x, y, 3, 3)) == BlockPower(serialNumber, x, y, 3, 3)
  {
    RowPowerBounds(serialNumber, y, x, x + 3);
    RowPowerBounds(serialNumber, y + 1, x, x + 3);
    RowPowerBounds(serialNumber, y + 2, x, x + 3);
    Block3Sum(serialNumber, x, y);
  }

  /// `SolvePart1`: the top-left cell of the 3 x 3 block with the largest
  /// total power, the first such scanning x-major.
  method SolvePart1(serialNumber: int) returns (x: int, y: int)
    requires IsInt32(serialNumber)
    ensures 0 <= x <= GridWidth - 3 && 0 <= y <= GridHeight - 3
    ensures forall xx, yy :: 0 <= xx <= GridWidth - 3 && 0 <= yy <= GridHeight - 3 ==>
      BlockPower(serialNumber, xx, yy, 3, 3) <= BlockPower(serialNumber, x, y, 3, 3)
    ensures forall xx, yy :: 0 <= xx <= GridWidth - 3 && 0 <= yy <= GridHeight - 3 && XMajorBefore(xx, yy, x, y) ==>
      BlockPower(serialNumber, xx, yy, 3, 3) < BlockPower(serialNumber, x, y, 3, 3)
  {
    var windowSummedGrid := GenerateSummedGrid(3, 3, serialNumber);
    forall xx, yy | 0 <= xx <= GridWidth - 3 && 0 <= yy <= GridHeight - 3
      ensures windowSummedGrid[xx, yy] == BlockPower(serialNumber, xx, yy, 3, 3)
    {
      Block3Bounds(serialNumber, xx, yy);
    }
    x, y := FindMax(windowSummedGrid);
  }
}
