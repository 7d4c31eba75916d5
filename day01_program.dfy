/// Frequency drift (Day01/Program.cs): the final frequency after all changes,
/// and the first frequency reached twice while the changes repeat forever.
module Day01Program {
  import opened Wrappers
  import opened EnumerableAocExt
  import opened Linq

  /// `UpdateFrequency`: one adjustment.
  function UpdateFrequency(current: int, change: int): (r: int)
    ensures r - current == change
  {
    current + change
  }

  /// `Aggregate(acc, UpdateFrequency)`, folding from the left.
  function Fold(acc: int, changes: seq<int>): int
    decreases |changes|
  {
    if changes == [] then acc else Fold(UpdateFrequency(acc, changes[0]), changes[1..])
  }

  lemma {:induction false} FoldIsSum(acc: int, changes: seq<int>)
    ensures Fold(acc, changes) == acc + Sum(changes)
    decreases |changes|
  {
    if changes != [] {
      FoldIsSum(acc + changes[0], changes[1..]);
    }
  }

  /// `ApplyFrequencyAdjustments`: the unseeded aggregate starts from the
  /// first change and throws on an empty input.
  function ApplyFrequencyAdjustments(changes: seq<int>): (r: Result<int>)
  {
    if changes == [] then Failure(InvalidOperation) else Success(Fold(changes[0], changes[1..]))
  }

  /// The final frequency is the sum of the changes; there is none for an
  /// empty list.
  lemma ApplyFrequencyAdjustmentsIsSum(changes: seq<int>)
    ensures ApplyFrequencyAdjustments(changes).Failure? <==> changes == []
    ensures changes != [] ==> ApplyFrequencyAdjustments(changes) == Success(Sum(changes))
  {
    if changes != [] {
      FoldIsSum(changes[0], changes[1..]);
    }
  }

  lemma Examples()
    ensures UpdateFrequency(0, 1) == 1 && UpdateFrequency(1, -2) == -1
    ensures UpdateFrequency(-1, 3) == 2 && UpdateFrequency(2, 1) == 3
    ensures ApplyFrequencyAdjustments([1, 1, 1]) == Success(3)
    ensures ApplyFrequencyAdjustments([1, 1, -2]) == Success(0)
    ensures ApplyFrequencyAdjustments([-1, -2, -3]) == Success(-6)
  {
  }

  /// The first `n` values of `changes.Repeat()`.
  function Repeated(changes: seq<int>, n: nat): (r: seq<int>)
    requires changes != []
    ensures |r| == n
    ensures forall i :: 0 <= i < n ==> r[i] == changes[i % |changes|]
  {
    seq(n, i requires 0 <= i => changes[i % |changes|])
  }

  /// `Scan(acc, UpdateFrequency)`: the running totals after each change.
  function RunningTotals(acc: int, changes: seq<int>): (r: seq<int>)
    ensures |r| == |changes|
    decreases |changes|
  {
    if changes == [] then []
    else
      var next := UpdateFrequency(acc, changes[0]);
      [next] + RunningTotals(next, changes[1..])
  }

  lemma {:induction false} RunningTotalsAre(acc: int, changes: seq<int>, k: int)
    requires 0 <= k < |changes|
    ensures RunningTotals(acc, changes)[k] == acc + Sum(changes[..k + 1])
    decreases k
  {
    var next := acc + changes[0];
    assert RunningTotals(acc, changes) == [next] + RunningTotals(next, changes[1..]);
    if k == 0 {
      assert changes[..1] == [changes[0]];
    } else {
      RunningTotalsAre(next, changes[1..], k - 1);
      assert changes[..k + 1][1..] == changes[1..][..k];
    }
  }

  /// The first `n + 1` values of `GetAdjustedFrequenciesWithRepeatingInput`:
  /// the starting frequency 0, then the running totals over the repeated
  /// changes.
  function Frequencies(changes: seq<int>, n: nat): (r: seq<int>)
    requires changes != []
    ensures |r| == n + 1
  {
    [0] + RunningTotals(0, Repeated(changes, n))
  }

  /// Frequency `k` is the sum of the first `k` repeated changes.
  lemma FrequencyIsPrefixSum(changes: seq<int>, n: nat, k: int)
    requires changes != [] && 0 <= k <= n
    ensures Frequencies(changes, n)[k] == Sum(Repeated(changes, k))
  {
    if k > 0 {
      RunningTotalsAre(0, Repeated(changes, n), k - 1);
      assert Repeated(changes, n)[..k] == Repeated(changes, k);
    }
  }

  /// Looking further ahead only appends frequencies.
  lemma FrequenciesExtend(changes: seq<int>, n: nat, m: nat)
    requires changes != [] && n <= m
    ensures Frequencies(changes, m)[..n + 1] == Frequencies(changes, n)
  {
    forall k | 0 <= k <= n ensures Frequencies(changes, m)[k] == Frequencies(changes, n)[k] {
      FrequencyIsPrefixSum(changes, m, k);
      FrequencyIsPrefixSum(changes, n, k);
    }
  }

  /// `FindFirstRepeatedFrequency`, looking at the first `limit + 1`
  /// frequencies of the endless sequence. `None` when no repeat is found
  /// that early or when there are no changes (where the source never
  /// returns).
  function FindFirstRepeatedFrequency(changes: seq<int>, limit: nat): (r: Option<int>)
  {
    if changes == [] then None
    else
      match FindFirstRepeatedValue(Frequencies(changes, limit))
      case Success(v) => Some(v)
      case Failure(_) => None
  }

  /// A repeat found within the limit is the repeat of the endless sequence:
  /// it stays the answer for every larger limit, and it is the frequency at
  /// the first index that repeats an earlier one.
  lemma FindFirstRepeatedFrequencyStable(changes: seq<int>, limit: nat, larger: nat)
    requires FindFirstRepeatedFrequency(changes, limit).Some? && limit <= larger
    ensures FindFirstRepeatedFrequency(changes, larger) == FindFirstRepeatedFrequency(changes, limit)
  {
    var small := Frequencies(changes, limit);
    var big := Frequencies(changes, larger);
    FrequenciesExtend(changes, limit, larger);
    assert big == small + big[limit + 1..];
    FindFirstRepeatedValuePrefix(small, big[limit + 1..]);
  }

  lemma FindFirstRepeatedFrequencyMeans(changes: seq<int>, limit: nat)
    requires changes != []
    ensures FindFirstRepeatedFrequency(changes, limit).Some? ==>
      exists k :: 0 <= k <= limit && RepeatAt(Frequencies(changes, limit), k)
               && Frequencies(changes, limit)[k] == FindFirstRepeatedFrequency(changes, limit).value
               && forall j :: 0 <= j < k ==> !RepeatAt(Frequencies(changes, limit), j)
    ensures FindFirstRepeatedFrequency(changes, limit).None? ==>
      forall k :: 0 <= k <= limit ==> !RepeatAt(Frequencies(changes, limit), k)
  {
    FindFirstRepeatedValueMeans(Frequencies(changes, limit));
  }

  /// A repeat at position `k` after `k` distinct values is the first repeat.
  lemma FirstRepeatAt(f: seq<int>, k: int)
    requires 0 <= k < |f| && RepeatAt(f, k)
    requires forall i, j :: 0 <= i < j < k ==> f[i] != f[j]
    ensures FindFirstRepeatedValue(f) == Success(f[k])
  {
    FindFirstRepeatedValueMeans(f);
    var k' :| 0 <= k' < |f| && RepeatAt(f, k') && f[k'] == FindFirstRepeatedValue(f).value
              && forall j :: 0 <= j < k' ==> !RepeatAt(f, j);
    if k' < k {
      assert false;
    }
  }

  /// Two of the worked examples: +1, -1 first reaches 0 twice, and
  /// +3, +3, +4, -2, -4 first reaches 10 twice.
  lemma RepeatExamples()
    ensures FindFirstRepeatedFrequency([1, -1], 2) == Some(0)
    ensures FindFirstRepeatedFrequency([3, 3, 4, -2, -4], 7) == Some(10)
  {
    var f1 := Frequencies([1, -1], 2);
    assert Repeated([1, -1], 2) == [1, -1];
    assert f1 == [0, 1, 0];
    assert f1[..2] == [0, 1];
    FirstRepeatAt(f1, 2);
    ExampleTen();
  }

  lemma ExampleTen()
    ensures FindFirstRepeatedFrequency([3, 3, 4, -2, -4], 7) == Some(10)
  {
    var r := Repeated([3, 3, 4, -2, -4], 7);
    assert r == [3, 3, 4, -2, -4, 3, 3];
    var f := Frequencies([3, 3, 4, -2, -4], 7);
    assert RunningTotals(0, r) == [3, 6, 10, 8, 4, 7, 10];
    assert f == [0, 3, 6, 10, 8, 4, 7, 10];
    assert f[..7] == [0, 3, 6, 10, 8, 4, 7];
    FirstRepeatAt(f, 7);
  }
}
