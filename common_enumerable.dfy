/// The shared sequence helpers (Common/EnumerableAocExt.cs): finding the
/// first value seen a second time, and counting how often each value occurs.
module EnumerableAocExt {
  import opened Wrappers

  /// The elements of a sequence, as a set.
  function Elements<T(==)>(s: seq<T>): set<T>
  {
    set x | x in s
  }

  /// The accumulator of the first-repeat scan: the values seen so far,
  /// whether the latest value was new, and the latest value.
  datatype SeenAcc<T(==)> = SeenAcc(seen: set<T>, lastWasNew: bool, value: T)

  /// `IsNew`: adds `value` to the seen set; it is new exactly when the set
  /// did not already hold it.
  function IsNew<T(==)>(acc: SeenAcc<T>, value: T): (r: SeenAcc<T>)
    ensures acc.seen <= r.seen && value in r.seen
    ensures r.seen - acc.seen <= {value}
    ensures r.lastWasNew <==> value !in acc.seen
    ensures r.value == value
  {
    var newSeen := acc.seen + {value};
    SeenAcc(newSeen, acc.seen != newSeen, value)
  }

  /// `Scan(seed, IsNew)`: one accumulator per input value (the seed itself
  /// is not emitted).
  function ScanIsNew<T(==)>(acc: SeenAcc<T>, values: seq<T>): seq<SeenAcc<T>>
    decreases |values|
  {
    if values == [] then []
    else
      var next := IsNew(acc, values[0]);
      [next] + ScanIsNew(next, values[1..])
  }

  /// The elements of a sequence are its head and the elements of its tail.
  lemma ElementsCons<T>(x: T, t: seq<T>)
    ensures Elements([x] + t) == {x} + Elements(t)
  {
    assert forall y :: y in [x] + t <==> y == x || y in t;
  }

  lemma {:induction false} ScanIsNewLength<T>(acc: SeenAcc<T>, values: seq<T>)
    ensures |ScanIsNew(acc, values)| == |values|
    decreases |values|
  {
    if values != [] {
      ScanIsNewLength(IsNew(acc, values[0]), values[1..]);
    }
  }

  /// The k-th accumulator of the scan has seen exactly the seed's values and
  /// the first k + 1 inputs, and flags the k-th input as new exactly when
  /// neither the seed nor an earlier input holds it.
  lemma {:induction false} ScanIsNewAt<T>(acc: SeenAcc<T>, values: seq<T>, k: int)
    requires 0 <= k < |values|
    ensures |ScanIsNew(acc, values)| == |values|
    ensures ScanIsNew(acc, values)[k]
         == SeenAcc(acc.seen + Elements(values[..k + 1]),
                    values[k] !in acc.seen + Elements(values[..k]),
                    values[k])
    decreases k
  {
    ScanIsNewLength(acc, values);
    var next := IsNew(acc, values[0]);
    var rest := values[1..];
    assert ScanIsNew(acc, values) == [next] + ScanIsNew(next, rest);
    if k == 0 {
      assert values[..1] == [values[0]] + [];
      ElementsCons(values[0], []);
      assert Elements(values[..0]) == {};
    } else {
      ScanIsNewAt(next, rest, k - 1);
      assert values[..k + 1] == [values[0]] + rest[..k];
      assert values[..k] == [values[0]] + rest[..k - 1];
      ElementsCons(values[0], rest[..k]);
      ElementsCons(values[0], rest[..k - 1]);
    }
  }

  lemma ScanIsNewMeans<T>(acc: SeenAcc<T>, values: seq<T>)
    ensures |ScanIsNew(acc, values)| == |values|
    ensures forall k :: 0 <= k < |values| ==>
      ScanIsNew(acc, values)[k].seen == acc.seen + Elements(values[..k + 1])
    ensures forall k :: 0 <= k < |values| ==>
      (ScanIsNew(acc, values)[k].lastWasNew <==> values[k] !in acc.seen + Elements(values[..k]))
    ensures forall k :: 0 <= k < |values| ==> ScanIsNew(acc, values)[k].value == values[k]
  {
    ScanIsNewLength(acc, values);
    forall k | 0 <= k < |values|
      ensures ScanIsNew(acc, values)[k].seen == acc.seen + Elements(values[..k + 1])
      ensures ScanIsNew(acc, values)[k].lastWasNew <==> values[k] !in acc.seen + Elements(values[..k])
      ensures ScanIsNew(acc, values)[k].value == values[k]
    {
      ScanIsNewAt(acc, values, k);
    }
  }

  /// Whether `values[k]` already occurred before position `k`.
  predicate RepeatAt<T(==)>(values: seq<T>, k: int)
    requires 0 <= k < |values|
  {
    values[k] in values[..k]
  }

  /// Position of the first accumulator at or after `from` whose value was
  /// not new.
  function FirstNotNew<T(==)>(scan: seq<SeenAcc<T>>, from: nat): (r: Option<nat>)
    requires from <= |scan|
    ensures r.Some? ==> from <= r.value < |scan| && !scan[r.value].lastWasNew
    ensures r.Some? ==> forall j :: from <= j < r.value ==> scan[j].lastWasNew
    ensures r.None? ==> forall j :: from <= j < |scan| ==> scan[j].lastWasNew
    decreases |scan| - from
  {
    if from == |scan| then None
    else if !scan[from].lastWasNew then Some(from)
    else FirstNotNew(scan, from + 1)
  }

  /// `FindFirstRepeatedValue`: the first value seen for a second time;
  /// `First` throws when there is none. (The seed's unused `value` field,
  /// `default(T)` in the source, is filled with the first element.)
  function FindFirstRepeatedValue<T(==)>(values: seq<T>): (r: Result<T>)
  {
    if values == [] then Failure(InvalidOperation)
    else
      var scan := ScanIsNew(SeenAcc({}, false, values[0]), values);
      match FirstNotNew(scan, 0)
      case None => Failure(InvalidOperation)
      case Some(k) => Success(scan[k].value)
  }

  /// The first repeat is the value at the earliest position that repeats an
  /// earlier one; there is no result exactly when all values are distinct.
  lemma FindFirstRepeatedValueMeans<T>(values: seq<T>)
    ensures FindFirstRepeatedValue(values).Failure? <==> forall k :: 0 <= k < |values| ==> !RepeatAt(values, k)
    ensures FindFirstRepeatedValue(values).Failure? ==> FindFirstRepeatedValue(values).error == InvalidOperation
    ensures FindFirstRepeatedValue(values).Success? ==>
      exists k :: 0 <= k < |values| && RepeatAt(values, k) && values[k] == FindFirstRepeatedValue(values).value
               && forall j :: 0 <= j < k ==> !RepeatAt(values, j)
  {
    if values != [] {
      var seed := SeenAcc({}, false, values[0]);
      var scan := ScanIsNew(seed, values);
      ScanIsNewMeans(seed, values);
      assert forall k :: 0 <= k < |values| ==> (scan[k].lastWasNew <==> !RepeatAt(values, k));
    }
  }

  /// A repeat found in a prefix is still the first repeat once more values
  /// follow, so searching a finite prefix of an endless sequence gives the
  /// endless sequence's answer.
  lemma FindFirstRepeatedValuePrefix<T>(values: seq<T>, more: seq<T>)
    requires FindFirstRepeatedValue(values).Success?
    ensures FindFirstRepeatedValue(values + more) == FindFirstRepeatedValue(values)
  {
    var all := values + more;
    FindFirstRepeatedValueMeans(values);
    FindFirstRepeatedValueMeans(all);
    var k :| 0 <= k < |values| && RepeatAt(values, k) && values[k] == FindFirstRepeatedValue(values).value
             && forall j :: 0 <= j < k ==> !RepeatAt(values, j);
    PrefixRepeats(values, more, k);
    var k' :| 0 <= k' < |all| && RepeatAt(all, k') && all[k'] == FindFirstRepeatedValue(all).value
              && forall j :: 0 <= j < k' ==> !RepeatAt(all, j);
    if k' < k {
      PrefixRepeats(values, more, k');
      assert false;
    }
  }

  /// Repeats in a prefix are the same whatever follows the prefix.
  lemma PrefixRepeats<T>(values: seq<T>, more: seq<T>, k: int)
    requires 0 <= k < |values|
    ensures RepeatAt(values + more, k) <==> RepeatAt(values, k)
    ensures (values + more)[k] == values[k]
    ensures forall j :: 0 <= j < k ==> (RepeatAt(values + more, j) <==> RepeatAt(values, j))
  {
    assert (values + more)[..k] == values[..k];
    forall j | 0 <= j < k ensures RepeatAt(values + more, j) <==> RepeatAt(values, j) {
      assert (values + more)[..j] == values[..j];
    }
  }

  /// The accumulator of the counting aggregate.
  datatype CountAcc<T(==)> = CountAcc(seenCounts: map<T, int>, value: T)

  /// `UpdateSeenCount`: one more occurrence of `value`, starting from 1.
  function UpdateSeenCount<T(==)>(acc: CountAcc<T>, value: T): (r: CountAcc<T>)
    ensures r.seenCounts.Keys == acc.seenCounts.Keys + {value}
    ensures r.seenCounts[value] == if value in acc.seenCounts then acc.seenCounts[value] + 1 else 1
    ensures forall k :: k in acc.seenCounts && k != value ==> r.seenCounts[k] == acc.seenCounts[k]
    ensures r.value == value
  {
    var updated := if value in acc.seenCounts then acc.seenCounts[value := acc.seenCounts[value] + 1]
                   else acc.seenCounts[value := 1];
    CountAcc(updated, value)
  }

  /// `Aggregate(seed, UpdateSeenCount)`.
  function AggregateCounts<T(==)>(acc: CountAcc<T>, values: seq<T>): CountAcc<T>
    decreases |values|
  {
    if values == [] then acc
    else AggregateCounts(UpdateSeenCount(acc, values[0]), values[1..])
  }

  /// `FindRepeatedValueCounts`: the occurrence count of every distinct value.
  /// (The seed's unused `value` field, `default(T)` in the source, is filled
  /// with the first element.)
  function FindRepeatedValueCounts<T(==)>(values: seq<T>): map<T, int>
  {
    if values == [] then map[] else AggregateCounts(CountAcc(map[], values[0]), values).seenCounts
  }

  lemma {:induction false} AggregateCountsMeans<T>(acc: CountAcc<T>, m: multiset<T>, values: seq<T>)
    requires forall x :: x in acc.seenCounts <==> m[x] > 0
    requires forall x :: x in acc.seenCounts ==> acc.seenCounts[x] == m[x]
    ensures forall x :: x in AggregateCounts(acc, values).seenCounts <==> (m + multiset(values))[x] > 0
    ensures forall x :: x in AggregateCounts(acc, values).seenCounts ==>
      AggregateCounts(acc, values).seenCounts[x] == (m + multiset(values))[x]
    decreases |values|
  {
    if values != [] {
      var next := UpdateSeenCount(acc, values[0]);
      var m' := m + multiset{values[0]};
      assert forall x :: x in next.seenCounts <==> m'[x] > 0;
      assert forall x :: x in next.seenCounts ==> next.seenCounts[x] == m'[x];
      AggregateCountsMeans(next, m', values[1..]);
      assert values == [values[0]] + values[1..];
      assert multiset(values) == multiset{values[0]} + multiset(values[1..]);
      assert m + multiset(values) == m' + multiset(values[1..]);
    }
  }

  /// The keys are exactly the distinct values, and each count is that value's
  /// number of occurrences.
  lemma FindRepeatedValueCountsMeans<T>(values: seq<T>)
    ensures forall x :: x in FindRepeatedValueCounts(values) <==> x in values
    ensures forall x :: x in FindRepeatedValueCounts(values) ==>
      FindRepeatedValueCounts(values)[x] == multiset(values)[x]
  {
    var c := FindRepeatedValueCounts(values);
    if values != [] {
      var seed := CountAcc(map[], values[0]);
      AggregateCountsMeans(seed, multiset{}, values);
      assert multiset{} + multiset(values) == multiset(values);
      assert c == AggregateCounts(seed, values).seenCounts;
      forall x ensures x in c <==> x in values {
        assert x in values <==> multiset(values)[x] > 0;
      }
    }
  }

  /// Sum of the counts of the keys listed in `keys` (each at most once).
  function SumOver<T(==)>(counts: map<T, int>, keys: seq<T>): int
    requires forall i :: 0 <= i < |keys| ==> keys[i] in counts
  {
    if keys == [] then 0 else counts[keys[0]] + SumOver(counts, keys[1..])
  }

  /// Summing the counts over a duplicate-free list of every counted value
  /// gives the total number of occurrences.
  lemma {:induction false} SumOverIsSize<T>(counts: map<T, int>, m: multiset<T>, keys: seq<T>)
    requires forall i :: 0 <= i < |keys| ==> keys[i] in counts && counts[keys[i]] == m[keys[i]]
    requires forall i, j :: 0 <= i < j < |keys| ==> keys[i] != keys[j]
    requires forall x :: m[x] > 0 ==> x in keys
    ensures SumOver(counts, keys) == |m|
    decreases |keys|
  {
    if keys == [] {
      assert m == multiset{} by {
        forall x ensures m[x] == 0 {
          assert x !in keys;
        }
      }
    } else {
      var x := keys[0];
      var rest := keys[1..];
      var m' := m[x := 0];
      assert m == m' + multiset{}[x := m[x]];
      assert forall i :: 0 <= i < |rest| ==> rest[i] == keys[i + 1];
      forall y | m'[y] > 0 ensures y in rest {
        assert y in keys && y != x;
      }
      SumOverIsSize(counts, m', rest);
    }
  }

  /// The counts of `FindRepeatedValueCounts`, summed over its keys listed
  /// once each, add up to the length of the input.
  lemma CountsSumToLength<T>(values: seq<T>, keys: seq<T>)
    requires forall x :: x in keys <==> x in FindRepeatedValueCounts(values)
    requires forall i, j :: 0 <= i < j < |keys| ==> keys[i] != keys[j]
    ensures SumOver(FindRepeatedValueCounts(values), keys) == |values|
  {
    FindRepeatedValueCountsMeans(values);
    var counts := FindRepeatedValueCounts(values);
    var m := multiset(values);
    forall x | m[x] > 0 ensures x in keys {
      assert x in values;
    }
    SumOverIsSize(counts, m, keys);
  }
}
