/// Box ids (Day02/Program.cs): the repetition checksum, and the first id
/// that differs from an earlier one in a single character.
module Day02Program {
  import opened Wrappers
  import opened EnumerableAocExt
  import opened Linq

  /// Some value occurs exactly `n` times in `id`.
  predicate OccursExactly<T(==)>(id: seq<T>, n: int)
  {
    exists i :: 0 <= i < |id| && multiset(id)[id[i]] == n
  }

  /// `GetRepetitionCounts`: 2 if some value occurs exactly twice, then 3 if
  /// some value occurs exactly three times.
  function GetRepetitionCounts<T(==)>(id: seq<T>): (r: seq<int>)
  {
    var d := FindRepeatedValueCounts(id);
    (if exists x :: x in d && d[x] == 2 then [2] else [])
      + (if exists x :: x in d && d[x] == 3 then [3] else [])
  }

  /// Each of 2 and 3 is reported at most once, exactly when some value of
  /// the id occurs that many times, and nothing else is reported.
  lemma GetRepetitionCountsMeans<T>(id: seq<T>)
    ensures 2 in GetRepetitionCounts(id) <==> OccursExactly(id, 2)
    ensures 3 in GetRepetitionCounts(id) <==> OccursExactly(id, 3)
    ensures forall v :: v in GetRepetitionCounts(id) ==> v == 2 || v == 3
    ensures |GetRepetitionCounts(id)| <= 2
    ensures forall i, j :: 0 <= i < j < |GetRepetitionCounts(id)| ==>
      GetRepetitionCounts(id)[i] != GetRepetitionCounts(id)[j]
  {
    var d := FindRepeatedValueCounts(id);
    FindRepeatedValueCountsMeans(id);
    forall n | n == 2 || n == 3
      ensures (exists x :: x in d && d[x] == n) <==> OccursExactly(id, n)
    {
      if exists x :: x in d && d[x] == n {
        var x :| x in d && d[x] == n;
        var i :| 0 <= i < |id| && id[i] == x;
        assert multiset(id)[id[i]] == n;
      }
      if OccursExactly(id, n) {
        var i :| 0 <= i < |id| && multiset(id)[id[i]] == n;
        assert id[i] in d && d[id[i]] == n;
      }
    }
  }

  /// `ids.SelectMany(GetRepetitionCounts)`.
  function Contributions(ids: seq<string>): seq<int>
  {
    if ids == [] then [] else GetRepetitionCounts(ids[0]) + Contributions(ids[1..])
  }

  /// Product of the group sizes of the listed values.
  function GroupCountProduct(keys: seq<int>, m: multiset<int>): int
  {
    if keys == [] then 1 else m[keys[0]] * GroupCountProduct(keys[1..], m)
  }

  /// `CalculateChecksum`: group the contributions by value and multiply the
  /// group sizes, starting from 1.
  function CalculateChecksum(ids: seq<string>): int
  {
    var c := Contributions(ids);
    GroupCountProduct(Distinct(c), multiset(c))
  }

  /// Number of ids in which some value occurs exactly `n` times.
  function IdsWith(ids: seq<string>, n: int): nat
  {
    if ids == [] then 0 else (if OccursExactly(ids[0], n) then 1 else 0) + IdsWith(ids[1..], n)
  }

  /// A factor of the checksum: an absent group contributes nothing.
  function Factor(count: nat): nat
  {
    if count == 0 then 1 else count
  }

  lemma {:induction false} ContributionsCount(ids: seq<string>)
    ensures forall v :: v in Contributions(ids) ==> v == 2 || v == 3
    ensures multiset(Contributions(ids))[2] == IdsWith(ids, 2)
    ensures multiset(Contributions(ids))[3] == IdsWith(ids, 3)
    decreases |ids|
  {
    if ids != [] {
      ContributionsCount(ids[1..]);
      ContributionsHead(ids);
    }
  }

  /// What the first id adds to the contributions.
  lemma ContributionsHead(ids: seq<string>)
    requires ids != []
    ensures forall v :: v in Contributions(ids) ==> v in Contributions(ids[1..]) || v == 2 || v == 3
    ensures multiset(Contributions(ids))[2] == (if OccursExactly(ids[0], 2) then 1 else 0) + multiset(Contributions(ids[1..]))[2]
    ensures multiset(Contributions(ids))[3] == (if OccursExactly(ids[0], 3) then 1 else 0) + multiset(Contributions(ids[1..]))[3]
  {
    var g := GetRepetitionCounts(ids[0]);
    RepetitionCountsShape(ids[0]);
    assert Contributions(ids) == g + Contributions(ids[1..]);
    assert multiset(Contributions(ids)) == multiset(g) + multiset(Contributions(ids[1..]));
  }

  lemma {:induction false} GroupProductOfTwoValues(keys: seq<int>, m: multiset<int>)
    requires forall i :: 0 <= i < |keys| ==> keys[i] == 2 || keys[i] == 3
    requires forall i, j :: 0 <= i < j < |keys| ==> keys[i] != keys[j]
    ensures GroupCountProduct(keys, m) == (if 2 in keys then m[2] else 1) * (if 3 in keys then m[3] else 1)
  {
    if keys != [] {
      var rest := keys[1..];
      GroupProductOfTwoValues(rest, m);
      assert keys[0] !in rest;
      assert forall x :: x in keys <==> x == keys[0] || x in rest;
    }
  }

  /// The group sizes of the contributions, in terms of the contributions.
  lemma GroupProductOfContributions(c: seq<int>)
    requires forall v :: v in c ==> v == 2 || v == 3
    ensures GroupCountProduct(Distinct(c), multiset(c)) == Factor(multiset(c)[2]) * Factor(multiset(c)[3])
  {
    var keys := Distinct(c);
    assert 2 in keys <==> multiset(c)[2] > 0;
    assert 3 in keys <==> multiset(c)[3] > 0;
    assert forall i :: 0 <= i < |keys| ==> keys[i] in c;
    GroupProductOfTwoValues(keys, multiset(c));
  }

  /// The checksum is the number of ids with a value occurring exactly twice
  /// times the number with a value occurring exactly three times, where a
  /// count of zero contributes a factor of 1.
  lemma ChecksumIsProduct(ids: seq<string>)
    ensures CalculateChecksum(ids) == Factor(IdsWith(ids, 2)) * Factor(IdsWith(ids, 3))
  {
    ContributionsCount(ids);
    GroupProductOfContributions(Contributions(ids));
  }

  /// `n` occurrences of `c` in `id` make `id` report `n`.
  lemma Occurs(id: string, i: int, n: int)
    requires 0 <= i < |id| && multiset(id)[id[i]] == n
    ensures OccursExactly(id, n)
  {
  }

  /// The worked examples of the repetition counts, one id at a time.
  lemma RepetitionsAbcdef()
    ensures GetRepetitionCounts("abcdef") == []
    ensures !OccursExactly("abcdef", 2) && !OccursExactly("abcdef", 3)
  {
    var id := "abcdef";
    assert multiset(id) == multiset{'a', 'b', 'c', 'd', 'e', 'f'};
    CountsOf(id, []);
  }

  lemma RepetitionsBababc()
    ensures GetRepetitionCounts("bababc") == [2, 3]
    ensures OccursExactly("bababc", 2) && OccursExactly("bababc", 3)
  {
    var id := "bababc";
    assert multiset(id) == multiset{'b', 'a', 'b', 'a', 'b', 'c'};
    Occurs(id, 1, 2);
    Occurs(id, 0, 3);
    CountsOf(id, [2, 3]);
  }

  lemma RepetitionsAbbcde()
    ensures GetRepetitionCounts("abbcde") == [2]
    ensures OccursExactly("abbcde", 2) && !OccursExactly("abbcde", 3)
  {
    var id := "abbcde";
    assert multiset(id) == multiset{'a', 'b', 'b', 'c', 'd', 'e'};
    Occurs(id, 1, 2);
    CountsOf(id, [2]);
  }

  lemma RepetitionsAbcccd()
    ensures GetRepetitionCounts("abcccd") == [3]
    ensures !OccursExactly("abcccd", 2) && OccursExactly("abcccd", 3)
  {
    var id := "abcccd";
    assert multiset(id) == multiset{'a', 'b', 'c', 'c', 'c', 'd'};
    Occurs(id, 2, 3);
    CountsOf(id, [3]);
  }

  lemma RepetitionsAabcdd()
    ensures GetRepetitionCounts("aabcdd") == [2]
    ensures OccursExactly("aabcdd", 2) && !OccursExactly("aabcdd", 3)
  {
    var id := "aabcdd";
    assert multiset(id) == multiset{'a', 'a', 'b', 'c', 'd', 'd'};
    Occurs(id, 0, 2);
    CountsOf(id, [2]);
  }

  lemma RepetitionsAbcdee()
    ensures GetRepetitionCounts("abcdee") == [2]
    ensures OccursExactly("abcdee", 2) && !OccursExactly("abcdee", 3)
  {
    var id := "abcdee";
    assert multiset(id) == multiset{'a', 'b', 'c', 'd', 'e', 'e'};
    Occurs(id, 4, 2);
    CountsOf(id, [2]);
  }

  lemma RepetitionsAbabab()
    ensures GetRepetitionCounts("ababab") == [3]
    ensures !OccursExactly("ababab", 2) && OccursExactly("ababab", 3)
  {
    var id := "ababab";
    assert multiset(id) == multiset{'a', 'b', 'a', 'b', 'a', 'b'};
    Occurs(id, 0, 3);
    CountsOf(id, [3]);
  }

  /// Seven ids whose repetition reports are known.
  lemma CountIdsWith(a: string, b: string, c: string, d: string, e: string, f: string, g: string)
    requires !OccursExactly(a, 2) && !OccursExactly(a, 3)
    requires OccursExactly(b, 2) && OccursExactly(b, 3)
    requires OccursExactly(c, 2) && !OccursExactly(c, 3)
    requires !OccursExactly(d, 2) && OccursExactly(d, 3)
    requires OccursExactly(e, 2) && !OccursExactly(e, 3)
    requires OccursExactly(f, 2) && !OccursExactly(f, 3)
    requires !OccursExactly(g, 2) && OccursExactly(g, 3)
    ensures IdsWith([a, b, c, d, e, f, g], 2) == 4 && IdsWith([a, b, c, d, e, f, g], 3) == 3
  {
    var ids := [a, b, c, d, e, f, g];
    assert ids[6..] == [g];
    assert ids[5..] == [f] + ids[6..];
    assert ids[4..] == [e] + ids[5..];
    assert ids[3..] == [d] + ids[4..];
    assert ids[2..] == [c] + ids[3..];
    assert ids[1..] == [b] + ids[2..];
    assert IdsWith(ids[6..], 2) == 0 && IdsWith(ids[6..], 3) == 1;
    assert IdsWith(ids[5..], 2) == 1 && IdsWith(ids[5..], 3) == 1;
    assert IdsWith(ids[4..], 2) == 2 && IdsWith(ids[4..], 3) == 1;
    assert IdsWith(ids[3..], 2) == 2 && IdsWith(ids[3..], 3) == 2;
    assert IdsWith(ids[2..], 2) == 3 && IdsWith(ids[2..], 3) == 2;
    assert IdsWith(ids[1..], 2) == 4 && IdsWith(ids[1..], 3) == 3;
  }

  /// The example box ids give the checksum 4 * 3 = 12.
  lemma ChecksumExample()
    ensures CalculateChecksum(["abcdef", "bababc", "abbcde", "abcccd", "aabcdd", "abcdee", "ababab"]) == 12
  {
    RepetitionsAbcdef();
    RepetitionsBababc();
    RepetitionsAbbcde();
    RepetitionsAbcccd();
    RepetitionsAabcdd();
    RepetitionsAbcdee();
    RepetitionsAbabab();
    CountIdsWith("abcdef", "bababc", "abbcde", "abcccd", "aabcdd", "abcdee", "ababab");
    ChecksumIsProduct(["abcdef", "bababc", "abbcde", "abcccd", "aabcdd", "abcdee", "ababab"]);
  }

  /// Reads the report of an example id off its occurrence facts.
  lemma CountsOf(id: string, expected: seq<int>)
    requires expected == (if OccursExactly(id, 2) then [2] else []) + (if OccursExactly(id, 3) then [3] else [])
    ensures GetRepetitionCounts(id) == expected
  {
    RepetitionCountsShape(id);
  }

  /// The report of an id, in terms of its multiset of values.
  lemma RepetitionCountsShape(id: string)
    ensures GetRepetitionCounts(id)
         == (if OccursExactly(id, 2) then [2] else []) + (if OccursExactly(id, 3) then [3] else [])
  {
    GetRepetitionCountsMeans(id);
    var g := GetRepetitionCounts(id);
    if |g| == 1 {
      assert g == [g[0]];
    } else if |g| == 2 {
      assert g == [g[0], g[1]];
    }
  }

  /// `id` with the character at position `k` deleted.
  function Deletion(id: string, k: int): (r: string)
    requires 0 <= k < |id|
    ensures |r| == |id| - 1
  {
    id[..k] + id[k + 1..]
  }

  /// Which deletions make the partial ids: the source's range stops one
  /// short of the id's length, so the last character is never deleted; the
  /// corrected range covers every position.
  datatype DeletionRange = AsWritten | AllPositions

  /// Number of positions deleted for an id of length `n`.
  function DeletedCount(mode: DeletionRange, n: nat): int
  {
    match mode
    case AsWritten => n - 1
    case AllPositions => n
  }

  /// `p` is one of the partial ids of `id`.
  ghost predicate IsPartial(mode: DeletionRange, p: string, id: string)
  {
    exists k :: 0 <= k < DeletedCount(mode, |id|) && Deletion(id, k) == p
  }

  /// The partial ids of an id: `Enumerable.Range(0, id.Length - 1)` (which
  /// throws for an empty id), each position deleted in turn, de-duplicated.
  function PartialIds(mode: DeletionRange, id: string): (r: Result<seq<string>>)
    ensures r.Failure? <==> mode == AsWritten && id == []
    ensures r.Failure? ==> r.error == ArgumentOutOfRange
    ensures r.Success? ==> forall p :: p in r.value <==> IsPartial(mode, p, id)
    ensures r.Success? ==> forall i, j :: 0 <= i < j < |r.value| ==> r.value[i] != r.value[j]
  {
    var n := DeletedCount(mode, |id|);
    if n < 0 then Failure(ArgumentOutOfRange)
    else
      var all := seq(n, k requires 0 <= k < n => Deletion(id, k));
      assert forall p :: p in all <==> IsPartial(mode, p, id) by {
        forall p | IsPartial(mode, p, id) ensures p in all {
          var k :| 0 <= k < n && Deletion(id, k) == p;
          assert all[k] == p;
        }
      }
      Success(Distinct(all))
  }

  /// The scan's accumulator: every partial id seen so far, the id to
  /// report, and whether the latest id repeated a partial id.
  datatype PartialAcc = PartialAcc(partialIdsSeen: set<string>, id: string, isRepeat: bool)

  /// `MakeFirstPartialIds`. (Its `null` id, never reported, is `""` here.)
  const FirstPartialIds := PartialAcc({}, "", false)

  /// The last of `ps` that is in `seen`, or `otherwise` when none is.
  function LastSeenIn(ps: seq<string>, seen: set<string>, otherwise: string): (r: string)
    ensures (forall j :: 0 <= j < |ps| ==> ps[j] !in seen) ==> r == otherwise
  {
    if ps == [] then otherwise
    else if ps[|ps| - 1] in seen then ps[|ps| - 1]
    else LastSeenIn(ps[..|ps| - 1], seen, otherwise)
  }

  /// When some element of `ps` is in `seen`, the result is the last such
  /// element.
  lemma {:induction false} LastSeenInMeans(ps: seq<string>, seen: set<string>, otherwise: string)
    requires exists j :: 0 <= j < |ps| && ps[j] in seen
    ensures exists j :: 0 <= j < |ps| && ps[j] == LastSeenIn(ps, seen, otherwise) && ps[j] in seen &&
                        forall k :: j < k < |ps| ==> ps[k] !in seen
  {
    var n := |ps| - 1;
    if ps[n] in seen {
      assert ps[n] == LastSeenIn(ps, seen, otherwise);
    } else {
      var j :| 0 <= j < |ps| && ps[j] in seen;
      assert j < n && ps[..n][j] in seen;
      LastSeenInMeans(ps[..n], seen, otherwise);
      var i :| 0 <= i < n && ps[..n][i] == LastSeenIn(ps[..n], seen, otherwise) && ps[..n][i] in seen &&
        forall k :: i < k < n ==> ps[..n][k] !in seen;
      assert ps[i] == LastSeenIn(ps, seen, otherwise);
    }
  }

  /// The accumulator after adding the partial ids `ps` of `id`.
  function AddPartials(acc: PartialAcc, id: string, ps: seq<string>): PartialAcc
  {
    PartialAcc(acc.partialIdsSeen + Elements(ps), LastSeenIn(ps, acc.partialIdsSeen, id),
               exists j :: 0 <= j < |ps| && ps[j] in acc.partialIdsSeen)
  }

  /// The accumulator after one id, as `AccumulatePartialIds` computes it.
  function Accumulate(mode: DeletionRange, acc: PartialAcc, id: string): (r: Result<PartialAcc>)
  {
    var ps :- PartialIds(mode, id);
    Success(AddPartials(acc, id, ps))
  }

  /// One id: all of its partial ids join the seen set.
  lemma AccumulateSeen(mode: DeletionRange, acc: PartialAcc, id: string)
    requires Accumulate(mode, acc, id).Success?
    ensures forall p :: p in Accumulate(mode, acc, id).value.partialIdsSeen
                     <==> p in acc.partialIdsSeen || IsPartial(mode, p, id)
  {
  }

  /// One id is a repeat exactly when one of its partial ids had been seen,
  /// and then a seen partial id is reported instead of the id.
  lemma AccumulateRepeat(mode: DeletionRange, acc: PartialAcc, id: string)
    requires Accumulate(mode, acc, id).Success?
    ensures Accumulate(mode, acc, id).value.isRepeat ==>
      Accumulate(mode, acc, id).value.id in acc.partialIdsSeen && IsPartial(mode, Accumulate(mode, acc, id).value.id, id)
    ensures !Accumulate(mode, acc, id).value.isRepeat ==>
      Accumulate(mode, acc, id).value.id == id && forall p :: p in acc.partialIdsSeen ==> !IsPartial(mode, p, id)
  {
    var ps := PartialIds(mode, id).value;
    var r := Accumulate(mode, acc, id).value;
    if r.isRepeat {
      LastSeenInMeans(ps, acc.partialIdsSeen, id);
      var j :| 0 <= j < |ps| && ps[j] == r.id && ps[j] in acc.partialIdsSeen;
      assert IsPartial(mode, ps[j], id);
    } else {
      forall p | p in acc.partialIdsSeen ensures !IsPartial(mode, p, id) {
        assert p !in ps;
      }
    }
  }

  /// Everything one id does to the accumulator.
  lemma AccumulateMeans(mode: DeletionRange, acc: PartialAcc, id: string)
    ensures Accumulate(mode, acc, id).Failure? <==> mode == AsWritten && id == []
    ensures Accumulate(mode, acc, id).Failure? ==> Accumulate(mode, acc, id).error == ArgumentOutOfRange
    ensures Accumulate(mode, acc, id).Success? ==>
      var r := Accumulate(mode, acc, id).value;
      && acc.partialIdsSeen <= r.partialIdsSeen
      && (forall p :: p in r.partialIdsSeen <==> p in acc.partialIdsSeen || IsPartial(mode, p, id))
      && (r.isRepeat <==> exists p :: p in acc.partialIdsSeen && IsPartial(mode, p, id))
      && (r.isRepeat ==> r.id in acc.partialIdsSeen && IsPartial(mode, r.id, id))
      && (!r.isRepeat ==> r.id == id)
  {
    if Accumulate(mode, acc, id).Success? {
      AccumulateSeen(mode, acc, id);
      AccumulateRepeat(mode, acc, id);
    }
  }

  /// `AccumulatePartialIds`.
  method AccumulatePartialIds(acc: PartialAcc, id: string) returns (r: Result<PartialAcc>)
    ensures r == Accumulate(AsWritten, acc, id)
  {
    var partial := PartialIds(AsWritten, id);
    if partial.Failure? {
      return Failure(partial.error);
    }
    var next := AddPartialIds(acc, id, partial.value);
    return Success(next);
  }

  /// One more distinct partial id joins the accumulator: it is a repeat,
  /// and the id to report, exactly when the seed had already seen it.
  lemma AddPartialsStep(acc: PartialAcc, id: string, ps: seq<string>, i: int)
    requires 0 <= i < |ps|
    requires forall m, n :: 0 <= m < n < |ps| ==> ps[m] != ps[n]
    ensures var before := AddPartials(acc, id, ps[..i]);
      AddPartials(acc, id, ps[..i + 1])
        == PartialAcc(before.partialIdsSeen + {ps[i]},
                      if ps[i] in before.partialIdsSeen then ps[i] else before.id,
                      before.isRepeat || ps[i] in before.partialIdsSeen)
  {
    var prefix := ps[..i + 1];
    assert prefix[..i] == ps[..i] && prefix[i] == ps[i];
    assert prefix == ps[..i] + [ps[i]];
    assert ps[i] !in Elements(ps[..i]);
    assert Elements(prefix) == Elements(ps[..i]) + {ps[i]};
    assert (exists j :: 0 <= j < i + 1 && prefix[j] in acc.partialIdsSeen)
        <==> (exists j :: 0 <= j < i && ps[..i][j] in acc.partialIdsSeen) || ps[i] in acc.partialIdsSeen;
    assert prefix[..|prefix| - 1] == ps[..i];
  }

  /// The loop of `AccumulatePartialIds` over distinct partial ids.
  method AddPartialIds(acc: PartialAcc, id: string, partialIds: seq<string>) returns (r: PartialAcc)
    requires forall i, j :: 0 <= i < j < |partialIds| ==> partialIds[i] != partialIds[j]
    ensures r == AddPartials(acc, id, partialIds)
  {
    var partialIdsSeen := acc.partialIdsSeen;
    var isRepeat := false;
    var idToReturn := id;
    var i := 0;
    assert partialIds[..0] == [];
    while i < |partialIds|
      invariant 0 <= i <= |partialIds|
      invariant PartialAcc(partialIdsSeen, idToReturn, isRepeat) == AddPartials(acc, id, partialIds[..i])
    {
      var partialId := partialIds[i];
      AddPartialsStep(acc, id, partialIds, i);
      // `Add` hands back the same set exactly when the value is already there.
      if partialId in partialIdsSeen {
        isRepeat := true;
        idToReturn := partialId;
      }
      partialIdsSeen := partialIdsSeen + {partialId};
      i := i + 1;
    }
    assert partialIds[..i] == partialIds;
    return PartialAcc(partialIdsSeen, idToReturn, isRepeat);
  }

  /// `Scan(seed, AccumulatePartialIds).First(x => x.isRepeat).id`: the
  /// scan is lazy, so ids after the first repeat are never examined.
  function FindRepeat(mode: DeletionRange, acc: PartialAcc, ids: seq<string>): (r: Result<string>)
    decreases |ids|
  {
    if ids == [] then Failure(InvalidOperation)
    else
      var next :- Accumulate(mode, acc, ids[0]);
      if next.isRepeat then Success(next.id) else FindRepeat(mode, next, ids[1..])
  }

  /// `SolvePart2`.
  function SolvePart2(ids: seq<string>): Result<string>
  {
    FindRepeat(AsWritten, FirstPartialIds, ids)
  }

  /// `SolvePart2` with every position deletable.
  function SolvePart2Corrected(ids: seq<string>): Result<string>
  {
    FindRepeat(AllPositions, FirstPartialIds, ids)
  }

  /// Id `i` shares partial id `p` with the seed or with an earlier id.
  ghost predicate SharedAt(mode: DeletionRange, seen: set<string>, ids: seq<string>, i: int, p: string)
    requires 0 <= i < |ids|
  {
    IsPartial(mode, p, ids[i]) && (p in seen || exists j :: 0 <= j < i && IsPartial(mode, p, ids[j]))
  }

  /// After one id, sharing is judged against the grown seen set.
  lemma SharedShift(mode: DeletionRange, seen: set<string>, next: set<string>, ids: seq<string>, i: int, p: string)
    requires 1 <= i < |ids|
    requires forall q :: q in next <==> q in seen || IsPartial(mode, q, ids[0])
    ensures SharedAt(mode, next, ids[1..], i - 1, p) <==> SharedAt(mode, seen, ids, i, p)
  {
    if SharedAt(mode, seen, ids, i, p) && p !in seen {
      var j :| 0 <= j < i && IsPartial(mode, p, ids[j]);
      if j > 0 {
        assert ids[1..][j - 1] == ids[j];
      }
    }
    if SharedAt(mode, next, ids[1..], i - 1, p) && p !in next {
      var j :| 0 <= j < i - 1 && IsPartial(mode, p, ids[1..][j]);
      assert ids[j + 1] == ids[1..][j];
    }
  }

  /// Where sharing is first possible: at the first id, against the seed.
  lemma SharedFirst(mode: DeletionRange, seen: set<string>, ids: seq<string>, p: string)
    requires ids != []
    ensures SharedAt(mode, seen, ids, 0, p) <==> p in seen && IsPartial(mode, p, ids[0])
  {
  }

  /// The scan reports a partial id of the first id that shares one with
  /// the seed or an earlier id.
  lemma {:induction false} FindRepeatSound(mode: DeletionRange, acc: PartialAcc, ids: seq<string>)
    requires FindRepeat(mode, acc, ids).Success?
    ensures exists i :: 0 <= i < |ids| && SharedAt(mode, acc.partialIdsSeen, ids, i, FindRepeat(mode, acc, ids).value)
                     && (forall i', p :: 0 <= i' < i ==> !SharedAt(mode, acc.partialIdsSeen, ids, i', p))
    decreases |ids|
  {
    var seen := acc.partialIdsSeen;
    AccumulateRepeat(mode, acc, ids[0]);
    var next := Accumulate(mode, acc, ids[0]).value;
    if next.isRepeat {
      SharedFirst(mode, seen, ids, next.id);
      assert SharedAt(mode, seen, ids, 0, next.id);
    } else {
      AccumulateSeen(mode, acc, ids[0]);
      FindRepeatSound(mode, next, ids[1..]);
      var r := FindRepeat(mode, next, ids[1..]);
      var i :| 0 <= i < |ids[1..]| && SharedAt(mode, next.partialIdsSeen, ids[1..], i, r.value)
               && forall i', p :: 0 <= i' < i ==> !SharedAt(mode, next.partialIdsSeen, ids[1..], i', p);
      SoundShift(mode, seen, next.partialIdsSeen, ids, i, r.value);
    }
  }

  /// A first sharing id after the first id, when the first id shares
  /// nothing, is the first sharing id of the whole list.
  lemma SoundShift(mode: DeletionRange, seen: set<string>, next: set<string>, ids: seq<string>, i: int, p: string)
    requires 0 <= i < |ids| - 1
    requires forall q :: q in next <==> q in seen || IsPartial(mode, q, ids[0])
    requires forall q :: q in seen ==> !IsPartial(mode, q, ids[0])
    requires SharedAt(mode, next, ids[1..], i, p)
    requires forall i', q :: 0 <= i' < i ==> !SharedAt(mode, next, ids[1..], i', q)
    ensures SharedAt(mode, seen, ids, i + 1, p)
    ensures forall i', q :: 0 <= i' < i + 1 ==> !SharedAt(mode, seen, ids, i', q)
  {
    SharedShift(mode, seen, next, ids, i + 1, p);
    forall i', q | 0 <= i' < i + 1 ensures !SharedAt(mode, seen, ids, i', q) {
      if i' > 0 {
        SharedShift(mode, seen, next, ids, i', q);
      } else {
        SharedFirst(mode, seen, ids, q);
      }
    }
  }

  /// The scan fails only by running out of ids or, as written, on an empty
  /// id.
  lemma {:induction false} FindRepeatErrors(mode: DeletionRange, acc: PartialAcc, ids: seq<string>)
    ensures FindRepeat(mode, acc, ids).Failure? ==>
      FindRepeat(mode, acc, ids).error == InvalidOperation
      || (mode == AsWritten && FindRepeat(mode, acc, ids).error == ArgumentOutOfRange)
    decreases |ids|
  {
    if ids != [] {
      var step := Accumulate(mode, acc, ids[0]);
      if step.Success? && !step.value.isRepeat {
        FindRepeatErrors(mode, step.value, ids[1..]);
      }
    }
  }

  /// No id after the first shares a partial id, judged after the first.
  lemma NoneSharedAfterFirst(mode: DeletionRange, acc: PartialAcc, ids: seq<string>)
    requires ids != [] && Accumulate(mode, acc, ids[0]).Success?
    requires !Accumulate(mode, acc, ids[0]).value.isRepeat
    ensures (forall i, p :: 0 <= i < |ids| ==> !SharedAt(mode, acc.partialIdsSeen, ids, i, p))
        <==> (forall i, p :: 0 <= i < |ids[1..]| ==>
                !SharedAt(mode, Accumulate(mode, acc, ids[0]).value.partialIdsSeen, ids[1..], i, p))
  {
    var seen := acc.partialIdsSeen;
    var next := Accumulate(mode, acc, ids[0]).value;
    var rest := ids[1..];
    AccumulateRepeat(mode, acc, ids[0]);
    AccumulateSeen(mode, acc, ids[0]);
    forall i, p | 0 <= i < |rest|
      ensures !SharedAt(mode, next.partialIdsSeen, rest, i, p) <==> !SharedAt(mode, seen, ids, i + 1, p)
    {
      SharedShift(mode, seen, next.partialIdsSeen, ids, i + 1, p);
    }
    forall p ensures !SharedAt(mode, seen, ids, 0, p) {
      SharedFirst(mode, seen, ids, p);
    }
    if forall i, p :: 0 <= i < |rest| ==> !SharedAt(mode, next.partialIdsSeen, rest, i, p) {
      forall i, p | 0 <= i < |ids| ensures !SharedAt(mode, seen, ids, i, p) {
        if i > 0 {
          assert !SharedAt(mode, next.partialIdsSeen, rest, i - 1, p);
        }
      }
    }
  }

  /// The scan runs out of ids exactly when no id shares a partial id and
  /// (as written) no id is empty.
  lemma {:induction false} FindRepeatFails(mode: DeletionRange, acc: PartialAcc, ids: seq<string>)
    ensures FindRepeat(mode, acc, ids) == Failure(InvalidOperation) <==>
      (forall i, p :: 0 <= i < |ids| ==> !SharedAt(mode, acc.partialIdsSeen, ids, i, p))
      && (mode == AsWritten ==> forall i :: 0 <= i < |ids| ==> ids[i] != [])
    decreases |ids|
  {
    if ids != [] {
      var seen := acc.partialIdsSeen;
      var step := Accumulate(mode, acc, ids[0]);
      if step.Failure? {
        assert mode == AsWritten && ids[0] == [];
      } else {
        var next := step.value;
        AccumulateRepeat(mode, acc, ids[0]);
        if !next.isRepeat {
          FindRepeatFails(mode, next, ids[1..]);
          NoneSharedAfterFirst(mode, acc, ids);
          var rest := ids[1..];
          if mode == AsWritten {
            assert ids[0] != [];
            assert (forall i :: 0 <= i < |ids| ==> ids[i] != []) <==> (forall i :: 0 <= i < |rest| ==> rest[i] != []) by {
              if forall i :: 0 <= i < |rest| ==> rest[i] != [] {
                forall i | 1 <= i < |ids| ensures ids[i] != [] {
                  assert ids[i] == rest[i - 1];
                }
              }
            }
          }
        } else {
          SharedFirst(mode, seen, ids, next.id);
        }
      }
    }
  }

  /// `SolvePart2`: the result is a partial id that the first id sharing one
  /// with an earlier id has in common with it; `InvalidOperation` exactly
  /// when no two ids share a partial id and none is empty.
  lemma SolvePart2Means(ids: seq<string>)
    ensures SolvePart2(ids).Success? ==>
      exists i :: 0 <= i < |ids| && SharedAt(AsWritten, {}, ids, i, SolvePart2(ids).value)
                     && (forall i', p :: 0 <= i' < i ==> !SharedAt(AsWritten, {}, ids, i', p))
    ensures SolvePart2(ids).Failure? ==>
      SolvePart2(ids).error == InvalidOperation || SolvePart2(ids).error == ArgumentOutOfRange
    ensures SolvePart2(ids) == Failure(InvalidOperation) <==>
      (forall i, p :: 0 <= i < |ids| ==> !SharedAt(AsWritten, {}, ids, i, p))
      && (forall i :: 0 <= i < |ids| ==> ids[i] != [])
  {
    if SolvePart2(ids).Success? {
      FindRepeatSound(AsWritten, FirstPartialIds, ids);
    }
    FindRepeatErrors(AsWritten, FirstPartialIds, ids);
    FindRepeatFails(AsWritten, FirstPartialIds, ids);
  }

  /// Two ids of one length that differ only at position `k` have the same
  /// deletion at `k`.
  lemma OneCharacterApart(a: string, b: string, k: int)
    requires |a| == |b| && 0 <= k < |a|
    requires forall m :: 0 <= m < |a| && m != k ==> a[m] == b[m]
    ensures Deletion(a, k) == Deletion(b, k)
  {
    assert a[..k] == b[..k];
    assert a[k + 1..] == b[k + 1..];
  }

  /// With every position deletable, the search finds a pair of ids that
  /// differ in exactly one position, wherever that position is, and fails
  /// only when no two ids share a partial id.
  lemma SolvePart2CorrectedFinds(ids: seq<string>, j: int, i: int, k: int)
    requires 0 <= j < i < |ids| && |ids[i]| == |ids[j]| && 0 <= k < |ids[i]|
    requires forall m :: 0 <= m < |ids[i]| && m != k ==> ids[i][m] == ids[j][m]
    ensures SolvePart2Corrected(ids).Success?
  {
    OneCharacterApart(ids[i], ids[j], k);
    var p := Deletion(ids[i], k);
    assert IsPartial(AllPositions, p, ids[j]);
    assert SharedAt(AllPositions, {}, ids, i, p);
    FindRepeatErrors(AllPositions, FirstPartialIds, ids);
    FindRepeatFails(AllPositions, FirstPartialIds, ids);
  }

  /// As written, two ids that differ only in their last character are not
  /// found: "ab" and "ac" give `InvalidOperation`.
  lemma SolvePart2MissesLastCharacter()
    ensures SolvePart2(["ab", "ac"]) == Failure(InvalidOperation)
  {
    assert ["ab", "ac"] == [['a', 'b'], ['a', 'c']];
    LastCharacterMissed('a', 'b', 'c');
  }

  /// With every position deletable, the same two ids are found and their
  /// common part "a" is reported.
  lemma SolvePart2CorrectedFindsLastCharacter()
    ensures SolvePart2Corrected(["ab", "ac"]) == Success("a")
  {
    assert ["ab", "ac"] == [['a', 'b'], ['a', 'c']];
    LastCharacterFound('a', 'b', 'c');
  }

  /// An id none of whose partial ids has been seen adds them all and is
  /// not a repeat.
  lemma AccumulateFresh(mode: DeletionRange, acc: PartialAcc, id: string, ps: seq<string>)
    requires PartialIds(mode, id) == Success(ps)
    requires forall j :: 0 <= j < |ps| ==> ps[j] !in acc.partialIdsSeen
    ensures Accumulate(mode, acc, id) == Success(PartialAcc(acc.partialIdsSeen + Elements(ps), id, false))
  {
  }

  /// As written, two two-character ids that differ in their last character
  /// share no partial id.
  lemma LastCharacterMissed(x: char, y: char, z: char)
    requires x != y && x != z && y != z
    ensures FindRepeat(AsWritten, FirstPartialIds, [[x, y], [x, z]]) == Failure(InvalidOperation)
  {
    PartialIdsOfTwo(x, y);
    PartialIdsOfTwo(x, z);
    var ids := [[x, y], [x, z]];
    AccumulateFresh(AsWritten, FirstPartialIds, [x, y], [[y]]);
    var first := PartialAcc({} + Elements([[y]]), [x, y], false);
    assert [[z]][0] !in first.partialIdsSeen;
    AccumulateFresh(AsWritten, first, [x, z], [[z]]);
    var second := PartialAcc(first.partialIdsSeen + Elements([[z]]), [x, z], false);
    assert ids[1..] == [[x, z]] && ids[1..][1..] == [];
    assert FindRepeat(AsWritten, first, ids[1..]) == FindRepeat(AsWritten, second, []);
  }

  /// With every position deletable, the same two ids share their first
  /// character.
  lemma LastCharacterFound(x: char, y: char, z: char)
    requires x != y && x != z && y != z
    ensures FindRepeat(AllPositions, FirstPartialIds, [[x, y], [x, z]]) == Success([x])
  {
    PartialIdsOfTwo(x, y);
    PartialIdsOfTwo(x, z);
    var ids := [[x, y], [x, z]];
    assert Elements([[y], [x]]) == {[y], [x]};
    var first := PartialAcc({[y], [x]}, [x, y], false);
    assert FirstPartialIds.partialIdsSeen + Elements([[y], [x]]) == first.partialIdsSeen;
    assert LastSeenIn([[y], [x]], {}, [x, y]) == [x, y];
    assert !exists j :: 0 <= j < |[[y], [x]]| && [[y], [x]][j] in FirstPartialIds.partialIdsSeen;
    assert AddPartials(FirstPartialIds, [x, y], [[y], [x]]) == first;
    assert Accumulate(AllPositions, FirstPartialIds, ids[0]) == Success(first);
    assert [[z], [x]][1] in first.partialIdsSeen;
    assert LastSeenIn([[z], [x]], first.partialIdsSeen, [x, z]) == [x];
    var second := AddPartials(first, [x, z], [[z], [x]]);
    assert Accumulate(AllPositions, first, ids[1]) == Success(second) && second.isRepeat && second.id == [x];
    assert ids[1..] == [[x, z]];
    assert FindRepeat(AllPositions, FirstPartialIds, ids) == FindRepeat(AllPositions, first, ids[1..]);
  }

  lemma PartialIdsOfTwo(x: char, y: char)
    requires x != y
    ensures PartialIds(AsWritten, [x, y]) == Success([[y]])
    ensures PartialIds(AllPositions, [x, y]) == Success([[y], [x]])
  {
    var id := [x, y];
    assert Deletion(id, 0) == [y];
    assert Deletion(id, 1) == [x];
    assert seq(1, k requires 0 <= k < 1 => Deletion(id, k)) == [[y]];
    assert seq(2, k requires 0 <= k < 2 => Deletion(id, k)) == [[y], [x]];
    DistinctUnchanged([[y]]);
    DistinctUnchanged([[y], [x]]);
  }

  /// The partial ids of a five-character id whose first four characters
  /// differ.
  lemma PartialIdsOfFive(a: char, b: char, c: char, d: char, e: char)
    requires a != b && a != c && a != d && b != c && b != d && c != d && d != e
    ensures PartialIds(AsWritten, [a, b, c, d, e])
         == Success([[b, c, d, e], [a, c, d, e], [a, b, d, e], [a, b, c, e]])
  {
    var id := [a, b, c, d, e];
    assert Deletion(id, 0) == [b, c, d, e];
    assert Deletion(id, 1) == [a, c, d, e];
    assert Deletion(id, 2) == [a, b, d, e];
    assert Deletion(id, 3) == [a, b, c, e];
    var all := seq(4, k requires 0 <= k < 4 => Deletion(id, k));
    assert all == [[b, c, d, e], [a, c, d, e], [a, b, d, e], [a, b, c, e]];
    assert forall i, j :: 0 <= i < j < 4 ==> all[i][i] != all[j][i];
    DistinctUnchanged(all);
  }

  /// The scan passes over an id none of whose partial ids was seen.
  lemma NoRepeatStep(acc: PartialAcc, id: string, ps: seq<string>, rest: seq<string>)
    requires PartialIds(AsWritten, id) == Success(ps)
    requires forall j :: 0 <= j < |ps| ==> ps[j] !in acc.partialIdsSeen
    ensures FindRepeat(AsWritten, acc, [id] + rest)
         == FindRepeat(AsWritten, PartialAcc(acc.partialIdsSeen + Elements(ps), id, false), rest)
  {
    assert ([id] + rest)[1..] == rest;
  }

  /// The scan stops at an id whose last seen partial id is `p`.
  lemma RepeatStep(acc: PartialAcc, id: string, ps: seq<string>, rest: seq<string>, p: string)
    requires PartialIds(AsWritten, id) == Success(ps)
    requires p in ps && p in acc.partialIdsSeen && LastSeenIn(ps, acc.partialIdsSeen, id) == p
    ensures FindRepeat(AsWritten, acc, [id] + rest) == Success(p)
  {
  }

  /// The seen set after the first `n` example ids.
  function ExampleSeen(n: nat): set<string>
  {
    if n == 0 then {}
    else if n == 1 then ExampleSeen(0) + Elements(["bcde", "acde", "abde", "abce"])
    else if n == 2 then ExampleSeen(1) + Elements(["ghij", "fhij", "fgij", "fghj"])
    else if n == 3 then ExampleSeen(2) + Elements(["lmno", "kmno", "klno", "klmo"])
    else ExampleSeen(3) + Elements(["qrst", "prst", "pqst", "pqrt"])
  }

  lemma ExampleStep1(id: string, rest: seq<string>)
    requires id == "abcde"
    ensures FindRepeat(AsWritten, FirstPartialIds, [id] + rest)
         == FindRepeat(AsWritten, PartialAcc(ExampleSeen(1), id, false), rest)
  {
    PartialIdsOfFive('a', 'b', 'c', 'd', 'e');
    NoRepeatStep(FirstPartialIds, id, ["bcde", "acde", "abde", "abce"], rest);
  }

  lemma ExampleStep2(id: string, rest: seq<string>)
    requires id == "fghij"
    ensures FindRepeat(AsWritten, PartialAcc(ExampleSeen(1), "abcde", false), [id] + rest)
         == FindRepeat(AsWritten, PartialAcc(ExampleSeen(2), id, false), rest)
  {
    PartialIdsOfFive('f', 'g', 'h', 'i', 'j');
    NoRepeatStep(PartialAcc(ExampleSeen(1), "abcde", false), id, ["ghij", "fhij", "fgij", "fghj"], rest);
  }

  lemma ExampleStep3(id: string, rest: seq<string>)
    requires id == "klmno"
    ensures FindRepeat(AsWritten, PartialAcc(ExampleSeen(2), "fghij", false), [id] + rest)
         == FindRepeat(AsWritten, PartialAcc(ExampleSeen(3), id, false), rest)
  {
    PartialIdsOfFive('k', 'l', 'm', 'n', 'o');
    NoRepeatStep(PartialAcc(ExampleSeen(2), "fghij", false), id, ["lmno", "kmno", "klno", "klmo"], rest);
  }

  lemma ExampleStep4(id: string, rest: seq<string>)
    requires id == "pqrst"
    ensures FindRepeat(AsWritten, PartialAcc(ExampleSeen(3), "klmno", false), [id] + rest)
         == FindRepeat(AsWritten, PartialAcc(ExampleSeen(4), id, false), rest)
  {
    PartialIdsOfFive('p', 'q', 'r', 's', 't');
    NoRepeatStep(PartialAcc(ExampleSeen(3), "klmno", false), id, ["qrst", "prst", "pqst", "pqrt"], rest);
  }

  lemma ExampleStep5(id: string, rest: seq<string>)
    requires id == "fguij"
    ensures FindRepeat(AsWritten, PartialAcc(ExampleSeen(4), "pqrst", false), [id] + rest) == Success("fgij")
  {
    PartialIdsOfFive('f', 'g', 'u', 'i', 'j');
    assert "fgij" in ExampleSeen(2);
    assert "fgij" in ExampleSeen(4);
    assert "fguj" !in ExampleSeen(1) && "fguj" !in ExampleSeen(2);
    assert "fguj" !in ExampleSeen(3) && "fguj" !in ExampleSeen(4);
    var ps := ["guij", "fuij", "fgij", "fguj"];
    assert ps[..3] == ["guij", "fuij", "fgij"];
    assert LastSeenIn(ps, ExampleSeen(4), id) == LastSeenIn(ps[..3], ExampleSeen(4), id);
    RepeatStep(PartialAcc(ExampleSeen(4), "pqrst", false), id, ["guij", "fuij", "fgij", "fguj"], rest, "fgij");
  }

  /// The five steps of the example scan, from the seed.
  lemma ExampleScan(i0: string, i1: string, i2: string, i3: string, i4: string, rest: seq<string>)
    requires i0 == "abcde" && i1 == "fghij" && i2 == "klmno" && i3 == "pqrst" && i4 == "fguij"
    ensures FindRepeat(AsWritten, FirstPartialIds, [i0, i1, i2, i3, i4] + rest) == Success("fgij")
  {
    var r4 := [i4] + rest;
    var r3 := [i3] + r4;
    var r2 := [i2] + r3;
    var r1 := [i1] + r2;
    assert [i0, i1, i2, i3, i4] + rest == [i0] + r1;
    calc {
      FindRepeat(AsWritten, FirstPartialIds, [i0] + r1);
      { ExampleStep1(i0, r1); }
      FindRepeat(AsWritten, PartialAcc(ExampleSeen(1), i0, false), [i1] + r2);
      { ExampleStep2(i1, r2); }
      FindRepeat(AsWritten, PartialAcc(ExampleSeen(2), i1, false), [i2] + r3);
      { ExampleStep3(i2, r3); }
      FindRepeat(AsWritten, PartialAcc(ExampleSeen(3), i2, false), [i3] + r4);
      { ExampleStep4(i3, r4); }
      FindRepeat(AsWritten, PartialAcc(ExampleSeen(4), i3, false), [i4] + rest);
      { ExampleStep5(i4, rest); }
      Success("fgij");
    }
  }

  /// The example: "fghij" and "fguij" differ only in their third character,
  /// and their common part "fgij" is reported.
  lemma Part2Example(ids: seq<string>)
    requires ids == ["abcde", "fghij", "klmno", "pqrst", "fguij", "axcye", "wvxyz"]
    ensures SolvePart2(ids) == Success("fgij")
  {
    assert ids == [ids[0], ids[1], ids[2], ids[3], ids[4]] + ids[5..];
    ExampleScan(ids[0], ids[1], ids[2], ids[3], ids[4], ids[5..]);
  }
}
