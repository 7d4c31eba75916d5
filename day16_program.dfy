/// Sample matching, opcode-number resolution and program execution
/// (Day16/Program.cs).
module Day16Program {
  import opened Wrappers
  import opened CSharpInts
  import opened Day16Registers
  import opened Day16Instructions

  /// A recorded sample: registers before, the four instruction bytes, and
  /// registers after.
  datatype Sample = Sample(before: Registers, opcode: Byte, a: Byte, b: Byte, c: Byte, after: Registers)

  /// The `Sample` constructor: the instruction must have exactly four bytes.
  function NewSample(before: Registers, instruction: seq<Byte>, after: Registers): (r: Result<Sample>)
    ensures r.Success? <==> |instruction| == 4
    ensures r.Failure? ==> r.error == Argument
    ensures r.Success? ==> r.value.before == before && r.value.after == after
    ensures r.Success? ==> [r.value.opcode, r.value.a, r.value.b, r.value.c] == instruction
  {
    if |instruction| != 4 then Failure(Argument)
    else Success(Sample(before, instruction[0], instruction[1], instruction[2], instruction[3], after))
  }

  /// Operation `op` applied to the sample's arguments and `before` registers.
  function Run(op: Operation, s: Sample): Result<Registers>
  {
    Execute(op, s.a, s.b, s.c, s.before)
  }

  /// All three arguments name registers.
  predicate RegisterArgs(s: Sample)
  {
    s.a < 4 && s.b < 4 && s.c < 4
  }

  /// The operations that turn `before` into `after`. Evaluating the
  /// registry throws exactly when some argument is not a register number
  /// (`PossiblesFailIff`).
  function Possibles(s: Sample): Result<set<Operation>>
  {
    if !RegisterArgs(s) then Failure(ArgumentOutOfRange)
    else Success(Matching(AllOperations, s))
  }

  /// The operations among `ops` that turn `before` into `after`.
  function Matching(ops: seq<Operation>, s: Sample): set<Operation>
  {
    set op | op in ops && Run(op, s) == Success(s.after)
  }

  /// Trying one more operation.
  lemma MatchingNext(ops: seq<Operation>, i: int, s: Sample)
    requires 0 <= i < |ops|
    ensures Matching(ops[..i + 1], s) ==
      Matching(ops[..i], s) + if Run(ops[i], s) == Success(s.after) then {ops[i]} else {}
  {
    assert ops[..i + 1] == ops[..i] + [ops[i]];
  }

  /// `PossibleOpcodes`: tries every registered operation on the sample.
  method PossibleOpcodes(s: Sample) returns (r: Result<set<Operation>>)
    ensures r == Possibles(s)
  {
    var found: set<Operation> := {};
    var i := 0;
    while i < |AllOperations|
      invariant 0 <= i <= |AllOperations|
      invariant forall j :: 0 <= j < i ==> Run(AllOperations[j], s).Success?
      invariant found == Matching(AllOperations[..i], s)
    {
      var op := AllOperations[i];
      var result := Run(op, s);
      if result.Failure? {
        ExecuteFailsOnlyOnBadRegister(op, s.a, s.b, s.c, s.before);
        return Failure(result.error);
      }
      EqualityIsComponentWise(result.value, s.after);
      MatchingNext(AllOperations, i, s);
      if Equal(result.value, s.after) {
        found := found + {op};
      }
      i := i + 1;
    }
    assert Run(AllOperations[0], s).Success?;
    assert AllOperations[..i] == AllOperations;
    return Success(found);
  }

  /// Matching a sample throws exactly when one of the registered operations
  /// throws on it; otherwise it holds exactly the operations that reproduce
  /// `after`.
  lemma PossiblesFailIff(s: Sample)
    ensures Possibles(s).Failure? <==> exists op :: op in AllOperations && Run(op, s).Failure?
    ensures Possibles(s).Success? ==>
      forall op :: op in Possibles(s).value <==> Run(op, s) == Success(s.after)
  {
    RegistrySize();
    if !RegisterArgs(s) {
      assert AllOperations[0] == addr;
      assert Run(addr, s).Failure?;
    } else {
      forall op | op in AllOperations ensures Run(op, s).Success? {
        ExecuteFailsOnlyOnBadRegister(op, s.a, s.b, s.c, s.before);
      }
    }
  }

  /// The worked sample: before [3, 2, 1, 1], instruction `9 2 1 2`, after
  /// [3, 2, 2, 1].
  const Example := Sample(Registers(3, 2, 1, 1), 9, 2, 1, 2, Registers(3, 2, 2, 1))

  /// The result of each operation on the worked sample, a few at a time.
  lemma ExampleArithmetic()
    ensures Run(addr, Example) == Success(Registers(3, 2, 3, 1))
    ensures Run(addi, Example) == Success(Example.after)
    ensures Run(mulr, Example) == Success(Example.after)
    ensures Run(muli, Example) == Success(Example.before)
  {
    assert AddR(2, 1, 2, Registers(3, 2, 1, 1)) == Success(Registers(3, 2, 3, 1));
    assert AddI(2, 1, 2, Registers(3, 2, 1, 1)) == Success(Example.after);
    assert MulR(2, 1, 2, Registers(3, 2, 1, 1)) == Success(Example.after);
    assert MulI(2, 1, 2, Registers(3, 2, 1, 1)) == Success(Example.before);
  }

  lemma ExampleBitwise()
    ensures Run(banr, Example) == Success(Registers(3, 2, 0, 1))
    ensures Run(bani, Example) == Success(Example.before)
    ensures Run(borr, Example) == Success(Registers(3, 2, 3, 1))
    ensures Run(bori, Example) == Success(Example.before)
  {
    assert And32(1, 2) == 0 && Or32(1, 2) == 3 && And32(1, 1) == 1 && Or32(1, 1) == 1;
    assert BanR(2, 1, 2, Registers(3, 2, 1, 1)) == Success(Registers(3, 2, 0, 1));
    assert BanI(2, 1, 2, Registers(3, 2, 1, 1)) == Success(Example.before);
    assert BorR(2, 1, 2, Registers(3, 2, 1, 1)) == Success(Registers(3, 2, 3, 1));
    assert BorI(2, 1, 2, Registers(3, 2, 1, 1)) == Success(Example.before);
  }

  lemma ExampleAssignAndGreater()
    ensures Run(setr, Example) == Success(Example.before)
    ensures Run(seti, Example) == Success(Example.after)
    ensures Run(gtir, Example) == Success(Registers(3, 2, 0, 1))
    ensures Run(gtri, Example) == Success(Registers(3, 2, 0, 1))
    ensures Run(gtrr, Example) == Success(Registers(3, 2, 0, 1))
  {
    assert SetR(2, 1, 2, Registers(3, 2, 1, 1)) == Success(Example.before);
    assert SetI(2, 1, 2, Registers(3, 2, 1, 1)) == Success(Example.after);
    assert GtIR(2, 1, 2, Registers(3, 2, 1, 1)) == Success(Registers(3, 2, 0, 1));
    assert GtRI(2, 1, 2, Registers(3, 2, 1, 1)) == Success(Registers(3, 2, 0, 1));
    assert GtRR(2, 1, 2, Registers(3, 2, 1, 1)) == Success(Registers(3, 2, 0, 1));
  }

  lemma ExampleEquality()
    ensures Run(eqir, Example) == Success(Example.before)
    ensures Run(eqri, Example) == Success(Example.before)
    ensures Run(eqrr, Example) == Success(Registers(3, 2, 0, 1))
  {
    assert EqIR(2, 1, 2, Registers(3, 2, 1, 1)) == Success(Example.before);
    assert EqRI(2, 1, 2, Registers(3, 2, 1, 1)) == Success(Example.before);
    assert EqRR(2, 1, 2, Registers(3, 2, 1, 1)) == Success(Registers(3, 2, 0, 1));
  }

  lemma ExampleMatches()
    ensures Possibles(Example).Success?
    ensures mulr in Possibles(Example).value && addi in Possibles(Example).value
    ensures seti in Possibles(Example).value
  {
    PossiblesFailIff(Example);
    ExampleArithmetic();
    ExampleAssignAndGreater();
    RegistrySize();
  }

  lemma ExampleMismatchesLow()
    ensures Possibles(Example).Success?
    ensures addr !in Possibles(Example).value && muli !in Possibles(Example).value
    ensures banr !in Possibles(Example).value && bani !in Possibles(Example).value
    ensures borr !in Possibles(Example).value && bori !in Possibles(Example).value
  {
    PossiblesFailIff(Example);
    ExampleArithmetic();
    ExampleBitwise();
  }

  lemma ExampleMismatchesHigh()
    ensures Possibles(Example).Success?
    ensures setr !in Possibles(Example).value && gtir !in Possibles(Example).value
    ensures gtri !in Possibles(Example).value && gtrr !in Possibles(Example).value
    ensures eqir !in Possibles(Example).value && eqri !in Possibles(Example).value
    ensures eqrr !in Possibles(Example).value
  {
    PossiblesFailIff(Example);
    ExampleAssignAndGreater();
    ExampleEquality();
  }

  /// A set of operations is pinned down by the membership of each of the
  /// sixteen operations.
  lemma ExactlyMulrAddiSeti(p: set<Operation>)
    requires mulr in p && addi in p && seti in p
    requires addr !in p && muli !in p && banr !in p && bani !in p && borr !in p && bori !in p
    requires setr !in p && gtir !in p && gtri !in p && gtrr !in p && eqir !in p && eqri !in p && eqrr !in p
    ensures p == {mulr, addi, seti}
  {
    forall op ensures op in p <==> op in {mulr, addi, seti} {
      match op
      case addr => case addi => case mulr => case muli =>
      case banr => case bani => case borr => case bori =>
      case setr => case seti => case gtir => case gtri =>
      case gtrr => case eqir => case eqri => case eqrr =>
    }
  }

  /// The worked sample behaves like exactly mulr, addi and seti.
  lemma ExampleSample()
    ensures Possibles(Example) == Success({mulr, addi, seti})
  {
    ExampleMatches();
    ExampleMismatchesLow();
    ExampleMismatchesHigh();
    ExactlyMulrAddiSeti(Possibles(Example).value);
  }

  /// Whether a well-formed sample behaves like three or more operations.
  predicate Ambiguous(s: Sample)
    requires RegisterArgs(s)
  {
    |Possibles(s).value| >= 3
  }

  /// Number of the first `n` samples that behave like three or more
  /// operations (all of them known to match without an exception).
  function AmbiguousBelow(samples: seq<Sample>, n: nat): nat
    requires n <= |samples|
    requires forall i :: 0 <= i < n ==> RegisterArgs(samples[i])
  {
    if n == 0 then 0
    else AmbiguousBelow(samples, n - 1) + if Ambiguous(samples[n - 1]) then 1 else 0
  }

  /// One more sample that matches without an exception counts when it is
  /// ambiguous.
  lemma AmbiguousBelowNext(samples: seq<Sample>, n: nat)
    requires n < |samples|
    requires forall i :: 0 <= i < n ==> RegisterArgs(samples[i])
    requires Possibles(samples[n]).Success?
    ensures forall i :: 0 <= i < n + 1 ==> RegisterArgs(samples[i])
    ensures AmbiguousBelow(samples, n + 1)
         == AmbiguousBelow(samples, n) + if |Possibles(samples[n]).value| >= 3 then 1 else 0
  {
  }

  /// `SolvePart1`: counts the samples that behave like three or more
  /// operations; any sample whose matching throws makes it throw.
  method SolvePart1(samples: seq<Sample>) returns (r: Result<nat>)
    ensures r.Failure? <==> exists i :: 0 <= i < |samples| && !RegisterArgs(samples[i])
    ensures r.Success? ==> r.value == AmbiguousBelow(samples, |samples|)
  {
    var count := 0;
    var i := 0;
    while i < |samples|
      invariant 0 <= i <= |samples|
      invariant forall j :: 0 <= j < i ==> RegisterArgs(samples[j])
      invariant count == AmbiguousBelow(samples, i)
    {
      var possibles := PossibleOpcodes(samples[i]);
      if possibles.Failure? {
        assert !RegisterArgs(samples[i]);
        return Failure(possibles.error);
      }
      AmbiguousBelowNext(samples, i);
      if |possibles.value| >= 3 {
        count := count + 1;
      }
      i := i + 1;
    }
    return Success(count);
  }

  /// Every sample can be matched without an exception and names one of the
  /// sixteen opcode numbers.
  predicate WellFormedSamples(samples: seq<Sample>)
  {
    forall i :: 0 <= i < |samples| ==> RegisterArgs(samples[i]) && samples[i].opcode < 16
  }

  /// The operations consistent with every sample that carries opcode number
  /// `k` (all sixteen when no sample does).
  function Consistent(samples: seq<Sample>, k: int): set<Operation>
    requires WellFormedSamples(samples)
  {
    set op | op in AllOperations &&
      forall i :: 0 <= i < |samples| && samples[i].opcode == k ==> op in Possibles(samples[i]).value
  }

  /// Adding one sample to the prefix intersects its opcode number's
  /// candidates with the sample's matches and leaves the other numbers alone.
  lemma ConsistentStep(samples: seq<Sample>, n: nat, k: int)
    requires n < |samples| && WellFormedSamples(samples[..n + 1])
    ensures WellFormedSamples(samples[..n])
    ensures Consistent(samples[..n + 1], k)
         == if samples[n].opcode == k then Consistent(samples[..n], k) * Possibles(samples[n]).value
            else Consistent(samples[..n], k)
  {
    var p, q := samples[..n], samples[..n + 1];
    assert forall i :: 0 <= i < n ==> q[i] == p[i];
    assert q[n] == samples[n];
    assert WellFormedSamples(p) by {
      forall i | 0 <= i < |p| ensures RegisterArgs(p[i]) && p[i].opcode < 16 {
        assert p[i] == q[i];
      }
    }
  }

  /// An operation consistent with opcode number `k` reproduces every sample
  /// that carries `k`.
  lemma {:induction false} ConsistentReproduces(samples: seq<Sample>, k: int, op: Operation, i: int)
    requires WellFormedSamples(samples)
    requires op in Consistent(samples, k)
    requires 0 <= i < |samples| && samples[i].opcode == k
    ensures Run(op, samples[i]) == Success(samples[i].after)
  {
    assert op in Possibles(samples[i]).value;
  }

  lemma SingletonElement(s: set<Operation>, x: Operation)
    requires |s| == 1 && x in s
    ensures s == {x}
  {
    assert |s - {x}| == 0;
  }

  /// `Single()` of a one-element set.
  function TheOnly(s: set<Operation>): (r: Operation)
    requires |s| == 1
    ensures s == {r}
  {
    var x :| x in s;
    SingletonElement(s, x);
    x
  }

  function TotalSize(cands: seq<set<Operation>>): nat
  {
    if cands == [] then 0 else |cands[0]| + TotalSize(cands[1..])
  }

  lemma {:induction false} SubsetSize(a: set<Operation>, b: set<Operation>)
    requires b <= a
    ensures |b| <= |a|
    ensures b != a ==> |b| < |a|
    decreases |a|
  {
    if b != a {
      var x :| x in a && x !in b;
      if a - {x} != b {
        SubsetSize(a - {x}, b);
      }
    }
  }

  lemma {:induction false} TotalSizeShrinks(a: seq<set<Operation>>, b: seq<set<Operation>>)
    requires |a| == |b|
    requires forall k :: 0 <= k < |a| ==> b[k] <= a[k]
    ensures TotalSize(b) <= TotalSize(a)
    ensures a != b ==> TotalSize(b) < TotalSize(a)
  {
    if a != [] {
      TotalSizeShrinks(a[1..], b[1..]);
      SubsetSize(a[0], b[0]);
      if a[0] == b[0] && a != b {
        assert a[1..] != b[1..] by {
          assert a == [a[0]] + a[1..] && b == [b[0]] + b[1..];
        }
      }
    }
  }

  /// Each singleton's operation appears in no other opcode number's set.
  ghost predicate ExclusiveSingletons(cands: seq<set<Operation>>)
  {
    forall o, k :: 0 <= o < |cands| && 0 <= k < |cands| && k != o && |cands[o]| == 1 ==>
      TheOnly(cands[o]) !in cands[k]
  }

  /// Every opcode number has exactly one candidate.
  predicate AllResolved(cands: seq<set<Operation>>)
  {
    forall k :: 0 <= k < |cands| ==> |cands[k]| == 1
  }

  /// The operations that were the only candidate of some number below `n`
  /// other than `k`: what a pass has struck from `k` once it has handled
  /// the numbers below `n`.
  ghost function StruckBelow(cands: seq<set<Operation>>, k: int, n: int): set<Operation>
  {
    set o | 0 <= o < n && o < |cands| && o != k && |cands[o]| == 1 :: TheOnly(cands[o])
  }

  lemma StruckBelowStep(cands: seq<set<Operation>>, k: int, n: nat)
    requires n < |cands|
    ensures StruckBelow(cands, k, n + 1)
         == StruckBelow(cands, k, n) + if n != k && |cands[n]| == 1 then {TheOnly(cands[n])} else {}
  {
  }

  /// One elimination pass, stated outright: every number loses each
  /// operation that was the only candidate of another number when the pass
  /// began.
  ghost function PassSpec(cands: seq<set<Operation>>): (r: seq<set<Operation>>)
    ensures |r| == |cands|
    ensures forall k :: 0 <= k < |cands| ==> r[k] <= cands[k]
  {
    seq(|cands|, k requires 0 <= k < |cands| => cands[k] - StruckBelow(cands, k, |cands|))
  }

  lemma StruckMember(cands: seq<set<Operation>>, k: int, o: int)
    requires 0 <= o < |cands| && o != k && |cands[o]| == 1
    ensures TheOnly(cands[o]) in StruckBelow(cands, k, |cands|)
  {
  }

  lemma StruckSource(cands: seq<set<Operation>>, k: int, x: Operation)
    requires x in StruckBelow(cands, k, |cands|)
    ensures exists o :: 0 <= o < |cands| && o != k && |cands[o]| == 1 && x == TheOnly(cands[o])
  {
  }

  /// A pass changes nothing exactly when every singleton's operation is
  /// already absent from all other numbers.
  lemma PassSpecFixed(cands: seq<set<Operation>>)
    ensures PassSpec(cands) == cands <==> ExclusiveSingletons(cands)
  {
    if PassSpec(cands) == cands {
      PassSpecFixedExclusive(cands);
    }
    if ExclusiveSingletons(cands) {
      ExclusivePassSpecFixed(cands);
    }
  }

  lemma PassSpecFixedExclusive(cands: seq<set<Operation>>)
    requires PassSpec(cands) == cands
    ensures ExclusiveSingletons(cands)
  {
    forall o, k | 0 <= o < |cands| && 0 <= k < |cands| && k != o && |cands[o]| == 1
      ensures TheOnly(cands[o]) !in cands[k]
    {
      var x := TheOnly(cands[o]);
      StruckMember(cands, k, o);
      assert x !in PassSpec(cands)[k];
    }
  }

  lemma ExclusivePassSpecFixed(cands: seq<set<Operation>>)
    requires ExclusiveSingletons(cands)
    ensures PassSpec(cands) == cands
  {
    var next := PassSpec(cands);
    forall k | 0 <= k < |cands| ensures next[k] == cands[k] {
      forall x | x in StruckBelow(cands, k, |cands|) ensures x !in cands[k] {
        StruckSource(cands, k, x);
      }
    }
  }

  /// Shrinking a set that is already within `cands` moves further from
  /// `cands`.
  lemma StrikeShrinks(cands: seq<set<Operation>>, result: seq<set<Operation>>, next: seq<set<Operation>>)
    requires |cands| == |result| == |next|
    requires forall k :: 0 <= k < |cands| ==> next[k] <= result[k] <= cands[k]
    requires next != result
    ensures next != cands
  {
    var k :| 0 <= k < |cands| && next[k] != result[k];
    var x :| x in result[k] && x !in next[k];
    assert x in cands[k];
  }

  /// `name` struck from every number but `opcode`.
  function Strike(cands: seq<set<Operation>>, opcode: int, name: Operation): (r: seq<set<Operation>>)
    ensures |r| == |cands|
    ensures forall k :: 0 <= k < |cands| ==> r[k] <= cands[k] && (k == opcode ==> r[k] == cands[k])
    ensures forall k :: 0 <= k < |cands| && k != opcode ==> name !in r[k]
  {
    seq(|cands|, k requires 0 <= k < |cands| => if k != opcode then cands[k] - {name} else cands[k])
  }

  /// The first `n` numbers of a pass handled in order: each that was a
  /// singleton when the pass began strikes its operation from the others.
  ghost function PassPrefix(cands: seq<set<Operation>>, n: nat): (r: seq<set<Operation>>)
    requires n <= |cands|
    ensures |r| == |cands|
    ensures forall k :: 0 <= k < |cands| ==> r[k] <= cands[k]
  {
    if n == 0 then cands
    else if |cands[n - 1]| == 1 then Strike(PassPrefix(cands, n - 1), n - 1, TheOnly(cands[n - 1]))
    else PassPrefix(cands, n - 1)
  }

  /// Handling the numbers one after another strikes exactly the operations
  /// resolved at the numbers handled so far.
  lemma {:induction false} PassPrefixStrikes(cands: seq<set<Operation>>, n: nat)
    requires n <= |cands|
    ensures forall k :: 0 <= k < |cands| ==> PassPrefix(cands, n)[k] == cands[k] - StruckBelow(cands, k, n)
  {
    if n > 0 {
      PassPrefixStrikes(cands, n - 1);
      forall k | 0 <= k < |cands| ensures PassPrefix(cands, n)[k] == cands[k] - StruckBelow(cands, k, n) {
        PassPrefixStep(cands, n - 1, k);
      }
    }
  }

  /// Handling number `n` strikes its operation, if it was resolved, from
  /// every other number `k`.
  lemma PassPrefixStep(cands: seq<set<Operation>>, n: nat, k: int)
    requires n < |cands| && 0 <= k < |cands|
    requires PassPrefix(cands, n)[k] == cands[k] - StruckBelow(cands, k, n)
    ensures PassPrefix(cands, n + 1)[k] == cands[k] - StruckBelow(cands, k, n + 1)
  {
    StruckBelowStep(cands, k, n);
    if |cands[n]| == 1 && n != k {
      assert PassPrefix(cands, n + 1)[k] == PassPrefix(cands, n)[k] - {TheOnly(cands[n])};
    } else {
      assert PassPrefix(cands, n + 1)[k] == PassPrefix(cands, n)[k];
    }
  }

  /// The order in which a pass handles the numbers does not matter: the
  /// whole pass is `PassSpec`.
  lemma PassInOrder(cands: seq<set<Operation>>)
    ensures PassPrefix(cands, |cands|) == PassSpec(cands)
  {
    PassPrefixStrikes(cands, |cands|);
  }

  /// The passes of the do-while repeated until one changes nothing; the
  /// result keeps every singleton's operation to its own number.
  ghost function Settle(cands: seq<set<Operation>>): (r: seq<set<Operation>>)
    ensures |r| == |cands|
    ensures forall k :: 0 <= k < |cands| ==> r[k] <= cands[k]
    ensures ExclusiveSingletons(r)
    ensures ExclusiveSingletons(cands) ==> r == cands
    decreases TotalSize(cands)
  {
    var next := PassSpec(cands);
    TotalSizeShrinks(cands, next);
    PassSpecFixed(cands);
    if next == cands then cands else Settle(next)
  }

  /// The candidate sets after the samples, one per opcode number.
  ghost function Narrowed(samples: seq<Sample>): seq<set<Operation>>
    requires WellFormedSamples(samples)
  {
    seq(16, k => Consistent(samples, k))
  }

  /// The first loop of `BuildOpcodeMap`: start each of the sixteen numbers
  /// with every operation and intersect with each sample's matches.
  method NarrowCandidates(samples: seq<Sample>) returns (r: Result<seq<set<Operation>>>)
    ensures r.Success? <==> WellFormedSamples(samples)
    ensures r.Success? ==> |r.value| == 16
    ensures r.Success? ==> forall k :: 0 <= k < 16 ==> r.value[k] == Consistent(samples, k)
  {
    var all := set op | op in AllOperations;
    var cands: seq<set<Operation>> := seq(16, _ => all);
    var i := 0;
    assert samples[..0] == [];
    while i < |samples|
      invariant 0 <= i <= |samples|
      invariant WellFormedSamples(samples[..i])
      invariant |cands| == 16
      invariant forall k :: 0 <= k < 16 ==> cands[k] == Consistent(samples[..i], k)
    {
      var possibles := PossibleOpcodes(samples[i]);
      if possibles.Failure? {
        return Failure(possibles.error);
      }
      var opcode := samples[i].opcode;
      if opcode >= 16 {
        return Failure(KeyNotFound);
      }
      assert WellFormedSamples(samples[..i + 1]) by {
        assert forall j :: 0 <= j < i ==> samples[..i + 1][j] == samples[..i][j];
        assert samples[..i + 1][i] == samples[i];
      }
      forall k | 0 <= k < 16 {
        ConsistentStep(samples, i, k);
      }
      cands := cands[opcode := cands[opcode] * possibles.value];
      i := i + 1;
    }
    assert samples[..i] == samples;
    return Success(cands);
  }

  /// Strikes `name` from the candidates of every number other than `opcode`
  /// (the innermost loop of `BuildOpcodeMap`).
  method StrikeFromOthers(cands: seq<set<Operation>>, opcode: int, name: Operation)
    returns (result: seq<set<Operation>>, changed: bool)
    requires |cands| == 16
    ensures result == Strike(cands, opcode, name)
    ensures changed <==> result != cands
    ensures (forall k :: 0 <= k < 16 && k != opcode ==> name !in cands[k]) ==> !changed
  {
    result := cands;
    changed := false;
    var k := 0;
    while k < 16
      invariant 0 <= k <= 16
      invariant |result| == 16
      invariant forall k' :: 0 <= k' < k ==> result[k'] == if k' != opcode then cands[k'] - {name} else cands[k']
      invariant forall k' :: k <= k' < 16 ==> result[k'] == cands[k']
      invariant changed <==> result != cands
      invariant (forall k' :: 0 <= k' < 16 && k' != opcode ==> name !in cands[k']) ==> !changed
    {
      if k != opcode && name in result[k] {
        result := result[k := result[k] - {name}];
        assert result[k] != cands[k];
        changed := true;
      }
      k := k + 1;
    }
    assert result == Strike(cands, opcode, name);
  }

  /// One pass of the elimination loop of `BuildOpcodeMap`: every number that
  /// was resolved at the start of the pass has its operation struck from
  /// all other numbers, one number after another.
  method EliminationPass(cands: seq<set<Operation>>) returns (result: seq<set<Operation>>, changed: bool)
    requires |cands| == 16
    ensures result == PassSpec(cands)
    ensures changed <==> result != cands
    ensures changed <==> !ExclusiveSingletons(cands)
  {
    result := cands;
    changed := false;
    var opcode := 0;
    while opcode < 16
      invariant 0 <= opcode <= 16
      invariant |result| == 16
      invariant result == PassPrefix(cands, opcode)
      invariant changed <==> result != cands
    {
      if |cands[opcode]| == 1 {
        var name := TheOnly(cands[opcode]);
        var next, struck := StrikeFromOthers(result, opcode, name);
        if struck {
          StrikeShrinks(cands, result, next);
        }
        changed := changed || struck;
        result := next;
      }
      opcode := opcode + 1;
    }
    PassInOrder(cands);
    assert changed <==> !ExclusiveSingletons(cands) by {
      PassSpecFixed(cands);
    }
  }

  /// The do-while of `BuildOpcodeMap`: passes until one changes nothing.
  method Eliminate(cands: seq<set<Operation>>) returns (result: seq<set<Operation>>)
    requires |cands| == 16
    ensures result == Settle(cands)
  {
    result := cands;
    var changed := true;
    while changed
      invariant |result| == 16
      invariant changed ==> Settle(result) == Settle(cands)
      invariant !changed ==> result == Settle(cands)
      decreases TotalSize(result) + if changed then 1 else 0
    {
      var next;
      next, changed := EliminationPass(result);
      TotalSizeShrinks(result, next);
      result := next;
    }
  }

  /// Settled candidates with one operation per number name sixteen
  /// different operations.
  lemma SettledMap(cands: seq<set<Operation>>, result: seq<Operation>)
    requires |cands| == |result| == 16
    requires AllResolved(cands) && ExclusiveSingletons(cands)
    requires forall j :: 0 <= j < 16 ==> result[j] == TheOnly(cands[j])
    ensures forall k :: 0 <= k < 16 ==> cands[k] == {result[k]}
    ensures forall j, k :: 0 <= j < k < 16 ==> result[j] != result[k]
  {
    forall j, k | 0 <= j < k < 16 ensures result[j] != result[k] {
      assert result[j] !in cands[k];
    }
  }

  /// `BuildOpcodeMap`: narrow every opcode number's candidates by the
  /// samples, eliminate resolved operations from the other numbers until
  /// nothing changes, and require every number to end with exactly one
  /// candidate.
  method BuildOpcodeMap(samples: seq<Sample>) returns (r: Result<seq<Operation>>)
    ensures !WellFormedSamples(samples) ==> r.Failure?
    ensures r.Success? ==> WellFormedSamples(samples) && |r.value| == 16
    ensures r.Success? ==> forall k :: 0 <= k < 16 ==> r.value[k] in Consistent(samples, k)
    ensures r.Success? ==> forall i :: 0 <= i < |samples| ==>
      Run(r.value[samples[i].opcode], samples[i]) == Success(samples[i].after)
    ensures r.Success? ==> forall j, k :: 0 <= j < k < 16 ==> r.value[j] != r.value[k]
    ensures WellFormedSamples(samples) ==> (r.Success? <==> AllResolved(Settle(Narrowed(samples))))
    ensures r.Success? ==> WellFormedSamples(samples) && forall k :: 0 <= k < 16 ==> Settle(Narrowed(samples))[k] == {r.value[k]}
    ensures WellFormedSamples(samples) && AllResolved(Narrowed(samples)) && ExclusiveSingletons(Narrowed(samples))
            ==> r.Success? && forall k :: 0 <= k < 16 ==> Consistent(samples, k) == {r.value[k]}
  {
    var narrowed := NarrowCandidates(samples);
    if narrowed.Failure? {
      return Failure(narrowed.error);
    }
    assert narrowed.value == Narrowed(samples);
    var cands := Eliminate(narrowed.value);
    var k := 0;
    while k < 16
      invariant 0 <= k <= 16
      invariant forall j :: 0 <= j < k ==> |cands[j]| == 1
    {
      if |cands[k]| != 1 {
        return Failure(InvalidOperation);
      }
      k := k + 1;
    }
    var result := seq(16, j requires 0 <= j < 16 => TheOnly(cands[j]));
    SettledMap(cands, result);
    forall i | 0 <= i < |samples|
      ensures Run(result[samples[i].opcode], samples[i]) == Success(samples[i].after)
    {
      ConsistentReproduces(samples, samples[i].opcode, result[samples[i].opcode], i);
    }
    return Success(result);
  }

  /// Executes the decoded program from `regs`: every instruction names its
  /// operation by opcode number and needs four bytes.
  function RunProgram(opcodeMap: seq<Operation>, instructions: seq<seq<Byte>>, regs: Registers): Result<Registers>
    requires |opcodeMap| == 16
    decreases |instructions|
  {
    if instructions == [] then Success(regs)
    else
      var ins := instructions[0];
      if |ins| == 0 then Failure(IndexOutOfRange)
      else if ins[0] >= 16 then Failure(KeyNotFound)
      else if |ins| < 4 then Failure(IndexOutOfRange)
      else
        var next :- Execute(opcodeMap[ins[0]], ins[1], ins[2], ins[3], regs);
        RunProgram(opcodeMap, instructions[1..], next)
  }

  /// Running two programs one after the other is running their
  /// concatenation.
  lemma {:induction false} RunProgramAppend(opcodeMap: seq<Operation>, p: seq<seq<Byte>>, q: seq<seq<Byte>>, regs: Registers)
    requires |opcodeMap| == 16
    ensures RunProgram(opcodeMap, p + q, regs)
         == match RunProgram(opcodeMap, p, regs)
            case Failure(e) => Failure(e)
            case Success(mid) => RunProgram(opcodeMap, q, mid)
  {
    if p != [] {
      assert (p + q)[0] == p[0] && (p + q)[1..] == p[1..] + q;
      var ins := p[0];
      if |ins| >= 4 && ins[0] < 16 {
        var next := Execute(opcodeMap[ins[0]], ins[1], ins[2], ins[3], regs);
        if next.Success? {
          RunProgramAppend(opcodeMap, p[1..], q, next.value);
        }
      }
    } else {
      assert p + q == q;
    }
  }

  /// `SolvePart2`: resolve the opcode numbers, run the program from all-zero
  /// registers, and report register 0.
  method SolvePart2(samples: seq<Sample>, instructions: seq<seq<Byte>>) returns (r: Result<Int32>, ghost opcodeMap: seq<Operation>)
    ensures r.Success? ==> WellFormedSamples(samples) && |opcodeMap| == 16
    ensures r.Success? ==> forall i :: 0 <= i < |samples| ==>
      Run(opcodeMap[samples[i].opcode], samples[i]) == Success(samples[i].after)
    ensures r.Success? ==> RunProgram(opcodeMap, instructions, Zero).Success?
    ensures r.Success? ==> r.value == RunProgram(opcodeMap, instructions, Zero).value.r0
    ensures !WellFormedSamples(samples) ==> r.Failure?
    ensures WellFormedSamples(samples) && !AllResolved(Settle(Narrowed(samples))) ==> r.Failure?
    ensures r.Success? ==> WellFormedSamples(samples) && forall k :: 0 <= k < 16 ==> Settle(Narrowed(samples))[k] == {opcodeMap[k]}
    ensures WellFormedSamples(samples) && AllResolved(Settle(Narrowed(samples))) ==>
      |opcodeMap| == 16 && (forall k :: 0 <= k < 16 ==> Settle(Narrowed(samples))[k] == {opcodeMap[k]}) &&
      (r.Success? <==> RunProgram(opcodeMap, instructions, Zero).Success?) &&
      (r.Failure? ==> r.error == RunProgram(opcodeMap, instructions, Zero).error)
  {
    var built := BuildOpcodeMap(samples);
    if built.Failure? {
      return Failure(built.error), [];
    }
    var map16 := built.value;
    opcodeMap := map16;
    var regs := Zero;
    var i := 0;
    while i < |instructions|
      invariant 0 <= i <= |instructions|
      invariant RunProgram(map16, instructions, Zero) == RunProgram(map16, instructions[i..], regs)
    {
      var ins := instructions[i];
      assert instructions[i..][0] == ins && instructions[i..][1..] == instructions[i + 1..];
      if |ins| == 0 {
        return Failure(IndexOutOfRange), opcodeMap;
      }
      if ins[0] >= 16 {
        return Failure(KeyNotFound), opcodeMap;
      }
      if |ins| < 4 {
        return Failure(IndexOutOfRange), opcodeMap;
      }
      var next := Execute(map16[ins[0]], ins[1], ins[2], ins[3], regs);
      if next.Failure? {
        return Failure(next.error), opcodeMap;
      }
      regs := next.value;
      i := i + 1;
    }
    return Success(regs.r0), opcodeMap;
  }
}
