/// Day12/Program.cs: a one-dimensional cellular automaton over an infinite
/// row of pots. A state is kept as a finite text of pots ('#' holds a plant,
/// '.' is empty) together with the number of the pot its first character
/// stands for; every pot outside the text is empty.
module Day12Program {

  /// Day12/Pots.cs: the pot text and the number of its first pot (a
  /// `BigInteger` in the source, an unbounded `int` here).
  datatype Pots = Pots(potText: string, leftIndex: int)

  /// Each rule looks at a pot and the two pots on either side of it.
  const RuleLength := 5

  /// The empty pots added on each side so that rules reaching into the
  /// infinite empty extent can match.
  const PadSize := RuleLength - 1

  /// The offset of a window's centre pot from the window's first pot.
  const InitialOffset := (RuleLength - 1) / 2

  /// `n` empty pots.
  function Dots(n: nat): (r: string)
    ensures |r| == n && forall i :: 0 <= i < n ==> r[i] == '.'
  {
    seq(n, _ => '.')
  }

  /// The pot text with `PadSize` empty pots added on each side.
  function Pad(potState: string): (r: string)
    ensures |r| == |potState| + 2 * PadSize
    ensures forall i :: 0 <= i < |r| ==>
      r[i] == if PadSize <= i < PadSize + |potState| then potState[i - PadSize] else '.'
  {
    Dots(PadSize) + potState + Dots(PadSize)
  }

  /// `Buffer(count, 1)` of the Interactive Extensions: a buffer starting at
  /// every element, `count` long where that many elements remain and
  /// shorter at the end.
  function Buffer(xs: string, count: nat): (r: seq<string>)
    ensures |r| == |xs|
    decreases |xs|
  {
    if xs == [] then []
    else [xs[..if count < |xs| then count else |xs|]] + Buffer(xs[1..], count)
  }

  /// The query of `Step`: keep the buffers of full rule length and map each
  /// to '#' when it is a rule producing a pot, '.' otherwise.
  function SelectPots(buffers: seq<string>, rulesProducingPots: set<string>): string
    decreases |buffers|
  {
    if buffers == [] then []
    else
      var rest := SelectPots(buffers[1..], rulesProducingPots);
      if |buffers[0]| == RuleLength then [if buffers[0] in rulesProducingPots then '#' else '.'] + rest
      else rest
  }

  /// `Step`: the next generation of the padded pot text; its `i`th pot
  /// holds a plant exactly when the five pots of the padded text starting
  /// at `i` are a rule producing a pot.
  function Step(potState: string, rulesProducingPots: set<string>): (r: string)
    ensures |r| == |potState| + PadSize
    ensures forall i :: 0 <= i < |r| ==> IsPot(r[i])
    ensures forall i :: 0 <= i < |r| ==>
      (r[i] == '#' <==> Pad(potState)[i..i + RuleLength] in rulesProducingPots)
  {
    SelectWindows(Pad(potState), rulesProducingPots);
    SelectPots(Buffer(Pad(potState), RuleLength), rulesProducingPots)
  }

  /// The buffers of full length are exactly the windows starting at the
  /// first `|xs| - RuleLength + 1` positions, so the query maps each of them
  /// in order.
  lemma {:induction false} SelectWindows(xs: string, rulesProducingPots: set<string>)
    requires |xs| >= RuleLength - 1
    ensures var r := SelectPots(Buffer(xs, RuleLength), rulesProducingPots);
      |r| == |xs| - RuleLength + 1 &&
      forall i :: 0 <= i < |r| ==>
        r[i] == if xs[i..i + RuleLength] in rulesProducingPots then '#' else '.'
  {
    if |xs| == RuleLength - 1 {
      ShortBuffers(xs, rulesProducingPots);
    } else {
      SelectWindows(xs[1..], rulesProducingPots);
      var r := SelectPots(Buffer(xs, RuleLength), rulesProducingPots);
      var rest := SelectPots(Buffer(xs[1..], RuleLength), rulesProducingPots);
      assert Buffer(xs, RuleLength)[1..] == Buffer(xs[1..], RuleLength);
      assert r == [if xs[..RuleLength] in rulesProducingPots then '#' else '.'] + rest;
      forall i | 1 <= i < |r|
        ensures r[i] == if xs[i..i + RuleLength] in rulesProducingPots then '#' else '.'
      {
        assert xs[1..][i - 1..i - 1 + RuleLength] == xs[i..i + RuleLength];
      }
    }
  }

  /// Buffers over fewer than `RuleLength` elements are all short, so the
  /// query yields nothing.
  lemma {:induction false} ShortBuffers(xs: string, rulesProducingPots: set<string>)
    requires |xs| < RuleLength
    ensures SelectPots(Buffer(xs, RuleLength), rulesProducingPots) == []
  {
    if xs != [] {
      ShortBuffers(xs[1..], rulesProducingPots);
    }
  }

  /// The number of leading empty pots (`TakeWhile(c => c == '.').Count()`).
  function LeadingDots(s: string): (k: nat)
    ensures k <= |s|
    ensures forall i :: 0 <= i < k ==> s[i] == '.'
    ensures k < |s| ==> s[k] != '.'
  {
    DotsFrom(s, 0)
  }

  /// The end of the run of empty pots starting at `i`.
  function DotsFrom(s: string, i: nat): (k: nat)
    requires i <= |s|
    ensures i <= k <= |s|
    ensures forall j :: i <= j < k ==> s[j] == '.'
    ensures k < |s| ==> s[k] != '.'
    decreases |s| - i
  {
    if i == |s| || s[i] != '.' then i else DotsFrom(s, i + 1)
  }

  /// The length of `s[..n]` without its trailing empty pots.
  function KeptLength(s: string, n: nat): (k: nat)
    requires n <= |s|
    ensures k <= n
    ensures forall j :: k <= j < n ==> s[j] == '.'
    ensures k == 0 || s[k - 1] != '.'
  {
    if n == 0 || s[n - 1] != '.' then n else KeptLength(s, n - 1)
  }

  /// `TrimEnd('.')`: the text without its trailing empty pots.
  function TrimEnd(s: string): (r: string)
    ensures |r| <= |s| && forall i :: 0 <= i < |r| ==> r[i] == s[i]
    ensures r == [] || r[|r| - 1] != '.'
    ensures forall i :: |r| <= i < |s| ==> s[i] == '.'
  {
    s[..KeptLength(s, |s|)]
  }

  /// One generation of `Run`: step, strip the empty pots on both sides and
  /// move the left index by the stripped pots less the two pots the padding
  /// added beyond the old text.
  function Next(pots: Pots, rulesProducingPots: set<string>): Pots
  {
    var next := Step(pots.potText, rulesProducingPots);
    var emptyOnLeft := LeadingDots(next);
    var nextText := TrimEnd(next[emptyOnLeft..]);
    Pots(nextText, pots.leftIndex + emptyOnLeft - InitialOffset)
  }

  /// The rules of `Run`, as the set built from the rule array.
  function RuleSet(rulesProducingPots: seq<string>): (r: set<string>)
    ensures forall rule :: rule in r <==> rule in rulesProducingPots
  {
    set rule | rule in rulesProducingPots
  }

  /// The `n`th element of the infinite sequence `Run` generates, starting
  /// from the initial state at pot 0.
  function Generation(initialState: string, rulesProducingPots: seq<string>, n: nat): Pots
  {
    if n == 0 then Pots(initialState, 0)
    else Next(Generation(initialState, rulesProducingPots, n - 1), RuleSet(rulesProducingPots))
  }

  /// A pot character: '#' for a plant, '.' for an empty pot.
  predicate IsPot(c: char)
  {
    c == '#' || c == '.'
  }

  /// A pot text made of '#' and '.' only, as the parser produces.
  predicate WellFormed(potText: string)
  {
    forall i :: 0 <= i < |potText| ==> IsPot(potText[i])
  }

  /// Whether pot `k` of the infinite row holds a plant.
  predicate Alive(pots: Pots, k: int)
  {
    pots.leftIndex <= k < pots.leftIndex + |pots.potText| && pots.potText[k - pots.leftIndex] == '#'
  }

  /// The five pots of the infinite row centred on pot `k`, as a rule
  /// pattern.
  function Neighbourhood(pots: Pots, k: int): (r: string)
    ensures |r| == RuleLength
  {
    seq(RuleLength, j => if Alive(pots, k - InitialOffset + j) then '#' else '.')
  }

  /// Window `i` of the padded text is the neighbourhood of the pot it is
  /// centred on.
  lemma WindowIsNeighbourhood(pots: Pots, i: int)
    requires WellFormed(pots.potText) && 0 <= i <= |pots.potText| + PadSize - 1
    ensures Pad(pots.potText)[i..i + RuleLength] == Neighbourhood(pots, pots.leftIndex + i - InitialOffset)
  {
    var w := Pad(pots.potText)[i..i + RuleLength];
    var n := Neighbourhood(pots, pots.leftIndex + i - InitialOffset);
    forall j | 0 <= j < RuleLength
      ensures w[j] == n[j]
    {
      var k := i + j - PadSize;
      assert w[j] == Pad(pots.potText)[i + j];
      if 0 <= k < |pots.potText| {
        assert IsPot(pots.potText[k]);
        assert Alive(pots, pots.leftIndex + k) <==> pots.potText[k] == '#';
      } else {
        assert !Alive(pots, pots.leftIndex + k);
      }
    }
  }

  /// `Next` keeps pot texts well formed and strips every empty pot from
  /// both ends.
  lemma NextTrimmed(pots: Pots, rulesProducingPots: set<string>)
    ensures var next := Next(pots, rulesProducingPots);
      WellFormed(next.potText) &&
      (next.potText == [] || (next.potText[0] == '#' && next.potText[|next.potText| - 1] == '#'))
  {
    var next := Step(pots.potText, rulesProducingPots);
    var emptyOnLeft := LeadingDots(next);
    var text := Next(pots, rulesProducingPots).potText;
    assert text <= next[emptyOnLeft..];
    forall i | 0 <= i < |text|
      ensures IsPot(text[i])
    {
      assert text[i] == next[emptyOnLeft + i];
    }
  }

  /// Stripping the empty pots from both ends of a text starting at pot
  /// `leftIndex` leaves the live pots of the row where they were.
  lemma StripAlive(text: string, leftIndex: int, k: int)
    ensures var emptyOnLeft := LeadingDots(text);
      Alive(Pots(TrimEnd(text[emptyOnLeft..]), leftIndex + emptyOnLeft), k) <==>
        Alive(Pots(text, leftIndex), k)
  {
    var emptyOnLeft := LeadingDots(text);
    StripAliveAt(text, emptyOnLeft, text[emptyOnLeft..], TrimEnd(text[emptyOnLeft..]), leftIndex, k);
  }

  /// `StripAlive` for any split of the text into empty pots, a kept middle
  /// and empty pots.
  lemma StripAliveAt(text: string, emptyOnLeft: nat, rest: string, trimmed: string, leftIndex: int, k: int)
    requires emptyOnLeft <= |text| && forall i :: 0 <= i < emptyOnLeft ==> text[i] == '.'
    requires rest == text[emptyOnLeft..] && |trimmed| <= |rest|
    requires forall i :: 0 <= i < |trimmed| ==> trimmed[i] == rest[i]
    requires forall i :: |trimmed| <= i < |rest| ==> rest[i] == '.'
    ensures Alive(Pots(trimmed, leftIndex + emptyOnLeft), k) <==> Alive(Pots(text, leftIndex), k)
  {
    var i := k - leftIndex;
    if emptyOnLeft <= i < emptyOnLeft + |trimmed| {
      assert trimmed[i - emptyOnLeft] == rest[i - emptyOnLeft];
    } else if emptyOnLeft + |trimmed| <= i < |text| {
      assert text[i] == rest[i - emptyOnLeft];
    }
  }

  /// A pot whose neighbourhood lies wholly outside the text has five empty
  /// pots around it.
  lemma FarNeighbourhood(pots: Pots, k: int)
    requires k + InitialOffset < pots.leftIndex || pots.leftIndex + |pots.potText| + InitialOffset <= k
    ensures Neighbourhood(pots, k) == Dots(RuleLength)
  {
    forall j | 0 <= j < RuleLength
      ensures Neighbourhood(pots, k)[j] == '.'
    {
      assert !Alive(pots, k - InitialOffset + j);
    }
  }

  /// The infinite-row meaning of `Next`: with no rule for five empty pots,
  /// pot `k` holds a plant in the next generation exactly when its
  /// neighbourhood is a rule producing a pot, for every pot of the row.
  lemma NextAlive(pots: Pots, rulesProducingPots: set<string>, k: int)
    requires WellFormed(pots.potText) && Dots(RuleLength) !in rulesProducingPots
    ensures Alive(Next(pots, rulesProducingPots), k) <==> Neighbourhood(pots, k) in rulesProducingPots
  {
    var next := Step(pots.potText, rulesProducingPots);
    var start := pots.leftIndex - InitialOffset;
    StripAlive(next, start, k);
    var i := k - start;
    if 0 <= i < |next| {
      WindowIsNeighbourhood(pots, i);
    } else {
      FarNeighbourhood(pots, k);
    }
  }

  /// Every generation after the initial state is well formed, so
  /// `NextAlive` describes each step of `Run`.
  lemma GenerationAlive(initialState: string, rulesProducingPots: seq<string>, n: nat, k: int)
    requires WellFormed(initialState) && Dots(RuleLength) !in rulesProducingPots
    ensures Alive(Generation(initialState, rulesProducingPots, n + 1), k) <==>
      Neighbourhood(Generation(initialState, rulesProducingPots, n), k) in rulesProducingPots
  {
    if n > 0 {
      NextTrimmed(Generation(initialState, rulesProducingPots, n - 1), RuleSet(rulesProducingPots));
    }
    NextAlive(Generation(initialState, rulesProducingPots, n), RuleSet(rulesProducingPots), k);
  }

  /// The sum `SolvePart1` takes: every pot that is not empty counts its pot
  /// number.
  function Score(potText: string, leftIndex: int): int
    decreases |potText|
  {
    if potText == [] then 0
    else
      var i := |potText| - 1;
      Score(potText[..i], leftIndex) + (if potText[i] == '.' then 0 else i + leftIndex)
  }

  /// `SolvePart1`: the sum of the numbers of the pots holding plants after
  /// `generations` generations.
  function SolvePart1(initialState: string, rulesProducingPots: seq<string>, generations: nat): int
  {
    var state := Generation(initialState, rulesProducingPots, generations);
    Score(state.potText, state.leftIndex)
  }

  /// `SolvePart1` is the sum of the numbers of the live pots of the row
  /// after `generations` generations, over any range covering the state's
  /// text.
  lemma SolvePart1IsLiveSum(initialState: string, rulesProducingPots: seq<string>, generations: nat, lo: int, hi: int)
    requires WellFormed(initialState)
    requires var state := Generation(initialState, rulesProducingPots, generations);
      lo <= state.leftIndex && state.leftIndex + |state.potText| <= hi
    ensures SolvePart1(initialState, rulesProducingPots, generations) ==
      LiveSum(Generation(initialState, rulesProducingPots, generations), lo, hi)
  {
    if generations > 0 {
      NextTrimmed(Generation(initialState, rulesProducingPots, generations - 1), RuleSet(rulesProducingPots));
    }
    ScoreIsLiveSum(Generation(initialState, rulesProducingPots, generations), lo, hi);
  }

  /// The sum of the numbers of the live pots in `[lo, hi)` of the row.
  ghost function LiveSum(pots: Pots, lo: int, hi: int): int
    decreases hi - lo
  {
    if hi <= lo then 0 else LiveSum(pots, lo, hi - 1) + (if Alive(pots, hi - 1) then hi - 1 else 0)
  }

  /// The score of a well-formed state is the sum of the numbers of its live
  /// pots over any range of the row that covers its text, so it does not
  /// depend on how many empty pots the text carries.
  lemma {:induction false} ScoreIsLiveSum(pots: Pots, lo: int, hi: int)
    requires WellFormed(pots.potText)
    requires lo <= pots.leftIndex && pots.leftIndex + |pots.potText| <= hi
    ensures Score(pots.potText, pots.leftIndex) == LiveSum(pots, lo, hi)
    decreases hi - lo
  {
    if hi > pots.leftIndex + |pots.potText| {
      ScoreIsLiveSum(pots, lo, hi - 1);
    } else if pots.potText == [] {
      LiveSumEmpty(pots, lo, hi);
    } else {
      var i := |pots.potText| - 1;
      var shorter := Pots(pots.potText[..i], pots.leftIndex);
      assert WellFormed(shorter.potText) by {
        assert forall j :: 0 <= j < i ==> shorter.potText[j] == pots.potText[j];
      }
      ScoreIsLiveSum(shorter, lo, hi - 1);
      assert forall k :: lo <= k < hi - 1 ==> (Alive(shorter, k) <==> Alive(pots, k));
      LiveSumSame(shorter, pots, lo, hi - 1);
      assert IsPot(pots.potText[i]);
      assert Alive(pots, hi - 1) <==> pots.potText[i] != '.';
      assert LiveSum(pots, lo, hi) == LiveSum(pots, lo, hi - 1) + (if Alive(pots, hi - 1) then hi - 1 else 0);
    }
  }

  /// A range holding no live pot sums to 0.
  lemma {:induction false} LiveSumEmpty(pots: Pots, lo: int, hi: int)
    requires forall k :: lo <= k < hi ==> !Alive(pots, k)
    ensures LiveSum(pots, lo, hi) == 0
    decreases hi - lo
  {
    if hi > lo {
      LiveSumEmpty(pots, lo, hi - 1);
    }
  }

  /// Two states with the same live pots over a range have the same sum
  /// over it.
  lemma {:induction false} LiveSumSame(a: Pots, b: Pots, lo: int, hi: int)
    requires forall k :: lo <= k < hi ==> (Alive(a, k) <==> Alive(b, k))
    ensures LiveSum(a, lo, hi) == LiveSum(b, lo, hi)
    decreases hi - lo
  {
    if hi > lo {
      LiveSumSame(a, b, lo, hi - 1);
    }
  }
}
