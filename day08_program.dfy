/// Day 8: the licence tree, its integer encoding and the metadata sum.
module Day08Program {
  import opened Wrappers
  import opened Linq

  /// `Node`: child nodes and metadata entries.
  datatype Node = Node(children: seq<Node>, metadata: seq<int>)

  /// The grammar `NodeParser` reads, written as an encoder: the child
  /// count, the metadata count, the children, then the metadata.
  function Encode(n: Node): (r: seq<int>)
    ensures |r| >= 2
    decreases n, 1
  {
    [|n.children|, |n.metadata|] + EncodeAll(n.children) + n.metadata
  }

  /// The encodings of a list of nodes, one after another.
  function EncodeAll(ns: seq<Node>): seq<int>
    decreases ns, 0
  {
    if ns == [] then [] else Encode(ns[0]) + EncodeAll(ns[1..])
  }

  /// `count(n, p)` with a negative `n` reads nothing.
  function Repetitions(n: int): nat
  {
    if n < 0 then 0 else n
  }

  /// `NodeParser`: a node at the front of `s`, with the number of
  /// integers it consumed; `None` when the input runs out.
  function DecodeNode(s: seq<int>): (r: Option<(Node, nat)>)
    ensures r.Some? ==> 2 <= r.value.1 <= |s|
    ensures r.Some? ==> r.value.1 == |Encode(r.value.0)|
    decreases |s|, 0
  {
    if |s| < 2 then None
    else
      match DecodeNodes(Repetitions(s[0]), s[2..])
      case None => None
      case Some((children, used)) =>
        var start := 2 + used;
        var metadataCount := Repetitions(s[1]);
        if start + metadataCount > |s| then None
        else
          var n := Node(children, s[start..start + metadataCount]);
          assert |Encode(n)| == 2 + |EncodeAll(children)| + metadataCount;
          Some((n, start + metadataCount))
  }

  /// `count(k, NodeParser)`: `k` nodes one after another.
  function DecodeNodes(k: nat, s: seq<int>): (r: Option<(seq<Node>, nat)>)
    ensures r.Some? ==> r.value.1 <= |s| && |r.value.0| == k
    ensures r.Some? ==> r.value.1 == |EncodeAll(r.value.0)|
    decreases |s|, 1, k
  {
    if k == 0 then Some(([], 0))
    else
      match DecodeNode(s)
      case None => None
      case Some((first, used)) =>
        match DecodeNodes(k - 1, s[used..])
        case None => None
        case Some((rest, usedRest)) =>
          assert ([first] + rest)[1..] == rest;
          Some(([first] + rest, used + usedRest))
  }

  /// `ProcessLine(NodeParser, line)`: the whole line must be one node;
  /// anything else ends the process, modelled as `None`.
  function ParseLine(s: seq<int>): (r: Option<Node>)
    ensures r.Some? ==> Encode(r.value) == s || exists i :: 0 <= i < |s| && s[i] < 0
  {
    match DecodeNode(s)
    case Some((n, used)) =>
      if used == |s| then
        DecodeWellFormed(s);
        Some(n)
      else None
    case None => None
  }

  /// Decoding an encoded node, followed by anything, gives that node back
  /// and consumes exactly its encoding.
  lemma {:induction false} DecodeEncode(n: Node, rest: seq<int>)
    ensures DecodeNode(Encode(n) + rest) == Some((n, |Encode(n)|))
    decreases n, 1
  {
    var s := Encode(n) + rest;
    var tail := EncodeAll(n.children) + n.metadata + rest;
    assert s[2..] == EncodeAll(n.children) + (n.metadata + rest);
    DecodeEncodeAll(n.children, n.metadata + rest);
    var start := 2 + |EncodeAll(n.children)|;
    assert s[start..start + |n.metadata|] == n.metadata;
  }

  lemma {:induction false} DecodeEncodeAll(ns: seq<Node>, rest: seq<int>)
    ensures DecodeNodes(|ns|, EncodeAll(ns) + rest) == Some((ns, |EncodeAll(ns)|))
    decreases ns, 0
  {
    if ns != [] {
      var first, more := Encode(ns[0]), EncodeAll(ns[1..]) + rest;
      var s := EncodeAll(ns) + rest;
      assert s == first + more;
      DecodeEncode(ns[0], more);
      assert s[|first|..] == more;
      DecodeEncodeAll(ns[1..], rest);
      DecodeNodesCons(|ns|, s, ns[0], |first|, ns[1..], |EncodeAll(ns[1..])|);
      assert [ns[0]] + ns[1..] == ns;
    }
  }

  lemma DecodeNodesCons(k: nat, s: seq<int>, first: Node, used: nat, rest: seq<Node>, usedRest: nat)
    requires k > 0 && used <= |s|
    requires DecodeNode(s) == Some((first, used))
    requires DecodeNodes(k - 1, s[used..]) == Some((rest, usedRest))
    ensures DecodeNodes(k, s) == Some(([first] + rest, used + usedRest))
  {
  }

  /// On input without negative numbers, what a node consumes is exactly
  /// its encoding.
  lemma {:induction false} DecodeWellFormed(s: seq<int>)
    requires DecodeNode(s).Some?
    ensures Encode(DecodeNode(s).value.0) == s[..DecodeNode(s).value.1] || exists i :: 0 <= i < |s| && s[i] < 0
    decreases |s|, 0
  {
    if forall i :: 0 <= i < |s| ==> s[i] >= 0 {
      var (children, used) := DecodeNodes(Repetitions(s[0]), s[2..]).value;
      DecodeAllWellFormed(Repetitions(s[0]), s[2..]);
      assert forall i :: 0 <= i < |s[2..]| ==> s[2..][i] == s[i + 2];
      var (n, consumed) := DecodeNode(s).value;
      assert s[..consumed] == [s[0], s[1]] + s[2..][..used] + n.metadata;
    }
  }

  lemma {:induction false} DecodeAllWellFormed(k: nat, s: seq<int>)
    requires DecodeNodes(k, s).Some?
    ensures EncodeAll(DecodeNodes(k, s).value.0) == s[..DecodeNodes(k, s).value.1] || exists i :: 0 <= i < |s| && s[i] < 0
    decreases |s|, 1, k
  {
    if k > 0 && forall i :: 0 <= i < |s| ==> s[i] >= 0 {
      var (first, used) := DecodeNode(s).value;
      DecodeWellFormed(s);
      DecodeAllWellFormed(k - 1, s[used..]);
      var (ns, consumed) := DecodeNodes(k, s).value;
      assert ns[0] == first && ns[1..] == DecodeNodes(k - 1, s[used..]).value.0;
      assert s[..consumed] == s[..used] + s[used..][..consumed - used];
    }
  }

  // ---- Part 1 ----

  /// The number of nodes in a tree.
  function Size(n: Node): nat
    decreases n, 1
  {
    1 + SizeAll(n.children)
  }

  function SizeAll(ns: seq<Node>): nat
    decreases ns, 0
  {
    if ns == [] then 0 else Size(ns[0]) + SizeAll(ns[1..])
  }

  lemma {:induction false} SizeAllAppend(a: seq<Node>, b: seq<Node>)
    ensures SizeAll(a + b) == SizeAll(a) + SizeAll(b)
  {
    if a != [] {
      assert (a + b)[0] == a[0] && (a + b)[1..] == a[1..] + b;
      SizeAllAppend(a[1..], b);
    } else {
      assert a + b == b;
    }
  }

  /// The children of every node of a level, in order.
  function ChildrenOf(level: seq<Node>): (r: seq<Node>)
    ensures SizeAll(r) + |level| == SizeAll(level)
  {
    if level == [] then []
    else
      SizeAllAppend(level[0].children, ChildrenOf(level[1..]));
      level[0].children + ChildrenOf(level[1..])
  }

  /// `Expand(n => n.Children)`: the nodes breadth first, level by level.
  function Expand(level: seq<Node>): seq<Node>
    decreases SizeAll(level)
  {
    if level == [] then [] else level + Expand(ChildrenOf(level))
  }

  /// `SelectMany(n => n.Metadata).Sum()`.
  function MetadataSum(ns: seq<Node>): int
  {
    if ns == [] then 0 else Sum(ns[0].metadata) + MetadataSum(ns[1..])
  }

  /// `Part1`: the metadata sum over the breadth-first expansion.
  function Part1(n: Node): int
  {
    MetadataSum(Expand([n]))
  }

  /// The metadata of a node and of all its descendants, by recursion on
  /// the tree.
  function TreeSum(n: Node): int
    decreases n, 1
  {
    Sum(n.metadata) + TreeSumAll(n.children)
  }

  function TreeSumAll(ns: seq<Node>): int
    decreases ns, 0
  {
    if ns == [] then 0 else TreeSum(ns[0]) + TreeSumAll(ns[1..])
  }

  lemma {:induction false} MetadataSumAppend(a: seq<Node>, b: seq<Node>)
    ensures MetadataSum(a + b) == MetadataSum(a) + MetadataSum(b)
  {
    if a != [] {
      assert (a + b)[0] == a[0] && (a + b)[1..] == a[1..] + b;
      MetadataSumAppend(a[1..], b);
    } else {
      assert a + b == b;
    }
  }

  lemma {:induction false} TreeSumAllAppend(a: seq<Node>, b: seq<Node>)
    ensures TreeSumAll(a + b) == TreeSumAll(a) + TreeSumAll(b)
  {
    if a != [] {
      assert (a + b)[0] == a[0] && (a + b)[1..] == a[1..] + b;
      TreeSumAllAppend(a[1..], b);
    } else {
      assert a + b == b;
    }
  }

  /// Summing a level's trees is summing the level's own metadata and then
  /// the trees of the next level.
  lemma {:induction false} TreeSumAllLevel(level: seq<Node>)
    ensures TreeSumAll(level) == MetadataSum(level) + TreeSumAll(ChildrenOf(level))
  {
    if level != [] {
      TreeSumAllLevel(level[1..]);
      TreeSumAllAppend(level[0].children, ChildrenOf(level[1..]));
    }
  }

  /// The breadth-first sum is the tree sum of the level.
  lemma {:induction false} ExpandSum(level: seq<Node>)
    ensures MetadataSum(Expand(level)) == TreeSumAll(level)
    decreases SizeAll(level)
  {
    if level != [] {
      ExpandSum(ChildrenOf(level));
      MetadataSumAppend(level, Expand(ChildrenOf(level)));
      TreeSumAllLevel(level);
    }
  }

  /// `Part1` sums the metadata of the node and of all its descendants,
  /// each once.
  lemma Part1IsTreeSum(n: Node)
    ensures Part1(n) == TreeSum(n)
  {
    ExpandSum([n]);
    assert TreeSumAll([n]) == TreeSum(n) + TreeSumAll([]);
  }

  // ---- The example ----

  /// `ExampleInput`, as integers.
  const ExampleInput: seq<int> := [2, 3, 0, 3, 10, 11, 12, 1, 1, 0, 1, 99, 2, 1, 1, 2]

  /// The tree A(B, C(D)) the example describes.
  const ExampleNode: Node :=
    Node([Node([], [10, 11, 12]), Node([Node([], [99])], [2])], [1, 1, 2])

  /// The example line parses to A(B, C(D)) with metadata [1,1,2],
  /// [10,11,12], [2] and [99].
  lemma ParseExample()
    ensures ParseLine(ExampleInput) == Some(ExampleNode)
  {
    assert Encode(ExampleNode) == ExampleInput;
    DecodeEncode(ExampleNode, []);
    assert Encode(ExampleNode) + [] == ExampleInput;
  }

  /// The example's metadata sum is 138.
  lemma Part1Example()
    ensures Part1(ExampleNode) == 138
  {
    Part1IsTreeSum(ExampleNode);
  }
}
