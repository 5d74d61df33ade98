/**
 * The tree of the `leaf_iterating` test and the crumbs both traversals yield on
 * it. `C` marks `Chained` nodes:
 *
 *   root:                (-)
 *                      / |  \
 *   children:        (C) ()  (C)
 *                   /|\      / | \
 *   g-children:   ()()()  () () (C)
 *                     /|       / | \
 *   gg-children:     ()()     ()() ()
 */
module LeafIteratingExample {
  import opened SpanNode
  import opened LeafSpec
  import opened LeafIteration

  function Leaf(): Node {
    Node(Other, [])
  }

  /** The `Chained` node at `[0]`: two leaves and an argument with two leaves. */
  function FirstChain(): Node {
    Node(Chained, [Leaf(), Leaf(), Argument()])
  }

  /** The node at `[0, 2]`, which is not `Chained`. */
  function Argument(): Node {
    Node(Other, [Leaf(), Leaf()])
  }

  /** The `Chained` node at `[2]`: two leaves and a nested chain. */
  function SecondChain(): Node {
    Node(Chained, [Leaf(), Leaf(), InnerChain()])
  }

  /** The `Chained` node at `[2, 2]`: three leaves. */
  function InnerChain(): Node {
    Node(Chained, [Leaf(), Leaf(), Leaf()])
  }

  function SampleTree(): Node {
    Node(Other, [FirstChain(), Leaf(), SecondChain()])
  }

  /** The crumbs of the sample tree, each written as its parent's crumbs and one more index. */
  lemma SamplePaths()
    ensures [] + [0] == [0] && [] + [1] == [1] && [] + [2] == [2]
    ensures [0] + [0] == [0, 0] && [0] + [1] == [0, 1] && [0] + [2] == [0, 2]
    ensures [0, 2] + [0] == [0, 2, 0] && [0, 2] + [1] == [0, 2, 1]
    ensures [2] + [0] == [2, 0] && [2] + [1] == [2, 1] && [2] + [2] == [2, 2]
    ensures [2, 2] + [0] == [2, 2, 0] && [2, 2] + [1] == [2, 2, 1] && [2, 2] + [2] == [2, 2, 2]
  {
  }

  /** The whole tree: every childless node, left to right. */
  lemma AllNodesOnSample()
    ensures LeafPaths(AllNodes, SampleTree()) ==
              [[0, 0], [0, 1], [0, 2, 0], [0, 2, 1], [1], [2, 0], [2, 1], [2, 2, 0], [2, 2, 1], [2, 2, 2]]
  {
    var f := AllNodes;
    SamplePaths();
    assert ChildLeaves(f, Argument(), [0, 2], 1) == [[0, 2, 1]];
    assert SubtreeLeaves(f, Argument(), [0, 2]) == [[0, 2, 0], [0, 2, 1]];
    assert ChildLeaves(f, FirstChain(), [0], 1) == [[0, 1], [0, 2, 0], [0, 2, 1]];
    assert SubtreeLeaves(f, FirstChain(), [0]) == [[0, 0], [0, 1], [0, 2, 0], [0, 2, 1]];
    assert ChildLeaves(f, InnerChain(), [2, 2], 2) == [[2, 2, 2]];
    assert ChildLeaves(f, InnerChain(), [2, 2], 1) == [[2, 2, 1], [2, 2, 2]];
    assert SubtreeLeaves(f, InnerChain(), [2, 2]) == [[2, 2, 0], [2, 2, 1], [2, 2, 2]];
    assert ChildLeaves(f, SecondChain(), [2], 1) == [[2, 1], [2, 2, 0], [2, 2, 1], [2, 2, 2]];
    assert SubtreeLeaves(f, SecondChain(), [2]) == [[2, 0], [2, 1], [2, 2, 0], [2, 2, 1], [2, 2, 2]];
    assert ChildLeaves(f, SampleTree(), [], 1) == [[1], [2, 0], [2, 1], [2, 2, 0], [2, 2, 1], [2, 2, 2]];
  }

  /** The chain: `[0, 2]` is not `Chained` and is yielded whole; `[2, 2]` is expanded. */
  lemma ChainAndDirectChildrenOnSample()
    ensures LeafPaths(ChainAndDirectChildren, SampleTree()) ==
              [[0, 0], [0, 1], [0, 2], [1], [2, 0], [2, 1], [2, 2, 0], [2, 2, 1], [2, 2, 2]]
  {
    var f := ChainAndDirectChildren;
    SamplePaths();
    assert SubtreeLeaves(f, Argument(), [0, 2]) == [[0, 2]];
    assert ChildLeaves(f, FirstChain(), [0], 1) == [[0, 1], [0, 2]];
    assert SubtreeLeaves(f, FirstChain(), [0]) == [[0, 0], [0, 1], [0, 2]];
    assert ChildLeaves(f, InnerChain(), [2, 2], 2) == [[2, 2, 2]];
    assert ChildLeaves(f, InnerChain(), [2, 2], 1) == [[2, 2, 1], [2, 2, 2]];
    assert SubtreeLeaves(f, InnerChain(), [2, 2]) == [[2, 2, 0], [2, 2, 1], [2, 2, 2]];
    assert ChildLeaves(f, SecondChain(), [2], 1) == [[2, 1], [2, 2, 0], [2, 2, 1], [2, 2, 2]];
    assert SubtreeLeaves(f, SecondChain(), [2]) == [[2, 0], [2, 1], [2, 2, 0], [2, 2, 1], [2, 2, 2]];
    assert ChildLeaves(f, SampleTree(), [], 1) == [[1], [2, 0], [2, 1], [2, 2, 0], [2, 2, 1], [2, 2, 2]];
  }

  /** Draining iterators over the sample tree gives the sequences of the test. */
  method LeafIterating() returns (all: seq<Crumbs>, chain: seq<Crumbs>)
    ensures all == [[0, 0], [0, 1], [0, 2, 0], [0, 2, 1], [1], [2, 0], [2, 1], [2, 2, 0], [2, 2, 1], [2, 2, 2]]
    ensures chain == [[0, 0], [0, 1], [0, 2], [1], [2, 0], [2, 1], [2, 2, 0], [2, 2, 1], [2, 2, 2]]
  {
    all := CollectCrumbs(SampleTree(), AllNodes);
    AllNodesOnSample();
    chain := CollectCrumbs(SampleTree(), ChainAndDirectChildren);
    ChainAndDirectChildrenOnSample();
  }
}
