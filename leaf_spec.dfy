/**
 * What a leaf traversal of a span tree yields, stated without any iterator
 * state: the traversal policy (`TreeFragment`), the crumbs of the leaves under a
 * policy in left-to-right order (`LeafPaths`), and the properties of that
 * sequence that callers rely on.
 */
module LeafSpec {
  import opened Wrappers
  import opened SpanNode

  /** Which part of the tree a leaf traversal covers. */
  datatype TreeFragment =
    | AllNodes                // the whole subtree
    | ChainAndDirectChildren  // the chain of `Chained` nodes and their direct children

  /** Whether the policy lets the traversal go below `node`. */
  function CanDescend(fragment: TreeFragment, node: Node): (b: bool)
    ensures b <==> (fragment == ChainAndDirectChildren ==> node.kind == Chained)
  {
    match fragment
    case AllNodes => true
    case ChainAndDirectChildren => node.kind == Chained
  }

  /** A non-base node that the traversal goes into rather than yielding it. */
  predicate Expands(fragment: TreeFragment, node: Node) {
    CanDescend(fragment, node) && |node.children| > 0
  }

  /**
   * Crumbs, relative to the base, of the leaves yielded for the subtree rooted
   * at the NON-base node `node`, which the base reaches by `path`: the node
   * itself when it is not expanded.
   */
  function SubtreeLeaves(fragment: TreeFragment, node: Node, path: Crumbs): seq<Crumbs>
    decreases node, 1
  {
    if Expands(fragment, node) then ChildLeaves(fragment, node, path, 0) else [path]
  }

  /** Crumbs of the leaves under the children of `node` (reached by `path`) from index `i` on. */
  function ChildLeaves(fragment: TreeFragment, node: Node, path: Crumbs, i: nat): seq<Crumbs>
    decreases node, 0, |node.children| - i
  {
    if i >= |node.children| then []
    else SubtreeLeaves(fragment, node.children[i], path + [i]) + ChildLeaves(fragment, node, path, i + 1)
  }

  /**
   * The crumbs a leaf iterator over `base` yields, in order. The base is always
   * expanded one level, whatever its kind and the policy.
   */
  function LeafPaths(fragment: TreeFragment, base: Node): seq<Crumbs> {
    ChildLeaves(fragment, base, [], 0)
  }

  /**
   * Independent description of one yielded path, read from a non-base node:
   * every node strictly above the end of `p` is expanded, the node at the end is not.
   */
  ghost predicate Reaches(fragment: TreeFragment, node: Node, p: Crumbs)
    decreases p
  {
    if p == [] then !Expands(fragment, node)
    else Expands(fragment, node) && p[0] < |node.children| && Reaches(fragment, node.children[p[0]], p[1..])
  }

  /** `p` names a leaf under `base`: a child of the base, then a path that `Reaches`. */
  ghost predicate IsLeafPath(fragment: TreeFragment, base: Node, p: Crumbs) {
    |p| >= 1 && p[0] < |base.children| && Reaches(fragment, base.children[p[0]], p[1..])
  }

  /** Lexicographic order on crumbs: a proper prefix comes first. */
  predicate LexLess(a: Crumbs, b: Crumbs)
    decreases |a|
  {
    |b| > 0 && (|a| == 0 || a[0] < b[0] || (a[0] == b[0] && LexLess(a[1..], b[1..])))
  }

  predicate StrictlyIncreasing(s: seq<Crumbs>) {
    forall i, j :: 0 <= i < j < |s| ==> LexLess(s[i], s[j])
  }

  // ---------------------------------------------------------------------------
  // Membership: the enumeration yields exactly the paths that `Reaches`

  lemma {:induction false} SubtreeLeavesMembers(fragment: TreeFragment, node: Node, path: Crumbs, p: Crumbs)
    ensures p in SubtreeLeaves(fragment, node, path) <==>
              |p| >= |path| && p[..|path|] == path && Reaches(fragment, node, p[|path|..])
    decreases node, 1
  {
    if Expands(fragment, node) {
      ChildLeavesMembers(fragment, node, path, 0, p);
      if |p| >= |path| && p[..|path|] == path && Reaches(fragment, node, p[|path|..]) {
        assert p[|path|..][0] == p[|path|] && p[|path|..][1..] == p[|path| + 1..];
      }
    } else if p == path {
      assert p[|path|..] == [];
    } else if |p| >= |path| && p[..|path|] == path {
      assert p == path + p[|path|..];
    }
  }

  lemma {:induction false} ChildLeavesMembers(fragment: TreeFragment, node: Node, path: Crumbs, i: nat, p: Crumbs)
    ensures p in ChildLeaves(fragment, node, path, i) <==>
              |p| > |path| && p[..|path|] == path && i <= p[|path|] < |node.children| &&
              Reaches(fragment, node.children[p[|path|]], p[|path| + 1..])
    decreases node, 0, |node.children| - i
  {
    if i < |node.children| {
      var ext := path + [i];
      SubtreeLeavesMembers(fragment, node.children[i], ext, p);
      ChildLeavesMembers(fragment, node, path, i + 1, p);
      if |p| > |path| {
        assert p[..|ext|] == ext <==> p[..|path|] == path && p[|path|] == i by {
          assert p[..|ext|] == p[..|path|] + [p[|path|]];
        }
      }
    }
  }

  /** The yielded crumbs are exactly the leaf paths under `base`. */
  lemma LeafPathsCharacterization(fragment: TreeFragment, base: Node, p: Crumbs)
    ensures p in LeafPaths(fragment, base) <==> IsLeafPath(fragment, base, p)
  {
    ChildLeavesMembers(fragment, base, [], 0, p);
  }

  /** `Reaches` restated through resolution: the end is not expanded, every node above it is. */
  lemma {:induction false} ReachesByResolution(fragment: TreeFragment, node: Node, p: Crumbs)
    ensures Reaches(fragment, node, p) <==>
              GetDescendant(node, p).Some? && !Expands(fragment, GetDescendant(node, p).value) &&
              forall k :: 0 <= k < |p| ==>
                GetDescendant(node, p[..k]).Some? && Expands(fragment, GetDescendant(node, p[..k]).value)
    decreases p
  {
    if p != [] {
      assert p[..0] == [];
      if p[0] < |node.children| {
        var child := node.children[p[0]];
        ReachesByResolution(fragment, child, p[1..]);
        forall k | 1 <= k <= |p|
          ensures GetDescendant(node, p[..k]) == GetDescendant(child, p[1..][..k - 1])
        {
          assert p[..k][0] == p[0];
          assert p[..k][1..] == p[1..][..k - 1];
        }
        if Reaches(fragment, node, p) {
          forall k | 0 <= k < |p|
            ensures GetDescendant(node, p[..k]).Some? && Expands(fragment, GetDescendant(node, p[..k]).value)
          {
            if k > 0 {
              assert 0 <= k - 1 < |p[1..]|;
            }
          }
          assert p[..|p|] == p;
        }
        if GetDescendant(node, p).Some? && !Expands(fragment, GetDescendant(node, p).value) &&
           forall k :: 0 <= k < |p| ==>
             GetDescendant(node, p[..k]).Some? && Expands(fragment, GetDescendant(node, p[..k]).value)
        {
          assert Expands(fragment, node);
          forall k | 0 <= k < |p[1..]|
            ensures GetDescendant(child, p[1..][..k]).Some? && Expands(fragment, GetDescendant(child, p[1..][..k]).value)
          {
            assert GetDescendant(node, p[..k + 1]) == GetDescendant(child, p[1..][..k]);
          }
        }
      }
    }
  }

  // ---------------------------------------------------------------------------
  // Properties of the yielded sequence

  /**
   * A path is yielded iff it is non-empty and resolves to a node that is not
   * expanded, while every node strictly between the base and that node is.
   */
  lemma LeafPathsByResolution(fragment: TreeFragment, base: Node, p: Crumbs)
    ensures p in LeafPaths(fragment, base) <==>
              |p| >= 1 && GetDescendant(base, p).Some? && !Expands(fragment, GetDescendant(base, p).value) &&
              forall k :: 1 <= k < |p| ==>
                GetDescendant(base, p[..k]).Some? && Expands(fragment, GetDescendant(base, p[..k]).value)
  {
    LeafPathsCharacterization(fragment, base, p);
    if |p| >= 1 && p[0] < |base.children| {
      var child := base.children[p[0]];
      ReachesByResolution(fragment, child, p[1..]);
      forall k | 1 <= k <= |p|
        ensures GetDescendant(base, p[..k]) == GetDescendant(child, p[1..][..k - 1])
      {
        assert p[..k][0] == p[0];
        assert p[..k][1..] == p[1..][..k - 1];
      }
      assert p[..|p|] == p;
      if forall k :: 1 <= k < |p| ==>
           GetDescendant(base, p[..k]).Some? && Expands(fragment, GetDescendant(base, p[..k]).value)
      {
        forall k | 0 <= k < |p[1..]|
          ensures GetDescendant(child, p[1..][..k]).Some? && Expands(fragment, GetDescendant(child, p[1..][..k]).value)
        {
          assert GetDescendant(base, p[..k + 1]) == GetDescendant(child, p[1..][..k]);
        }
      }
    }
  }

  /** Under `AllNodes` the yielded crumbs are exactly the paths to childless descendants. */
  lemma AllNodesYieldsChildlessDescendants(base: Node, p: Crumbs)
    ensures p in LeafPaths(AllNodes, base) <==>
              |p| >= 1 && GetDescendant(base, p).Some? && GetDescendant(base, p).value.children == []
  {
    LeafPathsByResolution(AllNodes, base, p);
    if |p| >= 1 && GetDescendant(base, p).Some? {
      forall k | 1 <= k < |p|
        ensures GetDescendant(base, p[..k]).Some? && Expands(AllNodes, GetDescendant(base, p[..k]).value)
      {
        assert p == p[..k] + p[k..];
        GetDescendantAppend(base, p[..k], p[k..]);
      }
    }
  }

  /**
   * Under `ChainAndDirectChildren` a yielded node is not expanded: either it is
   * childless or it is not `Chained`; and nothing below a yielded node is yielded.
   */
  lemma ChainFragmentYieldsOpaqueNodes(base: Node, p: Crumbs, r: Crumbs)
    requires p in LeafPaths(ChainAndDirectChildren, base)
    ensures GetDescendant(base, p).Some?
    ensures GetDescendant(base, p).value.kind != Chained || GetDescendant(base, p).value.children == []
    ensures r != [] ==> p + r !in LeafPaths(ChainAndDirectChildren, base)
  {
    LeafPathsByResolution(ChainAndDirectChildren, base, p);
    if r != [] && p + r in LeafPaths(ChainAndDirectChildren, base) {
      LeafPathsPrefixFree(ChainAndDirectChildren, base, p, r);
    }
  }

  lemma {:induction false} ReachesPrefixFree(fragment: TreeFragment, node: Node, p: Crumbs, r: Crumbs)
    requires Reaches(fragment, node, p) && Reaches(fragment, node, p + r)
    ensures r == []
    decreases p
  {
    if p != [] {
      assert (p + r)[0] == p[0] && (p + r)[1..] == p[1..] + r;
      ReachesPrefixFree(fragment, node.children[p[0]], p[1..], r);
    } else {
      assert p + r == r;
    }
  }

  /** No yielded path is a proper prefix of another: a yielded node's descendants are never yielded. */
  lemma LeafPathsPrefixFree(fragment: TreeFragment, base: Node, p: Crumbs, r: Crumbs)
    requires p in LeafPaths(fragment, base) && p + r in LeafPaths(fragment, base)
    ensures r == []
  {
    LeafPathsCharacterization(fragment, base, p);
    LeafPathsCharacterization(fragment, base, p + r);
    assert (p + r)[0] == p[0] && (p + r)[1..] == p[1..] + r;
    ReachesPrefixFree(fragment, base.children[p[0]], p[1..], r);
  }

  // ---------------------------------------------------------------------------
  // Order

  lemma {:induction false} LexLessIrreflexive(a: Crumbs)
    ensures !LexLess(a, a)
    decreases |a|
  {
    if |a| > 0 {
      LexLessIrreflexive(a[1..]);
    }
  }

  /** Two paths that agree up to a point are ordered by the first index where they differ. */
  lemma {:induction false} LexLessAfterCommonPrefix(path: Crumbs, a: Crumbs, b: Crumbs)
    requires |a| > |path| && |b| > |path| && a[..|path|] == path && b[..|path|] == path
    requires a[|path|] < b[|path|]
    ensures LexLess(a, b)
    decreases |path|
  {
    if |path| > 0 {
      assert a[1..][..|path| - 1] == path[1..] && b[1..][..|path| - 1] == path[1..];
      LexLessAfterCommonPrefix(path[1..], a[1..], b[1..]);
    }
  }

  lemma {:induction false} SubtreeLeavesSorted(fragment: TreeFragment, node: Node, path: Crumbs)
    ensures StrictlyIncreasing(SubtreeLeaves(fragment, node, path))
    decreases node, 1
  {
    if Expands(fragment, node) {
      ChildLeavesSorted(fragment, node, path, 0);
    }
  }

  lemma {:induction false} ChildLeavesSorted(fragment: TreeFragment, node: Node, path: Crumbs, i: nat)
    ensures StrictlyIncreasing(ChildLeaves(fragment, node, path, i))
    decreases node, 0, |node.children| - i
  {
    if i < |node.children| {
      var ext := path + [i];
      var a := SubtreeLeaves(fragment, node.children[i], ext);
      var b := ChildLeaves(fragment, node, path, i + 1);
      SubtreeLeavesSorted(fragment, node.children[i], ext);
      ChildLeavesSorted(fragment, node, path, i + 1);
      var s := a + b;
      forall x, y | 0 <= x < y < |s| ensures LexLess(s[x], s[y]) {
        if x < |a| && y >= |a| {
          assert s[x] == a[x] && a[x] in a;
          assert s[y] == b[y - |a|] && b[y - |a|] in b;
          SubtreeLeavesMembers(fragment, node.children[i], ext, s[x]);
          ChildLeavesMembers(fragment, node, path, i + 1, s[y]);
          assert s[x][..|path|] == path && s[x][|path|] == i by {
            assert s[x][..|path|] == s[x][..|ext|][..|path|];
          }
          LexLessAfterCommonPrefix(path, s[x], s[y]);
        } else if x >= |a| {
          assert s[x] == b[x - |a|] && s[y] == b[y - |a|];
        } else {
          assert s[x] == a[x];
          if y < |a| {
            assert s[y] == a[y];
          }
        }
      }
    }
  }

  /** Successive yielded crumbs strictly increase; hence none is yielded twice. */
  lemma LeafPathsStrictlyIncreasing(fragment: TreeFragment, base: Node)
    ensures StrictlyIncreasing(LeafPaths(fragment, base))
    ensures forall i, j :: 0 <= i < j < |LeafPaths(fragment, base)| ==>
              LeafPaths(fragment, base)[i] != LeafPaths(fragment, base)[j]
  {
    var s := LeafPaths(fragment, base);
    ChildLeavesSorted(fragment, base, [], 0);
    forall i, j | 0 <= i < j < |s| ensures s[i] != s[j] {
      LexLessIrreflexive(s[i]);
    }
  }

  // ---------------------------------------------------------------------------
  // Base behaviour and size

  lemma {:induction false} SubtreeLeavesNonEmpty(fragment: TreeFragment, node: Node, path: Crumbs)
    ensures |SubtreeLeaves(fragment, node, path)| >= 1
    decreases node
  {
    if Expands(fragment, node) {
      SubtreeLeavesNonEmpty(fragment, node.children[0], path + [0]);
    }
  }

  /** A base without children yields nothing; a base with children yields at least one item. */
  lemma LeafPathsEmptyIffChildless(fragment: TreeFragment, base: Node)
    ensures LeafPaths(fragment, base) == [] <==> base.children == []
  {
    if base.children != [] {
      assert [] + [0] == [0];
      SubtreeLeavesNonEmpty(fragment, base.children[0], [0]);
    }
  }

  /** Every yielded path is non-empty: the base itself is never yielded. */
  lemma LeafPathsNeverEmpty(fragment: TreeFragment, base: Node, p: Crumbs)
    requires p in LeafPaths(fragment, base)
    ensures |p| >= 1 && p[0] < |base.children|
  {
    LeafPathsCharacterization(fragment, base, p);
  }

  lemma {:induction false} ChildLeavesIgnoreKind(fragment: TreeFragment, k1: Kind, k2: Kind, cs: seq<Node>,
                                                path: Crumbs, i: nat)
    ensures ChildLeaves(fragment, Node(k1, cs), path, i) == ChildLeaves(fragment, Node(k2, cs), path, i)
    decreases |cs| - i
  {
    if i < |cs| {
      ChildLeavesIgnoreKind(fragment, k1, k2, cs, path, i + 1);
    }
  }

  /** The base is expanded whatever its kind: its kind does not change what is yielded. */
  lemma BaseKindIgnored(fragment: TreeFragment, k1: Kind, k2: Kind, cs: seq<Node>)
    ensures LeafPaths(fragment, Node(k1, cs)) == LeafPaths(fragment, Node(k2, cs))
  {
    ChildLeavesIgnoreKind(fragment, k1, k2, cs, [], 0);
  }

  lemma {:induction false} SubtreeLeavesBound(fragment: TreeFragment, node: Node, path: Crumbs)
    ensures |SubtreeLeaves(fragment, node, path)| <= Size(node)
    decreases node, 1
  {
    if Expands(fragment, node) {
      ChildLeavesBound(fragment, node, path, 0);
    }
  }

  lemma {:induction false} ChildLeavesBound(fragment: TreeFragment, node: Node, path: Crumbs, i: nat)
    ensures |ChildLeaves(fragment, node, path, i)| <= SizeFrom(node, i)
    decreases node, 0, |node.children| - i
  {
    if i < |node.children| {
      SubtreeLeavesBound(fragment, node.children[i], path + [i]);
      ChildLeavesBound(fragment, node, path, i + 1);
    }
  }

  /** The number of yielded items is at most the number of nodes below the base. */
  lemma LeafCountBound(fragment: TreeFragment, base: Node)
    ensures |LeafPaths(fragment, base)| <= Size(base) - 1
  {
    ChildLeavesBound(fragment, base, [], 0);
  }
}
