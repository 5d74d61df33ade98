/**
 * The lazy depth-first leaf iterator over a span tree. It keeps an explicit
 * stack of frames (a node and the index of the child being visited) and a
 * one-slot lookahead; every item is resolved again from the base node using the
 * stack's indices. Its output is proved equal, item by item, to `LeafPaths`.
 */
module LeafIteration {
  import opened Wrappers
  import opened SpanNode
  import opened LeafSpec

  /** One frame of the depth-first search. */
  datatype StackFrame = StackFrame(node: Node, childBeingVisited: nat)

  /** An item of the iteration: a node together with its crumbs relative to the base. */
  datatype Item = Item(crumbs: Crumbs, node: Node)

  /** The crumbs formed by the stack, bottom frame first. */
  function Indices(stack: seq<StackFrame>): (r: Crumbs)
    ensures |r| == |stack|
    ensures forall j :: 0 <= j < |stack| ==> r[j] == stack[j].childBeingVisited
  {
    seq(|stack|, j requires 0 <= j < |stack| => stack[j].childBeingVisited)
  }

  /**
   * Each frame but the top one visits a valid child, and the frame above it is
   * that child.
   */
  ghost predicate Linked(stack: seq<StackFrame>) {
    forall j :: 0 <= j < |stack| - 1 ==>
      stack[j].childBeingVisited < |stack[j].node.children| &&
      stack[j + 1].node == stack[j].node.children[stack[j].childBeingVisited]
  }

  /** A linked stack whose bottom frame is the base. */
  ghost predicate StackFrom(base: Node, stack: seq<StackFrame>) {
    Linked(stack) && (stack != [] ==> stack[0].node == base)
  }

  /**
   * Crumbs of the leaves still to come after the subtree of the child that each
   * frame is visiting, innermost frame first.
   */
  ghost function After(fragment: TreeFragment, stack: seq<StackFrame>): seq<Crumbs>
    decreases |stack|
  {
    if stack == [] then []
    else
      var k := |stack| - 1;
      ChildLeaves(fragment, stack[k].node, Indices(stack[..k]), stack[k].childBeingVisited + 1)
        + After(fragment, stack[..k])
  }

  /** Resolving the stack's indices against the base gives the child the top frame visits. */
  lemma {:induction false} StackResolves(base: Node, stack: seq<StackFrame>)
    requires StackFrom(base, stack) && stack != []
    requires stack[|stack| - 1].childBeingVisited < |stack[|stack| - 1].node.children|
    ensures GetDescendant(base, Indices(stack)) ==
              Some(stack[|stack| - 1].node.children[stack[|stack| - 1].childBeingVisited])
    decreases |stack|
  {
    var c := stack[0].childBeingVisited;
    assert Indices(stack)[0] == c && Indices(stack)[1..] == Indices(stack[1..]);
    if |stack| > 1 {
      StackResolves(base.children[c], stack[1..]);
    }
  }

  /** Moving the top frame on to its next child leaves the same items to come. */
  lemma AfterVisit(fragment: TreeFragment, stack: seq<StackFrame>, bumped: seq<StackFrame>, child: Node)
    requires stack != []
    requires stack[|stack| - 1].childBeingVisited + 1 < |stack[|stack| - 1].node.children|
    requires bumped == stack[..|stack| - 1] +
                       [StackFrame(stack[|stack| - 1].node, stack[|stack| - 1].childBeingVisited + 1)]
    requires child == stack[|stack| - 1].node.children[stack[|stack| - 1].childBeingVisited + 1]
    ensures After(fragment, stack) == SubtreeLeaves(fragment, child, Indices(bumped)) + After(fragment, bumped)
  {
    var k := |stack| - 1;
    assert bumped[..k] == stack[..k];
    assert Indices(bumped) == Indices(stack[..k]) + [stack[k].childBeingVisited + 1];
  }

  /** Popping a frame that has visited its last child leaves the same items to come. */
  lemma AfterPop(fragment: TreeFragment, stack: seq<StackFrame>)
    requires stack != []
    requires stack[|stack| - 1].childBeingVisited + 1 >= |stack[|stack| - 1].node.children|
    ensures After(fragment, stack) == After(fragment, stack[..|stack| - 1])
  {
  }

  /**
   * The lookahead, if any, is the child the top frame of a stack from `base` visits.
   */
  ghost predicate Visiting(base: Node, stack: seq<StackFrame>, next: Option<Node>) {
    StackFrom(base, stack) &&
    (next.Some? ==>
       stack != [] &&
       stack[|stack| - 1].childBeingVisited < |stack[|stack| - 1].node.children| &&
       next.value == stack[|stack| - 1].node.children[stack[|stack| - 1].childBeingVisited])
  }

  /**
   * The iterator's invariant: `Visiting`, and without a lookahead the traversal is
   * over (either the stack is empty or it holds only a childless base).
   */
  ghost predicate Consistent(base: Node, stack: seq<StackFrame>, next: Option<Node>) {
    Visiting(base, stack, next) &&
    (next.None? ==> stack == [] || (stack == [StackFrame(base, 0)] && base.children == []))
  }

  /** Crumbs of every item still to be yielded from this state, in order. */
  ghost function Remaining(fragment: TreeFragment, stack: seq<StackFrame>, next: Option<Node>): seq<Crumbs> {
    (if next.Some? then SubtreeLeaves(fragment, next.value, Indices(stack)) else []) + After(fragment, stack)
  }

  /** The state `new` starts from, before descending, has every leaf of the base still to come. */
  lemma InitialRemaining(fragment: TreeFragment, base: Node)
    ensures var next := if |base.children| > 0 then Some(base.children[0]) else None;
            Consistent(base, [StackFrame(base, 0)], next) &&
            Remaining(fragment, [StackFrame(base, 0)], next) == LeafPaths(fragment, base)
  {
    var stack := [StackFrame(base, 0)];
    assert stack[..0] == [] && Indices(stack[..0]) == [];
    assert Indices(stack) == [] + [0] == [0];
    assert After(fragment, stack) == ChildLeaves(fragment, base, [], 1);
  }

  /** Without a lookahead nothing remains; with a leaf lookahead it comes first. */
  lemma RemainingAtLeaf(fragment: TreeFragment, base: Node, stack: seq<StackFrame>, next: Option<Node>)
    requires Consistent(base, stack, next)
    requires next.Some? ==> !Expands(fragment, next.value)
    ensures next.None? ==> Remaining(fragment, stack, next) == []
    ensures next.Some? ==> Remaining(fragment, stack, next) == [Indices(stack)] + After(fragment, stack)
  {
    if next.None? && stack != [] {
      assert stack[..0] == [] && Indices(stack[..0]) == [];
      assert After(fragment, stack) == ChildLeaves(fragment, base, [], 1) + After(fragment, []);
    }
  }

  /** A stack `make_dfs_step` can start from: its top frame visits a valid child. */
  ghost predicate DfsFrom(base: Node, initial: seq<StackFrame>) {
    Visiting(base, initial, None) && initial != [] &&
    initial[|initial| - 1].childBeingVisited < |initial[|initial| - 1].node.children|
  }

  /** State of the `make_dfs_step` loop: what is left is what came after the starting lookahead. */
  ghost predicate DfsLoop(base: Node, fragment: TreeFragment, initial: seq<StackFrame>,
                          stack: seq<StackFrame>, next: Option<Node>)
  {
    Visiting(base, stack, next) &&
    Remaining(fragment, stack, next) == After(fragment, initial) &&
    |stack| <= |initial| &&
    (next.None? ==> stack == initial[..|stack|]) &&
    (next.Some? ==>
       var k := |stack| - 1;
       stack == initial[..k] + [StackFrame(initial[k].node, initial[k].childBeingVisited + 1)]) &&
    forall j :: |stack| <= j < |initial| ==> initial[j].childBeingVisited + 1 == |initial[j].node.children|
  }

  /** One round of the `make_dfs_step` loop: visit the next child of the top frame, or pop it. */
  lemma DfsRound(base: Node, fragment: TreeFragment, initial: seq<StackFrame>,
                 stack: seq<StackFrame>, stack': seq<StackFrame>, next': Option<Node>)
    requires DfsFrom(base, initial)
    requires DfsLoop(base, fragment, initial, stack, None) && stack != []
    requires var k := |stack| - 1;
             var c := stack[k].childBeingVisited + 1;
             next' == (if c < |stack[k].node.children| then Some(stack[k].node.children[c]) else None) &&
             stack' == if next'.Some? then stack[..k] + [StackFrame(stack[k].node, c)] else stack[..k]
    ensures DfsLoop(base, fragment, initial, stack', next')
  {
    var k := |stack| - 1;
    if next'.None? {
      DfsPop(base, fragment, initial, stack);
    } else {
      DfsVisit(base, fragment, initial, stack, stack', next'.value);
    }
  }

  /** One round of the `make_dfs_step` loop that pops the top frame. */
  lemma DfsPop(base: Node, fragment: TreeFragment, initial: seq<StackFrame>, stack: seq<StackFrame>)
    requires DfsFrom(base, initial)
    requires DfsLoop(base, fragment, initial, stack, None) && stack != []
    requires stack[|stack| - 1].childBeingVisited + 1 >= |stack[|stack| - 1].node.children|
    ensures DfsLoop(base, fragment, initial, stack[..|stack| - 1], None)
  {
    var k := |stack| - 1;
    AfterPop(fragment, stack);
    PopRound(base, fragment, initial, stack);
    assert Remaining(fragment, stack[..k], None) == After(fragment, stack[..k]);
  }

  /** Moving the top frame on to its next child keeps the stack linked and the same items to come. */
  lemma DfsVisit(base: Node, fragment: TreeFragment, initial: seq<StackFrame>, stack: seq<StackFrame>,
                 bumped: seq<StackFrame>, child: Node)
    requires DfsLoop(base, fragment, initial, stack, None) && stack != []
    requires stack[|stack| - 1].childBeingVisited + 1 < |stack[|stack| - 1].node.children|
    requires bumped == stack[..|stack| - 1] +
                       [StackFrame(stack[|stack| - 1].node, stack[|stack| - 1].childBeingVisited + 1)]
    requires child == stack[|stack| - 1].node.children[stack[|stack| - 1].childBeingVisited + 1]
    ensures DfsLoop(base, fragment, initial, bumped, Some(child))
  {
    var k := |stack| - 1;
    AfterVisit(fragment, stack, bumped, child);
    assert Remaining(fragment, bumped, Some(child)) == After(fragment, stack);
    VisitRound(base, stack);
    assert stack == initial[..|stack|];
    assert stack[..k] == initial[..k] && stack[k] == initial[k];
  }

  /** The `make_dfs_step` loop starts with no lookahead and the whole stack. */
  lemma DfsStart(base: Node, fragment: TreeFragment, initial: seq<StackFrame>)
    requires Visiting(base, initial, None)
    ensures DfsLoop(base, fragment, initial, initial, None)
  {
    assert initial[..|initial|] == initial;
  }

  /**
   * How `make_dfs_step` leaves the stack that started as `initial`: either empty
   * without a lookahead, or cut back to some frame that moved on to its next
   * child, which is the lookahead; every frame above it had visited its last child.
   */
  ghost predicate DfsOutcome(initial: seq<StackFrame>, stack: seq<StackFrame>, next: Option<Node>) {
    ((next.None? && stack == []) ||
     (next.Some? && 1 <= |stack| <= |initial| &&
      stack == initial[..|stack| - 1] +
               [StackFrame(initial[|stack| - 1].node, initial[|stack| - 1].childBeingVisited + 1)])) &&
    forall j :: |stack| <= j < |initial| ==> initial[j].childBeingVisited + 1 == |initial[j].node.children|
  }

  /** When the `make_dfs_step` loop stops, the iterator is consistent again. */
  lemma DfsExit(base: Node, fragment: TreeFragment, initial: seq<StackFrame>,
                stack: seq<StackFrame>, next: Option<Node>)
    requires DfsLoop(base, fragment, initial, stack, next)
    requires next.Some? || stack == []
    ensures Consistent(base, stack, next)
    ensures Remaining(fragment, stack, next) == After(fragment, initial)
    ensures DfsOutcome(initial, stack, next)
  {
  }

  /** Popping a frame whose last child has been visited. */
  lemma PopRound(base: Node, fragment: TreeFragment, initial: seq<StackFrame>, stack: seq<StackFrame>)
    requires Linked(initial) && initial != []
    requires initial[|initial| - 1].childBeingVisited < |initial[|initial| - 1].node.children|
    requires stack != [] && |stack| <= |initial| && stack == initial[..|stack|]
    requires stack[|stack| - 1].childBeingVisited + 1 >= |stack[|stack| - 1].node.children|
    requires forall j :: |stack| <= j < |initial| ==> initial[j].childBeingVisited + 1 == |initial[j].node.children|
    ensures var k := |stack| - 1;
            stack[..k] == initial[..k] &&
            forall j :: k <= j < |initial| ==> initial[j].childBeingVisited + 1 == |initial[j].node.children|
  {
    var k := |stack| - 1;
    assert stack[k] == initial[k];
    if k < |initial| - 1 {
      assert initial[k].childBeingVisited < |initial[k].node.children|;
    }
  }

  /** Moving the top frame on to its next child keeps the stack linked. */
  lemma VisitRound(base: Node, stack: seq<StackFrame>)
    requires StackFrom(base, stack) && stack != []
    ensures var k := |stack| - 1;
            StackFrom(base, stack[..k] + [StackFrame(stack[k].node, stack[k].childBeingVisited + 1)])
  {
    var k := |stack| - 1;
    var bumped := stack[..k] + [StackFrame(stack[k].node, stack[k].childBeingVisited + 1)];
    forall j | 0 <= j < |bumped| - 1
      ensures bumped[j].childBeingVisited < |bumped[j].node.children| &&
              bumped[j + 1].node == bumped[j].node.children[bumped[j].childBeingVisited]
    {
      assert bumped[j] == stack[j] && bumped[j + 1].node == stack[j + 1].node;
    }
  }

  /** Pushing a frame for an expanded node keeps the remaining leaves the same. */
  lemma DescendStep(fragment: TreeFragment, stack: seq<StackFrame>, current: Node)
    requires Expands(fragment, current)
    ensures var pushed := stack + [StackFrame(current, 0)];
            SubtreeLeaves(fragment, current, Indices(stack)) + After(fragment, stack) ==
            SubtreeLeaves(fragment, current.children[0], Indices(pushed)) + After(fragment, pushed)
  {
    var pushed := stack + [StackFrame(current, 0)];
    assert pushed[..|stack|] == stack;
    assert Indices(pushed) == Indices(stack) + [0];
  }

  /** State of the `descend_to_leaf` loop: pushes only, and what is left does not change. */
  ghost predicate DescendLoop(base: Node, fragment: TreeFragment, initial: seq<StackFrame>, pending: seq<Crumbs>,
                              stack: seq<StackFrame>, current: Node)
  {
    Visiting(base, stack, Some(current)) &&
    Remaining(fragment, stack, Some(current)) == pending &&
    |initial| <= |stack| && stack[..|initial|] == initial &&
    forall j :: |initial| <= j < |stack| ==> stack[j].childBeingVisited == 0
  }

  /** One round of the `descend_to_leaf` loop: push a frame for the lookahead, visit its first child. */
  lemma DescendRound(base: Node, fragment: TreeFragment, initial: seq<StackFrame>, pending: seq<Crumbs>,
                     stack: seq<StackFrame>, current: Node)
    requires DescendLoop(base, fragment, initial, pending, stack, current)
    requires Expands(fragment, current)
    ensures DescendLoop(base, fragment, initial, pending, stack + [StackFrame(current, 0)], current.children[0])
  {
    DescendStep(fragment, stack, current);
    var pushed := stack + [StackFrame(current, 0)];
    assert pushed[..|initial|] == stack[..|initial|];
  }

  class LeafIterator {
    var stack: seq<StackFrame>
    var nextNode: Option<Node>
    const baseNode: Node
    const fragment: TreeFragment

    ghost predicate Valid()
      reads this
    {
      Consistent(baseNode, stack, nextNode)
    }

    /** The lookahead, if any, is a node the policy does not expand: the next item. */
    ghost predicate AtLeaf()
      reads this
    {
      nextNode.Some? ==> !Expands(fragment, nextNode.value)
    }

    /** Crumbs of every item still to be yielded, in order. */
    ghost function Pending(): seq<Crumbs>
      reads this
    {
      Remaining(fragment, stack, nextNode)
    }

    /** `LeafIterator::new`: start at the base's first child and descend to the first leaf. */
    constructor (node: Node, fragment: TreeFragment)
      ensures baseNode == node && this.fragment == fragment
      ensures Valid() && AtLeaf()
      ensures Pending() == LeafPaths(fragment, node)
    {
      stack := [StackFrame(node, 0)];
      nextNode := if |node.children| > 0 then Some(node.children[0]) else None;
      baseNode := node;
      this.fragment := fragment;
      new;
      InitialRemaining(fragment, node);
      DescendToLeaf();
    }

    /**
     * `make_dfs_step`: move the lookahead to the next sibling of the deepest
     * frame that has one, popping every frame whose children are exhausted.
     */
    method MakeDfsStep()
      requires Valid()
      modifies this
      ensures Valid()
      ensures old(nextNode).None? ==> stack == old(stack) && nextNode == old(nextNode)
      ensures old(nextNode).Some? ==> Pending() == old(After(fragment, stack))
      ensures old(nextNode).Some? ==> DfsOutcome(old(stack), stack, nextNode)
    {
      if nextNode.Some? {
        ghost var initial := stack;
        nextNode := None;
        DfsStart(baseNode, fragment, initial);
        while nextNode.None? && stack != []
          invariant DfsFrom(baseNode, initial)
          invariant DfsLoop(baseNode, fragment, initial, stack, nextNode)
          decreases |stack|, if nextNode.None? then 1 else 0
        {
          ghost var before := stack;
          var k := |stack| - 1;
          var parent := stack[k];
          stack := stack[..k] + [StackFrame(parent.node, parent.childBeingVisited + 1)];
          nextNode := if parent.childBeingVisited + 1 < |parent.node.children|
                      then Some(parent.node.children[parent.childBeingVisited + 1])
                      else None;
          if nextNode.None? {
            stack := stack[..k];
          }
          DfsRound(baseNode, fragment, initial, before, stack, nextNode);
        }
        DfsExit(baseNode, fragment, initial, stack, nextNode);
      }
    }

    /**
     * `descend_to_leaf`: while the lookahead is expanded under the policy, push a
     * frame for it and move the lookahead to its first child.
     */
    method DescendToLeaf()
      requires Valid()
      modifies this
      ensures Valid() && AtLeaf()
      ensures old(nextNode).None? ==> stack == old(stack) && nextNode == old(nextNode)
      ensures Pending() == old(Pending())
      ensures nextNode.Some? == old(nextNode).Some?
      ensures |old(stack)| <= |stack| && stack[..|old(stack)|] == old(stack)
      ensures forall j :: |old(stack)| <= j < |stack| ==> stack[j].childBeingVisited == 0
    {
      if nextNode.Some? {
        var current := nextNode.value;
        nextNode := None;
        ghost var pending := Remaining(fragment, stack, Some(current));
        ghost var initial := stack;
        assert stack[..|initial|] == initial;
        while CanDescend(fragment, current) && |current.children| > 0
          invariant DescendLoop(baseNode, fragment, initial, pending, stack, current)
          decreases current
        {
          DescendRound(baseNode, fragment, initial, pending, stack, current);
          stack := stack + [StackFrame(current, 0)];
          current := current.children[0];
        }
        nextNode := Some(current);
      }
    }

    /**
     * `Iterator::next`: yield the lookahead with the crumbs formed by the stack,
     * then advance. Exhaustion is sticky.
     */
    method Next() returns (item: Option<Item>)
      requires Valid() && AtLeaf()
      modifies this
      ensures Valid() && AtLeaf()
      ensures item.None? <==> old(Pending()) == []
      ensures old(nextNode).None? ==> item.None? && stack == old(stack) && nextNode == old(nextNode)
      ensures item.Some? ==>
                old(Pending()) == [item.value.crumbs] + Pending() &&
                item.value.node == old(nextNode).value &&
                GetDescendant(baseNode, item.value.crumbs) == Some(item.value.node)
    {
      RemainingAtLeaf(fragment, baseNode, stack, nextNode);
      if nextNode.Some? {
        var crumbs := Indices(stack);
        var resolved := GetDescendant(baseNode, crumbs);
        StackResolves(baseNode, stack);
        item := if resolved.Some? then Some(Item(crumbs, resolved.value)) else None;
        MakeDfsStep();
        DescendToLeaf();
      } else {
        item := None;
      }
    }
  }

  /** Moving the first pending item to the collected ones keeps their concatenation. */
  lemma DrainStep(collected: seq<Crumbs>, x: Crumbs, pending: seq<Crumbs>, rest: seq<Crumbs>, all: seq<Crumbs>)
    requires collected + pending == all && pending == [x] + rest
    ensures (collected + [x]) + rest == all && |rest| < |pending|
  {
    assert (collected + [x]) + rest == collected + ([x] + rest);
  }

  /** Drains a fresh iterator over `base`, collecting the crumbs of every item. */
  method CollectCrumbs(base: Node, fragment: TreeFragment) returns (crumbs: seq<Crumbs>)
    ensures crumbs == LeafPaths(fragment, base)
  {
    var iter := new LeafIterator(base, fragment);
    crumbs := [];
    while true
      invariant iter.Valid() && iter.AtLeaf() && iter.baseNode == base && iter.fragment == fragment
      invariant crumbs + iter.Pending() == LeafPaths(fragment, base)
      decreases |iter.Pending()|
    {
      ghost var pending := iter.Pending();
      var item := iter.Next();
      if item.None? {
        break;
      }
      DrainStep(crumbs, item.value.crumbs, pending, iter.Pending(), LeafPaths(fragment, base));
      crumbs := crumbs + [item.value.crumbs];
    }
  }
}
