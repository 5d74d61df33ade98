/**
 * The part of a span-tree node that traversal reads: its kind and its ordered
 * children. Spans, offsets and payloads do not influence traversal and are not
 * modelled. A node inside a tree is addressed by `Crumbs`, the sequence of child
 * indices leading to it from a base node.
 */
module SpanNode {
  import opened Wrappers

  /** The role of a node; only `Chained` matters to traversal. */
  datatype Kind = Chained | Other

  datatype Node = Node(kind: Kind, children: seq<Node>)

  /** A path of child indices, read from the base node downwards. */
  type Crumbs = seq<nat>

  /**
   * Resolves `crumbs` against `node` by taking the indexed child at every step;
   * fails on the first index that is out of range.
   */
  function GetDescendant(node: Node, crumbs: Crumbs): Option<Node>
    decreases crumbs
  {
    if crumbs == [] then Some(node)
    else if crumbs[0] < |node.children| then GetDescendant(node.children[crumbs[0]], crumbs[1..])
    else None
  }

  /** Resolving a concatenated path is resolving its two halves one after the other. */
  lemma {:induction false} GetDescendantAppend(node: Node, p: Crumbs, q: Crumbs)
    ensures GetDescendant(node, p + q) ==
              match GetDescendant(node, p)
              case None => None
              case Some(mid) => GetDescendant(mid, q)
    decreases p
  {
    if p != [] {
      assert (p + q)[0] == p[0];
      assert (p + q)[1..] == p[1..] + q;
      if p[0] < |node.children| {
        GetDescendantAppend(node.children[p[0]], p[1..], q);
      }
    } else {
      assert p + q == q;
    }
  }

  /** Number of nodes in the subtree rooted at `node`, `node` included. */
  function Size(node: Node): nat
    decreases node, 1
  {
    1 + SizeFrom(node, 0)
  }

  /** Number of nodes in the subtrees of the children of `node` from index `i` on. */
  function SizeFrom(node: Node, i: nat): nat
    decreases node, 0, |node.children| - i
  {
    if i >= |node.children| then 0 else Size(node.children[i]) + SizeFrom(node, i + 1)
  }
}
