/** The navigation node the sidebar and the home page receive from the export
    tree parser (which is not part of this model), and the pre-order walk of a
    forest of such nodes that both components rely on. */
module NavNodes {
  import opened Common

  /** One entry of the navigation tree: a page, a section, a dataset or an
      external link. `children` is in navigation order. */
  datatype NavNode = NavNode(
    id: string,
    slug: string,
    title: string,
    filePath: Option<string>,
    isCsv: bool,
    isExternal: bool,
    externalUrl: Option<string>,
    children: seq<NavNode>)

  /** JavaScript truthiness of `node.filePath`: present and not the empty string. */
  predicate HasFile(n: NavNode) {
    n.filePath.Some? && n.filePath.value != ""
  }

  /** `node.children.length > 0` */
  predicate HasChildren(n: NavNode) {
    |n.children| > 0
  }

  /** The ids of a sequence of nodes, in order. */
  function Ids(nodes: seq<NavNode>): (r: seq<string>)
    ensures |r| == |nodes|
    ensures forall k :: 0 <= k < |nodes| ==> r[k] == nodes[k].id
  {
    seq(|nodes|, k requires 0 <= k < |nodes| => nodes[k].id)
  }

  lemma IdsAppend(a: seq<NavNode>, b: seq<NavNode>)
    ensures Ids(a + b) == Ids(a) + Ids(b)
  {
    var l, r := Ids(a + b), Ids(a) + Ids(b);
    assert |l| == |r|;
    forall k | 0 <= k < |l|
      ensures l[k] == r[k]
    {
      if k < |a| {
        assert (a + b)[k] == a[k];
      } else {
        assert (a + b)[k] == b[k - |a|];
      }
    }
  }

  /** Every node of a forest in pre-order: a node, then its descendants, then
      its next sibling. */
  function AllNodes(nodes: seq<NavNode>): seq<NavNode>
    decreases nodes
  {
    if nodes == [] then []
    else [nodes[0]] + AllNodes(nodes[0].children) + AllNodes(nodes[1..])
  }

  lemma {:induction false} AllNodesAppend(a: seq<NavNode>, b: seq<NavNode>)
    ensures AllNodes(a + b) == AllNodes(a) + AllNodes(b)
  {
    if a == [] {
      assert a + b == b;
    } else {
      assert (a + b)[0] == a[0];
      assert (a + b)[1..] == a[1..] + b;
      AllNodesAppend(a[1..], b);
    }
  }

  /** Every top-level node, and every child of a node of the walk, is met by the walk. */
  lemma {:induction false} AllNodesContains(nodes: seq<NavNode>)
    ensures forall n :: n in nodes ==> n in AllNodes(nodes)
    ensures forall n, c :: n in AllNodes(nodes) && c in n.children ==> c in AllNodes(nodes)
    decreases nodes
  {
    if nodes != [] {
      var head := nodes[0];
      AllNodesContains(head.children);
      AllNodesContains(nodes[1..]);
      assert AllNodes(nodes) == [head] + AllNodes(head.children) + AllNodes(nodes[1..]);
      forall n | n in nodes
        ensures n in AllNodes(nodes)
      {
        if n != head {
          var k :| 0 <= k < |nodes| && nodes[k] == n;
          assert nodes[1..][k - 1] == n;
        }
      }
    }
  }
}
