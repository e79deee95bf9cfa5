/** The sidebar of src/components/Sidebar/NavTree.tsx: the search for the
    chain of ids leading to the current page (`findPath`), the set of expanded
    nodes kept by `useExpandedNodes` with its operations, and what `NavItem`
    and `NavTree` render for each node. */
module NavTree {
  import opened Common
  import opened NavNodes

  // ---------------------------------------------------------------------------
  // Root-to-node chains

  /** `cs` with `n` put in front of every chain. */
  function Under(n: NavNode, cs: seq<seq<NavNode>>): (r: seq<seq<NavNode>>)
    ensures |r| == |cs|
    ensures forall k :: 0 <= k < |cs| ==> r[k] == [n] + cs[k]
  {
    seq(|cs|, k requires 0 <= k < |cs| => [n] + cs[k])
  }

  /** Every chain from a top-level node down to some node, in the order a
      pre-order walk meets the chain's last node. */
  function Chains(nodes: seq<NavNode>): seq<seq<NavNode>>
    decreases nodes
  {
    if nodes == [] then []
    else [[nodes[0]]] + Under(nodes[0], Chains(nodes[0].children)) + Chains(nodes[1..])
  }

  /** `c` starts at a node of `nodes` and each node after the first is a child
      of the one before it. */
  predicate IsChain(nodes: seq<NavNode>, c: seq<NavNode>) {
    && c != []
    && c[0] in nodes
    && forall i :: 0 <= i < |c| - 1 ==> c[i + 1] in c[i].children
  }

  function Last(c: seq<NavNode>): NavNode
    requires c != []
  {
    c[|c| - 1]
  }

  lemma {:induction false} ChainsAppend(a: seq<NavNode>, b: seq<NavNode>)
    ensures Chains(a + b) == Chains(a) + Chains(b)
  {
    if a == [] {
      assert a + b == b;
    } else {
      assert (a + b)[0] == a[0];
      assert (a + b)[1..] == a[1..] + b;
      ChainsAppend(a[1..], b);
    }
  }

  /** Every chain is a parent-to-child chain, and the chains end, one for one
      and in the same order, at the nodes of the pre-order walk. */
  lemma {:induction false} ChainsShape(nodes: seq<NavNode>)
    ensures |Chains(nodes)| == |AllNodes(nodes)|
    ensures forall k :: 0 <= k < |Chains(nodes)| ==>
              IsChain(nodes, Chains(nodes)[k]) && Last(Chains(nodes)[k]) == AllNodes(nodes)[k]
    decreases nodes
  {
    if nodes != [] {
      var n := nodes[0];
      ChainsShape(n.children);
      ChainsShape(nodes[1..]);
      var sub := Chains(n.children);
      var below := Under(n, sub);
      var rest := Chains(nodes[1..]);
      assert Chains(nodes) == [[n]] + below + rest;
      assert AllNodes(nodes) == [n] + AllNodes(n.children) + AllNodes(nodes[1..]);
      forall k | 0 <= k < |Chains(nodes)|
        ensures IsChain(nodes, Chains(nodes)[k]) && Last(Chains(nodes)[k]) == AllNodes(nodes)[k]
      {
        if k == 0 {
        } else if k <= |below| {
          var c := sub[k - 1];
          assert Chains(nodes)[k] == [n] + c;
          assert AllNodes(nodes)[k] == AllNodes(n.children)[k - 1];
          ChainBelow(nodes, c);
        } else {
          var j := k - 1 - |below|;
          var c := rest[j];
          assert Chains(nodes)[k] == c;
          assert AllNodes(nodes)[k] == AllNodes(nodes[1..])[j];
          assert c[0] in nodes[1..];
        }
      }
    }
  }

  /** A chain below the first node, with that node put in front, is a chain
      of the whole list ending where it did. */
  lemma ChainBelow(nodes: seq<NavNode>, c: seq<NavNode>)
    requires nodes != [] && IsChain(nodes[0].children, c)
    ensures IsChain(nodes, [nodes[0]] + c) && Last([nodes[0]] + c) == Last(c)
  {
    var n, d := nodes[0], [nodes[0]] + c;
    assert d[0] == n && d[1] == c[0];
    forall i | 0 <= i < |d| - 1
      ensures d[i + 1] in d[i].children
    {
      if i > 0 {
        assert d[i + 1] == c[i] && d[i] == c[i - 1];
      }
    }
  }

  /** Every node on a chain is a node of the walk. */
  lemma ChainNodesInTree(nodes: seq<NavNode>, c: seq<NavNode>)
    requires IsChain(nodes, c)
    ensures forall i :: 0 <= i < |c| ==> c[i] in AllNodes(nodes)
  {
    AllNodesContains(nodes);
    var i := 0;
    while i < |c|
      invariant 0 <= i <= |c|
      invariant forall m :: 0 <= m < i ==> c[m] in AllNodes(nodes)
    {
      if i > 0 {
        assert c[i] in c[i - 1].children;
      }
      i := i + 1;
    }
  }

  // ---------------------------------------------------------------------------
  // findPath

  predicate EndsAtSlug(slug: string, c: seq<NavNode>) {
    c != [] && Last(c).slug == slug
  }

  function SlugMatcher(slug: string): seq<NavNode> -> bool {
    c => EndsAtSlug(slug, c)
  }

  /** The chain findPath looks for: the first, in pre-order, that ends at a
      node with the slug. */
  function FirstChain(nodes: seq<NavNode>, slug: string): Option<seq<NavNode>> {
    var cs := Chains(nodes);
    match FirstIndex(cs, SlugMatcher(slug))
    case None => None
    case Some(k) => Some(cs[k])
  }

  lemma FirstChainAppend(a: seq<NavNode>, b: seq<NavNode>, slug: string)
    ensures FirstChain(a + b, slug) ==
            if FirstChain(a, slug).Some? then FirstChain(a, slug) else FirstChain(b, slug)
  {
    ChainsAppend(a, b);
    FirstIndexAppend(Chains(a), Chains(b), SlugMatcher(slug));
  }

  /** Putting a node in front of non-empty chains does not change which of
      them ends at the slug. */
  lemma FirstIndexUnder(n: NavNode, cs: seq<seq<NavNode>>, slug: string)
    requires forall k :: 0 <= k < |cs| ==> cs[k] != []
    ensures FirstIndex(Under(n, cs), SlugMatcher(slug)) == FirstIndex(cs, SlugMatcher(slug))
  {
    var u := Under(n, cs);
    assert forall k :: 0 <= k < |cs| ==> Last(u[k]) == Last(cs[k]);
    assert forall k :: 0 <= k < |cs| ==> SlugMatcher(slug)(u[k]) == SlugMatcher(slug)(cs[k]);
    FirstIndexUnique(u, SlugMatcher(slug), FirstIndex(cs, SlugMatcher(slug)));
  }

  /** What one top-level node contributes: itself if its slug matches,
      otherwise the first chain below it, with the node put in front. */
  lemma FirstChainOfNode(n: NavNode, slug: string)
    ensures FirstChain([n], slug) ==
            if n.slug == slug then Some([n])
            else match FirstChain(n.children, slug)
              case None => None
              case Some(c) => Some([n] + c)
  {
    var sub := Chains(n.children);
    assert Chains([n]) == [[n]] + Under(n, sub) + Chains([]);
    assert Chains([n]) == [[n]] + Under(n, sub);
    ChainsShape(n.children);
    FirstIndexUnder(n, sub, slug);
    FirstIndexAppend([[n]], Under(n, sub), SlugMatcher(slug));
    assert SlugMatcher(slug)([n]) == (n.slug == slug);
  }

  /** One round of findPath's loop: with no hit before node `i`, a hit at or
      below node `i` is the hit of the whole forest. */
  lemma FindPathStep(nodes: seq<NavNode>, i: nat, slug: string)
    requires i < |nodes|
    requires FirstChain(nodes[..i], slug) == None
    ensures FirstChain(nodes[..i + 1], slug) == FirstChain([nodes[i]], slug)
    ensures FirstChain([nodes[i]], slug).Some? ==> FirstChain(nodes, slug) == FirstChain([nodes[i]], slug)
  {
    var n := nodes[i];
    assert nodes[..i + 1] == nodes[..i] + [n];
    assert nodes == nodes[..i] + ([n] + nodes[i + 1..]);
    FirstChainAppend(nodes[..i], [n], slug);
    FirstChainAppend(nodes[..i], [n] + nodes[i + 1..], slug);
    FirstChainAppend([n], nodes[i + 1..], slug);
  }

  /** The ids findPath returns for a chain, after the ids already on `path`. */
  function PathIds(path: seq<string>, c: Option<seq<NavNode>>): Option<seq<string>> {
    match c
    case None => None
    case Some(chain) => Some(path + Ids(chain))
  }

  /** What the recursive call below a node that does not match contributes. */
  lemma FindPathBelow(node: NavNode, slug: string, path: seq<string>)
    requires node.slug != slug
    ensures PathIds(path + [node.id], FirstChain(node.children, slug)) == PathIds(path, FirstChain([node], slug))
  {
    FirstChainOfNode(node, slug);
    match FirstChain(node.children, slug)
    case None =>
    case Some(c) =>
      IdsAppend([node], c);
      assert Ids([node]) == [node.id];
      assert path + [node.id] + Ids(c) == path + ([node.id] + Ids(c));
  }

  /** A node that matches yields the path extended by its own id. */
  lemma FindPathHere(node: NavNode, slug: string, path: seq<string>)
    requires node.slug == slug
    ensures PathIds(path, FirstChain([node], slug)) == Some(path + [node.id])
  {
    FirstChainOfNode(node, slug);
    assert Ids([node]) == [node.id];
  }

  /** findPath: the nodes are tried in order; a node's own slug is compared
      before its children are searched, and the first hit is returned at once. */
  method FindPath(nodes: seq<NavNode>, currentSlug: string, path: seq<string>)
    returns (r: Option<seq<string>>)
    ensures r == PathIds(path, FirstChain(nodes, currentSlug))
    decreases nodes
  {
    for i := 0 to |nodes|
      invariant FirstChain(nodes[..i], currentSlug) == None
    {
      var node := nodes[i];
      FindPathStep(nodes, i, currentSlug);
      var newPath := path + [node.id];
      if node.slug == currentSlug {
        FindPathHere(node, currentSlug, path);
        return Some(newPath);
      }
      var found := FindPath(node.children, currentSlug, newPath);
      FindPathBelow(node, currentSlug, path);
      if found.Some? {
        return found;
      }
    }
    assert nodes[..|nodes|] == nodes;
    r := None;
  }

  /** What findPath promises: a hit is the chain of ids from a top-level node
      down, parent to child, to the first node of the pre-order walk whose slug
      is `slug`; there is no hit exactly when no node has that slug. */
  lemma FirstChainCorrect(tree: seq<NavNode>, slug: string)
    ensures match FirstChain(tree, slug)
            case Some(c) =>
              && IsChain(tree, c) && Last(c).slug == slug
              && exists k :: 0 <= k < |AllNodes(tree)| && AllNodes(tree)[k] == Last(c) &&
                   forall m :: 0 <= m < k ==> AllNodes(tree)[m].slug != slug
            case None => true
    ensures FirstChain(tree, slug).None? <==> forall n :: n in AllNodes(tree) ==> n.slug != slug
  {
    ChainsShape(tree);
    var cs := Chains(tree);
    var all := AllNodes(tree);
    assert forall k :: 0 <= k < |cs| ==> (SlugMatcher(slug)(cs[k]) <==> all[k].slug == slug);
    forall n | n in all && n.slug == slug
      ensures FirstChain(tree, slug).Some?
    {
      var k :| 0 <= k < |all| && all[k] == n;
      assert SlugMatcher(slug)(cs[k]);
    }
  }

  // ---------------------------------------------------------------------------
  // The expanded set

  /** The ids of the top-level nodes. */
  function TopLevelIds(tree: seq<NavNode>): set<string> {
    set k | 0 <= k < |tree| :: tree[k].id
  }

  /** The ids expandAll collects: every id of the tree, by a `flatMap` recursion. */
  function CollectIds(nodes: seq<NavNode>): seq<string>
    decreases nodes
  {
    if nodes == [] then []
    else [nodes[0].id] + CollectIds(nodes[0].children) + CollectIds(nodes[1..])
  }

  /** collectIds lists the ids of the pre-order walk. */
  lemma {:induction false} CollectIdsIsWalk(nodes: seq<NavNode>)
    ensures CollectIds(nodes) == Ids(AllNodes(nodes))
    decreases nodes
  {
    if nodes != [] {
      CollectIdsIsWalk(nodes[0].children);
      CollectIdsIsWalk(nodes[1..]);
      var a := [nodes[0]];
      var b := AllNodes(nodes[0].children);
      var c := AllNodes(nodes[1..]);
      assert Ids(a + b + c) == Ids(a) + Ids(b) + Ids(c);
    }
  }

  /** `new Set(ids)` */
  function Elems(ids: seq<string>): set<string> {
    set x | x in ids
  }

  lemma ElemsSnoc(ids: seq<string>, x: string)
    ensures Elems(ids + [x]) == Elems(ids) + {x}
  {
  }

  /** The set of every id in the tree. */
  function AllIds(tree: seq<NavNode>): set<string> {
    Elems(CollectIds(tree))
  }

  /** The ids auto-expansion adds: nothing when `currentSlug` is falsy (absent
      or empty) or no node has it, otherwise the ids of the chain findPath finds. */
  function AutoExpandIds(tree: seq<NavNode>, currentSlug: Option<string>): set<string> {
    if currentSlug.None? || currentSlug.value == "" then {}
    else match FirstChain(tree, currentSlug.value)
      case None => {}
      case Some(c) => Elems(Ids(c))
  }

  /** toggle: the membership of `id` flips, every other id keeps its membership. */
  function Toggled(s: set<string>, id: string): (r: set<string>)
    ensures (id in r) <==> (id !in s)
    ensures r - {id} == s - {id}
  {
    if id in s then s - {id} else s + {id}
  }

  /** handleNavClick: following a node's link expands a collapsed node that has
      children and changes nothing otherwise. */
  function AfterNavClick(s: set<string>, node: NavNode): (r: set<string>)
    ensures s <= r
    ensures HasChildren(node) ==> node.id in r
    ensures r - {node.id} == s - {node.id}
    ensures !HasChildren(node) ==> r == s
  {
    if HasChildren(node) && node.id !in s then Toggled(s, node.id) else s
  }

  /** `path.forEach(id => next.add(id))` on a copy of `s`. */
  method AddAll(s: set<string>, ids: seq<string>) returns (r: set<string>)
    ensures r == s + Elems(ids)
  {
    r := s;
    for i := 0 to |ids|
      invariant r == s + Elems(ids[..i])
    {
      assert ids[..i + 1] == ids[..i] + [ids[i]];
      ElemsSnoc(ids[..i], ids[i]);
      r := r + {ids[i]};
    }
    assert ids[..|ids|] == ids;
  }

  /** The state `useExpandedNodes` keeps, with the tree of the latest render. */
  class ExpandedNodes {
    var tree: seq<NavNode>
    var expanded: set<string>

    /** The initial state: the top-level nodes are expanded. */
    constructor (tree: seq<NavNode>)
      ensures this.tree == tree
      ensures expanded == TopLevelIds(tree)
    {
      this.tree := tree;
      var initial: set<string> := {};
      for i := 0 to |tree|
        invariant initial == TopLevelIds(tree[..i])
      {
        assert TopLevelIds(tree[..i + 1]) == TopLevelIds(tree[..i]) + {tree[i].id} by {
          assert forall k :: 0 <= k < i ==> tree[..i + 1][k] == tree[..i][k];
        }
        initial := initial + {tree[i].id};
      }
      assert tree[..|tree|] == tree;
      expanded := initial;
    }

    /** A render with another tree: the hook's state is kept, since the
        `useState` initializer runs on the first render only. The effect and
        `expandAll` then use the new tree. */
    method SetTree(t: seq<NavNode>)
      modifies this`tree
      ensures tree == t
      ensures expanded == old(expanded)
    {
      tree := t;
    }

    /** The effect that runs when `currentSlug` (or the tree) changes: the ids
        on the path to the current page are added. */
    method AutoExpand(currentSlug: Option<string>)
      modifies this`expanded
      ensures expanded == old(expanded) + AutoExpandIds(tree, currentSlug)
    {
      if currentSlug.None? || currentSlug.value == "" {
        return;
      }
      var path := FindPath(tree, currentSlug.value, []);
      if path.Some? {
        assert path.value == Ids(FirstChain(tree, currentSlug.value).value);
        var next := AddAll(expanded, path.value);
        expanded := next;
      }
    }

    method Toggle(id: string)
      modifies this`expanded
      ensures expanded == Toggled(old(expanded), id)
    {
      var next := expanded;
      if id in next {
        next := next - {id};
      } else {
        next := next + {id};
      }
      expanded := next;
    }

    method ExpandAll()
      modifies this`expanded
      ensures expanded == AllIds(tree)
    {
      var ids := CollectIds(tree);
      expanded := Elems(ids);
    }

    method CollapseAll()
      modifies this`expanded
      ensures expanded == {}
    {
      expanded := {};
    }

    /** A click on a node's link (`handleNavClick`). */
    method NavClick(node: NavNode)
      modifies this`expanded
      ensures expanded == AfterNavClick(old(expanded), node)
    {
      if HasChildren(node) && node.id !in expanded {
        Toggle(node.id);
      }
    }
  }

  /** A sidebar first rendered with no tree, then with the real one: the
      initial expansion came from the empty tree, so nothing is expanded. */
  method LateTree(t: seq<NavNode>) returns (e: ExpandedNodes)
    ensures e.tree == t && e.expanded == {}
  {
    e := new ExpandedNodes([]);
    e.SetTree(t);
  }

  /** Toggling the same id twice restores the set. */
  lemma ToggleTwice(s: set<string>, id: string)
    ensures Toggled(Toggled(s, id), id) == s
  {
  }

  /** The initial set holds exactly the ids of the top-level nodes, and those
      are all ids of the tree. */
  lemma TopLevelIdsInTree(tree: seq<NavNode>)
    ensures TopLevelIds(tree) <= AllIds(tree)
    ensures forall x :: x in TopLevelIds(tree) <==> exists k :: 0 <= k < |tree| && tree[k].id == x
  {
    AllNodesContains(tree);
    CollectIdsIsWalk(tree);
    forall x | x in TopLevelIds(tree)
      ensures x in AllIds(tree)
    {
      var k :| 0 <= k < |tree| && tree[k].id == x;
      assert tree[k] in AllNodes(tree);
      var j :| 0 <= j < |AllNodes(tree)| && AllNodes(tree)[j] == tree[k];
      assert CollectIds(tree)[j] == x;
    }
  }

  /** Auto-expansion only adds ids of the tree: after expandAll it changes nothing. */
  lemma AutoExpandIdsInTree(tree: seq<NavNode>, currentSlug: Option<string>)
    ensures AutoExpandIds(tree, currentSlug) <= AllIds(tree)
  {
    if currentSlug.Some? && currentSlug.value != "" {
      match FirstChain(tree, currentSlug.value)
      case None =>
      case Some(c) =>
        FirstChainCorrect(tree, currentSlug.value);
        ChainNodesInTree(tree, c);
        CollectIdsIsWalk(tree);
        forall x | x in Ids(c)
          ensures x in AllIds(tree)
        {
          var i :| 0 <= i < |c| && c[i].id == x;
          var j :| 0 <= j < |AllNodes(tree)| && AllNodes(tree)[j] == c[i];
          assert CollectIds(tree)[j] == x;
        }
    }
  }

  /** When some node has the current slug, auto-expansion opens that node and
      every node above it. */
  lemma AutoExpandOpensAncestors(tree: seq<NavNode>, slug: string)
    requires slug != ""
    requires exists n :: n in AllNodes(tree) && n.slug == slug
    ensures FirstChain(tree, slug).Some?
    ensures var c := FirstChain(tree, slug).value;
            forall i :: 0 <= i < |c| ==> c[i].id in AutoExpandIds(tree, Some(slug))
  {
    FirstChainCorrect(tree, slug);
  }

  /** Auto-expansion adds nothing when the current slug is falsy or no node
      of the tree has it. */
  lemma AutoExpandWithoutMatch(tree: seq<NavNode>, currentSlug: Option<string>)
    requires || currentSlug.None? || currentSlug.value == ""
             || forall n :: n in AllNodes(tree) ==> n.slug != currentSlug.value
    ensures AutoExpandIds(tree, currentSlug) == {}
  {
    if currentSlug.Some? && currentSlug.value != "" {
      FirstChainCorrect(tree, currentSlug.value);
    }
  }

  // ---------------------------------------------------------------------------
  // Rendering

  /** What a node's title is rendered as. */
  datatype Label =
    | ExternalLink(url: Option<string>)  // `<a target="_blank">`
    | PageLink(href: string)              // a `Link` to `/page/<slug>`
    | PlainText                           // a `span`

  /** What NavItem renders for one node, without the markup. */
  datatype Row = Row(
    id: string,
    title: string,
    paddingLeft: int,
    toggleButton: bool,
    link: Label,
    active: bool,
    csvBadge: bool)

  /** `isClickable`: not external, and a truthy `filePath` or some children. */
  predicate IsClickable(node: NavNode) {
    !node.isExternal && (HasFile(node) || HasChildren(node))
  }

  /** `isActive`: the node's slug is the current slug (never, without one). */
  predicate IsActive(node: NavNode, currentSlug: Option<string>) {
    currentSlug == Some(node.slug)
  }

  /** The row NavItem renders for `node` at depth `level`. */
  function RowOf(node: NavNode, level: nat, currentSlug: Option<string>): (r: Row)
    ensures r.id == node.id && r.title == node.title
    ensures r.paddingLeft == level * 12 + 8
    ensures r.toggleButton <==> HasChildren(node)
    ensures r.link.ExternalLink? <==> node.isExternal
    ensures r.link.ExternalLink? ==> r.link.url == node.externalUrl
    ensures r.link.PageLink? <==> IsClickable(node)
    ensures r.link.PageLink? ==> r.link.href == "/page/" + node.slug
    ensures r.link.PlainText? <==> !node.isExternal && !HasFile(node) && !HasChildren(node)
    ensures r.active <==> currentSlug.Some? && currentSlug.value == node.slug
    ensures r.csvBadge == node.isCsv
  {
    Row(
      node.id,
      node.title,
      level * 12 + 8,
      HasChildren(node),
      if node.isExternal then ExternalLink(node.externalUrl)
      else if IsClickable(node) then PageLink("/page/" + node.slug)
      else PlainText,
      IsActive(node, currentSlug),
      node.isCsv)
  }

  /** The rows NavTree renders for `nodes` at depth `level`: each node's row,
      followed by its children's rows when it has children and is expanded. */
  function VisibleRows(nodes: seq<NavNode>, level: nat, currentSlug: Option<string>, expanded: set<string>): seq<Row>
    decreases nodes
  {
    if nodes == [] then []
    else
      var n := nodes[0];
      [RowOf(n, level, currentSlug)]
      + (if HasChildren(n) && n.id in expanded then VisibleRows(n.children, level + 1, currentSlug, expanded) else [])
      + VisibleRows(nodes[1..], level, currentSlug, expanded)
  }

  /** The node ids of rendered rows, in order. */
  function RowIds(rows: seq<Row>): (r: seq<string>)
    ensures |r| == |rows|
  {
    if rows == [] then [] else [rows[0].id] + RowIds(rows[1..])
  }

  lemma {:induction false} RowIdsAppend(a: seq<Row>, b: seq<Row>)
    ensures RowIds(a + b) == RowIds(a) + RowIds(b)
  {
    if a == [] {
      assert a + b == b;
    } else {
      assert (a + b)[0] == a[0];
      assert (a + b)[1..] == a[1..] + b;
      RowIdsAppend(a[1..], b);
    }
  }

  /** After collapseAll exactly the top-level nodes are shown, in order. */
  lemma {:induction false} CollapsedShowsTopLevel(nodes: seq<NavNode>, level: nat, currentSlug: Option<string>)
    ensures RowIds(VisibleRows(nodes, level, currentSlug, {})) == Ids(nodes)
    decreases nodes
  {
    if nodes != [] {
      CollapsedShowsTopLevel(nodes[1..], level, currentSlug);
      VisibleRowIds(nodes, level, currentSlug, {});
      assert Ids(nodes) == [nodes[0].id] + Ids(nodes[1..]) by {
        assert nodes == [nodes[0]] + nodes[1..];
        IdsAppend([nodes[0]], nodes[1..]);
      }
    }
  }

  /** The rows of a forest: the first node's row, the rows below it when it
      is expanded, then the rows of its siblings. */
  lemma VisibleRowIds(nodes: seq<NavNode>, level: nat, currentSlug: Option<string>, expanded: set<string>)
    requires nodes != []
    ensures var n := nodes[0];
            RowIds(VisibleRows(nodes, level, currentSlug, expanded)) ==
              [n.id]
              + (if HasChildren(n) && n.id in expanded
                 then RowIds(VisibleRows(n.children, level + 1, currentSlug, expanded)) else [])
              + RowIds(VisibleRows(nodes[1..], level, currentSlug, expanded))
  {
    var n := nodes[0];
    var row := RowOf(n, level, currentSlug);
    var sub := if HasChildren(n) && n.id in expanded then VisibleRows(n.children, level + 1, currentSlug, expanded) else [];
    var rest := VisibleRows(nodes[1..], level, currentSlug, expanded);
    assert VisibleRows(nodes, level, currentSlug, expanded) == [row] + sub + rest;
    RowIdsAppend([row] + sub, rest);
    RowIdsAppend([row], sub);
  }

  /** The ids of the walk: the first node's, its descendants', then its
      siblings' walks. */
  lemma WalkIds(nodes: seq<NavNode>)
    requires nodes != []
    ensures AllNodes(nodes) == [nodes[0]] + AllNodes(nodes[0].children) + AllNodes(nodes[1..])
    ensures Ids(AllNodes(nodes)) == [nodes[0].id] + Ids(AllNodes(nodes[0].children)) + Ids(AllNodes(nodes[1..]))
  {
    var a, b, c := [nodes[0]], AllNodes(nodes[0].children), AllNodes(nodes[1..]);
    assert AllNodes(nodes) == a + b + c;
    assert Ids(a + b + c) == Ids(a + b) + Ids(c) by {
      IdsAppend(a + b, c);
    }
    assert Ids(a + b) == Ids(a) + Ids(b) by {
      IdsAppend(a, b);
    }
    assert Ids(a) == [nodes[0].id];
  }

  /** When every id of the tree is expanded (after expandAll) every node is
      shown, in pre-order. */
  lemma {:induction false} ExpandedShowsAll(nodes: seq<NavNode>, level: nat, currentSlug: Option<string>, expanded: set<string>)
    requires forall n :: n in AllNodes(nodes) ==> n.id in expanded
    ensures RowIds(VisibleRows(nodes, level, currentSlug, expanded)) == Ids(AllNodes(nodes))
    decreases nodes
  {
    if nodes != [] {
      var n := nodes[0];
      WalkIds(nodes);
      VisibleRowIds(nodes, level, currentSlug, expanded);
      assert n.id in expanded;
      if HasChildren(n) {
        ExpandedShowsAll(n.children, level + 1, currentSlug, expanded);
      } else {
        assert AllNodes(n.children) == [];
      }
      ExpandedShowsAll(nodes[1..], level, currentSlug, expanded);
    }
  }
}
