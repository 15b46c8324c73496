/** The client's conversion of API data into graph elements
    (static/script.js): `displayGraph` for the whole mechanic graph and the
    `buildElements` walk inside `displayTree` for one evolution tree. The
    drawing library calls that consume the elements are left out. */
module GraphView {
  import opened Wrappers
  import opened Text

  /** A mechanic as listed by the API. */
  datatype MechanicJson = MechanicJson(id: int, name: string, description: Option<string>, year: Option<int>)

  /** A link as listed by the API. */
  datatype LinkJson = LinkJson(id: int, fromId: int, toId: int, linkType: string)

  /** The `data` of one graph element (`caption` is the `label` key). */
  datatype Element =
    | NodeElement(id: string, caption: string, description: Option<string>, year: Option<int>, mechanicId: int)
    | EdgeElement(id: string, source: string, target: string, linkType: string)

  /** The element id `node-${id}`. */
  function NodeKey(id: int): string {
    "node-" + IntToString(id)
  }

  function MechanicNode(m: MechanicJson): Element {
    NodeElement(NodeKey(m.id), m.name, m.description, m.year, m.id)
  }

  function LinkEdge(l: LinkJson): Element {
    EdgeElement("edge-" + IntToString(l.id), NodeKey(l.fromId), NodeKey(l.toId), l.linkType)
  }

  /** One node per mechanic, in list order. */
  function Nodes(mechanics: seq<MechanicJson>): seq<Element> {
    seq(|mechanics|, i requires 0 <= i < |mechanics| => MechanicNode(mechanics[i]))
  }

  /** One edge per link, in list order. */
  function Edges(links: seq<LinkJson>): seq<Element> {
    seq(|links|, j requires 0 <= j < |links| => LinkEdge(links[j]))
  }

  /** The element list `displayGraph` hands to the drawing library: one node
      per mechanic, then one edge per link, each list in its given order. */
  function GraphElements(mechanics: seq<MechanicJson>, links: seq<LinkJson>): seq<Element> {
    Nodes(mechanics) + Edges(links)
  }

  lemma NodesStep(mechanics: seq<MechanicJson>, i: nat)
    requires i < |mechanics|
    ensures Nodes(mechanics[..i + 1]) == Nodes(mechanics[..i]) + [MechanicNode(mechanics[i])]
  {
    var longer, shorter := Nodes(mechanics[..i + 1]), Nodes(mechanics[..i]) + [MechanicNode(mechanics[i])];
    forall k | 0 <= k <= i
      ensures longer[k] == shorter[k]
    {
      assert mechanics[..i + 1][k] == mechanics[k];
      if k < i {
        assert mechanics[..i][k] == mechanics[k];
      }
    }
  }

  lemma EdgesStep(links: seq<LinkJson>, j: nat)
    requires j < |links|
    ensures Edges(links[..j + 1]) == Edges(links[..j]) + [LinkEdge(links[j])]
  {
    var longer, shorter := Edges(links[..j + 1]), Edges(links[..j]) + [LinkEdge(links[j])];
    forall k | 0 <= k <= j
      ensures longer[k] == shorter[k]
    {
      assert links[..j + 1][k] == links[k];
      if k < j {
        assert links[..j][k] == links[k];
      }
    }
  }

  /** `displayGraph(mechanics, links)`: the two `forEach` loops pushing
      elements. */
  method DisplayGraph(mechanics: seq<MechanicJson>, links: seq<LinkJson>) returns (elements: seq<Element>)
    ensures elements == GraphElements(mechanics, links)
  {
    elements := [];
    for i := 0 to |mechanics|
      invariant elements == Nodes(mechanics[..i])
    {
      NodesStep(mechanics, i);
      elements := elements + [MechanicNode(mechanics[i])];
    }
    assert mechanics[..|mechanics|] == mechanics;
    for j := 0 to |links|
      invariant elements == Nodes(mechanics) + Edges(links[..j])
    {
      EdgesStep(links, j);
      elements := elements + [LinkEdge(links[j])];
    }
    assert links[..|links|] == links;
  }

  /** Some node element of `elements` has the element id `key`. */
  ghost predicate HasNode(elements: seq<Element>, key: string) {
    exists k :: 0 <= k < |elements| && elements[k].NodeElement? && elements[k].id == key
  }

  /** One element per mechanic and per link, every node before every edge. */
  lemma GraphShape(mechanics: seq<MechanicJson>, links: seq<LinkJson>)
    ensures |GraphElements(mechanics, links)| == |mechanics| + |links|
    ensures forall i :: 0 <= i < |mechanics| ==> GraphElements(mechanics, links)[i].NodeElement?
    ensures forall i :: |mechanics| <= i < |mechanics| + |links| ==> GraphElements(mechanics, links)[i].EdgeElement?
    ensures forall i, j :: 0 <= i < j < |GraphElements(mechanics, links)| ==>
              GraphElements(mechanics, links)[i].EdgeElement? ==> GraphElements(mechanics, links)[j].EdgeElement?
  {
  }

  /** An element id `node-${id}` names a node of the graph exactly when some
      listed mechanic has that id; so an edge's endpoints resolve exactly
      when its link's endpoints are listed mechanics. */
  lemma NodeKeyResolves(mechanics: seq<MechanicJson>, links: seq<LinkJson>, id: int)
    ensures HasNode(GraphElements(mechanics, links), NodeKey(id))
        <==> exists i :: 0 <= i < |mechanics| && mechanics[i].id == id
  {
    var es := GraphElements(mechanics, links);
    if HasNode(es, NodeKey(id)) {
      var k :| 0 <= k < |es| && es[k].NodeElement? && es[k].id == NodeKey(id);
      assert k < |mechanics|;
      assert es[k] == MechanicNode(mechanics[k]);
      PrefixedIntInjective("node-", mechanics[k].id, id);
    }
    if exists i :: 0 <= i < |mechanics| && mechanics[i].id == id {
      var i :| 0 <= i < |mechanics| && mechanics[i].id == id;
      assert es[i] == MechanicNode(mechanics[i]);
    }
  }

  // ---------------------------------------------------------------------
  // displayTree
  // ---------------------------------------------------------------------

  /** A tree node as the client reads it from the tree response. */
  datatype TreeNodeJson = TreeNodeJson(
    id: int, name: string, description: Option<string>, year: Option<int>,
    cycle: bool, children: seq<ChildJson>)

  /** One entry of `node.children`: the link type and the child node. */
  datatype ChildJson = ChildJson(linkType: string, node: TreeNodeJson)

  function TreeNode(n: TreeNodeJson): Element {
    NodeElement(NodeKey(n.id), n.name, n.description, n.year, n.id)
  }

  /** The edge `edge-${parent}-${child}` pushed after a child's subtree. */
  function TreeEdge(parentId: int, child: ChildJson): Element {
    EdgeElement("edge-" + IntToString(parentId) + "-" + IntToString(child.node.id),
                NodeKey(parentId), NodeKey(child.node.id), child.linkType)
  }

  /** The elements pushed so far and the shared `visited` set. */
  datatype Emitted = Emitted(elements: seq<Element>, visited: set<int>)

  /** The mechanic ids of the node elements. */
  function NodeIds(elements: seq<Element>): set<int> {
    if |elements| == 0 then {}
    else (if elements[0].NodeElement? then {elements[0].mechanicId} else {}) + NodeIds(elements[1..])
  }

  /** No two node elements carry the same mechanic id. */
  predicate UniqueNodes(elements: seq<Element>) {
    forall i, j :: 0 <= i < j < |elements| && elements[i].NodeElement? && elements[j].NodeElement? ==>
      elements[i].mechanicId != elements[j].mechanicId
  }

  /** Every node element's id is `node-${mechanicId}`. */
  predicate Keyed(elements: seq<Element>) {
    forall i :: 0 <= i < |elements| && elements[i].NodeElement? ==>
      elements[i].id == NodeKey(elements[i].mechanicId)
  }

  function Keys(ids: set<int>): set<string> {
    set i | i in ids :: NodeKey(i)
  }

  /** Every edge's source and target is `node-${id}` for an id of `ids`. */
  predicate EdgesWithin(elements: seq<Element>, ids: set<int>) {
    forall k :: 0 <= k < |elements| && elements[k].EdgeElement? ==>
      elements[k].source in Keys(ids) && elements[k].target in Keys(ids)
  }

  /** The walk's bookkeeping: `visited` grew by exactly the ids of the new
      node elements, which are pairwise distinct and were not visited
      before, and every new edge joins ids visited by the end. */
  predicate Extends(before: set<int>, r: Emitted) {
    && r.visited == before + NodeIds(r.elements)
    && NodeIds(r.elements) !! before
    && UniqueNodes(r.elements)
    && Keyed(r.elements)
    && EdgesWithin(r.elements, r.visited)
  }

  lemma {:induction false} NodeIdsConcat(a: seq<Element>, b: seq<Element>)
    ensures NodeIds(a + b) == NodeIds(a) + NodeIds(b)
    decreases |a|
  {
    if |a| > 0 {
      assert (a + b)[1..] == a[1..] + b;
      NodeIdsConcat(a[1..], b);
    } else {
      assert a + b == b;
    }
  }

  lemma {:induction false} NodeIdsMember(elements: seq<Element>, i: nat)
    requires i < |elements| && elements[i].NodeElement?
    ensures elements[i].mechanicId in NodeIds(elements)
    decreases i
  {
    if i > 0 {
      NodeIdsMember(elements[1..], i - 1);
    }
  }

  lemma UniqueConcat(a: seq<Element>, b: seq<Element>)
    requires UniqueNodes(a) && UniqueNodes(b) && NodeIds(a) !! NodeIds(b)
    ensures UniqueNodes(a + b)
  {
    var s := a + b;
    forall i, j | 0 <= i < j < |s| && s[i].NodeElement? && s[j].NodeElement?
      ensures s[i].mechanicId != s[j].mechanicId
    {
      if j < |a| {
        assert s[i] == a[i] && s[j] == a[j];
      } else if i >= |a| {
        assert s[i] == b[i - |a|] && s[j] == b[j - |a|];
      } else {
        NodeIdsMember(a, i);
        NodeIdsMember(b, j - |a|);
        assert s[i] == a[i] && s[j] == b[j - |a|];
      }
    }
  }

  lemma KeysMonotone(small: set<int>, large: set<int>)
    requires small <= large
    ensures Keys(small) <= Keys(large)
  {
  }

  lemma EdgesWithinConcat(a: seq<Element>, b: seq<Element>, ids: set<int>)
    requires EdgesWithin(a, ids) && EdgesWithin(b, ids)
    ensures EdgesWithin(a + b, ids)
  {
    var s := a + b;
    forall k | 0 <= k < |s| && s[k].EdgeElement?
      ensures s[k].source in Keys(ids) && s[k].target in Keys(ids)
    {
      if k < |a| {
        assert s[k] == a[k];
      } else {
        assert s[k] == b[k - |a|];
      }
    }
  }

  lemma EdgesWithinGrow(elements: seq<Element>, small: set<int>, large: set<int>)
    requires EdgesWithin(elements, small) && small <= large
    ensures EdgesWithin(elements, large)
  {
    KeysMonotone(small, large);
  }

  /** Every element a tree can contribute: each node's own element and, for
      every child not flagged as a cycle, the child's elements and the edge
      from the parent to it. */
  function TreeElements(node: TreeNodeJson): set<Element>
    decreases node
  {
    {TreeNode(node)} + ChildrenElements(node.id, node.children)
  }

  function ChildrenElements(parentId: int, children: seq<ChildJson>): set<Element>
    decreases children
  {
    if |children| == 0 then {}
    else if children[0].node.cycle then ChildrenElements(parentId, children[1..])
    else TreeElements(children[0].node) + {TreeEdge(parentId, children[0])}
         + ChildrenElements(parentId, children[1..])
  }

  /** One edge per child not flagged as a cycle, in child order. */
  function ChildEdges(parentId: int, children: seq<ChildJson>): seq<Element> {
    if |children| == 0 then []
    else (if children[0].node.cycle then [] else [TreeEdge(parentId, children[0])])
         + ChildEdges(parentId, children[1..])
  }

  /** The edge elements leaving the element id `key`, in order. */
  function EdgesFrom(key: string, elements: seq<Element>): seq<Element> {
    if |elements| == 0 then []
    else (if elements[0].EdgeElement? && elements[0].source == key then [elements[0]] else [])
         + EdgesFrom(key, elements[1..])
  }

  lemma {:induction false} EdgesFromConcat(key: string, a: seq<Element>, b: seq<Element>)
    ensures EdgesFrom(key, a + b) == EdgesFrom(key, a) + EdgesFrom(key, b)
    decreases |a|
  {
    if |a| > 0 {
      assert (a + b)[1..] == a[1..] + b;
      EdgesFromConcat(key, a[1..], b);
    } else {
      assert a + b == b;
    }
  }

  /** Every edge leaves `node-${id}` for an id of `ids`. */
  predicate SourcesWithin(elements: seq<Element>, ids: set<int>) {
    forall e :: e in elements && e.EdgeElement? ==> e.source in Keys(ids)
  }

  lemma {:induction false} EdgesFromNone(key: string, elements: seq<Element>, ids: set<int>)
    requires SourcesWithin(elements, ids) && key !in Keys(ids)
    ensures EdgesFrom(key, elements) == []
    decreases |elements|
  {
    if |elements| > 0 {
      assert elements[0] in elements;
      assert SourcesWithin(elements[1..], ids) by {
        forall e | e in elements[1..] && e.EdgeElement?
          ensures e.source in Keys(ids)
        {
          var i :| 0 <= i < |elements[1..]| && elements[1..][i] == e;
          assert elements[i + 1] == e;
        }
      }
      EdgesFromNone(key, elements[1..], ids);
    }
  }

  /** `node-${id}` names no other id. */
  lemma KeyOutside(id: int, ids: set<int>)
    requires id !in ids
    ensures NodeKey(id) !in Keys(ids)
  {
    if NodeKey(id) in Keys(ids) {
      var x :| x in ids && NodeKey(x) == NodeKey(id);
      PrefixedIntInjective("node-", x, id);
    }
  }

  /** Every edge is pushed after the node elements of both its ends: their
      ids were visited before (`before`) or emitted earlier in `elements`. */
  predicate EndpointsFirst(before: set<int>, elements: seq<Element>) {
    forall k :: 0 <= k < |elements| && elements[k].EdgeElement? ==>
      && elements[k].source in Keys(before + NodeIds(elements[..k]))
      && elements[k].target in Keys(before + NodeIds(elements[..k]))
  }

  lemma EndpointsFirstConcat(before: set<int>, a: seq<Element>, b: seq<Element>)
    requires EndpointsFirst(before, a) && EndpointsFirst(before + NodeIds(a), b)
    ensures EndpointsFirst(before, a + b)
  {
    var s := a + b;
    forall k | 0 <= k < |s| && s[k].EdgeElement?
      ensures s[k].source in Keys(before + NodeIds(s[..k]))
      ensures s[k].target in Keys(before + NodeIds(s[..k]))
    {
      if k < |a| {
        assert s[k] == a[k] && s[..k] == a[..k];
      } else {
        assert s[k] == b[k - |a|];
        assert s[..k] == a + b[..k - |a|];
        NodeIdsConcat(a, b[..k - |a|]);
        assert before + NodeIds(s[..k]) == (before + NodeIds(a)) + NodeIds(b[..k - |a|]);
      }
    }
  }

  /** The bookkeeping after one non-cycle child: its subtree `sub`, then
      its edge, then the remaining children's `rest`. */
  lemma ChildExtends(parentId: int, visited: set<int>, sub: Emitted, edge: Element, rest: Emitted)
    requires parentId in visited
    requires Extends(visited, sub) && Extends(sub.visited, rest)
    requires edge.EdgeElement? && edge.source == NodeKey(parentId)
    requires edge.target in Keys(sub.visited)
    ensures Extends(visited, Emitted(sub.elements + [edge] + rest.elements, rest.visited))
  {
    var front := sub.elements + [edge];
    NodeIdsConcat(sub.elements, [edge]);
    assert NodeIds([edge]) == {};
    NodeIdsConcat(front, rest.elements);
    UniqueConcat(sub.elements, [edge]);
    UniqueConcat(front, rest.elements);
    EdgesWithinGrow(sub.elements, sub.visited, rest.visited);
    KeysMonotone(sub.visited, rest.visited);
    assert EdgesWithin([edge], rest.visited) by {
      assert parentId in rest.visited;
      assert NodeKey(parentId) in Keys(rest.visited);
    }
    EdgesWithinConcat(sub.elements, [edge], rest.visited);
    EdgesWithinConcat(front, rest.elements, rest.visited);
    var all := front + rest.elements;
    assert Keyed(all) by {
      forall i | 0 <= i < |all| && all[i].NodeElement?
        ensures all[i].id == NodeKey(all[i].mechanicId)
      {
        if i < |sub.elements| {
          assert all[i] == sub.elements[i];
        } else if i > |sub.elements| {
          assert all[i] == rest.elements[i - |front|];
        }
      }
    }
  }

  /** After one non-cycle child, every edge still follows both its ends. */
  lemma ChildEndpointsFirst(parentId: int, visited: set<int>, sub: Emitted, edge: Element, rest: Emitted)
    requires parentId in visited
    requires sub.visited == visited + NodeIds(sub.elements)
    requires edge.EdgeElement? && edge.source == NodeKey(parentId)
    requires edge.target in Keys(sub.visited)
    requires EndpointsFirst(visited, sub.elements) && EndpointsFirst(sub.visited, rest.elements)
    ensures EndpointsFirst(visited, sub.elements + [edge] + rest.elements)
  {
    var front := sub.elements + [edge];
    NodeIdsConcat(sub.elements, [edge]);
    assert NodeIds([edge]) == {};
    assert NodeKey(parentId) in Keys(sub.visited) by {
      assert parentId in sub.visited;
    }
    assert [edge][..0] == [];
    assert EndpointsFirst(visited + NodeIds(sub.elements), [edge]);
    EndpointsFirstConcat(visited, sub.elements, [edge]);
    EndpointsFirstConcat(visited, front, rest.elements);
  }

  /** After one non-cycle child, every edge leaves the parent or a new node. */
  lemma ChildSources(parentId: int, sub: Emitted, edge: Element, rest: Emitted)
    requires edge.EdgeElement? && edge.source == NodeKey(parentId)
    requires SourcesWithin(sub.elements, NodeIds(sub.elements))
    requires SourcesWithin(rest.elements, NodeIds(rest.elements) + {parentId})
    ensures var all := sub.elements + [edge] + rest.elements;
      SourcesWithin(all, NodeIds(all) + {parentId})
  {
    var front := sub.elements + [edge];
    var all := front + rest.elements;
    NodeIdsConcat(sub.elements, [edge]);
    assert NodeIds([edge]) == {};
    NodeIdsConcat(front, rest.elements);
    var u := NodeIds(all) + {parentId};
    KeysMonotone(NodeIds(sub.elements), u);
    KeysMonotone(NodeIds(rest.elements) + {parentId}, u);
    assert NodeKey(parentId) in Keys(u) by {
      assert parentId in u;
    }
    forall e | e in all && e.EdgeElement?
      ensures e.source in Keys(u)
    {
      if e in sub.elements {
        assert e.source in Keys(NodeIds(sub.elements));
      } else if e in rest.elements {
        assert e.source in Keys(NodeIds(rest.elements) + {parentId});
      } else {
        assert e == edge;
      }
    }
  }

  /** After one non-cycle child, the edges leaving the parent are this
      child's edge followed by those of the remaining children: the
      subtree, whose new nodes exclude the visited parent, adds none. */
  lemma ChildEdgesFrom(parentId: int, visited: set<int>, sub: Emitted, edge: Element, rest: Emitted)
    requires parentId in visited
    requires NodeIds(sub.elements) !! visited
    requires edge.EdgeElement? && edge.source == NodeKey(parentId)
    requires SourcesWithin(sub.elements, NodeIds(sub.elements))
    ensures EdgesFrom(NodeKey(parentId), sub.elements + [edge] + rest.elements)
         == [edge] + EdgesFrom(NodeKey(parentId), rest.elements)
  {
    var key := NodeKey(parentId);
    KeyOutside(parentId, NodeIds(sub.elements));
    EdgesFromNone(key, sub.elements, NodeIds(sub.elements));
    EdgesFromSingle(key, edge);
    EdgesFromConcat(key, sub.elements, [edge]);
    EdgesFromConcat(key, sub.elements + [edge], rest.elements);
  }

  lemma EdgesFromSingle(key: string, edge: Element)
    requires edge.EdgeElement? && edge.source == key
    ensures EdgesFrom(key, [edge]) == [edge]
  {
    assert [edge][1..] == [];
  }

  /** The new facts about an unvisited node: its element, then the
      children's elements `rest`. */
  lemma BuildElementsStep(node: TreeNodeJson, visited: set<int>, rest: Emitted)
    requires node.id !in visited
    requires Extends(visited + {node.id}, rest)
    requires EndpointsFirst(visited + {node.id}, rest.elements)
    requires SourcesWithin(rest.elements, NodeIds(rest.elements) + {node.id})
    ensures var r := Emitted([TreeNode(node)] + rest.elements, rest.visited);
      && Extends(visited, r)
      && EndpointsFirst(visited, r.elements)
      && SourcesWithin(r.elements, NodeIds(r.elements))
      && EdgesFrom(NodeKey(node.id), r.elements) == EdgesFrom(NodeKey(node.id), rest.elements)
  {
    var head := [TreeNode(node)];
    assert NodeIds(head) == {node.id};
    NodeIdsConcat(head, rest.elements);
    UniqueConcat(head, rest.elements);
    assert EdgesWithin(head, rest.visited);
    EdgesWithinConcat(head, rest.elements, rest.visited);
    EndpointsFirstConcat(visited, head, rest.elements);
    EdgesFromConcat(NodeKey(node.id), head, rest.elements);
    assert head[1..] == [];
    var r := Emitted(head + rest.elements, rest.visited);
    assert Keyed(r.elements) by {
      forall i | 0 <= i < |r.elements| && r.elements[i].NodeElement?
        ensures r.elements[i].id == NodeKey(r.elements[i].mechanicId)
      {
        if i > 0 {
          assert r.elements[i] == rest.elements[i - 1];
        }
      }
    }
  }

  /** `buildElements(node)`: nothing if `node.id` was already visited
      anywhere in the walk; otherwise the node's element first (pre-order),
      then the elements of its children, among which the edges leaving this
      node are exactly one per child not flagged as a cycle, in child order.
      Only elements the tree contributes are emitted, and each edge comes
      after both its ends. */
  function BuildElements(node: TreeNodeJson, visited: set<int>): (r: Emitted)
    ensures Extends(visited, r)
    ensures node.id in r.visited
    ensures node.id in visited ==> r == Emitted([], visited)
    ensures node.id !in visited ==> |r.elements| > 0 && r.elements[0] == TreeNode(node)
    ensures node.id !in visited ==>
      EdgesFrom(NodeKey(node.id), r.elements) == ChildEdges(node.id, node.children)
    ensures forall e :: e in r.elements ==> e in TreeElements(node)
    ensures EndpointsFirst(visited, r.elements)
    ensures SourcesWithin(r.elements, NodeIds(r.elements))
    decreases node
  {
    if node.id in visited then Emitted([], visited)
    else
      var rest := EmitChildren(node.id, node.children, visited + {node.id});
      BuildElementsStep(node, visited, rest);
      Emitted([TreeNode(node)] + rest.elements, rest.visited)
  }

  /** The `forEach` over `node.children`: a child flagged as a cycle is
      skipped; any other child's subtree is walked and then the edge from
      the parent to it is pushed, even when the child had been visited. */
  function EmitChildren(parentId: int, children: seq<ChildJson>, visited: set<int>): (r: Emitted)
    requires parentId in visited
    ensures Extends(visited, r)
    ensures forall i :: 0 <= i < |children| && !children[i].node.cycle ==> children[i].node.id in r.visited
    ensures EdgesFrom(NodeKey(parentId), r.elements) == ChildEdges(parentId, children)
    ensures forall e :: e in r.elements ==> e in ChildrenElements(parentId, children)
    ensures EndpointsFirst(visited, r.elements)
    ensures SourcesWithin(r.elements, NodeIds(r.elements) + {parentId})
    decreases children
  {
    if |children| == 0 then Emitted([], visited)
    else
      var child := children[0];
      if child.node.cycle then
        var r := EmitChildren(parentId, children[1..], visited);
        assert forall i :: 1 <= i < |children| ==> children[i] == children[1..][i - 1];
        r
      else
        var sub := BuildElements(child.node, visited);
        var edge := TreeEdge(parentId, child);
        var rest := EmitChildren(parentId, children[1..], sub.visited);
        assert forall i :: 1 <= i < |children| ==> children[i] == children[1..][i - 1];
        assert NodeKey(child.node.id) in Keys(sub.visited);
        ChildExtends(parentId, visited, sub, edge, rest);
        ChildEndpointsFirst(parentId, visited, sub, edge, rest);
        ChildSources(parentId, sub, edge, rest);
        ChildEdgesFrom(parentId, visited, sub, edge, rest);
        Emitted(sub.elements + [edge] + rest.elements, rest.visited)
  }

  /** `displayTree(root)`: the elements of one walk from the root with an
      initially empty visited set. Each mechanic id yields at most one node
      element, so node element ids never repeat; the root comes first; and
      every edge joins two ids that have a node element. */
  function DisplayTree(root: TreeNodeJson): (elements: seq<Element>)
    ensures |elements| > 0 && elements[0] == TreeNode(root)
    ensures EdgesFrom(NodeKey(root.id), elements) == ChildEdges(root.id, root.children)
    ensures forall i :: 0 <= i < |root.children| && !root.children[i].node.cycle ==>
      root.children[i].node.id in NodeIds(elements)
    ensures forall e :: e in elements ==> e in TreeElements(root)
    ensures EndpointsFirst({}, elements)
    ensures UniqueNodes(elements)
    ensures forall i, j :: 0 <= i < j < |elements| && elements[i].NodeElement? && elements[j].NodeElement? ==>
      elements[i].id != elements[j].id
    ensures EdgesWithin(elements, NodeIds(elements))
  {
    var r := BuildElements(root, {});
    assert r.visited == NodeIds(r.elements);
    forall i, j | 0 <= i < j < |r.elements| && r.elements[i].NodeElement? && r.elements[j].NodeElement?
      ensures r.elements[i].id != r.elements[j].id
    {
      if r.elements[i].id == r.elements[j].id {
        PrefixedIntInjective("node-", r.elements[i].mechanicId, r.elements[j].mechanicId);
      }
    }
    r.elements
  }

  /** The tree with every child flagged as a cycle removed, at every depth. */
  function PruneCycles(node: TreeNodeJson): (n: TreeNodeJson)
    ensures n.id == node.id && TreeNode(n) == TreeNode(node)
    decreases node
  {
    node.(children := PruneChildren(node.children))
  }

  function PruneChildren(children: seq<ChildJson>): seq<ChildJson>
    decreases children
  {
    if |children| == 0 then []
    else if children[0].node.cycle then PruneChildren(children[1..])
    else [ChildJson(children[0].linkType, PruneCycles(children[0].node))] + PruneChildren(children[1..])
  }

  /** Children flagged as cycles contribute neither node nor edge elements:
      walking the pruned tree gives exactly the same elements and the same
      visited set. */
  lemma {:induction false} PruneCyclesKeepsElements(node: TreeNodeJson, visited: set<int>)
    ensures BuildElements(PruneCycles(node), visited) == BuildElements(node, visited)
    decreases node
  {
    if node.id !in visited {
      PruneChildrenKeepsElements(node.id, node.children, visited + {node.id});
    }
  }

  lemma {:induction false} PruneChildrenKeepsElements(parentId: int, children: seq<ChildJson>, visited: set<int>)
    requires parentId in visited
    ensures EmitChildren(parentId, PruneChildren(children), visited) == EmitChildren(parentId, children, visited)
    decreases children
  {
    if |children| > 0 {
      var child := children[0];
      if child.node.cycle {
        PruneChildrenKeepsElements(parentId, children[1..], visited);
      } else {
        var pruned := PruneChildren(children);
        var c' := ChildJson(child.linkType, PruneCycles(child.node));
        assert pruned[0] == c' && pruned[1..] == PruneChildren(children[1..]);
        PruneCyclesKeepsElements(child.node, visited);
        assert TreeEdge(parentId, c') == TreeEdge(parentId, child);
        var sub := BuildElements(child.node, visited);
        PruneChildrenKeepsElements(parentId, children[1..], sub.visited);
      }
    }
  }

  /** Two children, not flagged as cycles, with the same mechanic id but
      different link types: the second one is already visited when its turn
      comes, yet its edge is still pushed, so two different edges leaving the
      parent share the element id `edge-{parent}-{child}`. */
  lemma RepeatedChildRepeatsEdgeId(root: TreeNodeJson)
    requires |root.children| == 2
    requires !root.children[0].node.cycle && !root.children[1].node.cycle
    requires root.children[0].node.id == root.children[1].node.id
    requires root.children[0].linkType != root.children[1].linkType
    ensures var out := EdgesFrom(NodeKey(root.id), DisplayTree(root));
            && |out| == 2 && out[0].id == out[1].id && out[0] != out[1]
  {
    var cs := root.children;
    assert cs[1..] == [cs[1]];
    assert [cs[1]][1..] == [];
    assert ChildEdges(root.id, [cs[1]]) == [TreeEdge(root.id, cs[1])] + ChildEdges(root.id, []);
    assert ChildEdges(root.id, cs) == [TreeEdge(root.id, cs[0]), TreeEdge(root.id, cs[1])];
  }

  // ---------------------------------------------------------------------
  // Completeness: a tree without repeated ids is drawn in full
  // ---------------------------------------------------------------------

  /** The mechanic ids of a tree in pre-order, leaving out children flagged
      as cycles and everything below them. */
  function TreeIds(node: TreeNodeJson): seq<int>
    decreases node
  {
    [node.id] + ChildrenIds(node.children)
  }

  function ChildrenIds(children: seq<ChildJson>): seq<int>
    decreases children
  {
    if |children| == 0 then []
    else if children[0].node.cycle then ChildrenIds(children[1..])
    else TreeIds(children[0].node) + ChildrenIds(children[1..])
  }

  /** No id occurs twice. */
  predicate Distinct(ids: seq<int>) {
    forall i, j :: 0 <= i < j < |ids| ==> ids[i] != ids[j]
  }

  function IdSet(ids: seq<int>): set<int> {
    set x | x in ids
  }

  function Drawn(elements: seq<Element>): set<Element> {
    set e | e in elements
  }

  /** The whole tree drawn in pre-order with no visited set: each node's
      element, then for every child not flagged as a cycle the child's
      drawing followed by the edge to it. */
  function Preorder(node: TreeNodeJson): seq<Element>
    decreases node
  {
    [TreeNode(node)] + PreorderChildren(node.id, node.children)
  }

  function PreorderChildren(parentId: int, children: seq<ChildJson>): seq<Element>
    decreases children
  {
    if |children| == 0 then []
    else if children[0].node.cycle then PreorderChildren(parentId, children[1..])
    else Preorder(children[0].node) + [TreeEdge(parentId, children[0])]
         + PreorderChildren(parentId, children[1..])
  }

  lemma DistinctConcat(a: seq<int>, b: seq<int>)
    requires Distinct(a + b)
    ensures Distinct(a) && Distinct(b) && IdSet(a) !! IdSet(b)
  {
    var s := a + b;
    forall i, j | 0 <= i < j < |a|
      ensures a[i] != a[j]
    {
      assert s[i] == a[i] && s[j] == a[j];
    }
    forall i, j | 0 <= i < j < |b|
      ensures b[i] != b[j]
    {
      assert s[|a| + i] == b[i] && s[|a| + j] == b[j];
    }
    forall i, j | 0 <= i < |a| && 0 <= j < |b|
      ensures a[i] != b[j]
    {
      assert s[i] == a[i] && s[|a| + j] == b[j];
    }
  }

  lemma IdSetConcat(a: seq<int>, b: seq<int>)
    ensures IdSet(a + b) == IdSet(a) + IdSet(b)
  {
    forall x | x in IdSet(a + b)
      ensures x in IdSet(a) + IdSet(b)
    {
      var i :| 0 <= i < |a + b| && (a + b)[i] == x;
      if i < |a| {
        assert a[i] == x;
      } else {
        assert b[i - |a|] == x;
      }
    }
    forall x | x in IdSet(a) + IdSet(b)
      ensures x in IdSet(a + b)
    {
      if x in IdSet(a) {
        var i :| 0 <= i < |a| && a[i] == x;
        assert (a + b)[i] == x;
      } else {
        var j :| 0 <= j < |b| && b[j] == x;
        assert (a + b)[|a| + j] == x;
      }
    }
  }

  /** When the ids of a tree are pairwise distinct and none was visited
      before, the shared visited set never cuts the walk: `buildElements`
      draws the whole tree, every level of it, in pre-order, and marks
      exactly the tree's ids as visited. */
  lemma {:induction false} WalkComplete(node: TreeNodeJson, visited: set<int>)
    requires Distinct(TreeIds(node)) && IdSet(TreeIds(node)) !! visited
    ensures BuildElements(node, visited) == Emitted(Preorder(node), visited + IdSet(TreeIds(node)))
    decreases node
  {
    var ids := ChildrenIds(node.children);
    DistinctConcat([node.id], ids);
    IdSetConcat([node.id], ids);
    assert IdSet([node.id]) == {node.id};
    ChildrenComplete(node.id, node.children, visited + {node.id});
  }

  lemma {:induction false} ChildrenComplete(parentId: int, children: seq<ChildJson>, visited: set<int>)
    requires parentId in visited
    requires Distinct(ChildrenIds(children)) && IdSet(ChildrenIds(children)) !! visited
    ensures EmitChildren(parentId, children, visited)
         == Emitted(PreorderChildren(parentId, children), visited + IdSet(ChildrenIds(children)))
    decreases children
  {
    if |children| == 0 {
      assert IdSet([]) == {};
    } else if children[0].node.cycle {
      ChildrenComplete(parentId, children[1..], visited);
    } else {
      var a, b := TreeIds(children[0].node), ChildrenIds(children[1..]);
      DistinctConcat(a, b);
      IdSetConcat(a, b);
      WalkComplete(children[0].node, visited);
      ChildrenComplete(parentId, children[1..], visited + IdSet(a));
      EmitChildrenUnfold(parentId, children, visited);
    }
  }

  /** One step of the `forEach` over a first child that is not a cycle. */
  lemma EmitChildrenUnfold(parentId: int, children: seq<ChildJson>, visited: set<int>)
    requires parentId in visited
    requires |children| > 0 && !children[0].node.cycle
    ensures var sub := BuildElements(children[0].node, visited);
      var rest := EmitChildren(parentId, children[1..], sub.visited);
      EmitChildren(parentId, children, visited)
        == Emitted(sub.elements + [TreeEdge(parentId, children[0])] + rest.elements, rest.visited)
  {
  }

  lemma DrawnConcat(a: seq<Element>, b: seq<Element>)
    ensures Drawn(a + b) == Drawn(a) + Drawn(b)
  {
    assert forall e :: e in a + b <==> e in a || e in b;
  }

  /** The pre-order drawing contains exactly the elements the tree
      contributes. */
  lemma {:induction false} PreorderDrawsTree(node: TreeNodeJson)
    ensures Drawn(Preorder(node)) == TreeElements(node)
    decreases node
  {
    DrawnConcat([TreeNode(node)], PreorderChildren(node.id, node.children));
    PreorderChildrenDraw(node.id, node.children);
    assert Drawn([TreeNode(node)]) == {TreeNode(node)};
  }

  lemma {:induction false} PreorderChildrenDraw(parentId: int, children: seq<ChildJson>)
    ensures Drawn(PreorderChildren(parentId, children)) == ChildrenElements(parentId, children)
    decreases children
  {
    if |children| == 0 {
      assert Drawn([]) == {};
    } else if children[0].node.cycle {
      PreorderChildrenDraw(parentId, children[1..]);
    } else {
      var c := children[0];
      var front := Preorder(c.node) + [TreeEdge(parentId, c)];
      PreorderDrawsTree(c.node);
      PreorderChildrenDraw(parentId, children[1..]);
      DrawnConcat(Preorder(c.node), [TreeEdge(parentId, c)]);
      DrawnConcat(front, PreorderChildren(parentId, children[1..]));
      assert Drawn([TreeEdge(parentId, c)]) == {TreeEdge(parentId, c)};
    }
  }

  /** `displayTree` on a tree whose ids are pairwise distinct draws every
      node and every edge of it, at every depth, in pre-order. */
  lemma DisplayTreeComplete(root: TreeNodeJson)
    requires Distinct(TreeIds(root))
    ensures DisplayTree(root) == Preorder(root)
    ensures Drawn(DisplayTree(root)) == TreeElements(root)
  {
    WalkComplete(root, {});
    PreorderDrawsTree(root);
  }

  // Trees in which an id repeats

  /** The nodes of a tree in pre-order, leaving out children flagged as
      cycles and everything below them. */
  function PreorderNodes(node: TreeNodeJson): seq<TreeNodeJson>
    decreases node
  {
    [node] + ChildrenNodes(node.children)
  }

  function ChildrenNodes(children: seq<ChildJson>): seq<TreeNodeJson>
    decreases children
  {
    if |children| == 0 then []
    else if children[0].node.cycle then ChildrenNodes(children[1..])
    else PreorderNodes(children[0].node) + ChildrenNodes(children[1..])
  }

  function NodeIdSet(nodes: seq<TreeNodeJson>): set<int> {
    set n | n in nodes :: n.id
  }

  /** Every child is flagged as a cycle, so the walk goes no deeper. */
  predicate Bare(node: TreeNodeJson) {
    forall k :: 0 <= k < |node.children| ==> node.children[k].node.cycle
  }

  /** Every node whose id was seen before it, either in `seen` or earlier in
      `nodes`, is bare. This is the shape of a backend tree cut at a cycle:
      the repeated id is a leaf. */
  predicate LaterCopiesBare(seen: set<int>, nodes: seq<TreeNodeJson>) {
    && (forall j :: 0 <= j < |nodes| && nodes[j].id in seen ==> Bare(nodes[j]))
    && (forall i, j :: 0 <= i < j < |nodes| && nodes[i].id == nodes[j].id ==> Bare(nodes[j]))
  }

  /** The drawing with every node element dropped whose mechanic id is in
      `seen` or belongs to an earlier node element; edges are all kept. */
  function DropRepeats(seen: set<int>, elements: seq<Element>): seq<Element>
    decreases |elements|
  {
    if |elements| == 0 then []
    else if elements[0].NodeElement? && elements[0].mechanicId in seen then DropRepeats(seen, elements[1..])
    else [elements[0]] + DropRepeats(seen + NodeIds([elements[0]]), elements[1..])
  }

  lemma {:induction false} DropRepeatsConcat(seen: set<int>, a: seq<Element>, b: seq<Element>)
    ensures DropRepeats(seen, a + b) == DropRepeats(seen, a) + DropRepeats(seen + NodeIds(a), b)
    decreases |a|
  {
    if |a| == 0 {
      assert a + b == b;
      assert DropRepeats(seen, a) == [] && seen + NodeIds(a) == seen;
      assert [] + DropRepeats(seen, b) == DropRepeats(seen, b);
    } else {
      assert (a + b)[0] == a[0] && (a + b)[1..] == a[1..] + b;
      NodeIdsConcat([a[0]], a[1..]);
      assert [a[0]] + a[1..] == a;
      if a[0].NodeElement? && a[0].mechanicId in seen {
        DropRepeatsConcat(seen, a[1..], b);
        assert seen + NodeIds(a) == seen + NodeIds(a[1..]);
      } else {
        DropRepeatsConcat(seen + NodeIds([a[0]]), a[1..], b);
        assert seen + NodeIds([a[0]]) + NodeIds(a[1..]) == seen + NodeIds(a);
      }
    }
  }

  /** One child's share of the drawing: its subtree, then its edge. */
  lemma DropRepeatsChild(seen: set<int>, sub: seq<Element>, edge: Element, rest: seq<Element>)
    requires edge.EdgeElement?
    ensures DropRepeats(seen, sub + [edge] + rest)
         == DropRepeats(seen, sub) + [edge] + DropRepeats(seen + NodeIds(sub), rest)
  {
    assert sub + [edge] + rest == sub + ([edge] + rest);
    DropRepeatsConcat(seen, sub, [edge] + rest);
    DropRepeatsEdge(seen + NodeIds(sub), edge, rest);
  }

  lemma DropRepeatsEdge(seen: set<int>, edge: Element, rest: seq<Element>)
    requires edge.EdgeElement?
    ensures DropRepeats(seen, [edge] + rest) == [edge] + DropRepeats(seen, rest)
  {
    assert ([edge] + rest)[0] == edge && ([edge] + rest)[1..] == rest;
    assert NodeIds([edge]) == {} && seen + NodeIds([edge]) == seen;
  }

  lemma LaterCopiesBareConcat(seen: set<int>, a: seq<TreeNodeJson>, b: seq<TreeNodeJson>)
    requires LaterCopiesBare(seen, a + b)
    ensures LaterCopiesBare(seen, a) && LaterCopiesBare(seen + NodeIdSet(a), b)
  {
    var s := a + b;
    forall j | 0 <= j < |a| && a[j].id in seen
      ensures Bare(a[j])
    {
      assert s[j] == a[j];
    }
    forall i, j | 0 <= i < j < |a| && a[i].id == a[j].id
      ensures Bare(a[j])
    {
      assert s[i] == a[i] && s[j] == a[j];
    }
    forall j | 0 <= j < |b| && b[j].id in seen + NodeIdSet(a)
      ensures Bare(b[j])
    {
      assert s[|a| + j] == b[j];
      if b[j].id !in seen {
        var n :| n in a && n.id == b[j].id;
        var i :| 0 <= i < |a| && a[i] == n;
        assert s[i] == a[i];
      }
    }
    forall i, j | 0 <= i < j < |b| && b[i].id == b[j].id
      ensures Bare(b[j])
    {
      assert s[|a| + i] == b[i] && s[|a| + j] == b[j];
    }
  }

  lemma NodeIdSetConcat(a: seq<TreeNodeJson>, b: seq<TreeNodeJson>)
    ensures NodeIdSet(a + b) == NodeIdSet(a) + NodeIdSet(b)
  {
    assert forall n :: n in a + b <==> n in a || n in b;
  }

  /** The node elements of a pre-order drawing are those of its nodes. */
  lemma {:induction false} PreorderNodeIds(node: TreeNodeJson)
    ensures NodeIds(Preorder(node)) == NodeIdSet(PreorderNodes(node))
    decreases node
  {
    NodeIdsConcat([TreeNode(node)], PreorderChildren(node.id, node.children));
    NodeIdSetConcat([node], ChildrenNodes(node.children));
    ChildrenNodeIds(node.id, node.children);
    assert NodeIdSet([node]) == {node.id};
  }

  lemma {:induction false} ChildrenNodeIds(parentId: int, children: seq<ChildJson>)
    ensures NodeIds(PreorderChildren(parentId, children)) == NodeIdSet(ChildrenNodes(children))
    decreases children
  {
    if |children| == 0 {
      assert NodeIdSet([]) == {};
    } else if children[0].node.cycle {
      ChildrenNodeIds(parentId, children[1..]);
    } else {
      var c := children[0];
      PreorderNodeIds(c.node);
      ChildrenNodeIds(parentId, children[1..]);
      NodeIdsConcat(Preorder(c.node), [TreeEdge(parentId, c)]);
      NodeIdsConcat(Preorder(c.node) + [TreeEdge(parentId, c)], PreorderChildren(parentId, children[1..]));
      NodeIdSetConcat(PreorderNodes(c.node), ChildrenNodes(children[1..]));
    }
  }

  /** Children all flagged as cycles contribute no node and no element. */
  lemma {:induction false} BareChildrenDrawNothing(parentId: int, children: seq<ChildJson>)
    requires forall k :: 0 <= k < |children| ==> children[k].node.cycle
    ensures ChildrenNodes(children) == [] && PreorderChildren(parentId, children) == []
    decreases |children|
  {
    if |children| > 0 {
      assert forall k :: 0 <= k < |children[1..]| ==> children[1..][k] == children[k + 1];
      BareChildrenDrawNothing(parentId, children[1..]);
    }
  }

  /** When every later copy of an id is bare, the walk draws the tree in
      pre-order, keeping only the first node element of each id (and none
      for an id visited before) but every edge, and marks exactly the
      tree's ids as visited. */
  lemma {:induction false} WalkFirstCopies(node: TreeNodeJson, visited: set<int>)
    requires LaterCopiesBare(visited, PreorderNodes(node))
    ensures BuildElements(node, visited)
         == Emitted(DropRepeats(visited, Preorder(node)), visited + NodeIdSet(PreorderNodes(node)))
    decreases node
  {
    var pre := Preorder(node);
    assert pre[0] == TreeNode(node) && pre[1..] == PreorderChildren(node.id, node.children);
    LaterCopiesBareConcat(visited, [node], ChildrenNodes(node.children));
    NodeIdSetConcat([node], ChildrenNodes(node.children));
    assert NodeIdSet([node]) == {node.id};
    if node.id in visited {
      assert PreorderNodes(node)[0] == node;
      BareChildrenDrawNothing(node.id, node.children);
      assert pre[1..] == [];
    } else {
      assert NodeIds([TreeNode(node)]) == {node.id};
      ChildrenFirstCopies(node.id, node.children, visited + {node.id});
    }
  }

  lemma {:induction false} ChildrenFirstCopies(parentId: int, children: seq<ChildJson>, visited: set<int>)
    requires parentId in visited
    requires LaterCopiesBare(visited, ChildrenNodes(children))
    ensures EmitChildren(parentId, children, visited)
         == Emitted(DropRepeats(visited, PreorderChildren(parentId, children)),
                    visited + NodeIdSet(ChildrenNodes(children)))
    decreases children
  {
    if |children| == 0 {
      assert NodeIdSet([]) == {};
    } else if children[0].node.cycle {
      ChildrenFirstCopies(parentId, children[1..], visited);
    } else {
      var c := children[0];
      var a, b := PreorderNodes(c.node), ChildrenNodes(children[1..]);
      var edge := TreeEdge(parentId, c);
      LaterCopiesBareConcat(visited, a, b);
      NodeIdSetConcat(a, b);
      WalkFirstCopies(c.node, visited);
      ChildrenFirstCopies(parentId, children[1..], visited + NodeIdSet(a));
      EmitChildrenUnfold(parentId, children, visited);
      PreorderNodeIds(c.node);
      DropRepeatsChild(visited, Preorder(c.node), edge, PreorderChildren(parentId, children[1..]));
    }
  }

  /** `displayTree` on a tree whose repeated ids are bare after their first
      occurrence: the first occurrence of each id in pre-order is the one
      drawn, later copies add only their edge. */
  lemma DisplayTreeFirstCopies(root: TreeNodeJson)
    requires LaterCopiesBare({}, PreorderNodes(root))
    ensures DisplayTree(root) == DropRepeats({}, Preorder(root))
  {
    WalkFirstCopies(root, {});
  }
}
