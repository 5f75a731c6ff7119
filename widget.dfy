/**
 * The part of the zTree runtime that the fuzzy search drives: an in-memory
 * tree of nodes and the primitives `hideNodes`, `showNodes`, `expandNode`,
 * `expandAll`, `getPath` and `getNodesByParamFuzzy`, reduced to the flags they
 * set on each node.
 *
 * A node is split in two: its `Link` (id, level, parent, children), which the
 * runtime owns and the search never changes, and its `NodeState` (name, alias,
 * highlight sentinel, zTree's own highlight flag, hidden, open), which the
 * search updates in place.
 */
module Widget {
  import opened Wrappers
  import opened Marking

  /** A node's identity (zTree's `tId`). */
  type NodeId = int

  /**
   * Structural fields. `hasChildren` says whether the children key is defined
   * on the node; when it is false, `children` is not consulted.
   */
  datatype Link = Link(level: nat, parent: Option<NodeId>, hasChildren: bool, children: seq<NodeId>)

  /**
   * The fields the search reads and writes. `marked` is the sentinel
   * `__searchHighLight` (present = true); `highlight` is zTree's own flag.
   */
  datatype NodeState = NodeState(name: string, alias: string, marked: bool, highlight: bool, hidden: bool, open: bool)

  /** The children as seen through `node.children != undefined`. */
  function Kids(l: Link): seq<NodeId> {
    if l.hasChildren then l.children else []
  }

  /**
   * Levels, parent pointers and children lists agree with one another. The
   * triggers keep a parent's own parent out of reach, so that the solver
   * does not walk up the tree unasked.
   */
  ghost predicate LinksOk(links: map<NodeId, Link>) {
    (forall k {:trigger links[k]} :: k in links && links[k].parent.None? ==> links[k].level == 0) &&
    (forall k {:trigger links[k].parent} :: k in links && links[k].parent.Some? ==>
       links[k].parent.value in links &&
       links[links[k].parent.value].level + 1 == links[k].level &&
       k in Kids(links[links[k].parent.value])) &&
    (forall k, i {:trigger Kids(links[k])[i]} :: k in links && 0 <= i < |Kids(links[k])| ==>
       Kids(links[k])[i] in links && links[Kids(links[k])[i]].parent == Some(k))
  }

  /** `roots` (what `getNodes()` returns) lists exactly the parentless nodes. */
  ghost predicate RootsOk(links: map<NodeId, Link>, roots: seq<NodeId>) {
    (forall r :: r in roots ==> r in links && links[r].parent.None?) &&
    (forall k :: k in links && links[k].parent.None? ==> k in roots)
  }

  /** `node.getPath()`: the nodes from the root down to `k`, both included. */
  function Path(links: map<NodeId, Link>, k: NodeId): (p: seq<NodeId>)
    requires LinksOk(links) && k in links
    ensures |p| == links[k].level + 1
    ensures p[|p| - 1] == k
    ensures forall j :: 0 <= j < |p| ==> p[j] in links && links[p[j]].level == j
    ensures links[p[0]].parent.None?
    ensures forall j :: 0 < j < |p| ==> links[p[j]].parent == Some(p[j - 1])
    decreases links[k].level
  {
    match links[k].parent
    case None => [k]
    case Some(q) => Path(links, q) + [k]
  }

  /** The path of a node on a path is the prefix of that path ending at it. */
  lemma {:induction false} PathPrefix(links: map<NodeId, Link>, k: NodeId, j: int)
    requires LinksOk(links) && k in links
    requires 0 <= j < |Path(links, k)|
    ensures Path(links, Path(links, k)[j]) == Path(links, k)[..j + 1]
    decreases links[k].level
  {
    var p := Path(links, k);
    if j < |p| - 1 {
      var q := links[k].parent.value;
      assert p == Path(links, q) + [k];
      PathPrefix(links, q, j);
      assert p[..j + 1] == Path(links, q)[..j + 1];
    }
  }

  lemma DistinctCard(s: seq<NodeId>)
    requires forall i, j :: 0 <= i < j < |s| ==> s[i] != s[j]
    ensures |set x | x in s| == |s|
  {
    if s != [] {
      var init := s[..|s| - 1];
      DistinctCard(init);
      assert (set x | x in s) == (set x | x in init) + {s[|s| - 1]};
      assert s[|s| - 1] !in init;
    }
  }

  lemma SubsetCard(a: set<NodeId>, b: set<NodeId>)
    requires a <= b
    ensures |a| <= |b|
  {
    assert b == a + (b - a);
    assert a * (b - a) == {};
  }

  /** A level is smaller than the number of nodes: paths never repeat a node. */
  lemma LevelBound(links: map<NodeId, Link>, k: NodeId)
    requires LinksOk(links) && k in links
    ensures links[k].level < |links|
  {
    var p := Path(links, k);
    DistinctCard(p);
    SubsetCard((set x | x in p), links.Keys);
  }

  /** The state with `hidden := b` on every node of `s`. */
  ghost function WithHidden(m: map<NodeId, NodeState>, s: set<NodeId>, b: bool): map<NodeId, NodeState> {
    map k | k in m :: if k in s then m[k].(hidden := b) else m[k]
  }

  /** The state with `open := b` on every node. */
  ghost function WithOpen(m: map<NodeId, NodeState>, b: bool): map<NodeId, NodeState> {
    map k | k in m :: m[k].(open := b)
  }

  lemma WithHiddenTwice(m: map<NodeId, NodeState>, a: set<NodeId>, c: set<NodeId>, b: bool)
    ensures WithHidden(WithHidden(m, a, b), c, b) == WithHidden(m, a + c, b)
  {
  }

  /** Each primitive accepts node ids that are not in the tree and ignores them. */
  class ZTree {
    /** The structure the runtime owns. */
    const links: map<NodeId, Link>
    /** `getNodes()`: the root nodes, in order. */
    const roots: seq<NodeId>
    /** Every node once, in the order the runtime walks them. */
    const order: seq<NodeId>
    /** The per-node fields, by id. */
    var nodes: map<NodeId, NodeState>
    /** `setting.view.nameIsHTML`. */
    var nameIsHTML: bool

    /** The structure is consistent; it depends on constant fields only. */
    ghost predicate Shaped() {
      LinksOk(links) && RootsOk(links, roots) &&
      (forall i, j :: 0 <= i < j < |order| ==> order[i] != order[j]) &&
      (forall i :: 0 <= i < |order| ==> order[i] in links) &&
      (forall k :: k in links ==> k in order)
    }

    ghost predicate Valid()
      reads this
    {
      Shaped() && nodes.Keys == links.Keys
    }

    constructor (links: map<NodeId, Link>, roots: seq<NodeId>, order: seq<NodeId>, nodes: map<NodeId, NodeState>)
      requires LinksOk(links) && RootsOk(links, roots) && nodes.Keys == links.Keys
      requires forall i, j :: 0 <= i < j < |order| ==> order[i] != order[j]
      requires forall i :: 0 <= i < |order| ==> order[i] in links
      requires forall k :: k in links ==> k in order
      ensures Valid()
      ensures this.links == links && this.roots == roots && this.order == order
      ensures this.nodes == nodes && !nameIsHTML
    {
      this.links := links;
      this.roots := roots;
      this.order := order;
      this.nodes := nodes;
      this.nameIsHTML := false;
    }

    /** `hideNodes(ids)`. */
    method HideNodes(ids: seq<NodeId>)
      requires Valid()
      modifies this`nodes
      ensures Valid()
      ensures nodes == WithHidden(old(nodes), (set x | x in ids), true)
    {
      SetHidden(ids, true);
    }

    /** `showNodes(ids)`. */
    method ShowNodes(ids: seq<NodeId>)
      requires Valid()
      modifies this`nodes
      ensures Valid()
      ensures nodes == WithHidden(old(nodes), (set x | x in ids), false)
    {
      SetHidden(ids, false);
    }

    method SetHidden(ids: seq<NodeId>, b: bool)
      requires Valid()
      modifies this`nodes
      ensures Valid()
      ensures nodes == WithHidden(old(nodes), (set x | x in ids), b)
    {
      for i := 0 to |ids|
        invariant nodes.Keys == old(nodes).Keys
        invariant forall k :: k in nodes ==> nodes[k] == if k in ids[..i] then old(nodes)[k].(hidden := b) else old(nodes)[k]
      {
        if ids[i] in nodes {
          nodes := nodes[ids[i] := nodes[ids[i]].(hidden := b)];
        }
      }
      assert ids[..|ids|] == ids;
      assert forall k :: k in nodes ==> nodes[k] == WithHidden(old(nodes), (set x | x in ids), b)[k];
    }

    /** `expandNode(node, true)`: the node is opened. */
    method ExpandNode(id: NodeId)
      requires Valid()
      modifies this`nodes
      ensures Valid()
      ensures nodes == if id in old(nodes) then old(nodes)[id := old(nodes)[id].(open := true)] else old(nodes)
    {
      if id in nodes {
        nodes := nodes[id := nodes[id].(open := true)];
      }
    }

    /** `expandAll(b)`: every node is opened (b) or closed (not b). */
    method ExpandAll(b: bool)
      requires Valid()
      modifies this`nodes
      ensures Valid()
      ensures nodes == WithOpen(old(nodes), b)
    {
      for i := 0 to |order|
        invariant nodes.Keys == old(nodes).Keys
        invariant forall k :: k in nodes ==> nodes[k] == if k in order[..i] then old(nodes)[k].(open := b) else old(nodes)[k]
      {
        nodes := nodes[order[i] := nodes[order[i]].(open := b)];
      }
      assert order[..|order|] == order;
      assert forall k :: k in nodes ==> nodes[k] == WithOpen(old(nodes), b)[k];
    }

    /**
     * `getNodesByParamFuzzy(alias, keyword)`: every node whose alias contains
     * the keyword, case-insensitively, each once.
     */
    method GetNodesByParamFuzzy(keyword: string) returns (r: seq<NodeId>)
      requires Valid()
      ensures forall i, j :: 0 <= i < j < |r| ==> r[i] != r[j]
      ensures forall k :: k in r <==> k in nodes && ContainsFold(nodes[k].alias, keyword)
    {
      r := [];
      for i := 0 to |order|
        invariant forall a, b :: 0 <= a < b < |r| ==> r[a] != r[b]
        invariant forall k :: k in r <==> k in order[..i] && ContainsFold(nodes[k].alias, keyword)
      {
        if ContainsFold(nodes[order[i]].alias, keyword) {
          r := r + [order[i]];
        }
      }
      assert order[..|order|] == order;
    }
  }
}
