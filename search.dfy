/**
 * The fuzzy search itself (zTreeNodeFuzzySearch.js:33-88, 159-280, 325-367):
 * the highlight marker and its restorer, the per-level path registry, the
 * visibility resolver and the orchestrators `search` and `clearSearch`, all
 * acting on a `ZTree`.
 *
 * The specification functions below describe the tree state each step leaves
 * behind; the methods are proved to produce exactly that state, and the
 * lemmas say what the states mean (which nodes a user can see, which names
 * carry markup, what a second run changes).
 */
module FuzzySearch {
  import opened Wrappers
  import opened Marking
  import opened Widget

  // ---------------------------------------------------------------------
  // Arguments as JavaScript passes them
  // ---------------------------------------------------------------------

  /** The values a caller can pass for the two flags of `search`. */
  datatype JsValue = Undefined | Null | Bool(b: bool) | Number(n: int) | Str(s: string) | Object

  /** JavaScript truthiness (NaN is not modelled). */
  predicate Truthy(v: JsValue) {
    match v
    case Undefined => false
    case Null => false
    case Bool(b) => b
    case Number(n) => n != 0
    case Str(s) => s != ""
    case Object => true
  }

  /** `isHighLight === false ? false : true`: only a literal `false` turns highlighting off. */
  function HighlightFlag(v: JsValue): (on: bool)
    ensures !on <==> v == Bool(false)
  {
    match v
    case Bool(b) => b
    case _ => true
  }

  /** `isExpand ? true : false`: the five falsy values close the tree, everything else opens it. */
  function ExpandFlag(v: JsValue): (on: bool)
    ensures !on <==> v in {Undefined, Null, Bool(false), Number(0), Str("")}
  {
    Truthy(v)
  }

  // ---------------------------------------------------------------------
  // Highlight marker and restorer, one node at a time
  // ---------------------------------------------------------------------

  /**
   * `_clearHighNode` on one node: a node carrying the sentinel gets its
   * alias back as its name and loses the sentinel; any other node is left as
   * it is. zTree's own `highlight` flag is not touched.
   */
  function Restore(n: NodeState): (r: NodeState)
    ensures !r.marked
    ensures r == n <==> !n.marked
    ensures r.name == if n.marked then n.alias else n.name
    ensures r.alias == n.alias && r.highlight == n.highlight && r.hidden == n.hidden && r.open == n.open
  {
    if n.marked then n.(name := n.alias, marked := false) else n
  }

  /**
   * `_highLightNode` on one node: no name, or highlighting off, leaves the
   * node alone; otherwise zTree's highlight is cleared, the sentinel is set
   * and every occurrence of the keyword in the name is wrapped in markup.
   */
  function Highlighted(n: NodeState, kw: string, hl: bool): (r: NodeState)
    requires |kw| > 0
    ensures r.alias == n.alias && r.hidden == n.hidden && r.open == n.open
    ensures r.marked <==> n.marked || (n.name != "" && hl)
  {
    if n.name == "" then n
    else if !hl then n
    else n.(highlight := false, marked := true, name := Wrap(n.name, kw))
  }

  /** What the marker does to one node, in terms of what the name looked like. */
  lemma HighlightedSpec(n: NodeState, kw: string, hl: bool)
    requires |kw| > 0
    ensures var r := Highlighted(n, kw, hl);
      r.alias == n.alias && r.hidden == n.hidden && r.open == n.open &&
      (n.name == "" || !hl ==> r == n) &&
      (n.name != "" && hl ==>
         r.marked && !r.highlight && Subsequence(n.name, r.name) &&
         (r.name == n.name <==> !ContainsFold(n.name, kw)))
  {
    if n.name != "" && hl {
      WrapKeepsText(n.name, kw);
      WrapIsIdentityIff(n.name, kw);
    }
  }

  /**
   * Restoring a freshly marked node gives the node back, apart from zTree's
   * own highlight flag, which the marker clears and the restorer leaves.
   */
  lemma HighlightThenRestore(n: NodeState, kw: string, hl: bool)
    requires |kw| > 0
    requires !n.marked && n.name == n.alias
    ensures Restore(Highlighted(n, kw, hl)) == if n.name != "" && hl then n.(highlight := false) else n
  {
  }

  // ---------------------------------------------------------------------
  // Whole-tree states
  // ---------------------------------------------------------------------

  /** The state after `_clearHighNode` (zTreeNodeFuzzySearch.js:339-351). */
  ghost function Restored(m: map<NodeId, NodeState>): (r: map<NodeId, NodeState>)
    ensures r.Keys == m.Keys
    ensures forall k :: k in r ==> !r[k].marked && r[k].alias == m[k].alias
  {
    map k | k in m :: Restore(m[k])
  }

  /** The nodes whose alias contains the keyword: what `getNodesByParamFuzzy` finds. */
  ghost function MatchSet(m: map<NodeId, NodeState>, kw: string): (r: set<NodeId>)
    ensures r <= m.Keys
    ensures |kw| == 0 ==> r == m.Keys
  {
    set k | k in m && ContainsFold(m[k].alias, kw)
  }

  /** The marker applied to the matches in turn, in the order given. */
  ghost function HighlightAll(m: map<NodeId, NodeState>, ms: seq<NodeId>, kw: string, hl: bool): map<NodeId, NodeState>
    requires |kw| > 0
    decreases |ms|
  {
    if ms == [] then m
    else
      var p := HighlightAll(m, ms[..|ms| - 1], kw, hl);
      var x := ms[|ms| - 1];
      if x in p then p[x := Highlighted(p[x], kw, hl)] else p
  }

  /** Marking one more match updates that node only. */
  lemma HighlightAllSnoc(m: map<NodeId, NodeState>, ms: seq<NodeId>, i: nat, kw: string, hl: bool)
    requires |kw| > 0 && i < |ms|
    ensures var p := HighlightAll(m, ms[..i], kw, hl);
      HighlightAll(m, ms[..i + 1], kw, hl) == if ms[i] in p then p[ms[i] := Highlighted(p[ms[i]], kw, hl)] else p
  {
    assert ms[..i + 1][..i] == ms[..i];
  }

  /** The marker applied once to every node of `s`. */
  ghost function Labelled(m: map<NodeId, NodeState>, s: set<NodeId>, kw: string, hl: bool): map<NodeId, NodeState>
    requires |kw| > 0
  {
    map k | k in m :: if k in s then Highlighted(m[k], kw, hl) else m[k]
  }

  /** Every node on the path of some node of `s`: the ancestors-or-self of `s`. */
  ghost function Covered(links: map<NodeId, Link>, s: set<NodeId>): set<NodeId>
    requires LinksOk(links)
  {
    set k | k in links && exists a :: a in s && a in links && k in Path(links, a)
  }

  /** The parent of a node of `d` is in `d`. */
  ghost predicate PathClosed(links: map<NodeId, Link>, d: set<NodeId>) {
    forall k :: k in d && k in links && links[k].parent.Some? ==> links[k].parent.value in d
  }

  /**
   * The state after the loops of `_showPathNodes`, before its final
   * `showNodes`: every node of `d` with children is opened and the children
   * of every node of `d` are hidden.
   */
  ghost function Partial(links: map<NodeId, Link>, m: map<NodeId, NodeState>, d: set<NodeId>): map<NodeId, NodeState> {
    map k | k in m ::
      m[k].(open := m[k].open || (k in d && k in links && links[k].hasChildren),
            hidden := m[k].hidden || (k in links && links[k].parent.Some? && links[k].parent.value in d))
  }

  /** The state after `_showPathNodes` on a registry holding the nodes `d`. */
  ghost function Resolved(links: map<NodeId, Link>, m: map<NodeId, NodeState>, d: set<NodeId>): map<NodeId, NodeState> {
    WithHidden(Partial(links, m, d), d, false)
  }

  /** The nodes at level `d` or deeper whose ancestor at level `d` is in `ids`. */
  ghost function Below(links: map<NodeId, Link>, ids: seq<NodeId>, d: nat): set<NodeId>
    requires LinksOk(links)
  {
    set k | k in links && links[k].level >= d && Path(links, k)[d] in ids
  }

  /** As `Below`, strictly deeper than `d`. */
  ghost function StrictlyBelow(links: map<NodeId, Link>, ids: seq<NodeId>, d: nat): set<NodeId>
    requires LinksOk(links)
  {
    set k | k in links && links[k].level > d && Path(links, k)[d] in ids
  }

  /**
   * A user sees node `k`: neither it nor any ancestor is hidden, and every
   * ancestor is open.
   */
  ghost predicate Displayed(links: map<NodeId, Link>, m: map<NodeId, NodeState>, k: NodeId)
    requires LinksOk(links) && k in links
  {
    var p := Path(links, k);
    forall j :: 0 <= j < |p| ==> p[j] in m && !m[p[j]].hidden && (j + 1 < |p| ==> m[p[j]].open)
  }

  // ---------------------------------------------------------------------
  // Lemmas: restore
  // ---------------------------------------------------------------------

  /** Restoring twice is restoring once. */
  lemma RestoredIdempotent(m: map<NodeId, NodeState>)
    ensures Restored(Restored(m)) == Restored(m)
  {
    assert forall k :: k in m ==> Restored(Restored(m))[k] == Restored(m)[k];
  }

  /** The restorer changes exactly the nodes carrying the sentinel, and no alias. */
  lemma RestoredChangesMarkedOnly(m: map<NodeId, NodeState>)
    ensures Restored(m).Keys == m.Keys
    ensures forall k :: k in m ==> (Restored(m)[k] == m[k] <==> !m[k].marked)
  {
  }

  /** Restoring leaves the aliases, so it leaves what a search finds. */
  lemma RestoredKeepsMatches(m: map<NodeId, NodeState>, kw: string)
    ensures MatchSet(Restored(m), kw) == MatchSet(m, kw)
  {
    assert forall k :: k in m ==> Restored(m)[k].alias == m[k].alias;
  }

  // ---------------------------------------------------------------------
  // Lemmas: marking many nodes
  // ---------------------------------------------------------------------

  /** Marking a list of distinct matches in turn marks each of them once. */
  lemma {:induction false} HighlightAllDistinct(m: map<NodeId, NodeState>, ms: seq<NodeId>, kw: string, hl: bool)
    requires |kw| > 0
    requires forall i, j :: 0 <= i < j < |ms| ==> ms[i] != ms[j]
    ensures HighlightAll(m, ms, kw, hl) == Labelled(m, (set x | x in ms), kw, hl)
    decreases |ms|
  {
    if ms != [] {
      var init := ms[..|ms| - 1];
      HighlightAllDistinct(m, init, kw, hl);
      assert (set x | x in ms) == (set x | x in init) + {ms[|ms| - 1]};
      assert ms[|ms| - 1] !in init;
    }
  }

  /** The marker never touches the structure flags, whatever the list. */
  lemma {:induction false} HighlightAllKeepsLayout(m: map<NodeId, NodeState>, ms: seq<NodeId>, kw: string, hl: bool)
    requires |kw| > 0
    ensures HighlightAll(m, ms, kw, hl).Keys == m.Keys
    ensures forall k :: k in m ==>
      HighlightAll(m, ms, kw, hl)[k].hidden == m[k].hidden &&
      HighlightAll(m, ms, kw, hl)[k].open == m[k].open &&
      HighlightAll(m, ms, kw, hl)[k].alias == m[k].alias
    decreases |ms|
  {
    if ms != [] {
      HighlightAllKeepsLayout(m, ms[..|ms| - 1], kw, hl);
    }
  }

  /**
   * After a search, the nodes whose name no longer equals their alias are
   * marked ones whose name contained the keyword; restoring them is what
   * the next search starts with.
   */
  lemma LabelledThenRestored(m: map<NodeId, NodeState>, s: set<NodeId>, kw: string, hl: bool)
    requires |kw| > 0
    requires forall k :: k in m ==> !m[k].marked && m[k].name == m[k].alias
    ensures forall k :: k in m ==>
      Restored(Labelled(m, s, kw, hl))[k] == if k in s && hl && m[k].name != "" then m[k].(highlight := false) else m[k]
  {
    forall k | k in m
      ensures Restored(Labelled(m, s, kw, hl))[k] == if k in s && hl && m[k].name != "" then m[k].(highlight := false) else m[k]
    {
      if k in s {
        HighlightThenRestore(m[k], kw, hl);
      }
    }
  }

  // ---------------------------------------------------------------------
  // Lemmas: paths, coverage, visibility
  // ---------------------------------------------------------------------

  /** A node with a parent is among that parent's children. */
  lemma KidOfParent(links: map<NodeId, Link>, c: NodeId)
    requires LinksOk(links) && c in links && links[c].parent.Some?
    ensures links[c].parent.value in links && c in Kids(links[links[c].parent.value])
    ensures links[links[c].parent.value].hasChildren
  {
  }

  /** A child names its parent. */
  lemma ParentOfKid(links: map<NodeId, Link>, v: NodeId, c: NodeId)
    requires LinksOk(links) && v in links && c in Kids(links[v])
    ensures c in links && links[c].parent == Some(v)
  {
  }

  lemma ElementsSnoc(s: seq<NodeId>, x: NodeId)
    ensures (set y | y in s + [x]) == (set y | y in s) + {x}
  {
  }

  /** The covered set grows by exactly the new node's path. */
  lemma CoveredStep(links: map<NodeId, Link>, s: set<NodeId>, a: NodeId)
    requires LinksOk(links) && a in links
    ensures Covered(links, s + {a}) == Covered(links, s) + (set x | x in Path(links, a))
  {
    var p := Path(links, a);
    forall k | k in Covered(links, s + {a}) ensures k in Covered(links, s) || k in p {
      var b :| b in s + {a} && b in links && k in Path(links, b);
      if b != a {
        assert b in s;
      }
    }
    forall k | k in p ensures k in Covered(links, s + {a}) {
      var j :| 0 <= j < |p| && p[j] == k;
      assert a in s + {a};
    }
    forall k | k in Covered(links, s) ensures k in Covered(links, s + {a}) {
      var b :| b in s && b in links && k in Path(links, b);
      assert b in s + {a};
    }
  }

  lemma CoveredEmpty(links: map<NodeId, Link>)
    requires LinksOk(links)
    ensures Covered(links, {}) == {}
  {
  }

  /** Every node on a node's path is covered by it, and coverage is closed under parents. */
  lemma CoveredClosed(links: map<NodeId, Link>, s: set<NodeId>)
    requires LinksOk(links)
    ensures Covered(links, s) <= links.Keys
    ensures forall a :: a in s && a in links ==> a in Covered(links, s)
    ensures PathClosed(links, Covered(links, s))
  {
    forall k | k in Covered(links, s) && links[k].parent.Some?
      ensures links[k].parent.value in Covered(links, s)
    {
      var a :| a in s && a in links && k in Path(links, a);
      var p := Path(links, a);
      var j :| 0 <= j < |p| && p[j] == k;
      assert links[p[0]].parent.None?;
      assert j > 0;
      assert links[p[j]].parent == Some(p[j - 1]);
    }
  }

  /** Every node on the path of a node of a closed set is in the set. */
  lemma {:induction false} PathInClosed(links: map<NodeId, Link>, d: set<NodeId>, k: NodeId)
    requires LinksOk(links) && k in links && k in d && PathClosed(links, d)
    ensures forall j :: 0 <= j < |Path(links, k)| ==> Path(links, k)[j] in d
    decreases links[k].level
  {
    match links[k].parent
    case None =>
    case Some(q) =>
      PathInClosed(links, d, q);
      assert Path(links, k) == Path(links, q) + [k];
  }

  /** A displayed node's parent is displayed. */
  lemma DisplayedParent(links: map<NodeId, Link>, m: map<NodeId, NodeState>, k: NodeId)
    requires LinksOk(links) && k in links && links[k].parent.Some?
    requires Displayed(links, m, k)
    ensures Displayed(links, m, links[k].parent.value)
  {
    var q := links[k].parent.value;
    assert Path(links, k) == Path(links, q) + [k];
    var p := Path(links, q);
    forall j | 0 <= j < |p| ensures p[j] in m && !m[p[j]].hidden && (j + 1 < |p| ==> m[p[j]].open) {
      assert Path(links, k)[j] == p[j];
    }
  }

  /**
   * After the resolver, with every root hidden beforehand, a node outside a
   * closed set is not displayed: its first ancestor outside the set is hidden.
   */
  lemma {:induction false} ResolvedHidesOutside(links: map<NodeId, Link>, roots: seq<NodeId>, m: map<NodeId, NodeState>,
                                               d: set<NodeId>, k: NodeId)
    requires LinksOk(links) && RootsOk(links, roots) && m.Keys == links.Keys
    requires forall r :: r in roots ==> m[r].hidden
    requires k in links && k !in d
    ensures !Displayed(links, Resolved(links, m, d), k)
    decreases links[k].level
  {
    var res := Resolved(links, m, d);
    match links[k].parent
    case None =>
      assert k in roots;
      assert res[k].hidden;
      assert Path(links, k)[0] == k;
    case Some(q) =>
      if q in d {
        assert res[k].hidden;
        var p := Path(links, k);
        assert p[|p| - 1] == k;
      } else {
        ResolvedHidesOutside(links, roots, m, d, q);
        if Displayed(links, res, k) {
          DisplayedParent(links, res, k);
        }
      }
  }

  /** Every node of a closed set is displayed after the resolver. */
  lemma ResolvedShowsInside(links: map<NodeId, Link>, m: map<NodeId, NodeState>, d: set<NodeId>, k: NodeId)
    requires LinksOk(links) && m.Keys == links.Keys
    requires d <= links.Keys && PathClosed(links, d)
    requires k in d
    ensures Displayed(links, Resolved(links, m, d), k)
  {
    var res := Resolved(links, m, d);
    var p := Path(links, k);
    PathInClosed(links, d, k);
    forall j | 0 <= j < |p| ensures p[j] in res && !res[p[j]].hidden && (j + 1 < |p| ==> res[p[j]].open) {
      if j + 1 < |p| {
        KidOfParent(links, p[j + 1]);
        assert links[p[j + 1]].parent == Some(p[j]);
      }
    }
  }

  /**
   * The visibility property of a search with matches: when every root
   * starts hidden, a node is displayed after the resolver exactly when it is
   * in the closed registered set.
   */
  lemma ResolvedDisplayedIff(links: map<NodeId, Link>, roots: seq<NodeId>, m: map<NodeId, NodeState>, d: set<NodeId>)
    requires LinksOk(links) && RootsOk(links, roots) && m.Keys == links.Keys
    requires forall r :: r in roots ==> m[r].hidden
    requires d <= links.Keys && PathClosed(links, d)
    ensures forall k :: k in links ==> (Displayed(links, Resolved(links, m, d), k) <==> k in d)
  {
    forall k | k in links ensures Displayed(links, Resolved(links, m, d), k) <==> k in d {
      if k in d {
        ResolvedShowsInside(links, m, d, k);
      } else {
        ResolvedHidesOutside(links, roots, m, d, k);
      }
    }
  }

  /**
   * The visibility property of the empty keyword: with every node shown and
   * its open flag set to `b`, the user sees the whole tree when `b` holds and
   * the roots only otherwise.
   */
  lemma AllShownDisplayedIff(links: map<NodeId, Link>, m: map<NodeId, NodeState>, b: bool)
    requires LinksOk(links) && m.Keys == links.Keys
    requires forall k :: k in m ==> !m[k].hidden && m[k].open == b
    ensures forall k :: k in links ==> (Displayed(links, m, k) <==> b || links[k].level == 0)
  {
    forall k | k in links ensures Displayed(links, m, k) <==> b || links[k].level == 0 {
      var p := Path(links, k);
      if b || links[k].level == 0 {
        forall j | 0 <= j < |p| ensures p[j] in m && !m[p[j]].hidden && (j + 1 < |p| ==> m[p[j]].open) {
          var x := p[j];
          assert x in m && !m[x].hidden && m[x].open == b;
        }
      } else {
        var r := p[0];
        assert r in m && !m[r].open;
      }
    }
  }

  /** A child list at level `d + 1` reaches exactly the nodes strictly below its parent. */
  lemma BelowKids(links: map<NodeId, Link>, v: NodeId, d: nat)
    requires LinksOk(links) && v in links && links[v].level == d
    ensures Below(links, Kids(links[v]), d + 1) == StrictlyBelow(links, [v], d)
  {
    forall k | k in links && links[k].level > d
      ensures Path(links, k)[d + 1] in Kids(links[v]) <==> Path(links, k)[d] == v
    {
      var p := Path(links, k);
      assert links[p[d + 1]].parent == Some(p[d]);
      KidOfParent(links, p[d + 1]);
      if p[d + 1] in Kids(links[v]) {
        ParentOfKid(links, v, p[d + 1]);
      }
    }
  }

  /** Starting from the roots, `_showAllHideNodes` reaches every node. */
  lemma BelowRootsAll(links: map<NodeId, Link>, roots: seq<NodeId>)
    requires LinksOk(links) && RootsOk(links, roots)
    ensures Below(links, roots, 0) == links.Keys
  {
    forall k | k in links ensures k in Below(links, roots, 0) {
      var p := Path(links, k);
      var r := p[0];
      assert r in links && links[r].parent.None?;
    }
  }

  // ---------------------------------------------------------------------
  // The path registry
  // ---------------------------------------------------------------------

  /**
   * The `showNodes` object of `_handleSearchResult`: level -> id -> node.
   * Its level keys are always 0, 1, ... (every path starts at a root), so it
   * is a sequence indexed by level; each level lists its ids in insertion order.
   */
  type Registry = seq<seq<NodeId>>

  /** Every entry sits at its own level, and no level holds an id twice. */
  ghost predicate RegistryOk(links: map<NodeId, Link>, reg: Registry) {
    (forall l, x :: 0 <= l < |reg| && x in reg[l] ==> x in links && links[x].level == l) &&
    (forall l, i, j :: 0 <= l < |reg| && 0 <= i < j < |reg[l]| ==> reg[l][i] != reg[l][j])
  }

  /** The entries level by level: the order `_showPathNodes` pushes them into `arr`. */
  function Flatten(reg: Registry): seq<NodeId> {
    if reg == [] then [] else Flatten(reg[..|reg| - 1]) + reg[|reg| - 1]
  }

  /** The ids the registry holds, on any level. */
  ghost function Registered(reg: Registry): set<NodeId> {
    set x | x in Flatten(reg)
  }

  lemma {:induction false} FlattenIn(reg: Registry, x: NodeId)
    ensures x in Flatten(reg) <==> exists l :: 0 <= l < |reg| && x in reg[l]
    decreases |reg|
  {
    if reg != [] {
      var init := reg[..|reg| - 1];
      FlattenIn(init, x);
      assert forall l :: 0 <= l < |init| ==> init[l] == reg[l];
      if x in Flatten(reg) && x !in reg[|reg| - 1] {
        var l :| 0 <= l < |init| && x in init[l];
        assert x in reg[l];
      }
    }
  }

  lemma RegistryNewLevel(links: map<NodeId, Link>, reg: Registry)
    requires RegistryOk(links, reg)
    ensures RegistryOk(links, reg + [[]])
  {
  }

  lemma RegistryInsert(links: map<NodeId, Link>, reg: Registry, x: NodeId)
    requires RegistryOk(links, reg)
    requires x in links && links[x].level < |reg| && x !in reg[links[x].level]
    ensures RegistryOk(links, reg[links[x].level := reg[links[x].level] + [x]])
  {
    var l := links[x].level;
    var r := reg[l := reg[l] + [x]];
    forall l', y | 0 <= l' < |r| && y in r[l'] ensures y in links && links[y].level == l' {
      if l' != l || y != x {
        assert y in reg[l'];
      }
    }
  }

  /**
   * `_handlePathNodes`: every node of the path of `id` is stored at its
   * level, a level being created when first reached; an id already stored
   * at a level is not stored again.
   */
  method HandlePathNodes(t: ZTree, id: NodeId, reg: Registry) returns (r: Registry)
    requires t.Valid() && id in t.links
    requires RegistryOk(t.links, reg)
    ensures RegistryOk(t.links, r)
    ensures |r| == if |reg| > t.links[id].level then |reg| else t.links[id].level + 1
    ensures forall l :: 0 <= l < |reg| ==> reg[l] <= r[l]
    ensures forall l, x :: 0 <= l < |r| ==>
      (x in r[l] <==> (l < |reg| && x in reg[l]) || (l <= t.links[id].level && x == Path(t.links, id)[l]))
    ensures (forall l :: 0 <= l <= t.links[id].level ==> l < |reg| && Path(t.links, id)[l] in reg[l]) ==> r == reg
    ensures Registered(r) == Registered(reg) + (set x | x in Path(t.links, id))
  {
    var p := Path(t.links, id);
    r := reg;
    for i := 0 to |p|
      invariant RegistryOk(t.links, r)
      invariant |r| == if |reg| > i then |reg| else i
      invariant forall l :: 0 <= l < |reg| ==> reg[l] <= r[l]
      invariant forall l, x :: 0 <= l < |r| ==> (x in r[l] <==> (l < |reg| && x in reg[l]) || (l < i && x == p[l]))
      invariant (forall l :: 0 <= l < |p| ==> l < |reg| && p[l] in reg[l]) ==> r == reg
    {
      var item := p[i];
      var lvl := t.links[item].level;
      if lvl == |r| {
        RegistryNewLevel(t.links, r);
        r := r + [[]];
      }
      if item !in r[lvl] {
        RegistryInsert(t.links, r, item);
        r := r[lvl := r[lvl] + [item]];
      }
    }
    RegisteredGrows(reg, r, p);
  }

  /** A registry that gained the entries of a path, level by level, holds the path's nodes besides its old ones. */
  lemma RegisteredGrows(reg: Registry, r: Registry, p: seq<NodeId>)
    requires |p| <= |r| && |reg| <= |r|
    requires forall l, x :: 0 <= l < |r| ==> (x in r[l] <==> (l < |reg| && x in reg[l]) || (l < |p| && x == p[l]))
    ensures Registered(r) == Registered(reg) + (set x | x in p)
  {
    forall x ensures x in Flatten(r) <==> x in Flatten(reg) || x in p {
      FlattenIn(r, x);
      FlattenIn(reg, x);
      if x in p {
        var j :| 0 <= j < |p| && p[j] == x;
        assert x in r[j];
      }
    }
  }

  // ---------------------------------------------------------------------
  // The tree operations of the search
  // ---------------------------------------------------------------------

  /** `_clearHighNode`: every node is visited and the marked ones are restored. */
  method ClearHighNode(t: ZTree)
    requires t.Valid()
    modifies t`nodes
    ensures t.Valid()
    ensures t.nodes == Restored(old(t.nodes))
  {
    for i := 0 to |t.order|
      invariant t.Valid() && t.nodes.Keys == old(t.nodes).Keys
      invariant forall k :: k in t.nodes ==> t.nodes[k] == if k in t.order[..i] then Restore(old(t.nodes)[k]) else old(t.nodes)[k]
    {
      var k := t.order[i];
      var n := t.nodes[k];
      if n.marked {
        t.nodes := t.nodes[k := Restore(n)];
      }
    }
    assert t.order[..|t.order|] == t.order;
    assert forall k :: k in t.nodes ==> t.nodes[k] == Restored(old(t.nodes))[k];
  }

  /**
   * `_highLightNode`: `Some(false)` when the node has no name, `Some(true)`
   * when highlighting is off, and `None` (no return value) after marking.
   */
  method HighLightNode(t: ZTree, id: NodeId, kw: string, hl: bool) returns (r: Option<bool>)
    requires t.Valid() && id in t.nodes && |kw| > 0
    modifies t`nodes
    ensures t.Valid()
    ensures r == if old(t.nodes)[id].name == "" then Some(false) else if !hl then Some(true) else None
    ensures t.nodes == old(t.nodes)[id := Highlighted(old(t.nodes)[id], kw, hl)]
  {
    var n := t.nodes[id];
    if n.name == "" {
      return Some(false);
    }
    if !hl {
      return Some(true);
    }
    n := n.(highlight := false);
    n := n.(marked := true);
    n := n.(name := Wrap(n.name, kw));
    t.nodes := t.nodes[id := n];
    r := None;
  }

  /**
   * `_showPathNodes`: for every registered node, level by level, the node is
   * collected and, when it has children, expanded and its children hidden;
   * then every collected node is shown in one batch.
   */
  method ShowPathNodes(t: ZTree, reg: Registry)
    requires t.Valid() && RegistryOk(t.links, reg)
    modifies t`nodes
    ensures t.Valid()
    ensures t.nodes == Resolved(t.links, old(t.nodes), Registered(reg))
  {
    var arr: seq<NodeId> := [];
    PartialEmpty(t.links, t.nodes);
    for l := 0 to |reg|
      invariant t.Valid() && arr == Flatten(reg[..l])
      invariant t.nodes == Partial(t.links, old(t.nodes), set x | x in arr)
    {
      for j := 0 to |reg[l]|
        invariant t.Valid() && arr == Flatten(reg[..l]) + reg[l][..j]
        invariant t.nodes == Partial(t.links, old(t.nodes), set x | x in arr)
      {
        var v := reg[l][j];
        ghost var before := set x | x in arr;
        arr := arr + [v];
        assert (set x | x in arr) == before + {v};
        if t.links[v].hasChildren {
          PartialStepParent(t.links, old(t.nodes), before, v);
          t.ExpandNode(v);
          t.HideNodes(t.links[v].children);
        } else {
          PartialStepLeaf(t.links, old(t.nodes), before, v);
        }
      }
      assert reg[..l + 1][..l] == reg[..l];
    }
    assert reg[..|reg|] == reg;
    t.ShowNodes(arr);
  }

  /** The children of `v` are exactly the nodes naming `v` as parent. */
  lemma KidsIff(links: map<NodeId, Link>, v: NodeId)
    requires LinksOk(links) && v in links
    ensures forall c :: c in links ==> (c in Kids(links[v]) <==> links[c].parent == Some(v))
  {
    forall c | c in links
      ensures c in Kids(links[v]) <==> links[c].parent == Some(v)
    {
      if c in Kids(links[v]) {
        ParentOfKid(links, v, c);
      }
      if links[c].parent == Some(v) {
        KidOfParent(links, c);
      }
    }
  }

  /** Expanding a registered node with children and hiding them extends the resolved set by that node. */
  lemma PartialStepParent(links: map<NodeId, Link>, m: map<NodeId, NodeState>, d: set<NodeId>, v: NodeId)
    requires LinksOk(links) && m.Keys == links.Keys && v in links && links[v].hasChildren
    ensures var p := Partial(links, m, d);
      WithHidden(p[v := p[v].(open := true)], (set x | x in links[v].children), true) == Partial(links, m, d + {v})
  {
    var p := Partial(links, m, d);
    var q := Partial(links, m, d + {v});
    var w := WithHidden(p[v := p[v].(open := true)], (set x | x in links[v].children), true);
    forall k | k in m ensures w[k] == q[k] {
      PartialStepAt(links, m, d, v, k);
    }
    assert w.Keys == q.Keys;
  }

  lemma PartialStepAt(links: map<NodeId, Link>, m: map<NodeId, NodeState>, d: set<NodeId>, v: NodeId, k: NodeId)
    requires LinksOk(links) && m.Keys == links.Keys && v in links && links[v].hasChildren && k in m
    ensures var p := Partial(links, m, d);
      WithHidden(p[v := p[v].(open := true)], (set x | x in links[v].children), true)[k] == Partial(links, m, d + {v})[k]
  {
    KidsIff(links, v);
    assert Kids(links[v]) == links[v].children;
    assert k in links;
  }

  /** A registered node without children changes nothing yet. */
  lemma PartialStepLeaf(links: map<NodeId, Link>, m: map<NodeId, NodeState>, d: set<NodeId>, v: NodeId)
    requires LinksOk(links) && m.Keys == links.Keys && v in links && !links[v].hasChildren
    ensures Partial(links, m, d) == Partial(links, m, d + {v})
  {
    var p := Partial(links, m, d);
    var q := Partial(links, m, d + {v});
    KidsIff(links, v);
    forall k | k in m ensures p[k] == q[k] {
      assert k in links;
      assert links[k].parent != Some(v);
    }
    assert p.Keys == q.Keys;
  }

  /** The resolver's loops start from the state they were given. */
  lemma PartialEmpty(links: map<NodeId, Link>, m: map<NodeId, NodeState>)
    ensures Partial(links, m, {}) == m
  {
    assert forall k :: k in m ==> Partial(links, m, {})[k] == m[k];
  }

  /**
   * `_showAllHideNodes`: the nodes of `ids` are shown, then the callback of
   * its `$.each` runs on each of them in turn. `d` is the level the ids sit
   * at; it bounds the recursion.
   */
  method ShowAllHideNodes(t: ZTree, ids: seq<NodeId>, ghost d: nat)
    requires t.Valid()
    requires forall x :: x in ids ==> x in t.links && t.links[x].level == d
    modifies t`nodes
    ensures t.Valid()
    ensures t.nodes == WithHidden(old(t.nodes), Below(t.links, ids, d), false)
    decreases |t.links| - d, 1
  {
    t.ShowNodes(ids);
    ShownStart(t.links, ids, d);
    for i := 0 to |ids|
      invariant t.Valid()
      invariant t.nodes == WithHidden(old(t.nodes), Shown(t.links, ids, i, d), false)
    {
      ShowKids(t, ids[i], d);
      ShownStep(t.links, old(t.nodes), ids, i, d);
    }
    assert ids[..|ids|] == ids;
    BelowSplit(t.links, ids, d);
  }

  /** The nodes of `ids` and those strictly below its first `i` elements. */
  ghost function Shown(links: map<NodeId, Link>, ids: seq<NodeId>, i: nat, d: nat): set<NodeId>
    requires LinksOk(links) && i <= |ids|
  {
    (set x | x in ids) + StrictlyBelow(links, ids[..i], d)
  }

  lemma ShownStart(links: map<NodeId, Link>, ids: seq<NodeId>, d: nat)
    requires LinksOk(links)
    ensures Shown(links, ids, 0, d) == set x | x in ids
  {
    assert ids[..0] == [];
    StrictlyBelowSnoc(links, ids, 0, d);
  }

  /** One step of the loop: showing what lies strictly below `ids[i]` extends the shown set. */
  lemma ShownStep(links: map<NodeId, Link>, m: map<NodeId, NodeState>, ids: seq<NodeId>, i: nat, d: nat)
    requires LinksOk(links) && i < |ids|
    ensures WithHidden(WithHidden(m, Shown(links, ids, i, d), false), StrictlyBelow(links, [ids[i]], d), false)
            == WithHidden(m, Shown(links, ids, i + 1, d), false)
  {
    ShowStep(links, ids, i, d);
    WithHiddenTwice(m, Shown(links, ids, i, d), StrictlyBelow(links, [ids[i]], d), false);
  }

  /**
   * The callback of `_showAllHideNodes` for one node at level `d`: when its
   * children key is defined, the children are shown recursively.
   */
  method ShowKids(t: ZTree, v: NodeId, ghost d: nat)
    requires t.Valid() && v in t.links && t.links[v].level == d
    modifies t`nodes
    ensures t.Valid()
    ensures t.nodes == WithHidden(old(t.nodes), StrictlyBelow(t.links, [v], d), false)
    decreases |t.links| - d, 0
  {
    BelowKids(t.links, v, d);
    if t.links[v].hasChildren {
      LevelBound(t.links, v);
      forall c | c in t.links[v].children ensures c in t.links && t.links[c].level == d + 1 {
        ParentOfKid(t.links, v, c);
      }
      ShowAllHideNodes(t, t.links[v].children, d + 1);
    } else {
      BelowNothing(t.links, d + 1);
      assert t.nodes == WithHidden(t.nodes, {}, false);
    }
  }

  /** One step of `_showAllHideNodes`'s loop adds the nodes strictly below one more id. */
  lemma ShowStep(links: map<NodeId, Link>, ids: seq<NodeId>, i: nat, d: nat)
    requires LinksOk(links) && i < |ids|
    ensures (set x | x in ids) + StrictlyBelow(links, ids[..i + 1], d)
            == (set x | x in ids) + StrictlyBelow(links, ids[..i], d) + StrictlyBelow(links, [ids[i]], d)
  {
    StrictlyBelowSnoc(links, ids, i, d);
  }

  lemma BelowNothing(links: map<NodeId, Link>, d: nat)
    requires LinksOk(links)
    ensures Below(links, [], d) == {}
  {
  }

  /** The nodes strictly below a list grow by those strictly below its next element. */
  lemma StrictlyBelowSnoc(links: map<NodeId, Link>, ids: seq<NodeId>, i: nat, d: nat)
    requires LinksOk(links) && i <= |ids|
    ensures i == 0 ==> StrictlyBelow(links, ids[..i], d) == {}
    ensures i < |ids| ==>
              StrictlyBelow(links, ids[..i + 1], d) == StrictlyBelow(links, ids[..i], d) + StrictlyBelow(links, [ids[i]], d)
  {
    if i < |ids| {
      assert ids[..i + 1] == ids[..i] + [ids[i]];
    }
  }

  /** The nodes below a list of same-level ids are the ids themselves and what lies strictly below them. */
  lemma BelowSplit(links: map<NodeId, Link>, ids: seq<NodeId>, d: nat)
    requires LinksOk(links)
    requires forall x :: x in ids ==> x in links && links[x].level == d
    ensures (set x | x in ids) + StrictlyBelow(links, ids, d) == Below(links, ids, d)
  {
    forall x | x in ids ensures x in Below(links, ids, d) {
      assert Path(links, x)[d] == x;
    }
  }

  /**
   * The `$.each` callback of `_handleSearchResult` for the `i`-th match:
   * the match is marked, then its path is added to the registry. `m` is the
   * state before the first match was handled.
   */
  method HandleMatch(t: ZTree, ms: seq<NodeId>, i: nat, kw: string, hl: bool, reg: Registry,
                     ghost m: map<NodeId, NodeState>) returns (r: Registry)
    requires t.Valid() && |kw| > 0 && i < |ms| && ms[i] in t.links
    requires RegistryOk(t.links, reg) && Registered(reg) == Covered(t.links, set x | x in ms[..i])
    requires t.nodes == HighlightAll(m, ms[..i], kw, hl)
    modifies t`nodes
    ensures t.Valid() && RegistryOk(t.links, r)
    ensures Registered(r) == Covered(t.links, (set x | x in ms[..i]) + {ms[i]})
    ensures t.nodes == HighlightAll(m, ms[..i + 1], kw, hl)
  {
    ghost var seen := set x | x in ms[..i];
    HighlightAllSnoc(m, ms, i, kw, hl);
    var _ := HighLightNode(t, ms[i], kw, hl);
    r := HandlePathNodes(t, ms[i], reg);
    CoveredStep(t.links, seen, ms[i]);
  }

  /**
   * `_handleSearchResult`: an empty result list returns false; otherwise
   * every match is marked and its path registered, then the registry is
   * resolved, and nothing is returned.
   */
  method HandleSearchResult(t: ZTree, ms: seq<NodeId>, kw: string, hl: bool) returns (r: Option<bool>)
    requires t.Valid() && |kw| > 0
    requires forall x :: x in ms ==> x in t.links
    modifies t`nodes
    ensures t.Valid()
    ensures ms == [] ==> r == Some(false) && t.nodes == old(t.nodes)
    ensures ms != [] ==>
              r == None &&
              t.nodes == Resolved(t.links, HighlightAll(old(t.nodes), ms, kw, hl), Covered(t.links, set x | x in ms))
  {
    if |ms| <= 0 {
      return Some(false);
    }
    var reg: Registry := [];
    CoveredEmpty(t.links);
    for i := 0 to |ms|
      invariant t.Valid() && RegistryOk(t.links, reg)
      invariant Registered(reg) == Covered(t.links, set x | x in ms[..i])
      invariant t.nodes == HighlightAll(old(t.nodes), ms[..i], kw, hl)
    {
      ghost var prefix := ms[..i + 1];
      assert prefix == ms[..i] + [ms[i]];
      ElementsSnoc(ms[..i], ms[i]);
      assert ms[i] in ms;
      reg := HandleMatch(t, ms, i, kw, hl, reg, old(t.nodes));
    }
    assert ms[..|ms|] == ms;
    ShowPathNodes(t, reg);
    r := None;
  }

  // ---------------------------------------------------------------------
  // The orchestrators
  // ---------------------------------------------------------------------

  /** How `search` ended; the messages it shows on the way are not modelled. */
  datatype Outcome = TreeNotFound | EmptyKeyword | NoResults | Matched

  /**
   * Whatever was shown before, a search with matches leaves exactly the
   * matches and their ancestors on screen: every root is hidden first, and
   * the resolver opens and shows the registered paths only.
   */
  lemma MatchedDisplay(links: map<NodeId, Link>, roots: seq<NodeId>, m: map<NodeId, NodeState>,
                       s: set<NodeId>, kw: string, hl: bool)
    requires LinksOk(links) && RootsOk(links, roots) && m.Keys == links.Keys && |kw| > 0
    ensures var after := Resolved(links, Labelled(WithHidden(m, (set r | r in roots), true), s, kw, hl), Covered(links, s));
      forall k :: k in links ==> (Displayed(links, after, k) <==> k in Covered(links, s))
  {
    var before := Labelled(WithHidden(m, (set r | r in roots), true), s, kw, hl);
    forall r | r in roots ensures before[r].hidden {
      assert r in links;
      HighlightedSpec(WithHidden(m, (set r | r in roots), true)[r], kw, hl);
    }
    CoveredClosed(links, s);
    ResolvedDisplayedIff(links, roots, before, Covered(links, s));
  }

  /**
   * Every node either carries the sentinel or shows its alias as its name.
   * `handleTreeDate` leaves the data in this state (alias = name, no
   * sentinel), and it is what lets the restorer undo every highlight.
   */
  ghost predicate Clean(m: map<NodeId, NodeState>) {
    forall k :: k in m ==> m[k].marked || m[k].name == m[k].alias
  }

  /** From a clean tree, the restorer leaves every name equal to its alias and no sentinel. */
  lemma RestoredCleans(m: map<NodeId, NodeState>)
    requires Clean(m)
    ensures Clean(Restored(m))
    ensures forall k :: k in Restored(m) ==> !Restored(m)[k].marked && Restored(m)[k].name == Restored(m)[k].alias
  {
  }

  /** The resolver only touches the hidden and open flags. */
  lemma ResolvedKeepsLabels(links: map<NodeId, Link>, m: map<NodeId, NodeState>, d: set<NodeId>)
    ensures Resolved(links, m, d).Keys == m.Keys
    ensures forall k :: k in m ==>
      Resolved(links, m, d)[k].name == m[k].name && Resolved(links, m, d)[k].alias == m[k].alias &&
      Resolved(links, m, d)[k].marked == m[k].marked
  {
  }

  /**
   * The labels a search with matches leaves, before the resolver: the marked
   * nodes are the matches that have a name (when highlighting is on), each
   * showing its alias marked once; every other name is its alias.
   */
  lemma MarkedOnceFromClean(roots: seq<NodeId>, m: map<NodeId, NodeState>, kw: string, hl: bool)
    requires Clean(m) && |kw| > 0
    ensures var l := Labelled(WithHidden(Restored(m), (set r | r in roots), true), MatchSet(m, kw), kw, hl);
      l.Keys == m.Keys &&
      forall k :: k in l ==>
        l[k].alias == m[k].alias &&
        (l[k].marked <==> k in MatchSet(m, kw) && hl && m[k].alias != "") &&
        (l[k].marked ==> l[k].name == Wrap(l[k].alias, kw)) &&
        (!l[k].marked ==> l[k].name == l[k].alias)
  {
    var hidden := WithHidden(Restored(m), (set r | r in roots), true);
    RestoredCleans(m);
    forall k | k in hidden
      ensures !hidden[k].marked && hidden[k].name == hidden[k].alias && hidden[k].alias == m[k].alias
    {
    }
  }

  /**
   * Searches never compound: from a clean tree, a search with matches
   * leaves a clean tree. It marks exactly the matches that have a name (when
   * highlighting is on), each showing its alias marked once, and leaves
   * every other name equal to its alias.
   */
  lemma SearchKeepsClean(links: map<NodeId, Link>, roots: seq<NodeId>, m: map<NodeId, NodeState>, kw: string, hl: bool)
    requires LinksOk(links) && Clean(m) && |kw| > 0
    ensures var after := Resolved(links, Labelled(WithHidden(Restored(m), (set r | r in roots), true), MatchSet(m, kw), kw, hl),
                                  Covered(links, MatchSet(m, kw)));
      after.Keys == m.Keys && Clean(after) &&
      forall k :: k in after ==>
        (after[k].marked <==> k in MatchSet(m, kw) && hl && m[k].alias != "") &&
        (after[k].marked ==> after[k].name == Wrap(after[k].alias, kw)) &&
        (!after[k].marked ==> after[k].name == after[k].alias)
  {
    var labelled := Labelled(WithHidden(Restored(m), (set r | r in roots), true), MatchSet(m, kw), kw, hl);
    MarkedOnceFromClean(roots, m, kw, hl);
    ResolvedKeepsLabels(links, labelled, Covered(links, MatchSet(m, kw)));
  }

  /**
   * From a clean tree, an empty keyword leaves every name equal to its alias
   * and no sentinel, whatever the expand flag.
   */
  lemma EmptyKeywordCleans(links: map<NodeId, Link>, m: map<NodeId, NodeState>, b: bool)
    requires Clean(m)
    ensures var e := WithOpen(WithHidden(Restored(m), links.Keys, false), b);
      Clean(e) && forall k :: k in e ==> !e[k].marked && e[k].name == e[k].alias
  {
    RestoredCleans(m);
  }

  /** From a clean tree, `clearSearch` leaves every name equal to its alias and no sentinel. */
  lemma ClearSearchCleans(links: map<NodeId, Link>, m: map<NodeId, NodeState>)
    requires Clean(m)
    ensures var c := Restored(WithOpen(WithHidden(m, links.Keys, false), false));
      Clean(c) && forall k :: k in c ==> !c[k].marked && c[k].name == c[k].alias
  {
    var shown := WithOpen(WithHidden(m, links.Keys, false), false);
    assert Clean(shown) by {
      forall k | k in shown ensures shown[k].marked || shown[k].name == shown[k].alias {
        assert shown[k].name == m[k].name && shown[k].alias == m[k].alias && shown[k].marked == m[k].marked;
      }
    }
    RestoredCleans(shown);
  }

  /**
   * `search`: a missing tree returns false and changes nothing. Otherwise
   * the highlight setting is stored and the previous highlights are
   * restored; then an empty keyword shows every node and opens or closes
   * all of them, no match changes nothing further, and matches hide the
   * roots and hand the matches to `_handleSearchResult`. `r` is what the
   * function returns: `false` on the three early exits, nothing (`None`)
   * after matches, whatever `_handleSearchResult` returned.
   */
  method Search(t: ZTree?, keyword: string, isHighLight: JsValue, isExpand: JsValue) returns (o: Outcome, r: Option<bool>)
    requires t != null ==> t.Valid()
    modifies t
    ensures t == null <==> o == TreeNotFound
    ensures r == None <==> t != null && keyword != "" && MatchSet(old(t.nodes), keyword) != {}
    ensures r != None ==> r == Some(false)
    ensures t != null ==> t.Valid() && t.nameIsHTML == HighlightFlag(isHighLight)
    ensures t != null && Clean(old(t.nodes)) ==> Clean(t.nodes)
    ensures t != null && keyword == "" ==>
              o == EmptyKeyword &&
              t.nodes == WithOpen(WithHidden(Restored(old(t.nodes)), t.links.Keys, false), ExpandFlag(isExpand)) &&
              forall k :: k in t.links ==> (Displayed(t.links, t.nodes, k) <==> ExpandFlag(isExpand) || t.links[k].level == 0)
    ensures t != null && keyword != "" && MatchSet(old(t.nodes), keyword) == {} ==>
              o == NoResults && t.nodes == Restored(old(t.nodes))
    ensures t != null && keyword != "" && MatchSet(old(t.nodes), keyword) != {} ==>
              o == Matched &&
              t.nodes == Resolved(t.links,
                                  Labelled(WithHidden(Restored(old(t.nodes)), (set r | r in t.roots), true),
                                           MatchSet(old(t.nodes), keyword), keyword, HighlightFlag(isHighLight)),
                                  Covered(t.links, MatchSet(old(t.nodes), keyword))) &&
              forall k :: k in t.links ==> (Displayed(t.links, t.nodes, k) <==> k in Covered(t.links, MatchSet(old(t.nodes), keyword)))
  {
    if t == null {
      return TreeNotFound, Some(false);
    }
    var hl := HighlightFlag(isHighLight);
    var expand := ExpandFlag(isExpand);
    t.nameIsHTML := hl;
    var nodes := t.roots;
    ClearHighNode(t);
    ghost var restored := t.nodes;
    RestoredKeepsMatches(old(t.nodes), keyword);
    if keyword == "" {
      forall r | r in nodes ensures r in t.links && t.links[r].level == 0 {
        assert t.links[r].parent.None?;
      }
      ShowAllHideNodes(t, nodes, 0);
      BelowRootsAll(t.links, t.roots);
      t.ExpandAll(expand);
      AllShownDisplayedIff(t.links, t.nodes, expand);
      if Clean(old(t.nodes)) {
        EmptyKeywordCleans(t.links, old(t.nodes), expand);
      }
      return EmptyKeyword, Some(false);
    }
    var res := t.GetNodesByParamFuzzy(keyword);
    assert (set x | x in res) == MatchSet(restored, keyword);
    if |res| == 0 {
      if Clean(old(t.nodes)) {
        RestoredCleans(old(t.nodes));
      }
      return NoResults, Some(false);
    }
    assert res[0] in MatchSet(restored, keyword);
    ghost var hidden := WithHidden(restored, (set r | r in nodes), true);
    t.HideNodes(nodes);
    var _ := HandleSearchResult(t, res, keyword, hl);
    HighlightAllDistinct(hidden, res, keyword, hl);
    MatchedDisplay(t.links, t.roots, restored, MatchSet(restored, keyword), keyword, hl);
    if Clean(old(t.nodes)) {
      SearchKeepsClean(t.links, t.roots, old(t.nodes), keyword, hl);
    }
    o, r := Matched, None;
  }

  /**
   * `clearSearch`: every node is shown and closed, then the highlights are
   * restored. The tree lookup is not checked, so a missing tree throws.
   */
  method ClearSearch(t: ZTree?) returns (threw: bool)
    requires t != null ==> t.Valid()
    modifies t
    ensures threw <==> t == null
    ensures t != null && Clean(old(t.nodes)) ==> Clean(t.nodes)
    ensures t != null ==>
              t.Valid() && t.nameIsHTML == old(t.nameIsHTML) &&
              t.nodes == Restored(WithOpen(WithHidden(old(t.nodes), t.links.Keys, false), false)) &&
              forall k :: k in t.links ==> (Displayed(t.links, t.nodes, k) <==> t.links[k].level == 0)
  {
    if t == null {
      return true;
    }
    if Clean(t.nodes) {
      ClearSearchCleans(t.links, t.nodes);
    }
    var nodes := t.roots;
    forall r | r in nodes ensures r in t.links && t.links[r].level == 0 {
      assert t.links[r].parent.None?;
    }
    ShowAllHideNodes(t, nodes, 0);
    BelowRootsAll(t.links, t.roots);
    t.ExpandAll(false);
    ClearHighNode(t);
    AllShownDisplayedIff(t.links, t.nodes, false);
    threw := false;
  }
}
