/**
 * The alias normaliser (zTreeNodeFuzzySearch.js:282-317): before the raw data
 * is handed to the tree, every node receives a copy of its display name in the
 * alias field, so that later searches match against, and restore from, a copy
 * that highlight markup never touches.
 *
 * Field names are typed fields here (`name`, `alias`, `children`); the
 * configurable key names are resolved by `HandleTreeData` and returned.
 */
module AliasNormalizer {
  import opened Wrappers

  /**
   * One object of the raw tree data. `hasChildren` says whether the children
   * key is defined at all; when it is false, `children` is not consulted.
   */
  datatype RawNode = RawNode(name: string, alias: Option<string>, hasChildren: bool, children: seq<RawNode>)

  /** The key names `handleTreeDate` ends up using; `children` is only resolved for standard data. */
  datatype FieldKeys = FieldKeys(alias: string, name: string, children: Option<string>)

  const DefaultAliasKey: string := "__zTreeAliasName"
  const DefaultNameKey: string := "name"
  const DefaultChildrenKey: string := "children"

  /** The node after `_standData`: alias copied from name here and, recursively, below. */
  function StandardNode(n: RawNode): RawNode
    decreases n
  {
    n.(alias := Some(n.name),
       children := if n.hasChildren
                   then seq(|n.children|, i requires 0 <= i < |n.children| => StandardNode(n.children[i]))
                   else n.children)
  }

  function Standard(data: seq<RawNode>): seq<RawNode> {
    seq(|data|, i requires 0 <= i < |data| => StandardNode(data[i]))
  }

  /** Every node at every depth below (and including) `n` carries alias = name. */
  ghost predicate NodeAliased(n: RawNode)
    decreases n
  {
    n.alias == Some(n.name) &&
    (n.hasChildren ==> forall i :: 0 <= i < |n.children| ==> NodeAliased(n.children[i]))
  }

  /** The node with every alias dropped: what the normaliser must not change. */
  ghost function Erase(n: RawNode): RawNode
    decreases n
  {
    n.(alias := None,
       children := if n.hasChildren
                   then seq(|n.children|, i requires 0 <= i < |n.children| => Erase(n.children[i]))
                   else n.children)
  }

  /** Nesting depth; the termination measure of the recursive normaliser. */
  ghost function Depth(n: RawNode): nat {
    1 + ForestDepth(n.children)
  }

  ghost function ForestDepth(data: seq<RawNode>): nat {
    if data == [] then 0
    else if Depth(data[0]) < ForestDepth(data[1..]) then ForestDepth(data[1..])
    else Depth(data[0])
  }

  /** `_simpleData`: alias := name on each top-level entry only (zTreeNodeFuzzySearch.js:283-288). */
  method SimpleData(data: seq<RawNode>) returns (r: seq<RawNode>)
    ensures |r| == |data|
    ensures forall i :: 0 <= i < |data| ==> r[i] == data[i].(alias := Some(data[i].name))
  {
    r := data;
    for i := 0 to |data|
      invariant |r| == |data|
      invariant forall j :: 0 <= j < i ==> r[j] == data[j].(alias := Some(data[j].name))
      invariant forall j :: i <= j < |data| ==> r[j] == data[j]
    {
      r := r[i := r[i].(alias := Some(r[i].name))];
    }
  }

  /** `_standData`: the loop over the entries, recursing into defined children (zTreeNodeFuzzySearch.js:291-299). */
  method StandData(data: seq<RawNode>) returns (r: seq<RawNode>)
    ensures r == Standard(data)
    decreases ForestDepth(data)
  {
    r := data;
    for i := 0 to |data|
      invariant |r| == |data|
      invariant forall j :: 0 <= j < i ==> r[j] == StandardNode(data[j])
      invariant forall j :: i <= j < |data| ==> r[j] == data[j]
    {
      var n := r[i].(alias := Some(r[i].name));
      if n.hasChildren {
        DepthDecreases(data, i);
        var kids := StandData(n.children);
        n := n.(children := kids);
      }
      r := r[i := n];
    }
  }

  lemma {:induction false} DepthDecreases(data: seq<RawNode>, i: int)
    requires 0 <= i < |data|
    ensures ForestDepth(data[i].children) < ForestDepth(data)
  {
    if i > 0 {
      DepthDecreases(data[1..], i - 1);
    }
  }

  /**
   * `handleTreeDate` (zTreeNodeFuzzySearch.js:309-317): a missing or empty key
   * falls back to its default; the simple shape is chosen only when the type is
   * exactly "simple", and only the standard shape resolves the children key.
   */
  method HandleTreeData(data: seq<RawNode>, kind: string,
                        aliasKey: Option<string>, nameKey: Option<string>, childrenKey: Option<string>)
    returns (keys: FieldKeys, r: seq<RawNode>)
    ensures keys.alias == if aliasKey == None || aliasKey == Some("") then DefaultAliasKey else aliasKey.value
    ensures keys.name == if nameKey == None || nameKey == Some("") then DefaultNameKey else nameKey.value
    ensures kind == "simple" ==>
              keys.children == None && |r| == |data| &&
              forall i :: 0 <= i < |data| ==> r[i] == data[i].(alias := Some(data[i].name))
    ensures kind != "simple" ==>
              r == Standard(data) &&
              keys.children == Some(if childrenKey == None || childrenKey == Some("") then DefaultChildrenKey else childrenKey.value)
  {
    var a := if aliasKey == None || aliasKey == Some("") then DefaultAliasKey else aliasKey.value;
    var nm := if nameKey == None || nameKey == Some("") then DefaultNameKey else nameKey.value;
    if kind == "simple" {
      keys := FieldKeys(a, nm, None);
      r := SimpleData(data);
      return;
    }
    var c := if childrenKey == None || childrenKey == Some("") then DefaultChildrenKey else childrenKey.value;
    keys := FieldKeys(a, nm, Some(c));
    r := StandData(data);
  }

  /** After the standard normaliser every node at every depth has alias = name. */
  lemma {:induction false} StandardAliasesAll(n: RawNode)
    ensures NodeAliased(StandardNode(n))
    decreases n
  {
    if n.hasChildren {
      forall i | 0 <= i < |n.children|
        ensures NodeAliased(StandardNode(n).children[i])
      {
        StandardAliasesAll(n.children[i]);
      }
    }
  }

  /** The standard normaliser changes aliases only: names, children keys and nesting stay. */
  lemma {:induction false} StandardKeepsRest(n: RawNode)
    ensures Erase(StandardNode(n)) == Erase(n)
    decreases n
  {
    if n.hasChildren {
      forall i | 0 <= i < |n.children|
        ensures Erase(StandardNode(n).children[i]) == Erase(n.children[i])
      {
        StandardKeepsRest(n.children[i]);
      }
    }
  }

  /** A node is left unchanged by the normaliser exactly when it is already fully aliased. */
  lemma {:induction false} StandardFixpointIff(n: RawNode)
    ensures StandardNode(n) == n <==> NodeAliased(n)
    decreases n
  {
    if n.hasChildren {
      forall i | 0 <= i < |n.children|
        ensures StandardNode(n.children[i]) == n.children[i] <==> NodeAliased(n.children[i])
      {
        StandardFixpointIff(n.children[i]);
      }
      if NodeAliased(n) {
        assert StandardNode(n).children == n.children;
      }
      if StandardNode(n) == n {
        forall i | 0 <= i < |n.children| ensures NodeAliased(n.children[i]) {
          assert StandardNode(n).children[i] == StandardNode(n.children[i]);
        }
      }
    }
  }

  /** Normalising twice is normalising once. */
  lemma StandardIdempotent(data: seq<RawNode>)
    ensures Standard(Standard(data)) == Standard(data)
  {
    forall i | 0 <= i < |data| ensures StandardNode(StandardNode(data[i])) == StandardNode(data[i]) {
      StandardAliasesAll(data[i]);
      StandardFixpointIff(StandardNode(data[i]));
    }
  }

  /** On data without children keys the two normalisers agree. */
  lemma SimpleAgreesOnFlatData(data: seq<RawNode>)
    requires forall i :: 0 <= i < |data| ==> !data[i].hasChildren
    ensures Standard(data) == seq(|data|, i requires 0 <= i < |data| => data[i].(alias := Some(data[i].name)))
  {
  }
}
