# zTree node fuzzy search, modelled in Dafny

`zTreeNodeFuzzySearch.js` filters a zTree (a jQuery tree widget) by a
keyword. Before the tree is built, `handleTreeDate` copies every node's
display name into an alias field. A `search` then does four things:

1. It restores the names that the previous search wrapped in highlight markup.
2. It finds the nodes whose alias contains the keyword, ignoring case.
3. It wraps each occurrence of the keyword in those nodes' names in a
   `<span>`. It sets a sentinel flag on each such node, so that the next
   search can restore it.
4. It hides the roots, then opens and shows every node on the root-to-match
   path of every match, while hiding those nodes' other children.

An empty keyword shows the whole tree instead, and opens or closes every
node. `clearSearch` shows and closes every node, then removes the
highlights. It does not bring back the hidden or open flags the tree had
before the search.

The model has five modules:

- `Wrappers`: `Option`, which stands for JavaScript `undefined` (an absent
  field or a missing return value).
- `Marking`: the string side of highlighting.
  - `ContainsFold` is the case-insensitive substring test.
  - `Wrap` is the global, case-insensitive replace that puts markup around
    each occurrence.
  - `Starts` lists the positions the replace wraps.
  - Lemmas relate the pieces:
    - Every wrapped position is an occurrence.
    - The wrapped segments do not overlap.
    - Every occurrence lies in a wrapped segment.
    - The replace is `Mark`, which puts the opening tag before and the
      closing tag after each wrapped segment and copies every other character.
    - Each wrapped segment adds exactly one pair of tags.
    - Removing the tags gives back any name without a `<`.
    - The name changes exactly when the keyword occurs.
    - Highlights compound unless the name is restored first.
- `AliasNormalizer`: `_simpleData`, `_standData` and `handleTreeDate`.
  - `SimpleData` is a loop proved to copy name into alias on each top-level
    entry and to change nothing else.
  - `StandData` is a loop with recursion into defined children, proved
    against `Standard`, a function that describes the normalised data.
  - `SimpleAgreesOnFlatData` shows that the two normalisers agree on data
    without children keys.
  - `HandleTreeData` has no loop. It resolves the keys and picks one of the
    two normalisers.
- `Widget`: the zTree object the search drives, as the class `ZTree`.
  - A node's structure (`Link`: level, parent, children) is constant.
  - A node's flags (`NodeState`: name, alias, sentinel, zTree's highlight,
    hidden, open) sit in a map that the methods update.
  - `hideNodes`, `showNodes`, `expandNode`, `expandAll`,
    `getNodesByParamFuzzy` and `getPath` are small methods and functions
    whose contracts give the new state exactly.
- `FuzzySearch`: the search functions of the file, as methods on a `ZTree`.
  Each is proved to produce a state described by a specification function
  (`Restored`, `HighlightAll`, `Labelled`, `Resolved`, `Covered`). Lemmas say
  what those states mean:
  - A node is `Displayed` (it and all its ancestors are unhidden, and its
    ancestors are open) after a search with matches exactly when it is a
    match or an ancestor of one. This holds whatever was shown before.
  - After an empty keyword every node is displayed when `isExpand` is
    truthy, and only the roots otherwise.
  - Restoring is idempotent.
  - Restoring a freshly highlighted node gives the node back, except that
    zTree's own `highlight` flag stays cleared. This needs a node without
    the sentinel whose name equals its alias.
  - Searches never compound. A clean tree stays clean through every
    outcome of `search` and through `clearSearch`. In a clean tree each
    node carries the sentinel or shows its alias. After a search with
    matches, each marked name is its alias wrapped exactly once.

Inputs from outside the file are parameters:

- The tree that `$.fn.zTree.getZTreeObj` returns is a `ZTree?`, where
  `null` means the lookup failed.
- The keyword and the flags are arguments. The flags are `JsValue`s, so that
  JavaScript's `=== false` test and truthiness can be stated.

A node's `NodeId` stands both for zTree's node identity and for the `id`
field that `_handlePathNodes` indexes the registry by. The registry
`showNodes` (level → id → node) is a sequence indexed by level, because its
level keys are always 0, 1, ….

## Model

| member | source | states |
|---|---|---|
| Marking.ContainsFold | zTreeNodeFuzzySearch.js:74 | The fuzzy test on one alias: a keyword longer than the alias never matches. The empty keyword matches every alias, which is why `search` deals with it before matching. |
| Marking.Wrap | zTreeNodeFuzzySearch.js:213-217 | The global replace: the marked name is longer than the name by exactly one pair of tags per wrapped position. |
| Marking.StartsAreMatches | zTreeNodeFuzzySearch.js:213-217 | Every position the replace wraps holds a case-insensitive occurrence of the keyword. |
| Marking.StartsDisjoint | zTreeNodeFuzzySearch.js:213-217 | The wrapped positions increase, and the wrapped segments do not overlap. |
| Marking.WrapCoversEveryMatch | zTreeNodeFuzzySearch.js:213 | The `g` flag: every occurrence of the keyword starts at, or lies inside, a wrapped segment. |
| Marking.WrapIsMark | zTreeNodeFuzzySearch.js:213-217 | Where the tags go: the marked name is the name with the opening `<span>` tag before and `</span>` after the occurrence at each wrapped position, and every other character copied in order. With the three lemmas above this fixes the replace as the leftmost, non-overlapping, global one. |
| Marking.StripWrap | zTreeNodeFuzzySearch.js:214-217 | For a name without `<`, removing every opening and closing tag from the marked name gives the name back. The replace inserts tags and nothing else. |
| Marking.WrapIsIdentityIff | zTreeNodeFuzzySearch.js:213-217 | The highlight replace leaves a name unchanged if and only if the keyword does not occur in it, case-insensitively. |
| Marking.WrapWithoutMatch | zTreeNodeFuzzySearch.js:213-217 | A name without an occurrence of the keyword is returned as it was. |
| Marking.WrapLength | zTreeNodeFuzzySearch.js:214-217 | Replacing never shortens a name, and lengthens it when there is a match. |
| Marking.WrapKeepsMatch | zTreeNodeFuzzySearch.js:214-217 | The matched text stays inside the markup, so the marked name still contains the keyword. |
| Marking.WrapCompounds | zTreeNodeFuzzySearch.js:64 | Marking an already marked name changes it again. This is why the previous highlights are restored at the start of every search. |
| Marking.WrapKeepsText | zTreeNodeFuzzySearch.js:214-217 | The original name is a subsequence of the marked one: text outside matches and the matched text are kept, in order. |
| AliasNormalizer.SimpleData | zTreeNodeFuzzySearch.js:283-288 | Each top-level entry gets alias = name. Nothing else changes, nested children included. |
| AliasNormalizer.StandData | zTreeNodeFuzzySearch.js:291-299 | The loop, recursing into defined children, returns exactly the normalised data `Standard(data)`. |
| AliasNormalizer.HandleTreeData | zTreeNodeFuzzySearch.js:309-317 | A missing or empty key falls back to its default. Only `type == "simple"` selects the flat normaliser, and only the standard path resolves the children key. |
| AliasNormalizer.StandardAliasesAll | zTreeNodeFuzzySearch.js:291-299 | After the standard normaliser, every node at every depth has alias = name. |
| AliasNormalizer.StandardKeepsRest | zTreeNodeFuzzySearch.js:291-299 | The standard normaliser changes aliases only: names, children keys and nesting are unchanged. |
| AliasNormalizer.StandardFixpointIff | zTreeNodeFuzzySearch.js:291-299 | A node is left unchanged by the normaliser if and only if it is already fully aliased. |
| AliasNormalizer.StandardIdempotent | zTreeNodeFuzzySearch.js:291-299 | Normalising twice gives the same data as normalising once. |
| AliasNormalizer.SimpleAgreesOnFlatData | zTreeNodeFuzzySearch.js:283-299 | On data with no children keys, the two normalisers agree. |
| Widget.Path | zTreeNodeFuzzySearch.js:233 | `getPath()`: runs from a root to the node itself. Entry j has level j, and each entry's parent is the one before it. |
| Widget.PathPrefix | zTreeNodeFuzzySearch.js:233-240 | The path of a node on a path is that path's prefix ending at it. |
| Widget.LevelBound | zTreeNodeFuzzySearch.js:325-333 | A node's level is below the number of nodes, which bounds the recursion of `_showAllHideNodes`. |
| Widget.ZTree.HideNodes | zTreeNodeFuzzySearch.js:82 | `hideNodes`: exactly the listed nodes become hidden. Nothing else changes. |
| Widget.ZTree.ShowNodes | zTreeNodeFuzzySearch.js:277 | `showNodes`: exactly the listed nodes become shown. Nothing else changes. |
| Widget.ZTree.ExpandNode | zTreeNodeFuzzySearch.js:268 | `expandNode(node, true)`: exactly that node becomes open. |
| Widget.ZTree.ExpandAll | zTreeNodeFuzzySearch.js:69 | `expandAll(b)`: every node's open flag becomes `b`. Nothing else changes. |
| Widget.ZTree.GetNodesByParamFuzzy | zTreeNodeFuzzySearch.js:74 | Returns exactly the nodes whose alias contains the keyword (ignoring case), each once. |
| FuzzySearch.HighlightFlag | zTreeNodeFuzzySearch.js:55 | Highlighting is off if and only if the argument is the literal `false`. |
| FuzzySearch.ExpandFlag | zTreeNodeFuzzySearch.js:56 | `isExpand` is coerced to a boolean: it is false exactly for `undefined`, `null`, `false`, `0` and `""`. |
| FuzzySearch.Restore | zTreeNodeFuzzySearch.js:341-347 | A node with the sentinel gets its alias as name and loses the sentinel. A node without it is unchanged. Alias, zTree's highlight, hidden and open are kept. |
| FuzzySearch.Highlighted | zTreeNodeFuzzySearch.js:201-217 | `_highLightNode` on one node: the node carries the sentinel afterwards if and only if it did before, or it has a name and highlighting is on. Alias, hidden and open are never changed. |
| FuzzySearch.HighlightedSpec | zTreeNodeFuzzySearch.js:201-217 | No name, or highlighting off: the node is unchanged. Otherwise it carries the sentinel and `highlight` is false. The name keeps its text in order, and changes if and only if the keyword occurs in it. Alias, hidden and open are never touched. |
| FuzzySearch.HighlightThenRestore | zTreeNodeFuzzySearch.js:209-217 | Restoring a freshly marked node gives the node back, except that zTree's `highlight` stays cleared. |
| FuzzySearch.Restored | zTreeNodeFuzzySearch.js:339-351 | The tree after the restorer: same nodes, no sentinel left anywhere, aliases unchanged. |
| FuzzySearch.RestoredCleans | zTreeNodeFuzzySearch.js:339-351 | On a clean tree the restorer leaves every name equal to its alias. This is the state `search` leaves when nothing matches. |
| FuzzySearch.ClearHighNode | zTreeNodeFuzzySearch.js:339-351 | Every node is visited, and the new state is `Restored` of the old one. |
| FuzzySearch.RestoredIdempotent | zTreeNodeFuzzySearch.js:339-351 | Running the restorer twice leaves the tree as running it once. |
| FuzzySearch.RestoredChangesMarkedOnly | zTreeNodeFuzzySearch.js:340-349 | The restorer changes a node if and only if it carried the sentinel, and keeps every node. |
| FuzzySearch.MatchSet | zTreeNodeFuzzySearch.js:74 | The nodes `getNodesByParamFuzzy` finds are nodes of the tree. An empty keyword would find all of them. |
| FuzzySearch.RestoredKeepsMatches | zTreeNodeFuzzySearch.js:64-74 | Restoring before matching does not change which nodes match. |
| FuzzySearch.HighLightNode | zTreeNodeFuzzySearch.js:196-221 | Returns false when there is no name, true when highlighting is off, and nothing after marking. The tree changes at that node only, as `Highlighted` says. |
| FuzzySearch.HighlightAllDistinct | zTreeNodeFuzzySearch.js:171-176 | Marking a list of distinct matches one by one marks each of them exactly once. |
| FuzzySearch.HighlightAllKeepsLayout | zTreeNodeFuzzySearch.js:171-176 | Marking never changes a node's hidden or open flag or its alias. |
| FuzzySearch.LabelledThenRestored | zTreeNodeFuzzySearch.js:64 | On a clean, aliased tree, the next search's restore undoes a search's marking completely, except zTree's `highlight` flag. |
| FuzzySearch.HandlePathNodes | zTreeNodeFuzzySearch.js:231-244 | Every node of the match's path is stored at its level. Old entries stay, in place. No level holds an id twice. An id is stored only if it was there before or is on the path. Collecting a path already present returns the registry unchanged. |
| FuzzySearch.CoveredStep | zTreeNodeFuzzySearch.js:175 | Each collected match adds exactly the nodes of its path to the registered set. |
| FuzzySearch.CoveredClosed | zTreeNodeFuzzySearch.js:231-244 | The registered set contains every match, lies inside the tree and contains each member's parent. |
| FuzzySearch.ShowPathNodes | zTreeNodeFuzzySearch.js:251-280 | The new state is `Resolved`: registered nodes with children are opened, children of registered nodes are hidden, then every registered node is shown. |
| FuzzySearch.PartialStepParent | zTreeNodeFuzzySearch.js:264-270 | For a node with children, expanding it and hiding its children adds that node to the resolved set. This is the step that makes the nested loop's order irrelevant. |
| FuzzySearch.PartialStepLeaf | zTreeNodeFuzzySearch.js:266 | A registered node without a children key adds nothing before the final show. |
| FuzzySearch.ResolvedShowsInside | zTreeNodeFuzzySearch.js:264-277 | After the resolver, every node of a parent-closed registered set is displayed. |
| FuzzySearch.ResolvedHidesOutside | zTreeNodeFuzzySearch.js:264-277 | If the roots were hidden first, a node outside the registered set is not displayed after the resolver. |
| FuzzySearch.ResolvedDisplayedIff | zTreeNodeFuzzySearch.js:254-277 | If the roots start hidden, a node is displayed after the resolver if and only if it is registered. |
| FuzzySearch.HandleMatch | zTreeNodeFuzzySearch.js:171-176 | The `$.each` callback for one match: that match is marked on top of the earlier ones, and the registered set grows to cover its path. |
| FuzzySearch.HandleSearchResult | zTreeNodeFuzzySearch.js:159-183 | No results: returns false and changes nothing. Otherwise it returns nothing, and the state is the resolved state of the marked tree over the matches' paths. |
| FuzzySearch.MatchedDisplay | zTreeNodeFuzzySearch.js:82-85 | After the roots are hidden and the matches handled, a node is displayed if and only if it is a match or an ancestor of one, whatever was displayed before. |
| FuzzySearch.ShowAllHideNodes | zTreeNodeFuzzySearch.js:325-333 | Shows exactly the given nodes and every node below them reached through defined children. Nothing else changes. |
| FuzzySearch.ShowKids | zTreeNodeFuzzySearch.js:327-331 | The `$.each` callback shows exactly the nodes strictly below one node. |
| FuzzySearch.BelowKids | zTreeNodeFuzzySearch.js:328-329 | Recursing into a node's children reaches exactly the nodes strictly below that node. |
| FuzzySearch.BelowRootsAll | zTreeNodeFuzzySearch.js:62-68 | Starting from `getNodes()`, `_showAllHideNodes` reaches every node of the tree. |
| FuzzySearch.AllShownDisplayedIff | zTreeNodeFuzzySearch.js:67-70 | When everything is shown and every open flag is `b`, the whole tree is displayed if `b` holds, and only the roots otherwise. |
| FuzzySearch.MarkedOnceFromClean | zTreeNodeFuzzySearch.js:64-85 | From a clean tree, the marked nodes after marking are exactly the matches with a name (when highlighting is on). Each shows its alias wrapped once, and every other name equals its alias. |
| FuzzySearch.SearchKeepsClean | zTreeNodeFuzzySearch.js:64-85 | Searches with matches never compound highlights: from a clean tree, the final state is clean again, and the marked names are exactly as above. |
| FuzzySearch.EmptyKeywordCleans | zTreeNodeFuzzySearch.js:64-70 | From a clean tree, an empty keyword leaves every name equal to its alias and no sentinel. |
| FuzzySearch.ClearSearchCleans | zTreeNodeFuzzySearch.js:364-366 | From a clean tree, `clearSearch` leaves every name equal to its alias and no sentinel. |
| FuzzySearch.Search | zTreeNodeFuzzySearch.js:33-88 | It returns nothing (`None`) if and only if the tree exists, the keyword is non-empty and something matches, and `false` otherwise (lines 48, 70 and 78). A clean tree stays clean. A missing tree is reported and nothing changes. Otherwise `nameIsHTML` becomes the highlight flag and the restore runs first. An empty keyword: every node is shown, every open flag is the expand flag, and all or only the roots are displayed. No match: only the restore happened. Matches: the state is given exactly, and a node is displayed if and only if it is a match or an ancestor of one. |
| FuzzySearch.ClearSearch | zTreeNodeFuzzySearch.js:359-367 | A missing tree throws. A clean tree stays clean. Otherwise every node is shown and closed, highlights are restored, and exactly the roots are displayed. |

## Left out

- `changeEventSearch` and `keyDownEventSearch` (zTreeNodeFuzzySearch.js:99-147) are left out. They are jQuery event bindings and a `setTimeout` debounce around `search`.
- `layer.msg`, `console.log` and the `Date` timings are left out. `search` reports its outcome as an `Outcome` value instead of a message.
- zTree internals are left out: `updateNode`, the DOM rendering, and the real work of `hideNodes`, `showNodes`, `expandNode`, `expandAll`, `getNodesByParamFuzzy`, `getNodesByFilter` and `getPath`. Each is reduced to the flags it sets on a node. `nameIsHTML` is kept as a flag only.
- JavaScript `RegExp` semantics are left out. The keyword is matched as literal text, while the source compiles it unescaped as a pattern. A keyword with regular-expression metacharacters therefore behaves differently in the source, and can throw there.
- Case folding is left out beyond ASCII. Only `A`–`Z` are folded, and JavaScript's Unicode case mapping is not modelled.
- Dynamic field keys are left out. `nameKey`, `aliasNameKey`, `childrenKey` and `searchHighLightKey` are typed fields. `HandleTreeData` resolves and returns the key names but does not apply them.
- `_showAllHideNodes` ignores a custom `childrenKey`, and this is left out. `search` and `clearSearch` call it without `childrenKey` (zTreeNodeFuzzySearch.js:68 and 364), and so does its own recursion (zTreeNodeFuzzySearch.js:329), so it always uses `children`. The model has a single children field, so it covers only the default key.
- Registry keys are left out. `_handlePathNodes` stores nodes under their `id` field, and the model assumes that every node has a distinct `id`. Nodes of one level with no or equal `id`s would overwrite each other's entry.
- JavaScript object key order in the registry is left out. Each level keeps insertion order. The final state of `_showPathNodes` does not depend on that order (see `FuzzySearch.PartialStepParent`).
- Absent values are left out beyond strings. An absent name is the empty string, so `!node[nameKey]` becomes `name == ""`. Names, and so aliases, are modelled as strings: `handleTreeDate` copies `data[i][nameKey]` as it is (zTreeNodeFuzzySearch.js:285 and 293), so a missing or numeric name gives an `undefined` or numeric alias, which is not modelled beyond the empty string. `null` children are treated like absent ones (`!= undefined`). `NaN` is not a modelled `JsValue`.
- FuzzySearch.HighLightNode: requires a non-empty keyword. Its only caller guarantees that, and an empty pattern's replace is not modelled.
- FuzzySearch.HandleSearchResult: requires a non-empty keyword for the same reason. It also requires that every result is a node of the tree, which holds because results come from `getNodesByParamFuzzy`.
- AliasNormalizer.SimpleData: a `for…in` over an array also visits any extra enumerable properties. The model visits the indices only.
- AliasNormalizer.StandData: the same `for…in` caveat applies at every level of nesting (zTreeNodeFuzzySearch.js:292). The model visits the indices only.
