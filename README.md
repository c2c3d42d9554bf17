# Select tree: a verified model

This project models `scripts/select-tree.ts`, the in-memory tree behind a
filterable selection widget. It is written in Dafny.

A `Tree` owns a flat, append-only list of `TreeNode`s and a loading state.
Each node has:
- an id, a level, an optional parent id and a label;
- four flags: `visible`, `selected`, `expanded` and `selectable`;
- a search highlight, which is the label split into prefix, match and suffix.

Nodes find their parent and their children lazily. They scan the tree's list
and cache what they find. The whole-tree operations (`showAll`,
`showSelected`, `searchNodes` and `collapseToLevel`) loop over the list. Two
of them also walk ancestor chains through `parent()`, changing flags as they
go.

## Modules

| File | Module | Contents |
|---|---|---|
| `wrappers.dfy` | `Wrappers` | `Option`. |
| `text_search.dfy` | `TextSearch` | `new RegExp(term, 'i')` plus `String.search`: the first position where the term occurs, ignoring case. Also the highlight triple that `searchTerm` records. |
| `node_model.dfy` | `NodeModel` | The value types (see below). |
| `tree_spec.dfy` | `TreeSpec` | Pure functions. Each one says what a whole-tree operation does to the list of node data. Beside them are the lemmas about those functions. |
| `tree_steps.dfy` | `TreeSteps` | Step lemmas. They connect the loops of the methods to the functions of `TreeSpec`. |
| `select_tree.dfy` | `SelectTree` | The classes `TreeNode` and `Tree`, with fields and methods as in the source. Also `treeFromArray`, and the synchronous effect of `treeFromJson`. |

`NodeModel` holds:
- the records a tree is built from;
- `NodeStates` and `TreeStates`, with their defaults;
- the loading-state enumeration and its codes 0, 1, 2 and -1;
- the named toggles;
- the parent and child relations that the scans compute, stated on node positions.

The four whole-tree operations (`showAll`, `showSelected`, `searchNodes` and
`collapseToLevel`) are proved against a specification: each one's `ensures`
states the new node data as a `TreeSpec` function of the old data. The lemmas of
`TreeSpec` then state the promised properties of those functions. For example,
`searchNodes` reveals the ancestors of every match, and `showSelected` hides
only what it should.

The other `Tree` methods are stated differently:
- `SetFlag`, `SearchTermAt` and `SearchStep` change one node. Their `ensures`
  use the single-node functions of `TreeSteps`.
- `RevealHere`, `RevealOne` and `RevealChain` walk a chain of parents. Their
  `ensures` use `RevealAll` on the set of nodes visited so far.
- `CreateNode` appends one node with default data to the list.
- `SetLoadingState` changes only the loading state and leaves the node data alone.

`Tree.Valid()` is kept by every method. It says that the nodes are distinct,
that each belongs to the tree, and that each node's `_parent` and
`_children` caches agree with the list.

The model follows the code where its behaviour is easy to misread:
- `parent()` caches only a node it found. A miss is not cached, so the next call scans again.
- An unrecognised state name in `toggleState` changes nothing and returns `undefined`, modelled as `None`. It is not an error.
- `searchNodes("")` runs `searchTerm("")` on every node. The empty pattern matches at 0, so each highlight becomes `["", "", label]` rather than empty.
- Phase 1 of `showSelected` hides an unselected node when its `parentId` is truthy, that is present and non-zero (`HasParentId`). Whether a parent node exists does not matter. A `parentId` of 0 counts as a root there, even though `parent()` can still find a node with id 0.
- `collapseToLevel` collapses nodes with `level >= level`, as the code does, not `>` as its comment says.
- The loading state `error` is never set. A failed fetch only rejects the promise.

## Model

| member | source | states |
|---|---|---|
| NodeModel.ParseStateName | scripts/select-tree.ts:186-191 | A recognised name is the spelling of the flag it selects; any other name selects none |
| NodeModel.ParseNameOf | scripts/select-tree.ts:186-191 | Each of the four state names is dispatched to its own flag |
| NodeModel.Toggled | scripts/select-tree.ts:195-213 | The named flag becomes the given value, or is flipped when none is given; the other three flags keep their values |
| NodeModel.ToggleTwiceRestores | scripts/select-tree.ts:195-213 | Flipping a flag twice restores the node's states |
| NodeModel.Where | scripts/select-tree.ts:51-57 | A filter keeps exactly the positions whose flag holds, in increasing order |
| NodeModel.PickHas | scripts/select-tree.ts:51-57 | Every element at a kept position is in the filtered list |
| NodeModel.FirstWithId | scripts/select-tree.ts:149-154 | The found position holds a node whose id is the target, no earlier node has it, and a miss means no node has it |
| NodeModel.FirstWithIdAppend | scripts/select-tree.ts:44-49 | Appending a node does not move a parent that was already found, so a cached `_parent` stays right |
| NodeModel.Chain | scripts/select-tree.ts:36-40 | The nodes a `parent()` walk visits start with the node itself and lie within the list |
| NodeModel.Ancestors | scripts/select-tree.ts:79-84 | The ancestors of a node lie within the list |
| NodeModel.WalkInjective | scripts/select-tree.ts:36-40 | A `parent()` walk that ends never visits a node twice |
| NodeModel.ReachesRootWithinList | scripts/select-tree.ts:36-40 | A `parent()` walk that ends at all ends within one step fewer than there are nodes |
| NodeModel.ParentsPrecedeReachesRoot | scripts/select-tree.ts:147-157 | When every parent precedes its children in the list, every `parent()` walk ends |
| NodeModel.ChainPrecedes | scripts/select-tree.ts:147-157 | When parents precede children, a walk only moves backwards in the list |
| NodeModel.AncestorsPrecede | scripts/select-tree.ts:147-157 | When parents precede children, every ancestor sits before the node |
| NodeModel.ChildIndices | scripts/select-tree.ts:163-167 | The children scan collects exactly the positions whose `parentId` is the id, in list order |
| NodeModel.ChildIndicesStep | scripts/select-tree.ts:163-167 | Scanning one more node appends it exactly when it is a child |
| NodeModel.ChildOfParent | scripts/select-tree.ts:147-170 | A node is among the children of the node its `parent()` finds |
| NodeModel.ParentOfChild | scripts/select-tree.ts:147-170 | With unique ids, every child that `children()` lists finds this node as its parent |
| NodeModel.RootAndChild | scripts/select-tree.ts:147-170 | For a root with id 1 and a child with parent 1, the child's parent is the root, and the root's children are the child |
| TextSearch.FoldIdentifiesCasePairs | scripts/select-tree.ts:225 | Under the `'i'` flag two characters match exactly when they are equal or are the upper- and lower-case forms of one ASCII letter |
| TextSearch.FindFromFirst | scripts/select-tree.ts:225-227 | `String.search` returns a position where the term matches, ignoring case, and no earlier such position exists; -1 means no position matches |
| TextSearch.SearchTripleSplits | scripts/select-tree.ts:228-240 | The highlight is empty exactly when nothing matches; otherwise it has three parts that concatenate to the label, split at the first match, with the middle equal to the term up to case |
| TextSearch.EmptyTermSplitsAtStart | scripts/select-tree.ts:225-236 | The empty term matches at 0, so its highlight is `["", "", label]` |
| TextSearch.MixedCaseMatches | scripts/select-tree.ts:225-237 | Example: "b" in "aBc" gives `["a", "B", "c"]`, so the match keeps the label's case |
| TextSearch.AbsentTermMisses | scripts/select-tree.ts:225-240 | Example: "d" in "aBc" clears the highlight |
| TextSearch.NoMatchAt | scripts/select-tree.ts:226 | A position whose first character differs from the term's, up to case, is not the first match |
| TreeSpec.SelectionIndices | scripts/select-tree.ts:51-57 | `selectedNodes` and `unSelectedNodes` are exactly the positions with that `selected` value, in list order |
| TreeSpec.ShowAllEffect | scripts/select-tree.ts:19-23 | An unselected node becomes visible and nothing else changes; a selected node is left entirely as it was |
| TreeSpec.ShowAllIdempotent | scripts/select-tree.ts:19-23 | Showing all twice equals showing all once |
| TreeSpec.ChainsOfCovers | scripts/select-tree.ts:34-41 | Phase 2 covers the whole walk from each selected node |
| TreeSpec.ChainsOfOnly | scripts/select-tree.ts:34-41 | Phase 2 reaches only nodes on the walk from some selected node |
| TreeSpec.ShowSelectedRevealsChains | scripts/select-tree.ts:25-42 | Every selected node and every ancestor of one ends visible and expanded |
| TreeSpec.ShowSelectedHidesOthers | scripts/select-tree.ts:25-42 | An unselected node with a truthy `parentId` that is on no selected node's walk ends hidden, with its expansion unchanged |
| TreeSpec.ShowSelectedKeepsRoots | scripts/select-tree.ts:29-33 | An unselected root that is on no selected node's walk is left as it was |
| TreeSpec.ShowSelectedKeepsSelection | scripts/select-tree.ts:25-42 | `showSelected` changes neither `selected`, `selectable` nor the highlight |
| TreeSpec.ShowSelectedWithoutSelection | scripts/select-tree.ts:29-33 | With nothing selected, only phase 1 has an effect |
| TreeSpec.MatchIndices | scripts/select-tree.ts:75-78 | The nodes collected are exactly those whose label matches, in list order |
| TreeSpec.EmptyTermMatchesAll | scripts/select-tree.ts:67-72 | The empty term matches every node |
| TreeSpec.MatchAncestors | scripts/select-tree.ts:79-84 | The ancestors revealed by the matches lie within the list |
| TreeSpec.MatchAncestorsCovers | scripts/select-tree.ts:75-86 | The walks cover every ancestor of every match in the range |
| TreeSpec.MatchAncestorsOnly | scripts/select-tree.ts:75-86 | The walks reach only ancestors of matches in the range |
| TreeSpec.EmptySearchResets | scripts/select-tree.ts:67-72 | `searchNodes("")` leaves every node visible with the highlight `["", "", label]`, and changes no other flag |
| TreeSpec.SearchExpandsAncestors | scripts/select-tree.ts:75-86 | Every ancestor of a match ends expanded |
| TreeSpec.SearchRevealsAncestors | scripts/select-tree.ts:75-86 | When parents precede children, every ancestor of a match ends visible |
| TreeSpec.LaterAncestorStaysHidden | scripts/select-tree.ts:75-86 | Without that order, a root listed after its matching child ends hidden |
| TreeSpec.SearchHidesOthers | scripts/select-tree.ts:75-86 | A node that neither matches nor is an ancestor of a match ends hidden, with its expansion unchanged and no highlight |
| TreeSpec.SearchHighlightsMatches | scripts/select-tree.ts:76-78 | A matching node ends visible, with its label split into three parts around a match of the term, and no earlier position matches |
| TreeSpec.SearchKeepsSelection | scripts/select-tree.ts:64-88 | `searchNodes` changes neither `selected` nor `selectable` |
| TreeSpec.CollapseEffect | scripts/select-tree.ts:90-97 | A node ends collapsed exactly when its level is at least the threshold or it was collapsed already; nothing else changes |
| TreeSpec.CollapseTwice | scripts/select-tree.ts:90-97 | Collapsing to `a` and then to `b` equals collapsing to the smaller of the two |
| SelectTree.TreeNode.constructor | scripts/select-tree.ts:172-182 | A new node has the given id, level, parent id, label and tree, the default flags (visible, unselected, expanded, selectable), no highlight and empty caches |
| SelectTree.TreeNode.Parent | scripts/select-tree.ts:147-157 | Returns the first node of the tree whose id is `parentId`, or null; the result is the new `_parent`, so a miss leaves it empty |
| SelectTree.TreeNode.Children | scripts/select-tree.ts:159-170 | The first call scans and caches the children found in list order, even when there are none; later calls return the cache unchanged |
| SelectTree.TreeNode.CachesAgreeAppend | scripts/select-tree.ts:44-49 | Appending a node keeps every cached parent and children list consistent |
| SelectTree.TreeNode.ToggleState | scripts/select-tree.ts:184-193 | A recognised name updates only that flag, as `Toggled` says, and returns its new value; any other name changes nothing and returns `None` |
| SelectTree.TreeNode.ClearSearch | scripts/select-tree.ts:215-217 | The highlight becomes empty |
| SelectTree.TreeNode.SetSearch | scripts/select-tree.ts:219-221 | The highlight becomes the three given strings |
| SelectTree.TreeNode.SearchTerm | scripts/select-tree.ts:223-243 | The node becomes visible exactly when its label contains the term, ignoring case; the highlight becomes the split at the first match; the new `visible` is returned and no other flag changes |
| SelectTree.Tree.constructor | scripts/select-tree.ts:14-17 | A new tree has no nodes and loading state `unknown` |
| SelectTree.Tree.CreateNode | scripts/select-tree.ts:44-49 | One new node is appended, with the given record, default flags and empty caches; the earlier nodes and all caches stay consistent |
| SelectTree.Tree.SelectedNodes | scripts/select-tree.ts:51-53 | The result holds exactly the selected nodes of the list |
| SelectTree.Tree.UnSelectedNodes | scripts/select-tree.ts:55-57 | The result holds exactly the unselected nodes of the list |
| SelectTree.Tree.SetFlag | scripts/select-tree.ts:21 | `toggleState(name, value)` on one node of the list changes that node's named flag and no other node |
| SelectTree.Tree.ParentAt | scripts/select-tree.ts:39 | `parent()` on a node of the list returns the node at its parent's position, and keeps the data and every cache consistent |
| SelectTree.Tree.ShowAll | scripts/select-tree.ts:19-23 | The new node data is `ShowAllSpec` of the old |
| SelectTree.Tree.RevealHere | scripts/select-tree.ts:37-38 | The node is added to the set of nodes made visible and expanded |
| SelectTree.Tree.RevealOne | scripts/select-tree.ts:37-39 | One step of the walk reveals the node and moves to its parent; what is left of the walk shrinks by that node |
| SelectTree.Tree.RevealChain | scripts/select-tree.ts:36-40 | The walk from a node makes exactly the nodes of its `parent()` chain visible and expanded |
| SelectTree.Tree.HideUnselectedNodes | scripts/select-tree.ts:29-33 | Phase 1 hides exactly the unselected nodes with a truthy `parentId` |
| SelectTree.Tree.RevealSelected | scripts/select-tree.ts:34-41 | Phase 2 reveals and expands exactly the nodes on the walks from the selected nodes |
| SelectTree.Tree.ShowSelected | scripts/select-tree.ts:25-42 | The new node data is `ShowSelectedSpec` of the old: phase 1, then phase 2, on the selection as it was before |
| SelectTree.Tree.SearchTermAt | scripts/select-tree.ts:76 | `searchTerm` on one node of the list returns whether it matches, and changes that node alone |
| SelectTree.Tree.ResetNodes | scripts/select-tree.ts:67-72 | `showAll()`, then `searchTerm("")` on every node, gives `ResetSearch` |
| SelectTree.Tree.RevealAncestors | scripts/select-tree.ts:79-84 | The walk above a matching node reveals and expands exactly its ancestors |
| SelectTree.Tree.SearchStep | scripts/select-tree.ts:76-85 | One pass of the search loop reports the node's match and advances the sweep by one node |
| SelectTree.Tree.SearchMatches | scripts/select-tree.ts:75-87 | The loop leaves the data `SearchSweep` describes and returns the matching nodes in list order |
| SelectTree.Tree.SearchNodes | scripts/select-tree.ts:64-88 | The new data is `SearchData`; the result is the matching nodes in list order, which is the whole list for the empty term |
| SelectTree.Tree.CollapseToLevel | scripts/select-tree.ts:90-97 | The new node data is `CollapseSpec` of the old, with the inclusive `>=` test |
| SelectTree.Tree.SetLoadingState | scripts/select-tree.ts:59-62 | The loading state becomes the given one unconditionally and is returned |
| SelectTree.AppendRecords | scripts/select-tree.ts:248-250 | One node per record is appended, in order, with default data; only the node list changes |
| SelectTree.AppendOne | scripts/select-tree.ts:249 | `createNode` for one record extends the records and the default data by one |
| SelectTree.TreeFromArray | scripts/select-tree.ts:247-252 | The records become nodes of the given tree, or of a new tree when none is given, and that tree is returned |
| SelectTree.TreeFromJson | scripts/select-tree.ts:254-264 | When the fetch delivers records, a new tree holding exactly those records, with default data, is returned in state `done`; a failed fetch returns nothing |
| SelectTree.FinishLoading | scripts/select-tree.ts:259-262 | After the fetch, `treeFromArray` fills the empty tree and its state becomes `done` |
| SelectTree.ParentExample | scripts/select-tree.ts:147-157 | Built from a root 1 and its child 2, the child's `parent()` has id 1 |
| SelectTree.ChildrenExample | scripts/select-tree.ts:159-170 | In that tree, the root's `children()` is the child 2 alone |

## Left out

- The `fetch` and `Promise` chain of `treeFromJson` is network I/O. Its outcome is the parameter `fetched`: the records, or `None` for a failed request or parse.
- The loading state `error` is representable (`LoadingState.Error`, code -1), but no operation sets it, as in the code.
- The jQuery import is unused library code.
- `new RegExp(term, 'i')` is modelled for a literal term with ASCII case folding. Regular-expression metacharacters, Unicode case mapping and the resulting match lengths other than `|term|` are not modelled.
- JavaScript dynamic typing is not modelled. The records are a typed datatype. `parentId` is an `Option<int>`, and a missing `parent` key is `None`.
- The record's `parent` key is passed to `createNode` as `parentId`. The label is called `text` in the model because `label` is a Dafny keyword.
- A `TreeNode` built without a tree is not modelled. Every node belongs to a tree, as `createNode` makes it.
- The source collects each match before it walks the match's ancestors. The model appends the match after the walk. The walk does not read the collected list, so the order is not observable.
- `Tree` methods hand out the node list, and `children()` hands out its cached array. Callers could then mutate these through the aliases. That aliasing is not modelled, because the model returns `seq` values.
- SelectTree.Tree.ShowSelected: requires that the `parent()` walk from every selected node ends. On a cycle of parent ids the source loops forever, which a terminating method cannot express. `ParentsPrecedeReachesRoot` shows that the requirement holds whenever parents precede their children in the list. `ReachesRootWithinList` shows that a walk that ends at all ends within the length of the list, so the bound the methods take costs no generality.
- SelectTree.Tree.SearchNodes: requires, for a non-empty term, that the walk from every matching node ends, for the same reason.
- SelectTree.Tree.RevealChain: takes the number of steps within which the walk ends as a ghost parameter. The walk itself has no such bound; by `ReachesRootWithinList` the length of the list is always enough.
