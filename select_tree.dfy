/**
 * The in-memory tree of scripts/select-tree.ts: a `Tree` owns a flat,
 * append-only list of `TreeNode` objects and a loading state; each node owns
 * its flags and search highlight and finds its parent and children lazily by
 * scanning the tree's list, caching what it finds. Every method is proved to
 * produce the node data that the functions of `TreeSpec` describe.
 */
module SelectTree {
  import opened Wrappers
  import opened TextSearch
  import opened NodeModel
  import opened TreeSpec
  import opened TreeSteps

  class TreeNode {
    const id: int
    const level: int
    const parentId: Option<int>
    /** The node's `label` (a Dafny keyword). */
    const text: string
    const tree: Tree
    var search: seq<string>
    var state: NodeStates
    /** `_parent`: `null` until a scan finds the parent. */
    var parentCache: TreeNode?
    /** `_children`: `None` until the first call of `Children`. */
    var childrenCache: Option<seq<TreeNode>>
    /** How many nodes the tree had when `childrenCache` was filled. */
    ghost var childrenScanned: nat

    function Record(): NodeRecord {
      NodeRecord(id, level, parentId, text)
    }

    /**
     * The caches agree with the tree's list: a cached parent is the first node
     * whose id is `parentId`, and cached children are the nodes whose
     * `parentId` is `id` among those that existed when they were collected.
     */
    ghost predicate Valid()
      reads this`parentCache, this`childrenCache, this`childrenScanned, tree`nodes
    {
      CachesAgree(tree.nodes, id, parentId, parentCache, childrenCache, childrenScanned)
    }

    static ghost predicate CachesAgree(ns: seq<TreeNode>, id: int, parentId: Option<int>, parentCache: TreeNode?,
                                       childrenCache: Option<seq<TreeNode>>, scanned: nat)
    {
      var recs := RecordsOf(ns);
      (parentCache != null ==>
        match FirstWithId(recs, parentId)
        case None => false
        case Some(k) => ns[k] == parentCache) &&
      (childrenCache.Some? ==>
        scanned <= |recs| &&
        childrenCache.value == Pick(ns, ChildIndices(recs[..scanned], id)))
    }

    /** Appending a node to the list keeps every cache consistent. */
    static lemma CachesAgreeAppend(ns: seq<TreeNode>, n: TreeNode, id: int, parentId: Option<int>, parentCache: TreeNode?,
                                   childrenCache: Option<seq<TreeNode>>, scanned: nat)
      requires CachesAgree(ns, id, parentId, parentCache, childrenCache, scanned)
      ensures CachesAgree(ns + [n], id, parentId, parentCache, childrenCache, scanned)
    {
      var recs, recs' := RecordsOf(ns), RecordsOf(ns + [n]);
      assert recs' == recs + [n.Record()];
      if parentCache != null {
        FirstWithIdAppend(recs, n.Record(), parentId);
      }
      if childrenCache.Some? {
        assert recs'[..scanned] == recs[..scanned];
      }
    }

    constructor (id: int, level: int, parentId: Option<int>, text: string, tree: Tree)
      ensures this.id == id && this.level == level && this.parentId == parentId && this.text == text
      ensures this.tree == tree
      ensures state == DefaultNodeStates && search == []
      ensures parentCache == null && childrenCache == None
      ensures Valid()
    {
      this.id := id;
      this.level := level;
      this.parentId := parentId;
      this.text := text;
      this.tree := tree;
      search := [];
      state := DefaultNodeStates;
      parentCache := null;
      childrenCache := None;
      childrenScanned := 0;
    }

    /**
     * `parent()`: the first node of the tree whose id is `parentId`, or `null`.
     * A found parent is cached; a miss leaves the cache empty, so the next
     * call scans again.
     */
    method Parent() returns (p: TreeNode?)
      requires Valid()
      modifies this`parentCache
      ensures Valid()
      ensures p == match FirstWithId(tree.Records(), parentId)
                   case None => null
                   case Some(k) => tree.nodes[k]
      ensures parentCache == p
    {
      if parentCache == null {
        var nodes := tree.nodes;
        var i := 0;
        while i < |nodes|
          invariant 0 <= i <= |nodes| && parentCache == null
          invariant forall j :: 0 <= j < i ==> Some(nodes[j].id) != parentId
        {
          if Some(nodes[i].id) == parentId {
            parentCache := nodes[i];
            break;
          }
          i := i + 1;
        }
      }
      p := parentCache;
    }

    /**
     * `children()`: the nodes whose `parentId` is `id`, in list order. The
     * first call scans the tree and caches the result, even when it is empty;
     * later calls return the cache, so nodes appended since are not seen.
     */
    method Children() returns (cs: seq<TreeNode>)
      requires Valid()
      modifies this`childrenCache, this`childrenScanned
      ensures Valid()
      ensures childrenCache == Some(cs)
      ensures old(childrenCache).Some? ==> cs == old(childrenCache).value && childrenScanned == old(childrenScanned)
      ensures old(childrenCache).None? ==> cs == Pick(tree.nodes, ChildIndices(tree.Records(), id))
    {
      if childrenCache.None? {
        var nodes := tree.nodes;
        ghost var recs := tree.Records();
        childrenCache := Some([]);
        for i := 0 to |nodes|
          invariant childrenCache.Some?
          invariant childrenCache.value == Pick(nodes, ChildIndices(recs[..i], id))
        {
          ChildIndicesStep(recs, id, i);
          if nodes[i].parentId == Some(id) {
            childrenCache := Some(childrenCache.value + [nodes[i]]);
          }
        }
        assert recs[..|nodes|] == recs;
        childrenScanned := |nodes|;
      }
      cs := childrenCache.value;
    }

    /**
     * `toggleState(name, value)`: a recognised name sets that flag to `value`,
     * or flips it when `value` is absent, and returns the new value; any
     * other name changes nothing and returns `None` (`undefined`).
     */
    method ToggleState(name: string, value: Option<bool>) returns (r: Option<bool>)
      modifies this`state
      ensures match ParseStateName(name)
              case None => r == None && state == old(state)
              case Some(s) => state == Toggled(old(state), s, value) && r == Some(Get(state, s))
    {
      match ParseStateName(name)
      case None =>
        r := None;
      case Some(s) =>
        state := Toggled(state, s, value);
        r := Some(Get(state, s));
    }

    /** `clearSearch()`. */
    method ClearSearch()
      modifies this`search
      ensures search == []
    {
      search := [];
    }

    /** `setSearch(pre, term, post)`. */
    method SetSearch(pre: string, term: string, post: string)
      modifies this`search
      ensures search == [pre, term, post]
    {
      search := [pre, term, post];
    }

    /**
     * `searchTerm(term)`: the node becomes visible exactly when its label
     * contains `term` ignoring case, its highlight becomes the split around
     * the first match (or is cleared), and the new `visible` is returned.
     */
    method SearchTerm(term: string) returns (visible: bool)
      modifies this`state, this`search
      ensures visible == Search(text, term).Some?
      ensures state == old(state).(visible := visible)
      ensures search == SearchTriple(text, term)
    {
      FindFromFirst(text, term, 0);
      var found := Search(text, term);
      var matched := found.Some?;
      var endSearch := if matched then found.value + |term| else 0;
      var _ := ToggleState("visible", Some(matched));
      if matched {
        SetSearch(text[..found.value], text[found.value..endSearch], text[endSearch..]);
      } else {
        ClearSearch();
      }
      visible := state.visible;
    }
  }

  class Tree {
    var nodes: seq<TreeNode>
    var state: TreeStates

    /** No node object occurs twice in the list. */
    ghost predicate Distinct()
      reads this`nodes
    {
      forall i, j :: 0 <= i < j < |nodes| ==> nodes[i] != nodes[j]
    }

    /** The nodes are distinct, all belong to this tree, and their caches are consistent. */
    ghost predicate Valid()
      reads this`nodes, nodes`parentCache, nodes`childrenCache, nodes`childrenScanned
    {
      Distinct() && AllValid(nodes)
    }

    /** Every node of `ns` belongs to this tree and its caches are consistent. */
    ghost predicate AllValid(ns: seq<TreeNode>)
      reads this`nodes, ns`parentCache, ns`childrenCache, ns`childrenScanned
      decreases |ns|
    {
      ns == [] || (AllValid(ns[..|ns| - 1]) && ns[|ns| - 1].tree == this && ns[|ns| - 1].Valid())
    }

    lemma {:induction false} AllValidAt(ns: seq<TreeNode>, i: nat)
      requires AllValid(ns) && i < |ns|
      ensures ns[i].tree == this && ns[i].Valid()
      decreases |ns|
    {
      if i < |ns| - 1 {
        AllValidAt(ns[..|ns| - 1], i);
      }
    }

    lemma {:induction false} AllValidIntro(ns: seq<TreeNode>)
      requires forall i :: 0 <= i < |ns| ==> ns[i].tree == this && ns[i].Valid()
      ensures AllValid(ns)
      decreases |ns|
    {
      if ns != [] {
        AllValidIntro(ns[..|ns| - 1]);
      }
    }

    /** The records of the nodes, in list order. */
    function Records(): seq<NodeRecord>
      reads this`nodes
    {
      RecordsOf(nodes)
    }

    /** The flags and highlights of the nodes, in list order. */
    function Data(): seq<NodeData>
      reads this`nodes, nodes
    {
      DataOf(nodes)
    }

    /** A new tree has no nodes and loading state `unknown`. */
    constructor ()
      ensures Valid() && nodes == [] && state == DefaultTreeStates
    {
      nodes := [];
      state := DefaultTreeStates;
    }

    /** `createNode`: appends a new node with default flags and no highlight. */
    method CreateNode(id: int, level: int, parentId: Option<int>, text: string) returns (node: TreeNode)
      requires Valid()
      modifies this`nodes
      ensures Valid() && fresh(node)
      ensures node.parentCache == null && node.childrenCache == None
      ensures nodes == old(nodes) + [node]
      ensures Records() == old(Records()) + [NodeRecord(id, level, parentId, text)]
      ensures Data() == old(Data()) + [DefaultNodeData]
    {
      ghost var ns, ds := nodes, Data();
      ValidParts();
      node := new TreeNode(id, level, parentId, text, this);
      nodes := nodes + [node];
      ValidAfterAppend(ns, node);
      Appended(ns, node, ds);
    }

    /** What `Valid()` says about each node of the list. */
    lemma ValidParts()
      requires Valid()
      ensures forall i, j :: 0 <= i < j < |nodes| ==> nodes[i] != nodes[j]
      ensures forall i :: 0 <= i < |nodes| ==> nodes[i].tree == this
      ensures forall i :: 0 <= i < |nodes| ==>
        TreeNode.CachesAgree(nodes, nodes[i].id, nodes[i].parentId, nodes[i].parentCache,
                             nodes[i].childrenCache, nodes[i].childrenScanned)
    {
      forall i | 0 <= i < |nodes|
        ensures nodes[i].tree == this && nodes[i].Valid()
      {
        AllValidAt(nodes, i);
      }
    }

    /** The records and data of the list `ns` with a new default node appended. */
    lemma Appended(ns: seq<TreeNode>, node: TreeNode, ds: seq<NodeData>)
      requires nodes == ns + [node] && ds == DataOf(ns)
      requires node.state == DefaultNodeStates && node.search == []
      ensures Records() == RecordsOf(ns) + [node.Record()]
      ensures Data() == ds + [DefaultNodeData]
    {
      assert Records() == RecordsOf(ns) + [node.Record()];
      DataIs(ds + [DefaultNodeData]);
    }

    /** The list `ns` with a new node appended is consistent when `ns` was. */
    lemma ValidAfterAppend(ns: seq<TreeNode>, node: TreeNode)
      requires nodes == ns + [node] && node !in ns
      requires forall i, j :: 0 <= i < j < |ns| ==> ns[i] != ns[j]
      requires node.tree == this && node.parentCache == null && node.childrenCache == None
      requires forall i :: 0 <= i < |ns| ==> ns[i].tree == this
      requires forall i :: 0 <= i < |ns| ==>
        TreeNode.CachesAgree(ns, ns[i].id, ns[i].parentId, ns[i].parentCache, ns[i].childrenCache, ns[i].childrenScanned)
      ensures Valid()
    {
      forall i | 0 <= i < |nodes|
        ensures nodes[i].tree == this && nodes[i].Valid()
      {
        var n := nodes[i];
        if i < |ns| {
          TreeNode.CachesAgreeAppend(ns, node, n.id, n.parentId, n.parentCache, n.childrenCache, n.childrenScanned);
        }
      }
      AllValidIntro(nodes);
    }

    /** `selectedNodes()`: the selected nodes, in list order. */
    function SelectedNodes(): (r: seq<TreeNode>)
      reads this`nodes, nodes
      ensures forall t :: 0 <= t < |r| ==> r[t] in nodes && r[t].state.selected
      ensures forall k :: 0 <= k < |nodes| && nodes[k].state.selected ==> nodes[k] in r
    {
      PickHas(nodes, SelectionIndices(Data(), true));
      Pick(nodes, SelectionIndices(Data(), true))
    }

    /** `unSelectedNodes()`: the unselected nodes, in list order. */
    function UnSelectedNodes(): (r: seq<TreeNode>)
      reads this`nodes, nodes
      ensures forall t :: 0 <= t < |r| ==> r[t] in nodes && !r[t].state.selected
      ensures forall k :: 0 <= k < |nodes| && !nodes[k].state.selected ==> nodes[k] in r
    {
      PickHas(nodes, SelectionIndices(Data(), false));
      Pick(nodes, SelectionIndices(Data(), false))
    }

    /** The list's data is `want` when every node holds the flags and highlight `want` gives it. */
    lemma DataIs(want: seq<NodeData>)
      requires |want| == |nodes|
      requires forall k :: 0 <= k < |nodes| ==> want[k] == NodeData(nodes[k].state, nodes[k].search)
      ensures Data() == want
    {
    }

    /**
     * `node.toggleState(name, Some(b))` for the recognised name of `s`, on the
     * node at position `u`: no other node of the list changes.
     */
    method SetFlag(node: TreeNode, ghost u: nat, s: StateName, b: bool)
      requires Distinct() && u < |nodes| && nodes[u] == node
      modifies node`state
      ensures Data() == SetFlagAt(old(Data()), u, s, b)
    {
      ghost var ds := Data();
      ParseNameOf(s);
      var _ := node.ToggleState(NameOf(s), Some(b));
      forall k | 0 <= k < |nodes| && k != u
        ensures nodes[k] != node
      {
        if k < u { } else { }
      }
      DataIs(SetFlagAt(ds, u, s, b));
    }

    /** `node.searchTerm(term)` on the node at position `u`: no other node of the list changes. */
    method SearchTermAt(node: TreeNode, ghost u: nat, term: string) returns (visible: bool)
      requires Distinct() && u < |nodes| && nodes[u] == node
      modifies node`state, node`search
      ensures visible == Matches(Records(), term, u)
      ensures Data() == AfterSearchTerm(Records(), old(Data()), term, u)
    {
      ghost var ds := Data();
      assert Records()[u] == node.Record();
      visible := node.SearchTerm(term);
      forall k | 0 <= k < |nodes| && k != u
        ensures nodes[k] != node
      {
        if k < u { } else { }
      }
      DataIs(AfterSearchTerm(Records(), ds, term, u));
    }

    /**
     * `node.parent()` on the node at position `u`: the node data and the
     * consistency of every cache are kept.
     */
    method ParentAt(node: TreeNode, ghost u: nat) returns (p: TreeNode?)
      requires Valid() && u < |nodes| && nodes[u] == node
      modifies node`parentCache
      ensures Valid() && Data() == old(Data())
      ensures p == match ParentIndex(Records(), u)
                   case None => null
                   case Some(k) => nodes[k]
    {
      forall k | 0 <= k < |nodes|
        ensures nodes[k].tree == this && nodes[k].Valid()
      {
        AllValidAt(nodes, k);
      }
      p := node.Parent();
      forall k | 0 <= k < |nodes| && k != u
        ensures nodes[k] != node
      {
        if k < u { } else { }
      }
      AllValidIntro(nodes);
    }

    /** `showAll()`: every unselected node becomes visible; selected nodes are not touched. */
    method ShowAll()
      requires Distinct()
      modifies nodes`state
      ensures Data() == ShowAllSpec(old(Data()))
    {
      ghost var ds := Data();
      ghost var un := SelectionIndices(ds, false);
      var unselect := UnSelectedNodes();
      assert unselect == Pick(nodes, un);
      for t := 0 to |unselect|
        invariant Data() == SetEach(ds, un[..t], Visible, true)
      {
        SetFlag(unselect[t], un[t], Visible, true);
        assert un[..t + 1][..t] == un[..t];
      }
      assert un[..|unselect|] == un;
      ShowAllByEach(ds);
    }

    /** `p.toggleState('visible', true)` and `p.toggleState('expanded', true)` on the node at position `pi`. */
    method RevealHere(p: TreeNode, ghost pi: nat, ghost ds: seq<NodeData>, ghost visited: set<nat>)
      requires Distinct() && pi < |nodes| && nodes[pi] == p && Data() == RevealAll(ds, visited)
      modifies p`state
      ensures Data() == RevealAll(ds, visited + {pi})
    {
      ghost var cur := Data();
      SetFlag(p, pi, Visible, true);
      SetFlag(p, pi, Expanded, true);
      RevealOneStep(cur, pi);
      RevealAllTwice(ds, visited, {pi});
    }

    /**
     * One step of an ancestor walk: `p.toggleState('visible', true)`,
     * `p.toggleState('expanded', true)`, then `p.parent()`. The ghost
     * parameters track the walk: `visited` is revealed already, and what is
     * left of `target` is the chain from `p` (position `pi`, within `fuel`
     * steps); the results are the same facts one step on.
     */
    method RevealOne(p: TreeNode, ghost pi: nat, ghost fuel: nat, ghost ds: seq<NodeData>,
                     ghost visited: set<nat>, ghost target: set<nat>)
      returns (q: TreeNode?, ghost qi: nat, ghost fuel': nat, ghost visited': set<nat>)
      requires Valid() && pi < |nodes| && nodes[pi] == p && ReachesRoot(Records(), pi, fuel)
      requires visited + Chain(Records(), pi, fuel) == target
      requires Data() == RevealAll(ds, visited)
      modifies p`state, p`parentCache
      ensures Valid()
      ensures q != null ==> qi < |nodes| && nodes[qi] == q && ReachesRoot(Records(), qi, fuel')
      ensures q != null ==> visited' + Chain(Records(), qi, fuel') == target && fuel' < fuel
      ensures q == null ==> visited' == target
      ensures Data() == RevealAll(ds, visited')
    {
      RevealHere(p, pi, ds, visited);
      visited' := visited + {pi};
      q := ParentAt(p, pi);
      if q == null {
        ChainEnd(Records(), pi, fuel);
        qi, fuel' := 0, 0;
      } else {
        ChainStep(Records(), pi, fuel);
        qi, fuel' := ParentIndex(Records(), pi).value, fuel - 1;
      }
    }

    /**
     * The ancestor walk of `showSelected()` and `searchNodes()`: starting at
     * `start`, force `visible` and `expanded` on and move to `parent()` until
     * there is none. `si` is the position of `start`, and the walk ends within
     * `fuel` steps.
     */
    method RevealChain(start: TreeNode?, ghost si: nat, ghost fuel: nat)
      requires Valid()
      requires start != null ==> si < |nodes| && nodes[si] == start && ReachesRoot(Records(), si, fuel)
      modifies nodes`state, nodes`parentCache
      ensures Valid()
      ensures Data() == RevealAll(old(Data()), if start == null then {} else Chain(Records(), si, fuel))
    {
      ghost var ds := Data();
      ghost var target := if start == null then {} else Chain(Records(), si, fuel);
      var p := start;
      ghost var pi: nat, f: nat := si, fuel;
      ghost var visited: set<nat> := {};
      RevealNone(ds);
      while p != null
        invariant Valid()
        invariant p != null ==> pi < |nodes| && nodes[pi] == p && ReachesRoot(Records(), pi, f)
        invariant p != null ==> visited + Chain(Records(), pi, f) == target
        invariant p == null ==> visited == target
        invariant Data() == RevealAll(ds, visited)
        decreases if p == null then 0 else f + 1
      {
        p, pi, f, visited := RevealOne(p, pi, f, ds, visited, target);
      }
    }

    /** The first loop of `showSelected()`: every unselected node with a truthy `parentId` is hidden. */
    method HideUnselectedNodes(unselect: seq<TreeNode>, ghost un: seq<nat>)
      requires Distinct() && un == SelectionIndices(Data(), false) && unselect == Pick(nodes, un)
      modifies nodes`state
      ensures Data() == HideUnselected(Records(), old(Data()))
    {
      ghost var recs, ds := Records(), Data();
      for t := 0 to |unselect|
        invariant Data() == SetEach(ds, WithParent(recs, un[..t]), Visible, false)
      {
        HideStep(recs, ds, un, t);
        if unselect[t].parentId.Some? && unselect[t].parentId.value != 0 {
          SetFlag(unselect[t], un[t], Visible, false);
        }
      }
      assert un[..|unselect|] == un;
      HideByEach(recs, ds);
    }

    /**
     * The second loop of `showSelected()`: the ancestor walk from each node of
     * `select`, the nodes at the positions `sel`.
     */
    method RevealSelected(select: seq<TreeNode>, ghost sel: seq<nat>)
      requires Valid() && |select| == |sel|
      requires forall t :: 0 <= t < |sel| ==> sel[t] < |nodes| && nodes[sel[t]] == select[t]
      requires forall t :: 0 <= t < |sel| ==> ReachesRoot(Records(), sel[t], |nodes|)
      modifies nodes`state, nodes`parentCache
      ensures Valid()
      ensures Data() == RevealAll(old(Data()), ChainsOf(Records(), sel))
    {
      ghost var recs, ds := Records(), Data();
      RevealNone(ds);
      for t := 0 to |select|
        invariant Valid()
        invariant Data() == RevealAll(ds, ChainsOf(recs, sel[..t]))
      {
        RevealChain(select[t], sel[t], |recs|);
        ChainsStep(recs, ds, sel, t);
      }
      assert sel[..|select|] == sel;
    }

    /**
     * `showSelected()`: the first loop hides every unselected node with a
     * truthy `parentId`; the second walks from every selected node up to its
     * root, revealing and expanding each node on the way.
     */
    method ShowSelected()
      requires Valid() && SelectedChainsEnd(Records(), Data())
      modifies nodes`state, nodes`parentCache
      ensures Valid()
      ensures Data() == ShowSelectedSpec(Records(), old(Data()))
    {
      ghost var ds := Data();
      ghost var un, sel := SelectionIndices(ds, false), SelectionIndices(ds, true);
      var unselect := UnSelectedNodes();
      var select := SelectedNodes();
      assert unselect == Pick(nodes, un) && select == Pick(nodes, sel);
      HideUnselectedNodes(unselect, un);
      RevealSelected(select, sel);
    }

    /** The `term === ''` branch of `searchNodes`: `showAll()`, then `searchTerm('')` on every node. */
    method ResetNodes()
      requires Distinct()
      modifies nodes`state, nodes`search
      ensures Data() == ResetSearch(Records(), old(Data()))
    {
      ghost var recs, ds := Records(), Data();
      ShowAll();
      ghost var shown := Data();
      TermsToStart(recs, shown, "");
      for i := 0 to |nodes|
        invariant Data() == TermsTo(recs, shown, "", i)
      {
        var _ := SearchTermAt(nodes[i], i, "");
        TermsToStep(recs, shown, "", i);
      }
      ResetByTerms(recs, ds);
    }

    /**
     * The walk of `searchNodes(term)` above a matching node at position `i`:
     * `node.parent()`, then the ancestor walk from there.
     */
    method RevealAncestors(node: TreeNode, ghost i: nat)
      requires Valid() && i < |nodes| && nodes[i] == node && ReachesRoot(Records(), i, |nodes|)
      modifies nodes`state, nodes`parentCache
      ensures Valid()
      ensures Data() == RevealAll(old(Data()), Ancestors(Records(), i))
    {
      AncestorsWalk(Records(), i);
      var p := ParentAt(node, i);
      RevealChain(p, if p == null then 0 else ParentIndex(Records(), i).value, |nodes| - 1);
    }

    /**
     * One pass of the loop of `searchNodes(term)`, over the node at position
     * `i`: `searchTerm(term)`, and when it matches, the walk above it.
     */
    method SearchStep(node: TreeNode, ghost i: nat, term: string, ghost ds: seq<NodeData>) returns (visible: bool)
      requires Valid() && i < |nodes| && nodes[i] == node && |ds| == |nodes|
      requires Matches(Records(), term, i) ==> ReachesRoot(Records(), i, |nodes|)
      requires Data() == SweepTo(Records(), ds, term, i)
      modifies nodes`state, nodes`search, nodes`parentCache
      ensures Valid()
      ensures visible == Matches(Records(), term, i)
      ensures Data() == SweepTo(Records(), ds, term, i + 1)
    {
      visible := SearchTermAt(node, i, term);
      SweepToStep(Records(), ds, term, i);
      if visible {
        RevealAncestors(node, i);
      }
    }

    /**
     * The loop of `searchNodes(term)` for a non-empty `term`: every node runs
     * `searchTerm(term)`; each match is collected and its ancestors are
     * revealed and expanded; the matches are returned in list order.
     */
    method SearchMatches(term: string) returns (found: seq<TreeNode>)
      requires Valid() && MatchChainsEnd(Records(), term)
      modifies nodes`state, nodes`search, nodes`parentCache
      ensures Valid()
      ensures Data() == SearchSweep(Records(), old(Data()), term)
      ensures found == Pick(nodes, MatchIndices(Records(), term))
    {
      ghost var recs, ds := Records(), Data();
      ghost var flags := MatchFlags(recs, term);
      var acc: seq<TreeNode> := [];
      SweepToStart(recs, ds, term);
      for i := 0 to |nodes|
        invariant Valid()
        invariant acc == Pick(nodes, Where(flags[..i]))
        invariant Data() == SweepTo(recs, ds, term, i)
      {
        var node := nodes[i];
        var visible := SearchStep(node, i, term, ds);
        PickWhereStep(nodes, flags, i);
        if visible {
          acc := acc + [node];
        }
      }
      assert flags[..|nodes|] == flags;
      found := acc;
      SweepToEnd(recs, ds, term);
    }

    /**
     * `searchNodes(term)`. The empty term resets every node and returns the
     * whole list; any other term runs the search loop and returns the matches.
     */
    method SearchNodes(term: string) returns (found: seq<TreeNode>)
      requires Valid()
      requires term != "" ==> MatchChainsEnd(Records(), term)
      modifies nodes`state, nodes`search, nodes`parentCache
      ensures Valid()
      ensures Data() == SearchData(Records(), old(Data()), term)
      ensures found == Pick(nodes, MatchIndices(Records(), term))
      ensures term == "" ==> found == nodes
    {
      if term == "" {
        ResetNodes();
        EmptyTermMatchesAll(Records());
        found := nodes;
      } else {
        found := SearchMatches(term);
      }
    }

    /** `collapseToLevel(level)`: every node whose `level` is at least `level` is collapsed. */
    method CollapseToLevel(level: int)
      requires Distinct()
      modifies nodes`state
      ensures Data() == CollapseSpec(Records(), old(Data()), level)
    {
      ghost var ds := Data();
      ghost var done: set<nat> := {};
      SetAtNone(ds, Expanded, false);
      for i := 0 to |nodes|
        invariant forall k: nat :: k in done <==> k < i && nodes[k].level >= level
        invariant Data() == SetAt(ds, done, Expanded, false)
      {
        if nodes[i].level >= level {
          SetFlag(nodes[i], i, Expanded, false);
          SetAtStep(ds, done, Expanded, false, i);
          done := done + {i};
        }
      }
      CollapseBySetAt(Records(), ds, level, done);
    }

    /** `setLoadingState`: an unconditional set that returns the new state. */
    method SetLoadingState(s: LoadingState) returns (r: LoadingState)
      modifies this`state
      ensures state == old(state).(loading := s) && r == s
    {
      state := state.(loading := s);
      r := state.loading;
    }
  }

  /** `n` nodes that have default flags and no highlight. */
  function DefaultData(n: nat): (r: seq<NodeData>)
    ensures |r| == n && forall k :: 0 <= k < n ==> r[k] == DefaultNodeData
  {
    seq(n, _ => DefaultNodeData)
  }

  /** One more record taken, and one more default node. */
  lemma BuildStep(records: seq<NodeRecord>, i: nat, recs: seq<NodeRecord>, ds: seq<NodeData>)
    requires i < |records|
    ensures (recs + records[..i]) + [records[i]] == recs + records[..i + 1]
    ensures (ds + DefaultData(i)) + [DefaultNodeData] == ds + DefaultData(i + 1)
  {
    assert records[..i + 1] == records[..i] + [records[i]];
    assert DefaultData(i + 1) == DefaultData(i) + [DefaultNodeData];
  }

  /** The loop of `treeFromArray`: one `createNode` per record, in order. */
  method AppendRecords(t: Tree, records: seq<NodeRecord>)
    requires t.Valid()
    modifies t`nodes
    ensures t.Valid()
    ensures t.Records() == old(t.Records()) + records
    ensures t.Data() == old(t.Data()) + DefaultData(|records|)
  {
    ghost var recs, ds := t.Records(), t.Data();
    for i := 0 to |records|
      invariant t.Valid()
      invariant t.Records() == recs + records[..i]
      invariant t.Data() == ds + DefaultData(i)
    {
      AppendOne(t, records, i, recs, ds);
    }
    assert records[..|records|] == records;
  }

  /** One pass of the loop of `treeFromArray`: `createNode` for record `i`. */
  method AppendOne(t: Tree, records: seq<NodeRecord>, i: nat, ghost recs: seq<NodeRecord>, ghost ds: seq<NodeData>)
    requires i < |records| && t.Valid()
    requires t.Records() == recs + records[..i] && t.Data() == ds + DefaultData(i)
    modifies t`nodes
    ensures t.Valid()
    ensures t.Records() == recs + records[..i + 1]
    ensures t.Data() == ds + DefaultData(i + 1)
  {
    var r := records[i];
    assert NodeRecord(r.id, r.level, r.parentId, r.text) == r;
    var _ := t.CreateNode(r.id, r.level, r.parentId, r.text);
    BuildStep(records, i, recs, ds);
  }

  /**
   * `treeFromArray(nodes, tree)`: the records are added to `tree`, or to a
   * new tree when none is given, and that tree is returned. The records'
   * `parent` keys become the nodes' `parentId`.
   */
  method TreeFromArray(records: seq<NodeRecord>, tree: Tree?) returns (t: Tree)
    requires tree != null ==> tree.Valid()
    modifies if tree == null then {} else {tree}
    ensures t.Valid()
    ensures tree != null ==> t == tree && t.state == old(tree.state)
    ensures tree == null ==> fresh(t) && t.state == DefaultTreeStates
    ensures t.Records() == (if tree == null then [] else old(tree.Records())) + records
    ensures t.Data() == (if tree == null then [] else old(tree.Data())) + DefaultData(|records|)
  {
    if tree == null {
      t := new Tree();
      assert t.Records() == [] && t.Data() == [];
    } else {
      t := tree;
    }
    AppendRecords(t, records);
  }

  /**
   * `treeFromJson(url)` with the outcome of the fetch as `fetched`: a new
   * tree is set to `loading`; when the fetch delivers the records, they are
   * added with `treeFromArray`, the tree is set to `done` and returned. A
   * failed fetch rejects the promise, so no tree is returned (and the state
   * `error` is never set).
   */
  method TreeFromJson(fetched: Option<seq<NodeRecord>>) returns (r: Option<Tree>)
    ensures fetched.None? <==> r.None?
    ensures r.Some? ==> fresh(r.value) && r.value.Valid() && r.value.state.loading == Done
    ensures r.Some? ==> r.value.Records() == fetched.value && r.value.Data() == DefaultData(|fetched.value|)
  {
    var tree := new Tree();
    var _ := tree.SetLoadingState(Loading);
    if fetched.Some? {
      FinishLoading(tree, fetched.value);
      r := Some(tree);
    } else {
      r := None;
    }
  }

  /** The continuation of `treeFromJson` on the fetched records: `treeFromArray(json, tree)`, then `done`. */
  method FinishLoading(tree: Tree, records: seq<NodeRecord>)
    requires tree.Valid() && tree.nodes == []
    modifies tree
    ensures tree.Valid() && tree.state.loading == Done
    ensures tree.Records() == records && tree.Data() == DefaultData(|records|)
  {
    assert tree.Records() == [] && tree.Data() == [];
    var t := TreeFromArray(records, tree);
    assert [] + records == records && [] + DefaultData(|records|) == DefaultData(|records|);
    var _ := t.SetLoadingState(Done);
  }

  /** `createNode` for a root with id 1, then for a child with id 2 and parent 1. */
  method BuildRootAndChild() returns (t: Tree, root: TreeNode, child: TreeNode)
    ensures fresh(t) && fresh(root) && fresh(child)
    ensures t.Valid() && t.nodes == [root, child]
    ensures root.tree == t && child.tree == t && root.Valid() && child.Valid()
    ensures root.childrenCache == None && root.id == 1 && child.id == 2
    ensures ParentIndex(t.Records(), 1) == Some(0)
    ensures Pick(t.nodes, ChildIndices(t.Records(), root.id)) == [child]
  {
    t := new Tree();
    root := t.CreateNode(1, 0, None, "Root");
    child := t.CreateNode(2, 1, Some(1), "Child");
    ghost var recs := t.Records();
    assert recs == [NodeRecord(1, 0, None, "Root"), NodeRecord(2, 1, Some(1), "Child")];
    RootAndChild(recs);
    t.AllValidAt(t.nodes, 0);
    t.AllValidAt(t.nodes, 1);
    assert Pick(t.nodes, [1]) == [child];
  }

  /** In that tree, the child's `parent()` is the root. */
  method ParentExample() returns (parentOfChild: int)
    ensures parentOfChild == 1
  {
    var t, root, child := BuildRootAndChild();
    var p := child.Parent();
    parentOfChild := p.id;
  }

  /** In that tree, the root's `children()` is the child alone. */
  method ChildrenExample() returns (childrenOfRoot: seq<TreeNode>)
    ensures |childrenOfRoot| == 1 && childrenOfRoot[0].id == 2
  {
    var t, root, child := BuildRootAndChild();
    childrenOfRoot := root.Children();
  }

  /** The records of the nodes `ns`, in list order. */
  function RecordsOf(ns: seq<TreeNode>): (r: seq<NodeRecord>)
    ensures |r| == |ns| && forall k :: 0 <= k < |ns| ==> r[k] == ns[k].Record()
  {
    seq(|ns|, k requires 0 <= k < |ns| => ns[k].Record())
  }

  /** The flags and highlights of the nodes `ns`, in list order. */
  function DataOf(ns: seq<TreeNode>): seq<NodeData>
    reads ns
  {
    seq(|ns|, k requires 0 <= k < |ns| reads ns => NodeData(ns[k].state, ns[k].search))
  }
}
