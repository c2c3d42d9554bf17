/**
 * Per-node data of the select tree (scripts/select-tree.ts): the records a
 * tree is built from, the four state flags and their named toggles, the
 * loading-state enumeration, and the parent/child relations that
 * `TreeNode.parent()` and `TreeNode.children()` compute by scanning the
 * tree's flat node list. Nodes are identified here by their position in
 * that list.
 */
module NodeModel {
  import opened Wrappers

  /** `TreeLoadingState`, with the numeric values of the enumeration. */
  datatype LoadingState = Unknown | Loading | Done | Error {
    function Code(): int {
      match this
      case Unknown => 0
      case Loading => 1
      case Done => 2
      case Error => -1
    }
  }

  /** `TreeStates`: the loading state of a whole tree. */
  datatype TreeStates = TreeStates(loading: LoadingState)

  const DefaultTreeStates := TreeStates(Unknown)

  /** `NodeStates`: the four flags a node carries. */
  datatype NodeStates = NodeStates(visible: bool, selected: bool, expanded: bool, selectable: bool)

  /** A new node is visible, unselected, expanded and selectable. */
  const DefaultNodeStates := NodeStates(visible := true, selected := false, expanded := true, selectable := true)

  /** The state names that `toggleState` recognises. */
  datatype StateName = Visible | Selected | Selectable | Expanded

  function NameOf(s: StateName): string {
    match s
    case Visible => "visible"
    case Selected => "selected"
    case Selectable => "selectable"
    case Expanded => "expanded"
  }

  /** The dispatch of `toggleState`'s `switch`; an unrecognised name gives `None`. */
  function ParseStateName(name: string): (r: Option<StateName>)
    ensures r.Some? ==> NameOf(r.value) == name
  {
    if name == "visible" then Some(Visible)
    else if name == "selected" then Some(Selected)
    else if name == "selectable" then Some(Selectable)
    else if name == "expanded" then Some(Expanded)
    else None
  }

  /** Every state name is recognised by its own spelling. */
  lemma ParseNameOf(s: StateName)
    ensures ParseStateName(NameOf(s)) == Some(s)
  {
  }

  /** The flag called `s`. */
  function Get(st: NodeStates, s: StateName): bool {
    match s
    case Visible => st.visible
    case Selected => st.selected
    case Selectable => st.selectable
    case Expanded => st.expanded
  }

  /**
   * `toggleVisible`, `toggleSelected`, `toggleSelectable` and `toggleExpanded`:
   * the named flag becomes `value` when one is given and is flipped otherwise;
   * the other three flags keep their values.
   */
  function Toggled(st: NodeStates, s: StateName, value: Option<bool>): (r: NodeStates)
    ensures Get(r, s) == if value.Some? then value.value else !Get(st, s)
    ensures forall other :: other != s ==> Get(r, other) == Get(st, other)
  {
    match s
    case Visible => st.(visible := if value.Some? then value.value else !st.visible)
    case Selected => st.(selected := if value.Some? then value.value else !st.selected)
    case Selectable => st.(selectable := if value.Some? then value.value else !st.selectable)
    case Expanded => st.(expanded := if value.Some? then value.value else !st.expanded)
  }

  /** Flipping a flag twice restores it. */
  lemma ToggleTwiceRestores(st: NodeStates, s: StateName)
    ensures Toggled(Toggled(st, s, None), s, None) == st
  {
  }

  /**
   * One record of `treeFromArray`'s input (`id`, `level`, `parent`, `label`),
   * and the immutable part of a node. The label is called `text` here
   * because `label` is a Dafny keyword.
   */
  datatype NodeRecord = NodeRecord(id: int, level: int, parentId: Option<int>, text: string)

  /** The mutable part of a node: its flags and its search highlight. */
  datatype NodeData = NodeData(state: NodeStates, search: seq<string>)

  /** What a new node starts with. */
  const DefaultNodeData := NodeData(DefaultNodeStates, [])

  /** JavaScript truthiness of `parentId`, as in `if (node.parentId)`: present and non-zero. */
  predicate HasParentId(p: Option<int>) {
    p.Some? && p.value != 0
  }

  /** The positions where `flags` holds, in increasing order: a `filter` over a list. */
  function Where(flags: seq<bool>): (r: seq<nat>)
    ensures forall t :: 0 <= t < |r| ==> r[t] < |flags| && flags[r[t]]
    ensures forall k :: 0 <= k < |flags| && flags[k] ==> k in r
    ensures forall t, u :: 0 <= t < u < |r| ==> r[t] < r[u]
  {
    if flags == [] then []
    else Where(flags[..|flags| - 1]) + (if flags[|flags| - 1] then [|flags| - 1] else [])
  }

  /** Filtering one more element appends its position when it is kept. */
  lemma WhereStep(flags: seq<bool>, i: nat)
    requires i < |flags|
    ensures Where(flags[..i + 1]) == Where(flags[..i]) + (if flags[i] then [i] else [])
  {
    assert flags[..i + 1][..i] == flags[..i];
  }

  /** Picking through one more flag appends that element when the flag is set. */
  lemma PickWhereStep<T>(s: seq<T>, flags: seq<bool>, i: nat)
    requires |flags| == |s| && i < |flags|
    ensures Pick(s, Where(flags[..i + 1])) == Pick(s, Where(flags[..i])) + (if flags[i] then [s[i]] else [])
  {
    WhereStep(flags, i);
    var a := Where(flags[..i]);
    if flags[i] {
      assert Pick(s, a + [i]) == Pick(s, a) + [s[i]];
    } else {
      assert a + [] == a;
    }
  }

  /** Filtering with every flag set keeps every position. */
  lemma {:induction false} WhereAll(flags: seq<bool>)
    requires forall k :: 0 <= k < |flags| ==> flags[k]
    ensures Where(flags) == seq(|flags|, k => k)
  {
    if flags != [] {
      WhereAll(flags[..|flags| - 1]);
    }
  }

  /** The elements of `s` at the positions `idx`, in that order. */
  function Pick<T>(s: seq<T>, idx: seq<nat>): seq<T>
    requires forall t :: 0 <= t < |idx| ==> idx[t] < |s|
  {
    seq(|idx|, t requires 0 <= t < |idx| => s[idx[t]])
  }

  /** Every element at a picked position is in the picked sequence. */
  lemma PickHas<T>(s: seq<T>, idx: seq<nat>)
    requires forall t :: 0 <= t < |idx| ==> idx[t] < |s|
    ensures forall k :: k in idx ==> s[k] in Pick(s, idx)
  {
    forall k | k in idx ensures s[k] in Pick(s, idx) {
      var t :| 0 <= t < |idx| && idx[t] == k;
      assert Pick(s, idx)[t] == s[k];
    }
  }

  /** The position of the first record whose id is `target`: `node.id === this.parentId`, first match wins. */
  function FirstWithId(recs: seq<NodeRecord>, target: Option<int>): (r: Option<nat>)
    ensures r.Some? ==> r.value < |recs| && Some(recs[r.value].id) == target
    ensures r.Some? ==> forall j :: 0 <= j < r.value ==> Some(recs[j].id) != target
    ensures r.None? ==> forall j :: 0 <= j < |recs| ==> Some(recs[j].id) != target
  {
    if recs == [] then None
    else match FirstWithId(recs[..|recs| - 1], target)
      case Some(k) => Some(k)
      case None => if Some(recs[|recs| - 1].id) == target then Some(|recs| - 1) else None
  }

  /** Appending a record does not move a parent that was already found. */
  lemma FirstWithIdAppend(recs: seq<NodeRecord>, rec: NodeRecord, target: Option<int>)
    requires FirstWithId(recs, target).Some?
    ensures FirstWithId(recs + [rec], target) == FirstWithId(recs, target)
  {
    assert (recs + [rec])[..|recs|] == recs;
  }

  /** The position of the node that `parent()` of node `i` finds, if any. */
  function ParentIndex(recs: seq<NodeRecord>, i: nat): Option<nat>
    requires i < |recs|
  {
    FirstWithId(recs, recs[i].parentId)
  }

  /** Following `parent()` from node `i` ends at a root within `fuel` steps. */
  predicate ReachesRoot(recs: seq<NodeRecord>, i: nat, fuel: nat)
    requires i < |recs|
    decreases fuel
  {
    match ParentIndex(recs, i)
    case None => true
    case Some(p) => fuel > 0 && ReachesRoot(recs, p, fuel - 1)
  }

  /** Node `i` and the nodes reached from it by at most `fuel` `parent()` steps. */
  function Chain(recs: seq<NodeRecord>, i: nat, fuel: nat): (r: set<nat>)
    requires i < |recs|
    decreases fuel
    ensures i in r && forall j :: j in r ==> j < |recs|
  {
    {i} + match ParentIndex(recs, i)
      case Some(p) => if fuel > 0 then Chain(recs, p, fuel - 1) else {}
      case None => {}
  }

  /** One `parent()` step of a walk that ends: the walk from the parent ends one step sooner. */
  lemma ChainStep(recs: seq<NodeRecord>, i: nat, fuel: nat)
    requires i < |recs| && ReachesRoot(recs, i, fuel) && ParentIndex(recs, i).Some?
    ensures fuel > 0 && ReachesRoot(recs, ParentIndex(recs, i).value, fuel - 1)
    ensures Chain(recs, i, fuel) == {i} + Chain(recs, ParentIndex(recs, i).value, fuel - 1)
  {
  }

  /** A walk from a node without parent stops there. */
  lemma ChainEnd(recs: seq<NodeRecord>, i: nat, fuel: nat)
    requires i < |recs| && ParentIndex(recs, i).None?
    ensures Chain(recs, i, fuel) == {i}
  {
  }

  /** Node `i` and all its ancestors (the chain is complete when `ReachesRoot(recs, i, |recs|)`). */
  function AncestorsOrSelf(recs: seq<NodeRecord>, i: nat): set<nat>
    requires i < |recs|
  {
    Chain(recs, i, |recs|)
  }

  /** The ancestors of node `i`: the chain that starts at its parent. */
  function Ancestors(recs: seq<NodeRecord>, i: nat): (r: set<nat>)
    requires i < |recs|
    ensures forall j :: j in r ==> j < |recs|
  {
    match ParentIndex(recs, i)
    case None => {}
    case Some(p) => Chain(recs, p, |recs| - 1)
  }

  /** Every node's parent sits before it in the list. */
  ghost predicate ParentsPrecede(recs: seq<NodeRecord>) {
    forall i :: 0 <= i < |recs| && ParentIndex(recs, i).Some? ==> ParentIndex(recs, i).value < i
  }

  /** The walk above a node whose own walk ends: it starts at the parent, if any, and visits the ancestors. */
  lemma AncestorsWalk(recs: seq<NodeRecord>, i: nat)
    requires i < |recs| && ReachesRoot(recs, i, |recs|)
    ensures ParentIndex(recs, i).None? ==> Ancestors(recs, i) == {}
    ensures ParentIndex(recs, i).Some? ==>
              ReachesRoot(recs, ParentIndex(recs, i).value, |recs| - 1) &&
              Ancestors(recs, i) == Chain(recs, ParentIndex(recs, i).value, |recs| - 1)
  {
  }

  /** When parents precede children, every `parent()` walk from node `i` ends within `i` steps. */
  lemma {:induction false} ParentsPrecedeReachesRoot(recs: seq<NodeRecord>, i: nat, fuel: nat)
    requires ParentsPrecede(recs) && i < |recs| && i <= fuel
    ensures ReachesRoot(recs, i, fuel)
    decreases i
  {
    match ParentIndex(recs, i)
    case None =>
    case Some(p) =>
      ParentsPrecedeReachesRoot(recs, p, fuel - 1);
  }

  /** When parents precede children, a chain only goes backwards in the list. */
  lemma {:induction false} ChainPrecedes(recs: seq<NodeRecord>, i: nat, fuel: nat, j: nat)
    requires ParentsPrecede(recs) && i < |recs| && j in Chain(recs, i, fuel)
    ensures j <= i
    decreases fuel
  {
    if j != i {
      match ParentIndex(recs, i)
      case Some(p) =>
        ChainPrecedes(recs, p, fuel - 1, j);
    }
  }

  /** When parents precede children, every ancestor of node `i` sits before it. */
  lemma AncestorsPrecede(recs: seq<NodeRecord>, i: nat, j: nat)
    requires ParentsPrecede(recs) && i < |recs| && j in Ancestors(recs, i)
    ensures j < i
  {
    var p := ParentIndex(recs, i).value;
    ChainPrecedes(recs, p, |recs| - 1, j);
  }

  /** The indices `parent()` visits from node `i`, `i` first, ending at a root. */
  function Walk(recs: seq<NodeRecord>, i: nat, fuel: nat): (r: seq<nat>)
    requires i < |recs| && ReachesRoot(recs, i, fuel)
    ensures 1 <= |r| <= fuel + 1 && r[0] == i
    ensures forall k :: 0 <= k < |r| ==> r[k] < |recs|
    decreases fuel
  {
    match ParentIndex(recs, i)
    case None => [i]
    case Some(p) => [i] + Walk(recs, p, fuel - 1)
  }

  /** Fuel only bounds the walk: any two fuels that reach a root give the same walk. */
  lemma {:induction false} WalkFuel(recs: seq<NodeRecord>, i: nat, f: nat, g: nat)
    requires i < |recs| && ReachesRoot(recs, i, f) && ReachesRoot(recs, i, g)
    ensures Walk(recs, i, f) == Walk(recs, i, g)
    decreases f
  {
    match ParentIndex(recs, i)
    case None =>
    case Some(p) =>
      WalkFuel(recs, p, f - 1, g - 1);
  }

  /** The walk from the `k`-th node visited is the rest of the walk. */
  lemma {:induction false} WalkSuffix(recs: seq<NodeRecord>, i: nat, f: nat, k: nat)
    requires i < |recs| && ReachesRoot(recs, i, f) && k < |Walk(recs, i, f)|
    ensures k <= f && ReachesRoot(recs, Walk(recs, i, f)[k], f - k)
    ensures Walk(recs, Walk(recs, i, f)[k], f - k) == Walk(recs, i, f)[k..]
    decreases k
  {
    if k > 0 {
      assert ParentIndex(recs, i).Some?;
      var p := ParentIndex(recs, i).value;
      WalkSuffix(recs, p, f - 1, k - 1);
      assert Walk(recs, i, f)[k..] == Walk(recs, p, f - 1)[k - 1..];
    }
  }

  /** A walk can be taken with one step fewer than the nodes it visits. */
  lemma {:induction false} WalkReaches(recs: seq<NodeRecord>, i: nat, f: nat)
    requires i < |recs| && ReachesRoot(recs, i, f)
    ensures ReachesRoot(recs, i, |Walk(recs, i, f)| - 1)
    decreases f
  {
    match ParentIndex(recs, i)
    case None =>
    case Some(p) =>
      WalkReaches(recs, p, f - 1);
  }

  /** More fuel never hurts. */
  lemma {:induction false} ReachesRootMono(recs: seq<NodeRecord>, i: nat, f: nat, g: nat)
    requires i < |recs| && f <= g && ReachesRoot(recs, i, f)
    ensures ReachesRoot(recs, i, g)
    decreases f
  {
    match ParentIndex(recs, i)
    case None =>
    case Some(p) =>
      ReachesRootMono(recs, p, f - 1, g - 1);
  }

  /** No value occurs twice in `s`. */
  predicate NoRepeats(s: seq<nat>) {
    forall a, b :: 0 <= a < |s| && 0 <= b < |s| && s[a] == s[b] ==> a == b
  }

  /** A walk that ends never visits a node twice. */
  lemma WalkInjective(recs: seq<NodeRecord>, i: nat, f: nat)
    requires i < |recs| && ReachesRoot(recs, i, f)
    ensures NoRepeats(Walk(recs, i, f))
  {
    var w := Walk(recs, i, f);
    forall a, b | 0 <= a < |w| && 0 <= b < |w| && w[a] == w[b]
      ensures a == b
    {
      WalkSuffix(recs, i, f, a);
      WalkSuffix(recs, i, f, b);
      WalkFuel(recs, w[a], f - a, f - b);
      assert |w[a..]| == |w[b..]|;
    }
  }

  /** A sequence of distinct numbers below `n` has at most `n` elements. */
  lemma {:induction false} DistinctBound(s: seq<nat>, n: nat)
    requires forall k :: 0 <= k < |s| ==> s[k] < n
    requires NoRepeats(s)
    ensures |s| <= n
    decreases n
  {
    if s != [] {
      var last := s[|s| - 1];
      var t := seq(|s| - 1, k requires 0 <= k < |s| - 1 => if s[k] == n - 1 then last else s[k]);
      forall a, b | 0 <= a < |t| && 0 <= b < |t| && t[a] == t[b]
        ensures a == b
      {
        if s[a] == n - 1 || s[b] == n - 1 {
          assert s[a] == s[b];
        }
      }
      assert NoRepeats(t);
      DistinctBound(t, n - 1);
    }
  }

  /** A `parent()` walk that ends at all ends within as many steps as there are nodes. */
  lemma ReachesRootWithinList(recs: seq<NodeRecord>, i: nat, f: nat)
    requires i < |recs| && ReachesRoot(recs, i, f)
    ensures ReachesRoot(recs, i, |recs| - 1) && ReachesRoot(recs, i, |recs|)
  {
    var w := Walk(recs, i, f);
    WalkInjective(recs, i, f);
    DistinctBound(w, |recs|);
    WalkReaches(recs, i, f);
    ReachesRootMono(recs, i, |w| - 1, |recs| - 1);
    ReachesRootMono(recs, i, |w| - 1, |recs|);
  }

  /** A node's chain is the node itself followed by the chain of its ancestors. */
  lemma AncestorsOrSelfSplit(recs: seq<NodeRecord>, i: nat)
    requires i < |recs|
    ensures AncestorsOrSelf(recs, i) == {i} + Ancestors(recs, i)
  {
  }

  function ChildFlags(recs: seq<NodeRecord>, id: int): seq<bool> {
    seq(|recs|, k requires 0 <= k < |recs| => recs[k].parentId == Some(id))
  }

  /** The positions, in list order, of the nodes whose `parentId` is `id`: what `children()` collects. */
  function ChildIndices(recs: seq<NodeRecord>, id: int): (r: seq<nat>)
    ensures forall k: nat :: k in r <==> k < |recs| && recs[k].parentId == Some(id)
    ensures forall t, u :: 0 <= t < u < |r| ==> r[t] < r[u]
  {
    Where(ChildFlags(recs, id))
  }

  /** Scanning one more record extends the children found so far. */
  lemma ChildIndicesStep(recs: seq<NodeRecord>, id: int, i: nat)
    requires i < |recs|
    ensures ChildIndices(recs[..i + 1], id)
         == ChildIndices(recs[..i], id) + (if recs[i].parentId == Some(id) then [i] else [])
  {
    var flags := ChildFlags(recs, id);
    assert ChildFlags(recs[..i + 1], id) == flags[..i + 1];
    assert ChildFlags(recs[..i], id) == flags[..i];
    WhereStep(flags, i);
  }

  /** Ids are unique, the assumption under which `parent()` is unambiguous. */
  ghost predicate UniqueIds(recs: seq<NodeRecord>) {
    forall i, j :: 0 <= i < j < |recs| ==> recs[i].id != recs[j].id
  }

  /** A node is among the children of the node its `parent()` finds. */
  lemma ChildOfParent(recs: seq<NodeRecord>, c: nat)
    requires c < |recs| && ParentIndex(recs, c).Some?
    ensures c in ChildIndices(recs, recs[ParentIndex(recs, c).value].id)
  {
  }

  /** With unique ids, every child that `children()` of `p` lists finds `p` as its parent. */
  lemma ParentOfChild(recs: seq<NodeRecord>, p: nat, c: nat)
    requires UniqueIds(recs) && p < |recs| && c in ChildIndices(recs, recs[p].id)
    ensures ParentIndex(recs, c) == Some(p)
  {
    assert Some(recs[p].id) == recs[c].parentId;
  }

  /** A root with id 1 followed by its child with id 2: the child finds the root, and the root lists the child. */
  lemma RootAndChild(recs: seq<NodeRecord>)
    requires |recs| == 2 && recs[0].id == 1 && recs[0].parentId == None
    requires recs[1].id == 2 && recs[1].parentId == Some(1)
    ensures ParentIndex(recs, 1) == Some(0) && ParentIndex(recs, 0) == None
    ensures ChildIndices(recs, 1) == [1]
  {
    assert recs[..1][..0] == [];
    assert FirstWithId(recs[..1], Some(1)) == Some(0);
    var f := ChildFlags(recs, 1);
    assert f == [false, true] && f[..1] == [false];
    assert Where([false]) == [] by {
      assert [false][..0] == [];
    }
    assert Where(f) == Where(f[..1]) + [1];
  }
}
