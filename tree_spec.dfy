/**
 * What the whole-tree operations of `Tree` (scripts/select-tree.ts) do to the
 * nodes' flags and search highlights, stated on the list of node records and
 * the list of node data, together with the properties the operations promise.
 * The methods of `SelectTree.Tree` are proved to produce exactly these results.
 */
module TreeSpec {
  import opened Wrappers
  import opened TextSearch
  import opened NodeModel

  /** Both flags that an ancestor walk forces on. */
  function Shown(st: NodeStates): NodeStates {
    st.(visible := true, expanded := true)
  }

  function SelectedFlags(ds: seq<NodeData>, want: bool): seq<bool> {
    seq(|ds|, k requires 0 <= k < |ds| => ds[k].state.selected == want)
  }

  /** `selectedNodes()` (`want`) and `unSelectedNodes()` (`!want`), as positions in list order. */
  function SelectionIndices(ds: seq<NodeData>, want: bool): (r: seq<nat>)
    ensures forall k: nat :: k in r <==> k < |ds| && ds[k].state.selected == want
    ensures forall t, u :: 0 <= t < u < |r| ==> r[t] < r[u]
  {
    Where(SelectedFlags(ds, want))
  }

  // ---------------------------------------------------------------- showAll

  /** `showAll()`: every unselected node becomes visible; selected nodes are not touched. */
  function ShowAllSpec(ds: seq<NodeData>): seq<NodeData> {
    seq(|ds|, k requires 0 <= k < |ds| =>
      if ds[k].state.selected then ds[k] else ds[k].(state := ds[k].state.(visible := true)))
  }

  /** `showAll()` makes every unselected node visible, changing nothing else, and leaves every selected node as it was. */
  lemma ShowAllEffect(ds: seq<NodeData>, k: nat)
    requires k < |ds|
    ensures |ShowAllSpec(ds)| == |ds|
    ensures ds[k].state.selected ==> ShowAllSpec(ds)[k] == ds[k]
    ensures !ds[k].state.selected ==> ShowAllSpec(ds)[k] == ds[k].(state := ds[k].state.(visible := true))
  {
  }

  /** Showing all twice is the same as showing all once. */
  lemma ShowAllIdempotent(ds: seq<NodeData>)
    ensures ShowAllSpec(ShowAllSpec(ds)) == ShowAllSpec(ds)
  {
    var once := ShowAllSpec(ds);
    assert forall k :: 0 <= k < |ds| ==> ShowAllSpec(once)[k] == once[k];
  }

  // ----------------------------------------------------------- showSelected

  /** Phase 1 of `showSelected()`: an unselected node with a truthy `parentId` is hidden. */
  function HideUnselected(recs: seq<NodeRecord>, ds: seq<NodeData>): seq<NodeData>
    requires |recs| == |ds|
  {
    seq(|ds|, k requires 0 <= k < |ds| =>
      if !ds[k].state.selected && HasParentId(recs[k].parentId)
      then ds[k].(state := ds[k].state.(visible := false))
      else ds[k])
  }

  /** The nodes at the positions in `s` become visible and expanded. */
  function RevealAll(ds: seq<NodeData>, s: set<nat>): seq<NodeData> {
    seq(|ds|, k requires 0 <= k < |ds| => if k in s then ds[k].(state := Shown(ds[k].state)) else ds[k])
  }

  /** The nodes on the chains that start at the positions `idx`. */
  function ChainsOf(recs: seq<NodeRecord>, idx: seq<nat>): set<nat>
    requires forall t :: 0 <= t < |idx| ==> idx[t] < |recs|
  {
    if idx == [] then {}
    else ChainsOf(recs, idx[..|idx| - 1]) + AncestorsOrSelf(recs, idx[|idx| - 1])
  }

  /** `showSelected()`: phase 1, then phase 2 reveals every selected node and its ancestors. */
  function ShowSelectedSpec(recs: seq<NodeRecord>, ds: seq<NodeData>): seq<NodeData>
    requires |recs| == |ds|
  {
    RevealAll(HideUnselected(recs, ds), ChainsOf(recs, SelectionIndices(ds, true)))
  }

  /** The ancestor walks of `showSelected()` end: no selected node sits on a `parent()` cycle. */
  ghost predicate SelectedChainsEnd(recs: seq<NodeRecord>, ds: seq<NodeData>)
    requires |recs| == |ds|
  {
    forall i :: 0 <= i < |ds| && ds[i].state.selected ==> ReachesRoot(recs, i, |recs|)
  }

  lemma {:induction false} ChainsOfCovers(recs: seq<NodeRecord>, idx: seq<nat>, t: nat)
    requires forall t :: 0 <= t < |idx| ==> idx[t] < |recs|
    requires t < |idx|
    ensures AncestorsOrSelf(recs, idx[t]) <= ChainsOf(recs, idx)
  {
    if t < |idx| - 1 {
      ChainsOfCovers(recs, idx[..|idx| - 1], t);
    }
  }

  lemma {:induction false} ChainsOfOnly(recs: seq<NodeRecord>, idx: seq<nat>, j: nat)
    requires forall t :: 0 <= t < |idx| ==> idx[t] < |recs|
    requires j in ChainsOf(recs, idx)
    ensures exists t :: 0 <= t < |idx| && j in AncestorsOrSelf(recs, idx[t])
  {
    var init := idx[..|idx| - 1];
    if j !in AncestorsOrSelf(recs, idx[|idx| - 1]) {
      ChainsOfOnly(recs, init, j);
      var t :| 0 <= t < |init| && j in AncestorsOrSelf(recs, init[t]);
      assert idx[t] == init[t];
    }
  }

  /** After `showSelected()`, every selected node and every ancestor of one is visible and expanded. */
  lemma ShowSelectedRevealsChains(recs: seq<NodeRecord>, ds: seq<NodeData>, i: nat, j: nat)
    requires |recs| == |ds| && i < |ds| && ds[i].state.selected && j in AncestorsOrSelf(recs, i)
    ensures ShowSelectedSpec(recs, ds)[j].state.visible && ShowSelectedSpec(recs, ds)[j].state.expanded
  {
    var sel := SelectionIndices(ds, true);
    var t :| 0 <= t < |sel| && sel[t] == i;
    ChainsOfCovers(recs, sel, t);
  }

  /**
   * After `showSelected()`, an unselected node with a truthy `parentId` that is
   * not an ancestor of a selected node is hidden, and its expansion is unchanged.
   */
  lemma ShowSelectedHidesOthers(recs: seq<NodeRecord>, ds: seq<NodeData>, j: nat)
    requires |recs| == |ds| && j < |ds| && !ds[j].state.selected && HasParentId(recs[j].parentId)
    requires forall i :: 0 <= i < |ds| && ds[i].state.selected ==> j !in AncestorsOrSelf(recs, i)
    ensures !ShowSelectedSpec(recs, ds)[j].state.visible
    ensures ShowSelectedSpec(recs, ds)[j].state.expanded == ds[j].state.expanded
  {
    var sel := SelectionIndices(ds, true);
    if j in ChainsOf(recs, sel) {
      ChainsOfOnly(recs, sel, j);
    }
  }

  /** `showSelected()` leaves alone an unselected root that is not an ancestor of a selected node. */
  lemma ShowSelectedKeepsRoots(recs: seq<NodeRecord>, ds: seq<NodeData>, j: nat)
    requires |recs| == |ds| && j < |ds| && !ds[j].state.selected && !HasParentId(recs[j].parentId)
    requires forall i :: 0 <= i < |ds| && ds[i].state.selected ==> j !in AncestorsOrSelf(recs, i)
    ensures ShowSelectedSpec(recs, ds)[j] == ds[j]
  {
    var sel := SelectionIndices(ds, true);
    if j in ChainsOf(recs, sel) {
      ChainsOfOnly(recs, sel, j);
    }
  }

  /** `showSelected()` changes only `visible` and `expanded`. */
  lemma ShowSelectedKeepsSelection(recs: seq<NodeRecord>, ds: seq<NodeData>, j: nat)
    requires |recs| == |ds| && j < |ds|
    ensures ShowSelectedSpec(recs, ds)[j].state.selected == ds[j].state.selected
    ensures ShowSelectedSpec(recs, ds)[j].state.selectable == ds[j].state.selectable
    ensures ShowSelectedSpec(recs, ds)[j].search == ds[j].search
  {
  }

  /** With nothing selected, `showSelected()` hides every node with a truthy `parentId` and no other. */
  lemma ShowSelectedWithoutSelection(recs: seq<NodeRecord>, ds: seq<NodeData>)
    requires |recs| == |ds| && forall i :: 0 <= i < |ds| ==> !ds[i].state.selected
    ensures ShowSelectedSpec(recs, ds) == HideUnselected(recs, ds)
  {
    var hidden := HideUnselected(recs, ds);
    assert forall k :: 0 <= k < |ds| ==> ShowSelectedSpec(recs, ds)[k] == hidden[k];
  }

  // ------------------------------------------------------------ searchNodes

  /** Node `k`'s label contains `term`, ignoring case. */
  predicate Matches(recs: seq<NodeRecord>, term: string, k: nat)
    requires k < |recs|
  {
    Search(recs[k].text, term).Some?
  }

  function MatchFlags(recs: seq<NodeRecord>, term: string): seq<bool> {
    seq(|recs|, k requires 0 <= k < |recs| => Matches(recs, term, k))
  }

  /** The positions, in list order, of the nodes whose label contains `term`. */
  function MatchIndices(recs: seq<NodeRecord>, term: string): (r: seq<nat>)
    ensures forall k: nat :: k in r <==> k < |recs| && Matches(recs, term, k)
    ensures forall t, u :: 0 <= t < u < |r| ==> r[t] < r[u]
  {
    Where(MatchFlags(recs, term))
  }

  /** The empty term matches every label. */
  lemma EmptyTermMatchesAll(recs: seq<NodeRecord>)
    ensures MatchIndices(recs, "") == seq(|recs|, k => k)
  {
    forall k | 0 <= k < |recs| ensures MatchFlags(recs, "")[k] {
      EmptyTermSplitsAtStart(recs[k].text);
    }
    WhereAll(MatchFlags(recs, ""));
  }

  /** The ancestors of the matching nodes among positions `lo` to `hi - 1`. */
  function MatchAncestors(recs: seq<NodeRecord>, term: string, lo: nat, hi: nat): (r: set<nat>)
    requires hi <= |recs|
    ensures forall j :: j in r ==> j < |recs|
    decreases hi
  {
    if hi <= lo then {}
    else
      var earlier := MatchAncestors(recs, term, lo, hi - 1);
      if Matches(recs, term, hi - 1) then earlier + Ancestors(recs, hi - 1) else earlier
  }

  /**
   * `searchNodes(term)` for a non-empty term. Each node in turn runs
   * `searchTerm`, which sets `visible` to whether it matches and records its
   * highlight; a match then forces `visible` and `expanded` on all its
   * ancestors. A node therefore ends visible when it matches or when a match
   * LATER in the list has it as an ancestor (an earlier match's reveal is
   * overwritten by the node's own `searchTerm`), and it ends expanded when it
   * was or when it is an ancestor of any match.
   */
  function SearchSweep(recs: seq<NodeRecord>, ds: seq<NodeData>, term: string): seq<NodeData>
    requires |recs| == |ds|
  {
    seq(|ds|, j requires 0 <= j < |ds| =>
      NodeData(
        ds[j].state.(visible := Matches(recs, term, j) || j in MatchAncestors(recs, term, j + 1, |recs|),
                     expanded := ds[j].state.expanded || j in MatchAncestors(recs, term, 0, |recs|)),
        SearchTriple(recs[j].text, term)))
  }

  /** `searchNodes("")`: `showAll()`, then `searchTerm("")` on every node. */
  function ResetSearch(recs: seq<NodeRecord>, ds: seq<NodeData>): seq<NodeData>
    requires |recs| == |ds|
  {
    seq(|ds|, j requires 0 <= j < |ds| =>
      NodeData(ds[j].state.(visible := true), SearchTriple(recs[j].text, "")))
  }

  /** The node data after `searchNodes(term)`. */
  function SearchData(recs: seq<NodeRecord>, ds: seq<NodeData>, term: string): seq<NodeData>
    requires |recs| == |ds|
  {
    if term == "" then ResetSearch(recs, ds) else SearchSweep(recs, ds, term)
  }

  /** The ancestor walks of `searchNodes(term)` end: no matching node sits on a `parent()` cycle. */
  ghost predicate MatchChainsEnd(recs: seq<NodeRecord>, term: string) {
    forall k :: 0 <= k < |recs| && Matches(recs, term, k) ==> ReachesRoot(recs, k, |recs|)
  }

  lemma {:induction false} MatchAncestorsCovers(recs: seq<NodeRecord>, term: string, lo: nat, hi: nat, k: nat)
    requires lo <= k < hi <= |recs| && Matches(recs, term, k)
    ensures Ancestors(recs, k) <= MatchAncestors(recs, term, lo, hi)
    decreases hi
  {
    if k < hi - 1 {
      MatchAncestorsCovers(recs, term, lo, hi - 1, k);
    }
  }

  lemma {:induction false} MatchAncestorsOnly(recs: seq<NodeRecord>, term: string, lo: nat, hi: nat, j: nat)
    requires hi <= |recs|
    requires forall k :: lo <= k < hi && Matches(recs, term, k) ==> j !in Ancestors(recs, k)
    ensures j !in MatchAncestors(recs, term, lo, hi)
    decreases hi
  {
    if lo < hi {
      MatchAncestorsOnly(recs, term, lo, hi - 1, j);
    }
  }

  /** `searchNodes("")` makes every node visible and gives it the triple `["", "", label]`. */
  lemma EmptySearchResets(recs: seq<NodeRecord>, ds: seq<NodeData>, j: nat)
    requires |recs| == |ds| && j < |ds|
    ensures SearchData(recs, ds, "")[j].state == ds[j].state.(visible := true)
    ensures SearchData(recs, ds, "")[j].search == ["", "", recs[j].text]
  {
    EmptyTermSplitsAtStart(recs[j].text);
  }

  /** After `searchNodes(term)`, every ancestor of a matching node is expanded. */
  lemma SearchExpandsAncestors(recs: seq<NodeRecord>, ds: seq<NodeData>, term: string, k: nat, j: nat)
    requires |recs| == |ds| && term != "" && k < |recs| && Matches(recs, term, k) && j in Ancestors(recs, k)
    ensures SearchData(recs, ds, term)[j].state.expanded
  {
    MatchAncestorsCovers(recs, term, 0, |recs|, k);
  }

  /** When parents precede children, every ancestor of a matching node also ends visible. */
  lemma SearchRevealsAncestors(recs: seq<NodeRecord>, ds: seq<NodeData>, term: string, k: nat, j: nat)
    requires |recs| == |ds| && term != "" && ParentsPrecede(recs)
    requires k < |recs| && Matches(recs, term, k) && j in Ancestors(recs, k)
    ensures SearchData(recs, ds, term)[j].state.visible
  {
    AncestorsPrecede(recs, k, j);
    MatchAncestorsCovers(recs, term, j + 1, |recs|, k);
  }

  /**
   * After `searchNodes(term)`, a node that neither matches nor is an ancestor
   * of a match is hidden, keeps its expansion, and has no highlight.
   */
  lemma SearchHidesOthers(recs: seq<NodeRecord>, ds: seq<NodeData>, term: string, j: nat)
    requires |recs| == |ds| && term != "" && j < |ds| && !Matches(recs, term, j)
    requires forall k :: 0 <= k < |recs| && Matches(recs, term, k) ==> j !in Ancestors(recs, k)
    ensures !SearchData(recs, ds, term)[j].state.visible
    ensures SearchData(recs, ds, term)[j].state.expanded == ds[j].state.expanded
    ensures SearchData(recs, ds, term)[j].search == []
  {
    MatchAncestorsOnly(recs, term, 0, |recs|, j);
    MatchAncestorsOnly(recs, term, j + 1, |recs|, j);
    var r := SearchSweep(recs, ds, term);
    assert SearchData(recs, ds, term) == r;
    assert r[j].search == SearchTriple(recs[j].text, term);
  }

  /**
   * After `searchNodes(term)`, a matching node is visible and its highlight
   * splits its label around the first match: no earlier position matches.
   */
  lemma SearchHighlightsMatches(recs: seq<NodeRecord>, ds: seq<NodeData>, term: string, k: nat)
    requires |recs| == |ds| && k < |recs| && Matches(recs, term, k)
    ensures var h := SearchData(recs, ds, term)[k].search;
      |h| == 3 && h[0] + h[1] + h[2] == recs[k].text && FoldEq(h[1], term) &&
      MatchesAt(recs[k].text, term, |h[0]|) &&
      forall j :: 0 <= j < |h[0]| ==> !MatchesAt(recs[k].text, term, j)
    ensures SearchData(recs, ds, term)[k].state.visible
  {
    SearchTripleSplits(recs[k].text, term);
    if term == "" {
      EmptyTermSplitsAtStart(recs[k].text);
    }
  }

  /** `searchNodes` changes neither `selected` nor `selectable`. */
  lemma SearchKeepsSelection(recs: seq<NodeRecord>, ds: seq<NodeData>, term: string, j: nat)
    requires |recs| == |ds| && j < |ds|
    ensures SearchData(recs, ds, term)[j].state.selected == ds[j].state.selected
    ensures SearchData(recs, ds, term)[j].state.selectable == ds[j].state.selectable
  {
  }

  /**
   * Without parents preceding children, an ancestor of a match can end hidden:
   * a root listed after its matching child is re-hidden by its own `searchTerm`.
   */
  lemma LaterAncestorStaysHidden(ds: seq<NodeData>)
    requires |ds| == 2
    ensures var recs := [NodeRecord(2, 1, Some(1), "Child"), NodeRecord(1, 0, None, "Root")];
      Matches(recs, "chi", 0) && 1 in Ancestors(recs, 0) && !SearchData(recs, ds, "chi")[1].state.visible
  {
    var recs := [NodeRecord(2, 1, Some(1), "Child"), NodeRecord(1, 0, None, "Root")];
    assert MatchesAt("Child", "chi", 0);
    assert FindFrom("Root", "chi", 2) == None;
    NoMatchAt("Root", "chi", 1, 'o');
    NoMatchAt("Root", "chi", 0, 'R');
    assert ParentIndex(recs, 1) == None;
    assert ParentIndex(recs, 0) == Some(1);
    assert MatchAncestors(recs, "chi", 2, 2) == {};
  }

  // -------------------------------------------------------- collapseToLevel

  /** `collapseToLevel(level)`: every node whose `level` is at least `level` is collapsed. */
  function CollapseSpec(recs: seq<NodeRecord>, ds: seq<NodeData>, level: int): seq<NodeData>
    requires |recs| == |ds|
  {
    seq(|ds|, k requires 0 <= k < |ds| =>
      if recs[k].level >= level then ds[k].(state := ds[k].state.(expanded := false)) else ds[k])
  }

  /**
   * `collapseToLevel(level)` collapses a node exactly when its level is at
   * least `level` (inclusive), touching no other flag and no highlight.
   */
  lemma CollapseEffect(recs: seq<NodeRecord>, ds: seq<NodeData>, level: int, k: nat)
    requires |recs| == |ds| && k < |ds|
    ensures |CollapseSpec(recs, ds, level)| == |ds|
    ensures CollapseSpec(recs, ds, level)[k].state.expanded <==> recs[k].level < level && ds[k].state.expanded
    ensures CollapseSpec(recs, ds, level)[k].state.(expanded := ds[k].state.expanded) == ds[k].state
    ensures CollapseSpec(recs, ds, level)[k].search == ds[k].search
  {
  }

  /** Collapsing to `a` and then to `b` is collapsing to the smaller of the two. */
  lemma CollapseTwice(recs: seq<NodeRecord>, ds: seq<NodeData>, a: int, b: int)
    requires |recs| == |ds|
    ensures CollapseSpec(recs, CollapseSpec(recs, ds, a), b) == CollapseSpec(recs, ds, if a < b then a else b)
  {
    var lhs, rhs := CollapseSpec(recs, CollapseSpec(recs, ds, a), b), CollapseSpec(recs, ds, if a < b then a else b);
    assert forall k :: 0 <= k < |ds| ==> lhs[k] == rhs[k];
  }
}
