/**
 * The node data that the loops of `SelectTree.Tree` pass through on their
 * way to the results `TreeSpec` describes, and the one-step lemmas that carry
 * each loop from one iteration to the next.
 */
module TreeSteps {
  import opened Wrappers
  import opened TextSearch
  import opened NodeModel
  import opened TreeSpec

  /** `toggleState(f, b)` on the node at position `u`. */
  function SetFlagAt(ds: seq<NodeData>, u: nat, f: StateName, b: bool): (r: seq<NodeData>)
    requires u < |ds|
    ensures |r| == |ds|
  {
    ds[u := ds[u].(state := Toggled(ds[u].state, f, Some(b)))]
  }

  /** Flag `f` is set to `b` on the nodes at the positions `idx`, one after the other. */
  function SetEach(ds: seq<NodeData>, idx: seq<nat>, f: StateName, b: bool): (r: seq<NodeData>)
    ensures |r| == |ds|
  {
    if idx == [] then ds
    else
      var x := SetEach(ds, idx[..|idx| - 1], f, b);
      var u := idx[|idx| - 1];
      if u < |x| then SetFlagAt(x, u, f, b) else x
  }

  /** A position is changed exactly when it is listed. */
  lemma {:induction false} SetEachAt(ds: seq<NodeData>, idx: seq<nat>, f: StateName, b: bool, k: nat)
    requires k < |ds|
    ensures SetEach(ds, idx, f, b)[k] == if k in idx then ds[k].(state := Toggled(ds[k].state, f, Some(b))) else ds[k]
  {
    if idx != [] {
      var init := idx[..|idx| - 1];
      SetEachAt(ds, init, f, b, k);
      assert k in idx <==> k in init || k == idx[|idx| - 1];
    }
  }

  /** Setting `visible` on the unselected nodes, one after the other, is `showAll()`. */
  lemma ShowAllByEach(ds: seq<NodeData>)
    ensures SetEach(ds, SelectionIndices(ds, false), Visible, true) == ShowAllSpec(ds)
  {
    var x, y := SetEach(ds, SelectionIndices(ds, false), Visible, true), ShowAllSpec(ds);
    forall k | 0 <= k < |ds|
      ensures x[k] == y[k]
    {
      SetEachAt(ds, SelectionIndices(ds, false), Visible, true, k);
    }
  }

  /** The positions of `idx` whose node has a truthy `parentId`, in order. */
  function WithParent(recs: seq<NodeRecord>, idx: seq<nat>): (r: seq<nat>)
    ensures forall k :: k in r <==> k in idx && k < |recs| && HasParentId(recs[k].parentId)
  {
    if idx == [] then []
    else
      var u := idx[|idx| - 1];
      assert idx == idx[..|idx| - 1] + [u];
      WithParent(recs, idx[..|idx| - 1]) + (if u < |recs| && HasParentId(recs[u].parentId) then [u] else [])
  }

  lemma WithParentStep(recs: seq<NodeRecord>, idx: seq<nat>, t: nat)
    requires t < |idx|
    ensures WithParent(recs, idx[..t + 1]) ==
      WithParent(recs, idx[..t]) + (if idx[t] < |recs| && HasParentId(recs[idx[t]].parentId) then [idx[t]] else [])
  {
    assert idx[..t + 1][..t] == idx[..t];
  }

  /** Setting a flag at one more listed position. */
  lemma SetEachSnoc(ds: seq<NodeData>, idx: seq<nat>, u: nat, f: StateName, b: bool)
    requires u < |ds|
    ensures SetEach(ds, idx + [u], f, b) == SetFlagAt(SetEach(ds, idx, f, b), u, f, b)
  {
    assert (idx + [u])[..|idx|] == idx;
  }

  /** One pass of the first loop of `showSelected()`, over the `t`-th unselected node. */
  lemma HideStep(recs: seq<NodeRecord>, ds: seq<NodeData>, un: seq<nat>, t: nat)
    requires |recs| == |ds| && t < |un| && un[t] < |ds|
    ensures var x := SetEach(ds, WithParent(recs, un[..t]), Visible, false);
      SetEach(ds, WithParent(recs, un[..t + 1]), Visible, false) ==
      if HasParentId(recs[un[t]].parentId) then SetFlagAt(x, un[t], Visible, false) else x
  {
    WithParentStep(recs, un, t);
    var w := WithParent(recs, un[..t]);
    if HasParentId(recs[un[t]].parentId) {
      SetEachSnoc(ds, w, un[t], Visible, false);
    } else {
      assert w + [] == w;
    }
  }

  /** The first loop of `showSelected()` hides exactly the unselected nodes with a truthy `parentId`. */
  lemma HideByEach(recs: seq<NodeRecord>, ds: seq<NodeData>)
    requires |recs| == |ds|
    ensures SetEach(ds, WithParent(recs, SelectionIndices(ds, false)), Visible, false) == HideUnselected(recs, ds)
  {
    var idx := WithParent(recs, SelectionIndices(ds, false));
    var x, y := SetEach(ds, idx, Visible, false), HideUnselected(recs, ds);
    forall k | 0 <= k < |ds|
      ensures x[k] == y[k]
    {
      SetEachAt(ds, idx, Visible, false, k);
    }
  }

  /** The second loop of `showSelected()`: one more selected node's walk. */
  lemma ChainsStep(recs: seq<NodeRecord>, base: seq<NodeData>, idx: seq<nat>, t: nat)
    requires t < |idx| && forall u :: 0 <= u < |idx| ==> idx[u] < |recs|
    ensures RevealAll(RevealAll(base, ChainsOf(recs, idx[..t])), AncestorsOrSelf(recs, idx[t])) ==
            RevealAll(base, ChainsOf(recs, idx[..t + 1]))
  {
    assert idx[..t + 1][..t] == idx[..t];
    RevealAllTwice(base, ChainsOf(recs, idx[..t]), AncestorsOrSelf(recs, idx[t]));
  }

  /** The nodes at the positions in `s` have flag `f` set to `b`. */
  function SetAt(ds: seq<NodeData>, s: set<nat>, f: StateName, b: bool): seq<NodeData> {
    seq(|ds|, k requires 0 <= k < |ds| =>
      if k in s then ds[k].(state := Toggled(ds[k].state, f, Some(b))) else ds[k])
  }

  lemma SetAtNone(ds: seq<NodeData>, f: StateName, b: bool)
    ensures SetAt(ds, {}, f, b) == ds
  {
    var x := SetAt(ds, {}, f, b);
    assert forall k :: 0 <= k < |ds| ==> x[k] == ds[k];
  }

  /** Setting flag `f` on one more node. */
  lemma SetAtStep(ds: seq<NodeData>, s: set<nat>, f: StateName, b: bool, u: nat)
    requires u < |ds|
    ensures SetFlagAt(SetAt(ds, s, f, b), u, f, b) == SetAt(ds, s + {u}, f, b)
  {
    var y, z := SetFlagAt(SetAt(ds, s, f, b), u, f, b), SetAt(ds, s + {u}, f, b);
    assert forall k :: 0 <= k < |ds| ==> y[k] == z[k];
  }

  /** `showAll()` sets `visible` on exactly the unselected nodes. */
  lemma ShowAllBySetAt(ds: seq<NodeData>, s: set<nat>)
    requires forall k: nat :: k in s <==> k < |ds| && !ds[k].state.selected
    ensures SetAt(ds, s, Visible, true) == ShowAllSpec(ds)
  {
    var x, y := SetAt(ds, s, Visible, true), ShowAllSpec(ds);
    assert forall k :: 0 <= k < |ds| ==> x[k] == y[k];
  }

  /** Phase 1 of `showSelected()` clears `visible` on exactly the unselected nodes with a truthy `parentId`. */
  lemma HideBySetAt(recs: seq<NodeRecord>, ds: seq<NodeData>, s: set<nat>)
    requires |recs| == |ds|
    requires forall k: nat :: k in s <==> k < |ds| && !ds[k].state.selected && HasParentId(recs[k].parentId)
    ensures SetAt(ds, s, Visible, false) == HideUnselected(recs, ds)
  {
    var x, y := SetAt(ds, s, Visible, false), HideUnselected(recs, ds);
    assert forall k :: 0 <= k < |ds| ==> x[k] == y[k];
  }

  /** `collapseToLevel(level)` clears `expanded` on exactly the nodes at `level` or deeper. */
  lemma CollapseBySetAt(recs: seq<NodeRecord>, ds: seq<NodeData>, level: int, s: set<nat>)
    requires |recs| == |ds|
    requires forall k: nat :: k in s <==> k < |ds| && recs[k].level >= level
    ensures SetAt(ds, s, Expanded, false) == CollapseSpec(recs, ds, level)
  {
    var x, y := SetAt(ds, s, Expanded, false), CollapseSpec(recs, ds, level);
    assert forall k :: 0 <= k < |ds| ==> x[k] == y[k];
  }

  /** One step of an ancestor walk: `visible`, then `expanded`, on node `u`. */
  lemma RevealOneStep(ds: seq<NodeData>, u: nat)
    requires u < |ds|
    ensures SetFlagAt(SetFlagAt(ds, u, Visible, true), u, Expanded, true) == RevealAll(ds, {u})
  {
    var z, w := SetFlagAt(SetFlagAt(ds, u, Visible, true), u, Expanded, true), RevealAll(ds, {u});
    assert forall k :: 0 <= k < |ds| ==> z[k] == w[k];
  }

  lemma RevealNone(ds: seq<NodeData>)
    ensures RevealAll(ds, {}) == ds
  {
    var x := RevealAll(ds, {});
    assert forall k :: 0 <= k < |ds| ==> x[k] == ds[k];
  }

  /** Two walks reveal the union of their chains. */
  lemma RevealAllTwice(ds: seq<NodeData>, a: set<nat>, b: set<nat>)
    ensures RevealAll(RevealAll(ds, a), b) == RevealAll(ds, a + b)
  {
    var x, y := RevealAll(RevealAll(ds, a), b), RevealAll(ds, a + b);
    assert forall k :: 0 <= k < |ds| ==> x[k] == y[k];
  }

  /** What `searchTerm(term)` on node `u` does to the data of the list. */
  function AfterSearchTerm(recs: seq<NodeRecord>, ds: seq<NodeData>, term: string, u: nat): seq<NodeData>
    requires |recs| == |ds| && u < |ds|
  {
    ds[u := NodeData(ds[u].state.(visible := Matches(recs, term, u)), SearchTriple(recs[u].text, term))]
  }

  /** The first `i` nodes have run `searchTerm(term)`, with no ancestor walk. */
  function TermsTo(recs: seq<NodeRecord>, ds: seq<NodeData>, term: string, i: nat): seq<NodeData>
    requires |recs| == |ds|
  {
    seq(|ds|, j requires 0 <= j < |ds| =>
      if j < i then NodeData(ds[j].state.(visible := Matches(recs, term, j)), SearchTriple(recs[j].text, term))
      else ds[j])
  }

  lemma TermsToStep(recs: seq<NodeRecord>, ds: seq<NodeData>, term: string, i: nat)
    requires |recs| == |ds| && i < |ds|
    ensures AfterSearchTerm(recs, TermsTo(recs, ds, term, i), term, i) == TermsTo(recs, ds, term, i + 1)
  {
    var x, y := AfterSearchTerm(recs, TermsTo(recs, ds, term, i), term, i), TermsTo(recs, ds, term, i + 1);
    assert forall j :: 0 <= j < |ds| ==> x[j] == y[j];
  }

  lemma TermsToStart(recs: seq<NodeRecord>, ds: seq<NodeData>, term: string)
    requires |recs| == |ds|
    ensures TermsTo(recs, ds, term, 0) == ds
  {
  }

  /** `showAll()` followed by `searchTerm("")` on every node is the reset of `searchNodes("")`. */
  lemma ResetByTerms(recs: seq<NodeRecord>, ds: seq<NodeData>)
    requires |recs| == |ds|
    ensures TermsTo(recs, ShowAllSpec(ds), "", |ds|) == ResetSearch(recs, ds)
  {
    var x, y := TermsTo(recs, ShowAllSpec(ds), "", |ds|), ResetSearch(recs, ds);
    forall j | 0 <= j < |ds|
      ensures x[j] == y[j]
    {
      EmptyTermSplitsAtStart(recs[j].text);
    }
  }

  /**
   * The first `i` nodes of `searchNodes(term)` have been processed: each ran
   * `searchTerm`, and each match among them revealed its ancestors.
   */
  function SweepTo(recs: seq<NodeRecord>, ds: seq<NodeData>, term: string, i: nat): seq<NodeData>
    requires |recs| == |ds| && i <= |recs|
  {
    seq(|ds|, j requires 0 <= j < |ds| =>
      var expanded := ds[j].state.expanded || j in MatchAncestors(recs, term, 0, i);
      if j < i then
        NodeData(ds[j].state.(visible := Matches(recs, term, j) || j in MatchAncestors(recs, term, j + 1, i),
                              expanded := expanded),
                 SearchTriple(recs[j].text, term))
      else
        ds[j].(state := ds[j].state.(visible := ds[j].state.visible || j in MatchAncestors(recs, term, 0, i),
                                     expanded := expanded)))
  }

  lemma SweepToStart(recs: seq<NodeRecord>, ds: seq<NodeData>, term: string)
    requires |recs| == |ds|
    ensures SweepTo(recs, ds, term, 0) == ds
  {
    var x := SweepTo(recs, ds, term, 0);
    assert forall j :: 0 <= j < |ds| ==> x[j] == ds[j];
  }

  /** A sweep over one more node adds that node's ancestors when it matches. */
  lemma MatchAncestorsStep(recs: seq<NodeRecord>, term: string, lo: nat, i: nat)
    requires lo <= i < |recs|
    ensures MatchAncestors(recs, term, lo, i + 1) ==
      MatchAncestors(recs, term, lo, i) + (if Matches(recs, term, i) then Ancestors(recs, i) else {})
  {
  }

  /** Processing node `i`, as seen by node `j`. */
  lemma SweepToStepAt(recs: seq<NodeRecord>, ds: seq<NodeData>, term: string, i: nat, j: nat)
    requires |recs| == |ds| && i < |recs| && j < |ds|
    ensures var y := AfterSearchTerm(recs, SweepTo(recs, ds, term, i), term, i);
      (if Matches(recs, term, i) then RevealAll(y, Ancestors(recs, i)) else y)[j] == SweepTo(recs, ds, term, i + 1)[j]
  {
    MatchAncestorsStep(recs, term, 0, i);
    if j < i {
      MatchAncestorsStep(recs, term, j + 1, i);
    }
  }

  /** Processing node `i`: its `searchTerm`, then, when it matches, the walk over its ancestors. */
  lemma SweepToStep(recs: seq<NodeRecord>, ds: seq<NodeData>, term: string, i: nat)
    requires |recs| == |ds| && i < |recs|
    ensures var y := AfterSearchTerm(recs, SweepTo(recs, ds, term, i), term, i);
      (if Matches(recs, term, i) then RevealAll(y, Ancestors(recs, i)) else y) == SweepTo(recs, ds, term, i + 1)
  {
    var y := AfterSearchTerm(recs, SweepTo(recs, ds, term, i), term, i);
    var z := if Matches(recs, term, i) then RevealAll(y, Ancestors(recs, i)) else y;
    var w := SweepTo(recs, ds, term, i + 1);
    forall j | 0 <= j < |ds|
      ensures z[j] == w[j]
    {
      SweepToStepAt(recs, ds, term, i, j);
    }
  }

  lemma SweepToEnd(recs: seq<NodeRecord>, ds: seq<NodeData>, term: string)
    requires |recs| == |ds|
    ensures SweepTo(recs, ds, term, |recs|) == SearchSweep(recs, ds, term)
  {
    var x, y := SweepTo(recs, ds, term, |recs|), SearchSweep(recs, ds, term);
    assert forall j :: 0 <= j < |ds| ==> x[j] == y[j];
  }
}
