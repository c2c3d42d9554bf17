/**
 * Case-insensitive search of a literal term in a node label, and the
 * prefix/match/suffix split that a node records as its search highlight
 * (`TreeNode.searchTerm` in scripts/select-tree.ts).
 *
 * `new RegExp(term, 'i')` is modelled for a term without regular-expression
 * metacharacters and with ASCII case folding, so a match has the length of
 * the term.
 */
module TextSearch {
  import opened Wrappers

  /** ASCII case folding: upper-case letters become lower case, all else stays. */
  function Fold(c: char): (r: char)
    ensures 'A' <= c <= 'Z' ==> 'a' <= r <= 'z' && r as int - c as int == 'a' as int - 'A' as int
    ensures !('A' <= c <= 'Z') ==> r == c
  {
    if 'A' <= c <= 'Z' then (c as int - 'A' as int + 'a' as int) as char else c
  }

  /**
   * Two characters fold to the same one exactly when they are equal or are
   * the upper- and lower-case forms of one ASCII letter.
   */
  lemma FoldIdentifiesCasePairs(a: char, b: char)
    ensures Fold(a) == Fold(b) <==>
              a == b || ('A' <= a <= 'Z' && b as int == a as int + 32) || ('A' <= b <= 'Z' && a as int == b as int + 32)
  {
  }

  /** `a` and `b` are equal up to ASCII case. */
  predicate FoldEq(a: string, b: string) {
    |a| == |b| && forall k :: 0 <= k < |a| ==> Fold(a[k]) == Fold(b[k])
  }

  /** `term` occurs in `text` at position `i`, ignoring case. */
  predicate MatchesAt(text: string, term: string, i: nat) {
    i + |term| <= |text| && FoldEq(text[i..i + |term|], term)
  }

  /** The first position at or after `i` where `term` occurs in `text`. */
  function FindFrom(text: string, term: string, i: nat): Option<nat>
    decreases |text| - i
  {
    if i + |term| > |text| then None
    else if MatchesAt(text, term, i) then Some(i)
    else FindFrom(text, term, i + 1)
  }

  /** `FindFrom` finds a match, and no earlier one; `None` means there is none. */
  lemma {:induction false} FindFromFirst(text: string, term: string, i: nat)
    decreases |text| - i
    ensures var r := FindFrom(text, term, i);
      (r.Some? ==> i <= r.value && MatchesAt(text, term, r.value)) &&
      (r.Some? ==> forall j :: i <= j < r.value ==> !MatchesAt(text, term, j)) &&
      (r.None? ==> forall j :: i <= j ==> !MatchesAt(text, term, j))
  {
    if i + |term| <= |text| && !MatchesAt(text, term, i) {
      FindFromFirst(text, term, i + 1);
    }
  }

  /** `text.search(new RegExp(term, 'i'))`: the first match position, `None` for -1. */
  function Search(text: string, term: string): Option<nat> {
    FindFrom(text, term, 0)
  }

  /**
   * The highlight triple of `searchTerm`: on a match at `i`, the label before
   * the match, the matched text in the label's own case, and the rest;
   * without a match, the empty list.
   */
  function SearchTriple(text: string, term: string): seq<string> {
    FindFromFirst(text, term, 0);
    match Search(text, term)
    case None => []
    case Some(i) => [text[..i], text[i..i + |term|], text[i + |term|..]]
  }

  /**
   * The triple is empty exactly when nothing matches; otherwise it splits the
   * label into three parts at the first match, the middle one equal to the
   * term up to case.
   */
  lemma SearchTripleSplits(text: string, term: string)
    ensures var r := SearchTriple(text, term);
      (r == [] <==> Search(text, term).None?) &&
      (r != [] ==> |r| == 3 && r[0] + r[1] + r[2] == text) &&
      (r != [] ==> MatchesAt(text, term, |r[0]|) && FoldEq(r[1], term)) &&
      (r != [] ==> forall j :: 0 <= j < |r[0]| ==> !MatchesAt(text, term, j))
  {
    FindFromFirst(text, term, 0);
    match Search(text, term)
    case None =>
    case Some(i) =>
      var r := SearchTriple(text, term);
      assert r[0] + r[1] + r[2] == text;
  }

  /** The empty term matches at the start, so its triple is `["", "", text]`. */
  lemma EmptyTermSplitsAtStart(text: string)
    ensures Search(text, "") == Some(0)
    ensures SearchTriple(text, "") == ["", "", text]
  {
    assert MatchesAt(text, "", 0);
  }

  /** Example: "b" is found in "aBc", and the highlight keeps the label's case. */
  lemma MixedCaseMatches()
    ensures SearchTriple("aBc", "b") == ["a", "B", "c"]
  {
    var text, term := "aBc", "b";
    assert MatchesAt(text, term, 1);
    NoMatchAt(text, term, 0, 'a');
    assert text[..1] == "a" && text[1..2] == "B" && text[2..] == "c";
  }

  /** Example: "d" does not occur in "aBc", so the highlight is cleared. */
  lemma AbsentTermMisses()
    ensures SearchTriple("aBc", "d") == []
  {
    var text, term := "aBc", "d";
    NoMatchAt(text, term, 2, 'c');
    NoMatchAt(text, term, 1, 'B');
    NoMatchAt(text, term, 0, 'a');
  }

  /** A position whose first character differs from the term's, up to case, is skipped. */
  lemma NoMatchAt(text: string, term: string, i: nat, c: char)
    requires i < |text| && text[i] == c && |term| > 0 && Fold(c) != Fold(term[0])
    ensures FindFrom(text, term, i) == FindFrom(text, term, i + 1)
  {
  }
}
