/**
 * The FAQ accordion of js/app.js: clicking a question collapses every
 * question and then expands the clicked one only if it was collapsed.
 */
module Faq {

  /** The `aria-expanded` flags after a click on question `k`. */
  function AfterClick(expanded: seq<bool>, k: nat): (r: seq<bool>)
    requires k < |expanded|
    ensures |r| == |expanded|
  {
    seq(|expanded|, j requires 0 <= j < |expanded| => j == k && !expanded[k])
  }

  /** No two questions are expanded at once. */
  predicate AtMostOneExpanded(expanded: seq<bool>)
  {
    forall i, j :: 0 <= i < |expanded| && 0 <= j < |expanded| && expanded[i] && expanded[j] ==> i == j
  }

  /**
   * After any click at most one question is expanded: the clicked one iff it
   * was collapsed before, every other one collapsed.
   */
  lemma ClickIsExclusive(expanded: seq<bool>, k: nat)
    requires k < |expanded|
    ensures AtMostOneExpanded(AfterClick(expanded, k))
    ensures AfterClick(expanded, k)[k] <==> !expanded[k]
    ensures forall j :: 0 <= j < |expanded| && j != k ==> !AfterClick(expanded, k)[j]
  {
  }

  /** Opening question i and then question j != i leaves j expanded and i collapsed. */
  lemma SecondClickMovesExpansion(expanded: seq<bool>, i: nat, j: nat)
    requires i < |expanded| && j < |expanded| && i != j
    requires forall q :: 0 <= q < |expanded| ==> !expanded[q]
    ensures var after := AfterClick(AfterClick(expanded, i), j);
      after[j] && !after[i] && AtMostOneExpanded(after)
  {
  }

  /** Clicking the same question twice from an all-collapsed list collapses everything again. */
  lemma ClickTwiceCollapses(expanded: seq<bool>, k: nat)
    requires k < |expanded|
    requires forall q :: 0 <= q < |expanded| ==> !expanded[q]
    ensures forall q :: 0 <= q < |expanded| ==> !AfterClick(AfterClick(expanded, k), k)[q]
  {
  }

  /** The `.faq-question` buttons. */
  class Accordion {
    /** `aria-expanded == 'true'` of each question, in document order. */
    const expanded: array<bool>

    /** populateFAQ renders every question with `aria-expanded="false"`. */
    constructor (n: nat)
      ensures fresh(expanded) && expanded.Length == n
      ensures forall q :: 0 <= q < n ==> !expanded[q]
    {
      expanded := new bool[n](_ => false);
    }

    /** The click handler on question `k`. */
    method Click(k: nat)
      requires k < expanded.Length
      modifies expanded
      ensures expanded[..] == AfterClick(old(expanded[..]), k)
    {
      var wasExpanded := expanded[k];
      ghost var before := expanded[..];
      var q := 0;
      while q < expanded.Length
        invariant 0 <= q <= expanded.Length
        invariant forall j :: 0 <= j < q ==> !expanded[j]
        invariant forall j :: q <= j < expanded.Length ==> expanded[j] == before[j]
      {
        expanded[q] := false;
        q := q + 1;
      }
      if !wasExpanded {
        expanded[k] := true;
      }
    }

    /** Enter or Space on a question acts as a click on it. */
    method KeyDown(k: nat, key: string)
      requires k < expanded.Length
      modifies expanded
      ensures key == "Enter" || key == " " ==> expanded[..] == AfterClick(old(expanded[..]), k)
      ensures key != "Enter" && key != " " ==> expanded[..] == old(expanded[..])
    {
      if key == "Enter" || key == " " {
        Click(k);
      }
    }
  }
}
