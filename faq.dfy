/**
 * The FAQ accordion: the `active` class on each `.faq-item`. Only items
 * that contain a `.faq-question` get a click handler; every item, with or
 * without one, is closed when another item's question is clicked.
 */
module Faq {
  import opened Flags

  /**
   * The flags after a click on item k: item k holds the negation of its
   * old flag, every other item is closed.
   */
  function AfterClick(s: seq<bool>, k: nat): (r: seq<bool>)
    requires k < |s|
    ensures |r| == |s|
    ensures r[k] == !s[k]
    ensures forall j :: 0 <= j < |s| && j != k ==> !r[j]
  {
    seq(|s|, j requires 0 <= j < |s| => if j == k then !s[k] else false)
  }

  /** Whatever was open before, at most one item is open after a click. */
  lemma AtMostOneOpen(s: seq<bool>, k: nat)
    requires k < |s|
    ensures CountTrue(AfterClick(s, k)) <= 1
  {
    CountAtMostOne(AfterClick(s, k), k);
  }

  /**
   * A click on a closed item opens exactly that item; a click on the open
   * item closes every item.
   */
  lemma ClickOpensOrClosesAll(s: seq<bool>, k: nat)
    requires k < |s|
    ensures !s[k] ==> AfterClick(s, k) == OneHot(|s|, k) && CountTrue(AfterClick(s, k)) == 1
    ensures s[k] ==> AfterClick(s, k) == AllOff(|s|) && CountTrue(AfterClick(s, k)) == 0
  {
    CountAtMostOne(AfterClick(s, k), k);
  }

  /** Two clicks on the same item: it ends up with its own old flag, and all others closed. */
  lemma ClickTwice(s: seq<bool>, k: nat)
    requires k < |s|
    ensures AfterClick(AfterClick(s, k), k) == (if s[k] then OneHot(|s|, k) else AllOff(|s|))
  {
  }

  class Accordion {
    /** `items[j]`: item j carries `active`. */
    const items: array<bool>
    /** `hasQuestion[j]`: item j contains a `.faq-question`, so a click handler. */
    const hasQuestion: seq<bool>

    ghost predicate Valid()
      reads this
    {
      |hasQuestion| == items.Length
    }

    constructor (initial: seq<bool>, questions: seq<bool>)
      requires |questions| == |initial|
      ensures Valid() && fresh(items)
      ensures items[..] == initial && hasQuestion == questions
    {
      items := new bool[|initial|](j requires 0 <= j < |initial| => initial[j]);
      hasQuestion := questions;
    }

    /** The click handler of item k's question: close every other item, then toggle item k. */
    method Click(k: nat)
      requires Valid()
      requires k < items.Length && hasQuestion[k]
      modifies items
      ensures items[..] == AfterClick(old(items[..]), k)
    {
      var wasActive := items[k];
      var j := 0;
      while j < items.Length
        invariant 0 <= j <= items.Length
        invariant items[k] == wasActive
        invariant forall m :: 0 <= m < j && m != k ==> !items[m]
        invariant forall m :: j <= m < items.Length ==> items[m] == old(items[m])
      {
        if j != k {
          items[j] := false;
        }
        j := j + 1;
      }
      items[k] := !items[k];
    }
  }
}
