/**
 * A list of page elements together with the CSS class `active` is
 * modelled as a sequence of booleans: entry i says whether element i
 * carries the class. This module holds the few shapes such a list takes
 * in the page script and the counting facts the widgets rely on.
 */
module Flags {

  /** Number of elements that carry the class. */
  function CountTrue(s: seq<bool>): (c: nat)
    ensures c <= |s|
    ensures c == 0 <==> forall j :: 0 <= j < |s| ==> !s[j]
  {
    if s == [] then 0 else CountTrue(s[..|s| - 1]) + (if s[|s| - 1] then 1 else 0)
  }

  /** No element carries the class. */
  function AllOff(n: nat): (s: seq<bool>)
    ensures |s| == n
    ensures forall j :: 0 <= j < n ==> !s[j]
  {
    seq(n, j => false)
  }

  /** Element k carries the class and no other does (k outside [0, n): none does). */
  function OneHot(n: nat, k: int): (s: seq<bool>)
    ensures |s| == n
    ensures forall j :: 0 <= j < n ==> (s[j] <==> j == k)
  {
    seq(n, j => j == k)
  }

  /** With every entry off except possibly position k, at most one element is on. */
  lemma {:induction false} CountAtMostOne(s: seq<bool>, k: int)
    requires forall j :: 0 <= j < |s| && j != k ==> !s[j]
    ensures CountTrue(s) <= 1
    ensures 0 <= k < |s| && s[k] ==> CountTrue(s) == 1
  {
    if s != [] {
      var init := s[..|s| - 1];
      assert forall j :: 0 <= j < |init| && j != k ==> !init[j] by {
        forall j | 0 <= j < |init| && j != k ensures !init[j] {
          assert init[j] == s[j];
        }
      }
      CountAtMostOne(init, k);
      if k == |s| - 1 {
        assert CountTrue(init) == 0;
      } else {
        assert !s[|s| - 1];
        if 0 <= k < |s| && s[k] {
          assert init[k] == s[k];
        }
      }
    }
  }

  /** A one-hot list with its index in range has exactly one element on. */
  lemma OneHotCount(n: nat, k: int)
    ensures CountTrue(OneHot(n, k)) == (if 0 <= k < n then 1 else 0)
  {
    CountAtMostOne(OneHot(n, k), k);
  }
}
