/**
 * Scroll reveal: the `active` class on each `.reveal` element and the set
 * of elements the IntersectionObserver still watches. The observer's
 * geometry is outside the model: a callback batch is a sequence of
 * entries, each naming its element and whether it is intersecting.
 */
module Reveal {

  datatype Entry = Entry(target: nat, isIntersecting: bool)

  /** The elements a batch reveals: the targets of its intersecting entries. */
  function Hits(entries: seq<Entry>): (r: set<nat>)
    ensures forall i :: 0 <= i < |entries| && entries[i].isIntersecting ==> entries[i].target in r
  {
    if entries == [] then {}
    else
      var last := entries[|entries| - 1];
      Hits(entries[..|entries| - 1]) + (if last.isIntersecting then {last.target} else {})
  }

  /** An element is hit by a batch exactly when some intersecting entry of the batch names it. */
  lemma {:induction false} HitsExactly(entries: seq<Entry>, t: nat)
    ensures t in Hits(entries) <==> exists i :: 0 <= i < |entries| && entries[i].isIntersecting && entries[i].target == t
  {
    if entries != [] {
      var init := entries[..|entries| - 1];
      HitsExactly(init, t);
      if exists i :: 0 <= i < |init| && init[i].isIntersecting && init[i].target == t {
        var i :| 0 <= i < |init| && init[i].isIntersecting && init[i].target == t;
        assert entries[i] == init[i];
      }
      if exists i :: 0 <= i < |entries| && entries[i].isIntersecting && entries[i].target == t {
        var i :| 0 <= i < |entries| && entries[i].isIntersecting && entries[i].target == t;
        if i < |init| {
          assert init[i] == entries[i];
        }
      }
    }
  }

  /** A batch of entries none of which intersects reveals nothing. */
  lemma {:induction false} NoIntersectionNoHits(entries: seq<Entry>)
    requires forall i :: 0 <= i < |entries| ==> !entries[i].isIntersecting
    ensures Hits(entries) == {}
  {
    if entries != [] {
      var init := entries[..|entries| - 1];
      assert forall i :: 0 <= i < |init| ==> init[i] == entries[i];
      NoIntersectionNoHits(init);
    }
  }

  /** The flags after a batch: an element is active if it was, or if the batch hit it. */
  function Revealed(s: seq<bool>, hits: set<nat>): (r: seq<bool>)
    ensures |r| == |s|
    ensures forall j :: 0 <= j < |s| ==> (r[j] <==> s[j] || j in hits)
  {
    seq(|s|, j requires 0 <= j < |s| => s[j] || j in hits)
  }

  /** Revealing is one-way: an active element stays active, whatever the batch. */
  lemma RevealIsMonotone(s: seq<bool>, hits: set<nat>)
    ensures forall j :: 0 <= j < |s| && s[j] ==> Revealed(s, hits)[j]
  {
  }

  /** A batch that hits nothing leaves every flag as it was. */
  lemma MissesChangeNothing(s: seq<bool>, entries: seq<Entry>)
    requires forall i :: 0 <= i < |entries| ==> !entries[i].isIntersecting
    ensures Revealed(s, Hits(entries)) == s
  {
    NoIntersectionNoHits(entries);
  }

  /** The indices of n elements, 0 to n - 1. */
  function Elements(n: nat): (r: set<nat>)
    ensures forall j: int :: j in r <==> 0 <= j < n
  {
    if n == 0 then {} else Elements(n - 1) + {n - 1}
  }

  class Revealer {
    /** `active[j]`: element j carries `active`. */
    const active: array<bool>
    /** The elements the observer still watches. */
    var observed: set<nat>

    /** Every element the observer has let go of is revealed. */
    ghost predicate Valid()
      reads this, active
    {
      && (forall j :: j in observed ==> j < active.Length)
      && (forall j :: 0 <= j < active.Length && j !in observed ==> active[j])
    }

    /** Set-up when at least one `.reveal` element exists: every element is observed. */
    constructor (initial: seq<bool>)
      requires |initial| > 0
      ensures Valid() && fresh(active)
      ensures active[..] == initial
      ensures observed == Elements(|initial|)
    {
      active := new bool[|initial|](j requires 0 <= j < |initial| => initial[j]);
      observed := Elements(|initial|);
    }

    /**
     * The observer callback: each intersecting entry marks its target
     * active and stops observing it; other entries are skipped.
     */
    method OnEntries(entries: seq<Entry>)
      requires Valid()
      requires forall i :: 0 <= i < |entries| ==> entries[i].target < active.Length
      modifies this`observed, active
      ensures Valid()
      ensures active[..] == Revealed(old(active[..]), Hits(entries))
      ensures observed == old(observed) - Hits(entries)
    {
      var i := 0;
      while i < |entries|
        invariant 0 <= i <= |entries|
        invariant Valid()
        invariant active[..] == Revealed(old(active[..]), Hits(entries[..i]))
        invariant observed == old(observed) - Hits(entries[..i])
      {
        assert entries[..i + 1][..i] == entries[..i];
        var entry := entries[i];
        if entry.isIntersecting {
          active[entry.target] := true;
          observed := observed - {entry.target};
        }
        i := i + 1;
      }
      assert entries[..|entries|] == entries;
    }
  }
}
