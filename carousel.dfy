/**
 * The testimonial slider: a cyclic index `currentSlide` over the n slides
 * and the `active` class on each slide. It is wired up only when both
 * navigation buttons exist and there is at least one slide, so n > 0
 * whenever the index moves.
 */
module Carousel {
  import opened Flags

  /** The index after `nextSlide`: one further, wrapping from the last slide to the first. */
  function NextIndex(i: nat, n: nat): (r: nat)
    requires i < n
    ensures r < n
    ensures i + 1 < n ==> r == i + 1
    ensures i + 1 == n ==> r == 0
  {
    (i + 1) % n
  }

  /** The index after `prevSlide`: one back, wrapping from the first slide to the last. */
  function PrevIndex(i: nat, n: nat): (r: nat)
    requires i < n
    ensures r < n
    ensures 0 < i ==> r == i - 1
    ensures i == 0 ==> r == n - 1
  {
    (i - 1 + n) % n
  }

  /** `prevSlide` undoes `nextSlide`, and `nextSlide` undoes `prevSlide`. */
  lemma NextPrevInverse(i: nat, n: nat)
    requires i < n
    ensures PrevIndex(NextIndex(i, n), n) == i
    ensures NextIndex(PrevIndex(i, n), n) == i
  {
  }

  /** The index reached from i after k calls of `nextSlide`. */
  function Advance(i: nat, n: nat, k: nat): (r: nat)
    requires i < n
    ensures r < n
  {
    if k == 0 then i else NextIndex(Advance(i, n, k - 1), n)
  }

  /** The index reached from i after k calls of `prevSlide`. */
  function Retreat(i: nat, n: nat, k: nat): (r: nat)
    requires i < n
    ensures r < n
  {
    if k == 0 then i else PrevIndex(Retreat(i, n, k - 1), n)
  }

  /** Euclidean division is unique: a remainder in [0, n) is the remainder. */
  lemma ModUnique(a: int, n: int, q: int, r: int)
    requires 0 <= r < n
    requires a == q * n + r
    ensures a % n == r
  {
    var q', r' := a / n, a % n;
    assert a == q' * n + r';
    assert (q - q') * n == r' - r;
    if q - q' >= 1 {
      assert false;
    } else if q - q' <= -1 {
      assert false;
    }
  }

  /** Adding one to a number moves its remainder one further, wrapping at n. */
  lemma ModSucc(a: int, n: int)
    requires 0 < n
    ensures (a + 1) % n == if a % n + 1 < n then a % n + 1 else 0
  {
    var q, r := a / n, a % n;
    assert a == q * n + r;
    if r + 1 < n {
      ModUnique(a + 1, n, q, r + 1);
    } else {
      assert a + 1 == (q + 1) * n + 0;
      ModUnique(a + 1, n, q + 1, 0);
    }
  }

  /** Subtracting one from a number moves its remainder one back, wrapping at 0. */
  lemma ModPred(a: int, n: int)
    requires 0 < n
    ensures (a - 1) % n == if 0 < a % n then a % n - 1 else n - 1
  {
    var q, r := a / n, a % n;
    assert a == q * n + r;
    if 0 < r {
      ModUnique(a - 1, n, q, r - 1);
    } else {
      assert a - 1 == (q - 1) * n + (n - 1);
      ModUnique(a - 1, n, q - 1, n - 1);
    }
  }

  /** Repeated `nextSlide` visits i, i+1, ..., n-1, 0, 1, ... in order. */
  lemma {:induction false} AdvanceIsModular(i: nat, n: nat, k: nat)
    requires i < n
    ensures Advance(i, n, k) == (i + k) % n
  {
    if k > 0 {
      AdvanceIsModular(i, n, k - 1);
      ModSucc(i + k - 1, n);
    }
  }

  /** Repeated `prevSlide` visits i, i-1, ..., 0, n-1, n-2, ... in order. */
  lemma {:induction false} RetreatIsModular(i: nat, n: nat, k: nat)
    requires i < n
    ensures Retreat(i, n, k) == (i - k) % n
  {
    if k > 0 {
      RetreatIsModular(i, n, k - 1);
      ModPred(i - (k - 1), n);
    }
  }

  /** n calls of either button bring the carousel back to the slide it started on. */
  lemma FullCycle(i: nat, n: nat)
    requires i < n
    ensures Advance(i, n, n) == i
    ensures Retreat(i, n, n) == i
  {
    AdvanceIsModular(i, n, n);
    RetreatIsModular(i, n, n);
    ModUnique(i + n, n, 1, i);
    ModUnique(i - n, n, -1, i);
  }

  /** After `showSlide(i)` with i a valid index, exactly one slide is active, and it is slide i. */
  lemma ShowLeavesExactlyOne(n: nat, i: nat)
    requires i < n
    ensures CountTrue(OneHot(n, i)) == 1
    ensures OneHot(n, i)[i]
  {
    OneHotCount(n, i);
  }

  /** The slider: `slides[j]` is true when slide j carries the `active` class. */
  class Slider {
    const slides: array<bool>
    var current: nat

    ghost predicate Valid()
      reads this
    {
      current < slides.Length
    }

    /**
     * Set-up once the guard holds (at least one slide; the two buttons are
     * assumed present): the index starts at 0 and `showSlide(0)` runs.
     */
    constructor (initial: seq<bool>)
      requires |initial| > 0
      ensures Valid() && fresh(slides)
      ensures current == 0
      ensures slides[..] == OneHot(|initial|, 0)
    {
      slides := new bool[|initial|](j requires 0 <= j < |initial| => initial[j]);
      current := 0;
      new;
      ShowSlide(0);
    }

    /** `showSlide(index)`: every slide loses `active`, then the slide at `index` gains it. */
    method ShowSlide(index: int)
      modifies slides
      ensures slides[..] == OneHot(slides.Length, index)
    {
      var j := 0;
      while j < slides.Length
        invariant 0 <= j <= slides.Length
        invariant forall m :: 0 <= m < j ==> (slides[m] <==> m == index)
      {
        slides[j] := false;
        if j == index {
          slides[j] := true;
        }
        j := j + 1;
      }
    }

    /** `nextSlide`, run by the auto-advance timer and by the next button. */
    method NextSlide()
      requires Valid()
      modifies this`current, slides
      ensures Valid()
      ensures current == NextIndex(old(current), slides.Length)
      ensures slides[..] == OneHot(slides.Length, current)
    {
      current := (current + 1) % slides.Length;
      ShowSlide(current);
    }

    /** `prevSlide`, run by the previous button. */
    method PrevSlide()
      requires Valid()
      modifies this`current, slides
      ensures Valid()
      ensures current == PrevIndex(old(current), slides.Length)
      ensures slides[..] == OneHot(slides.Length, current)
    {
      current := (current - 1 + slides.Length) % slides.Length;
      ShowSlide(current);
    }
  }
}
