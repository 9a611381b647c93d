/**
 * The 3D cube banner: a 4-state cyclic face index (front, right, back,
 * left), the `rotateY` transform on the rotator element and the `active`
 * class on each `.cube-face` element. The 6000 ms interval is a sequence of
 * `Tick` calls; the 500 ms timeout each tick arms is a later `ActivateFace`
 * call.
 */
module Cube {
  import opened Flags

  /** Rotation angles in degrees for front, right, back and left. */
  const Rotations: seq<int> := [0, -90, -180, 90]

  /** The inline `transform` of the rotator: none until the first tick. */
  datatype Transform = NoTransform | RotateY(degrees: int)

  /**
   * Where the element that `document.querySelector` finds for one of the
   * four face selectors sits in the list of `.cube-face` elements, if
   * there is one.
   */
  datatype Slot = Absent | At(pos: nat)

  /** The face index after one tick: one further, wrapping from left (3) to front (0). */
  function NextFace(i: nat): (r: nat)
    requires i < |Rotations|
    ensures r < |Rotations|
    ensures i < 3 ==> r == i + 1
    ensures i == 3 ==> r == 0
  {
    (i + 1) % |Rotations|
  }

  /** The face index after k ticks from the initial front face. */
  function FaceAfter(k: nat): (r: nat)
    ensures r < |Rotations|
  {
    if k == 0 then 0 else NextFace(FaceAfter(k - 1))
  }

  /** After k ticks the cube shows face k mod 4. */
  lemma {:induction false} FaceAfterIsModular(k: nat)
    ensures FaceAfter(k) == k % 4
  {
    if k > 0 {
      FaceAfterIsModular(k - 1);
      var q, r := (k - 1) / 4, (k - 1) % 4;
      assert k - 1 == 4 * q + r;
      if r < 3 {
        assert k == 4 * q + (r + 1);
      } else {
        assert k == 4 * (q + 1);
      }
    }
  }

  /** Four ticks bring the cube back to the same face and the same angle. */
  lemma FourTicksReturn(k: nat)
    ensures FaceAfter(k + 4) == FaceAfter(k)
    ensures Rotations[FaceAfter(k + 4)] == Rotations[FaceAfter(k)]
  {
    FaceAfterIsModular(k);
    FaceAfterIsModular(k + 4);
  }

  /**
   * The table names four different orientations of the cube, front first:
   * no two of its angles are equal modulo a whole turn.
   */
  lemma RotationsAreFourOrientations()
    ensures |Rotations| == 4 && Rotations[0] == 0
    ensures forall i, j :: 0 <= i < j < |Rotations| ==> Rotations[i] % 360 != Rotations[j] % 360
  {
    assert Rotations[0] % 360 == 0 && Rotations[1] % 360 == 270;
    assert Rotations[2] % 360 == 180 && Rotations[3] % 360 == 90;
  }

  /**
   * Every tick turns the orientation a quarter turn on: the new angle is
   * the old one minus 90 degrees, modulo a whole turn.
   */
  lemma TickIsQuarterTurn(i: nat)
    requires i < |Rotations|
    ensures (Rotations[NextFace(i)] - Rotations[i] + 90) % 360 == 0
  {
  }

  /**
   * The raw angle written into the transform changes by -90 degrees on
   * every tick except back to left, where it jumps by +270 degrees.
   */
  lemma RawAngleSteps(i: nat)
    requires i < |Rotations|
    ensures Rotations[NextFace(i)] - Rotations[i] == if i == 2 then 270 else -90
  {
  }

  /**
   * Once a tick has cleared every face and its timeout has marked the face
   * found for the new index, that face is the only active one.
   */
  lemma ActivatedFaceIsTheOnlyOne(n: nat, p: nat)
    requires p < n
    ensures AllOff(n)[p := true] == OneHot(n, p)
    ensures CountTrue(AllOff(n)[p := true]) == 1
  {
    OneHotCount(n, p);
  }

  class Rotator {
    /** `faces[j]`: the j-th `.cube-face` element carries `active`. */
    const faces: array<bool>
    /** Element found for each face selector, in the order of `Rotations`. */
    const slots: seq<Slot>
    var faceIndex: nat
    var transform: Transform

    ghost predicate Valid()
      reads this
    {
      && faceIndex < |Rotations|
      && |slots| == |Rotations|
      && forall k :: 0 <= k < |slots| && slots[k].At? ==> slots[k].pos < faces.Length
    }

    /**
     * Set-up once the rotator and at least one face exist: the index starts
     * at the front face, and the element found for the front selector, if
     * any, is marked active at once. Nothing else changes.
     */
    constructor (initial: seq<bool>, faceSlots: seq<Slot>)
      requires |initial| > 0
      requires |faceSlots| == |Rotations|
      requires forall k :: 0 <= k < |faceSlots| && faceSlots[k].At? ==> faceSlots[k].pos < |initial|
      ensures Valid() && fresh(faces)
      ensures slots == faceSlots
      ensures faceIndex == 0 && transform == NoTransform
      ensures faces[..] == if faceSlots[0].At? then initial[faceSlots[0].pos := true] else initial
    {
      faces := new bool[|initial|](j requires 0 <= j < |initial| => initial[j]);
      slots := faceSlots;
      faceIndex := 0;
      transform := NoTransform;
      new;
      if faceSlots[0].At? {
        faces[faceSlots[0].pos] := true;
      }
    }

    /**
     * One interval tick: advance the index, rotate the cube to the angle of
     * the new face, clear `active` on every face. Returns the face that the
     * tick's timeout will activate.
     */
    method Tick() returns (pending: Slot)
      requires Valid()
      modifies this`faceIndex, this`transform, faces
      ensures Valid()
      ensures faceIndex == NextFace(old(faceIndex))
      ensures transform == RotateY(Rotations[faceIndex])
      ensures faces[..] == AllOff(faces.Length)
      ensures pending == slots[faceIndex]
    {
      faceIndex := (faceIndex + 1) % |Rotations|;
      var rotation := Rotations[faceIndex];
      transform := RotateY(rotation);
      var j := 0;
      while j < faces.Length
        invariant 0 <= j <= faces.Length
        invariant forall m :: 0 <= m < j ==> !faces[m]
        invariant faceIndex == NextFace(old(faceIndex)) && transform == RotateY(rotation)
      {
        faces[j] := false;
        j := j + 1;
      }
      pending := slots[faceIndex];
    }

    /** The delayed timeout body: mark one face active, touch nothing else. */
    method ActivateFace(pending: Slot)
      requires Valid()
      requires pending.At? ==> pending.pos < faces.Length
      modifies faces
      ensures faces[..] == if pending.At? then old(faces[..])[pending.pos := true] else old(faces[..])
    {
      if pending.At? {
        faces[pending.pos] := true;
      }
    }
  }
}
