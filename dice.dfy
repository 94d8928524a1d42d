/** Die faces and the wildcard rule of Perudo: a one counts as any face,
    except when the bid is itself on ones. */
module Dice {
  import opened Wrappers

  /** A die slot as the front end holds it: a face, or None when left blank. */
  type Slot = Option<int>

  predicate IsFace(f: int) { 1 <= f <= 6 }

  /** Whether a die showing `face` supports a bid on `bidFace`. */
  predicate IsMatch(face: int, bidFace: int)
  {
    face == bidFace || (face == 1 && bidFace != 1)
  }

  /** The faces of a fair die that support a bid on `bidFace`. */
  function MatchingFaces(bidFace: int): set<int>
  {
    set f | 1 <= f <= 6 && IsMatch(f, bidFace)
  }

  /** A bid on ones is supported by ones only; a bid on any other face by
      that face and by the wildcard one. */
  lemma MatchingFacesOf(bidFace: int)
    requires IsFace(bidFace)
    ensures bidFace == 1 ==> MatchingFaces(bidFace) == {1}
    ensures bidFace != 1 ==> MatchingFaces(bidFace) == {1, bidFace}
    ensures |MatchingFaces(bidFace)| == if bidFace == 1 then 1 else 2
  {
    if bidFace == 1 {
      assert MatchingFaces(bidFace) == {1};
    } else {
      assert MatchingFaces(bidFace) == {1, bidFace};
    }
  }
}
