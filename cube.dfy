/**
 * The cube as the source holds it: one object owning a fixed buffer of six
 * words, which `set_square` and the rotations update one nibble at a time.
 * Every method is proved to leave the buffer holding exactly what the pure
 * functions of `CubeState` and `Rotation` compute from the old buffer.
 */
module CubeObject {
  import opened CubeState
  import opened Rotation

  /** `struct Cube([u32; 6])`. */
  class Cube {
    const words: array<bv32>

    /** The buffer holds one word per face. */
    predicate Valid()
    {
      words.Length == 6
    }

    /** The value the object stands for. */
    function State(): (w: Words)
      requires Valid()
      reads words
      ensures |w| == words.Length && forall f: Face :: w[f] == words[f]
    {
      words[..]
    }

    /** A cube holding the given words. */
    constructor (w: Words)
      ensures Valid() && fresh(words) && State() == w
    {
      words := new bv32[6] (i requires 0 <= i < 6 => w[i]);
    }

    /** `cube.clone()`: a fresh buffer with the same contents. */
    constructor Clone(other: Cube)
      requires other.Valid()
      ensures Valid() && fresh(words) && State() == other.State()
    {
      var w := other.State();
      words := new bv32[6] (i requires 0 <= i < 6 => w[i]);
    }

    /** `get_square`: the three colour bits of slot `index` of `face`. */
    function GetSquare(face: Face, index: Slot): (r: Color)
      requires Valid()
      reads words
      ensures r < 8 && r == Get(State(), face, index)
    {
      (words[face] >> (index * 4)) & 7
    }

    /**
     * `set_square`: clears the low three bits of the nibble and ORs `value`
     * in; only the word of `face` is written.
     */
    method SetSquare(face: Face, index: Slot, value: Color)
      requires Valid() && value < 8
      modifies words
      ensures State() == Set(old(State()), face, index, value)
    {
      var oldFace := words[face];
      words[face] := Put(oldFace, index, value);
    }

    /**
     * `rotate_across_faces`: all four cells are read before any is written;
     * then cell 0 gets the old colour of cell 3 and every other cell the old
     * colour of the cell before it.
     */
    method RotateAcrossFaces(baseFace: Face, colorOffsets: Offsets, index: Indices)
      requires Valid()
      modifies words
      ensures State() == RotateAcross(old(State()), baseFace, colorOffsets, index)
    {
      var faces := (FaceAt(baseFace, colorOffsets.0), FaceAt(baseFace, colorOffsets.1),
                    FaceAt(baseFace, colorOffsets.2), FaceAt(baseFace, colorOffsets.3));
      var olds := (GetSquare(faces.0, index.0), GetSquare(faces.1, index.1),
                   GetSquare(faces.2, index.2), GetSquare(faces.3, index.3));
      SetSquare(faces.0, index.0, olds.3);
      SetSquare(faces.1, index.1, olds.0);
      SetSquare(faces.2, index.2, olds.1);
      SetSquare(faces.3, index.3, olds.2);
    }

    /** `rotate_within_face`: a 4-cycle of slots of one face. */
    method RotateWithinFace(face: Face, index: Indices)
      requires Valid()
      modifies words
      ensures State() == RotateWithin(old(State()), face, index)
    {
      RotateAcrossFaces(face, (0, 0, 0, 0), index);
    }

    /**
     * `rotate_clockwise`: the corner and edge cycles of the face, then the
     * three rows of its neighbours, at the offsets the face's parity selects.
     */
    method RotateClockwise(face: Face)
      requires Valid()
      modifies words
      ensures State() == Clockwise(old(State()), face)
      ensures State()[FaceAt(face, 3)] == old(State())[FaceAt(face, 3)]
      ensures forall x: Color :: CountColor(State(), x) == CountColor(old(State()), x)
    {
      ghost var w := State();
      RotateWithinFace(face, (TL, TR, BR, BL));
      RotateWithinFace(face, (TM, CR, BM, CL));
      if face % 2 == 0 {
        RotateAcrossFaces(face, (1, 5, 4, 2), (TL, TR, BR, TR));
        RotateAcrossFaces(face, (1, 5, 4, 2), (TM, CR, BM, CR));
        RotateAcrossFaces(face, (1, 5, 4, 2), (TR, BR, BL, BR));
      } else {
        RotateAcrossFaces(face, (1, 2, 4, 5), (TL, BL, BR, BL));
        RotateAcrossFaces(face, (1, 2, 4, 5), (TM, CL, BM, CL));
        RotateAcrossFaces(face, (1, 2, 4, 5), (TR, TL, BL, TL));
      }
      ApplyTurnStages(w, face, ClockwiseTurn(face));
      OppositeFaceUnchanged(w, face);
      forall x: Color ensures CountColor(Clockwise(w, face), x) == CountColor(w, x) {
        ClockwiseKeepsCounts(w, face, x);
      }
    }

    /** `rotate_counterclockwise`: the same cycles walked the other way. */
    method RotateCounterclockwise(face: Face)
      requires Valid()
      modifies words
      ensures State() == Counterclockwise(old(State()), face)
      ensures Clockwise(State(), face) == old(State())
    {
      ghost var w := State();
      RotateWithinFace(face, (TR, TL, BL, BR));
      RotateWithinFace(face, (TM, CL, BM, CR));
      if face % 2 == 0 {
        RotateAcrossFaces(face, (1, 2, 4, 5), (TL, TR, BR, TR));
        RotateAcrossFaces(face, (1, 2, 4, 5), (TM, CR, BM, CR));
        RotateAcrossFaces(face, (1, 2, 4, 5), (TR, BR, BL, BR));
      } else {
        RotateAcrossFaces(face, (1, 5, 4, 2), (TL, BL, BR, BL));
        RotateAcrossFaces(face, (1, 5, 4, 2), (TM, CL, BM, CL));
        RotateAcrossFaces(face, (1, 5, 4, 2), (TR, TL, BL, TL));
      }
      ApplyTurnStages(w, face, CounterclockwiseTurn(face));
      ClockwiseUndoesCounterclockwise(w, face);
    }

    /** `rotate_180`: two clockwise quarter turns, the same as two counter-clockwise ones. */
    method Rotate180(face: Face)
      requires Valid()
      modifies words
      ensures State() == HalfTurn(old(State()), face)
      ensures State() == Counterclockwise(Counterclockwise(old(State()), face), face)
    {
      ghost var w := State();
      RotateClockwise(face);
      RotateClockwise(face);
      HalfTurnBothWays(w, face);
    }

    /**
     * `better_rotate::<face>`, with the face passed at run time: one
     * clockwise turn. The turn is also named by a ghost function equal to
     * `Clockwise` everywhere, so that callers can reason about it without
     * unfolding the permutation.
     */
    method BetterRotate(face: Face, ghost turn: (Words, Face) -> Words)
      requires Valid()
      requires forall v: Words, f: Face {:trigger Clockwise(v, f)} :: turn(v, f) == Clockwise(v, f)
      modifies words
      ensures State() == turn(old(State()), face)
    {
      RotateClockwise(face);
    }
  }
}
