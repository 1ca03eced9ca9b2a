/**
 * The goal test of the search: the yellow face solved, the bottom row of
 * green solved, and three corners holding the right colours in any
 * orientation.
 */
module Goal {
  import opened CubeState

  /** The bits of the three colours, `(1 << a) | (1 << b) | (1 << c)`, as a 32-bit word. */
  function Mask(a: Color, b: Color, c: Color): bv32
    requires a < 32 && b < 32 && c < 32
  {
    (1 << a) | (1 << b) | (1 << c)
  }

  /** `e` is one of `x`, `y`, `z`. */
  predicate Among(e: Color, x: Color, y: Color, z: Color)
  {
    e == x || e == y || e == z
  }

  /** A colour is among three exactly when its bit is in their mask. */
  lemma MaskBit(a: Color, b: Color, c: Color, e: Color)
    requires a < 8 && b < 8 && c < 8 && e < 8
    ensures (Mask(a, b, c) >> e) & 1 == 1 <==> Among(e, a, b, c)
  {
  }

  /** A bit already in a mask adds nothing to it. */
  lemma MaskAbsorbs(e: Color, x: Color, y: Color, z: Color)
    requires e < 8 && x < 8 && y < 8 && z < 8
    requires Among(e, x, y, z)
    ensures (1 << e) | Mask(x, y, z) == Mask(x, y, z)
  {
    if e == x {
    } else if e == y {
    } else {
      assert e == z;
    }
  }

  /** Every colour of the first triple is one of the second. */
  predicate Within(a: Color, b: Color, c: Color, x: Color, y: Color, z: Color)
  {
    Among(a, x, y, z) && Among(b, x, y, z) && Among(c, x, y, z)
  }

  /** Equal masks mean the first triple lies within the second. */
  lemma MaskEqualWithin(a: Color, b: Color, c: Color, x: Color, y: Color, z: Color)
    requires a < 8 && b < 8 && c < 8 && x < 8 && y < 8 && z < 8
    requires Mask(a, b, c) == Mask(x, y, z)
    ensures Within(a, b, c, x, y, z)
  {
    MaskBit(a, b, c, a); MaskBit(a, b, c, b); MaskBit(a, b, c, c);
    MaskBit(x, y, z, a); MaskBit(x, y, z, b); MaskBit(x, y, z, c);
  }

  /** Triples within each other have the same mask. */
  lemma WithinMaskEqual(a: Color, b: Color, c: Color, x: Color, y: Color, z: Color)
    requires a < 8 && b < 8 && c < 8 && x < 8 && y < 8 && z < 8
    requires Within(a, b, c, x, y, z) && Within(x, y, z, a, b, c)
    ensures Mask(a, b, c) == Mask(x, y, z)
  {
    MaskAbsorbs(a, x, y, z); MaskAbsorbs(b, x, y, z); MaskAbsorbs(c, x, y, z);
    MaskAbsorbs(x, a, b, c); MaskAbsorbs(y, a, b, c); MaskAbsorbs(z, a, b, c);
    assert Mask(a, b, c) | Mask(x, y, z) == Mask(x, y, z);
    assert Mask(x, y, z) | Mask(a, b, c) == Mask(a, b, c);
  }

  /** A triple that lies within another has a smaller set. */
  lemma WithinSubset(a: Color, b: Color, c: Color, x: Color, y: Color, z: Color)
    requires Within(a, b, c, x, y, z)
    ensures {a, b, c} <= {x, y, z}
  {
  }

  /** A triple whose set is contained in another's lies within it. */
  lemma SubsetWithin(a: Color, b: Color, c: Color, x: Color, y: Color, z: Color)
    requires {a, b, c} <= {x, y, z}
    ensures Within(a, b, c, x, y, z)
  {
    assert a in {x, y, z} && b in {x, y, z} && c in {x, y, z};
  }

  /** Two masks agree exactly when the two triples hold the same set of colours. */
  lemma MaskEqual(a: Color, b: Color, c: Color, x: Color, y: Color, z: Color)
    requires a < 8 && b < 8 && c < 8 && x < 8 && y < 8 && z < 8
    ensures Mask(a, b, c) == Mask(x, y, z) <==> {a, b, c} == {x, y, z}
  {
    if Mask(a, b, c) == Mask(x, y, z) {
      MaskEqualWithin(a, b, c, x, y, z);
      MaskEqualWithin(x, y, z, a, b, c);
      WithinSubset(a, b, c, x, y, z);
      WithinSubset(x, y, z, a, b, c);
    }
    if {a, b, c} == {x, y, z} {
      SubsetWithin(a, b, c, x, y, z);
      SubsetWithin(x, y, z, a, b, c);
      WithinMaskEqual(a, b, c, x, y, z);
    }
  }

  /**
   * `match_corner`: the three stored colours and the three expected ones
   * give the same mask of set bits. The source shifts a 32-bit `1`, so an
   * expected colour must be below 32; stored colours are below 8.
   */
  predicate MatchCorner(w: Words, color1: Face, color2: Face, color3: Face,
                        index1: Slot, index2: Slot, index3: Slot,
                        value1: Color, value2: Color, value3: Color)
    requires value1 < 32 && value2 < 32 && value3 < 32
  {
    Mask(Get(w, color1, index1), Get(w, color2, index2), Get(w, color3, index3)) == Mask(value1, value2, value3)
  }

  /**
   * A corner matches exactly when the set of its three stored colours is the
   * expected set, whichever slot holds which colour.
   */
  lemma MatchCornerSets(w: Words, color1: Face, color2: Face, color3: Face,
                        index1: Slot, index2: Slot, index3: Slot,
                        value1: Color, value2: Color, value3: Color)
    requires value1 < 8 && value2 < 8 && value3 < 8
    ensures MatchCorner(w, color1, color2, color3, index1, index2, index3, value1, value2, value3) <==>
      {Get(w, color1, index1), Get(w, color2, index2), Get(w, color3, index3)} == {value1, value2, value3}
  {
    MaskEqual(Get(w, color1, index1), Get(w, color2, index2), Get(w, color3, index3), value1, value2, value3);
  }

  /** `gmask`: the colour bits of the bottom row (BR, BM, BL) of a face. */
  const GMASK: bv32 := 0x0777_0000

  /**
   * `ending_condition`: the yellow word is exactly the solved one, green's
   * bottom row is green, and the three corners hold their colour sets.
   */
  predicate EndingCondition(w: Words)
  {
    w[YELLOW] == IDENTITY[YELLOW]
    && w[GREEN] & GMASK == IDENTITY[GREEN] & GMASK
    && MatchCorner(w, GREEN, WHITE, ORANGE, TL, TL, BR, ColorOf(RED), ColorOf(GREEN), ColorOf(WHITE))
    && MatchCorner(w, GREEN, WHITE, RED, TR, BL, TR, ColorOf(BLUE), ColorOf(RED), ColorOf(WHITE))
    && MatchCorner(w, RED, BLUE, WHITE, BR, BR, BR, ColorOf(ORANGE), ColorOf(GREEN), ColorOf(WHITE))
  }

  /** A word equals the solved yellow word exactly when its reserved bits are clear and every slot holds yellow. */
  lemma YellowWord(x: bv32)
    ensures x == IDENTITY[YELLOW] <==> Reserved(x) == 0 && forall i: Slot :: Nibble(x, i) == ColorOf(YELLOW)
  {
    IdentityStickers();
    assert forall i: Slot :: Nibble(IDENTITY[YELLOW], i) == Get(IDENTITY, YELLOW, i);
    if Reserved(x) == 0 && forall i: Slot :: Nibble(x, i) == ColorOf(YELLOW) {
      WordExtensional(x, IDENTITY[YELLOW]);
    }
  }

  /** The green mask test holds exactly when the bottom row BR, BM, BL holds green. */
  lemma GreenRow(x: bv32)
    ensures x & GMASK == IDENTITY[GREEN] & GMASK <==>
      Nibble(x, BR) == ColorOf(GREEN) && Nibble(x, BM) == ColorOf(GREEN) && Nibble(x, BL) == ColorOf(GREEN)
  {
  }

  /** What `ending_condition` asks of the stickers. */
  lemma EndingConditionMeaning(w: Words)
    ensures EndingCondition(w) <==>
      Reserved(w[YELLOW]) == 0 && (forall i: Slot :: Get(w, YELLOW, i) == ColorOf(YELLOW))
      && Get(w, GREEN, BR) == ColorOf(GREEN) && Get(w, GREEN, BM) == ColorOf(GREEN) && Get(w, GREEN, BL) == ColorOf(GREEN)
      && {Get(w, GREEN, TL), Get(w, WHITE, TL), Get(w, ORANGE, BR)} == {ColorOf(RED), ColorOf(GREEN), ColorOf(WHITE)}
      && {Get(w, GREEN, TR), Get(w, WHITE, BL), Get(w, RED, TR)} == {ColorOf(BLUE), ColorOf(RED), ColorOf(WHITE)}
      && {Get(w, RED, BR), Get(w, BLUE, BR), Get(w, WHITE, BR)} == {ColorOf(ORANGE), ColorOf(GREEN), ColorOf(WHITE)}
  {
    YellowWord(w[YELLOW]);
    assert forall i: Slot :: Get(w, YELLOW, i) == Nibble(w[YELLOW], i);
    GreenRow(w[GREEN]);
    MatchCornerSets(w, GREEN, WHITE, ORANGE, TL, TL, BR, ColorOf(RED), ColorOf(GREEN), ColorOf(WHITE));
    MatchCornerSets(w, GREEN, WHITE, RED, TR, BL, TR, ColorOf(BLUE), ColorOf(RED), ColorOf(WHITE));
    MatchCornerSets(w, RED, BLUE, WHITE, BR, BR, BR, ColorOf(ORANGE), ColorOf(GREEN), ColorOf(WHITE));
  }

  /**
   * The solved cube is not a goal state: it passes the two word tests
   * trivially, but none of the three corners holds the expected colours.
   */
  lemma IdentityNotGoal()
    ensures !MatchCorner(IDENTITY, GREEN, WHITE, ORANGE, TL, TL, BR, ColorOf(RED), ColorOf(GREEN), ColorOf(WHITE))
    ensures !MatchCorner(IDENTITY, GREEN, WHITE, RED, TR, BL, TR, ColorOf(BLUE), ColorOf(RED), ColorOf(WHITE))
    ensures !MatchCorner(IDENTITY, RED, BLUE, WHITE, BR, BR, BR, ColorOf(ORANGE), ColorOf(GREEN), ColorOf(WHITE))
    ensures !EndingCondition(IDENTITY)
  {
    IdentityStickers();
    MatchCornerSets(IDENTITY, GREEN, WHITE, ORANGE, TL, TL, BR, ColorOf(RED), ColorOf(GREEN), ColorOf(WHITE));
    MatchCornerSets(IDENTITY, GREEN, WHITE, RED, TR, BL, TR, ColorOf(BLUE), ColorOf(RED), ColorOf(WHITE));
    MatchCornerSets(IDENTITY, RED, BLUE, WHITE, BR, BR, BR, ColorOf(ORANGE), ColorOf(GREEN), ColorOf(WHITE));
    assert ColorOf(ORANGE) in {ColorOf(GREEN), ColorOf(WHITE), ColorOf(ORANGE)};
    assert ColorOf(BLUE) !in {ColorOf(GREEN), ColorOf(WHITE), ColorOf(RED)};
    assert ColorOf(ORANGE) !in {ColorOf(RED), ColorOf(BLUE), ColorOf(WHITE)};
  }
}
