/**
 * The rotation engine of main.rs: a 4-cycle of cells (`rotate_across_faces`,
 * with `rotate_within_face` as the case of one face) and the quarter turns
 * built from five such cycles. Each turn is modelled as the function on
 * packed words that the in-place methods of `CubeObject.Cube` are proved
 * to compute, together with the map from each cell to the cell its new
 * colour comes from.
 */
module Rotation {
  import opened CubeState

  /** The four cells of one cyclic shift, in the order the source lists them. */
  datatype Cycle = Cycle(c0: Cell, c1: Cell, c2: Cell, c3: Cell)

  /** The four offsets added to the base face. */
  type Offsets = (nat, nat, nat, nat)

  /** The four slots, one per cell. */
  type Indices = (Slot, Slot, Slot, Slot)

  /** `(base_face + offset) % 6`. */
  function FaceAt(base: Face, offset: nat): Face
  {
    (base + offset) % 6
  }

  /** The cells `rotate_across_faces(base, offsets, index)` reads and writes. */
  function AcrossCells(base: Face, offsets: Offsets, index: Indices): Cycle
  {
    Cycle(Cell(FaceAt(base, offsets.0), index.0),
          Cell(FaceAt(base, offsets.1), index.1),
          Cell(FaceAt(base, offsets.2), index.2),
          Cell(FaceAt(base, offsets.3), index.3))
  }

  predicate Distinct(k: Cycle)
  {
    k.c0 != k.c1 && k.c0 != k.c2 && k.c0 != k.c3 &&
    k.c1 != k.c2 && k.c1 != k.c3 && k.c2 != k.c3
  }

  predicate InCycle(k: Cycle, c: Cell)
  {
    c == k.c0 || c == k.c1 || c == k.c2 || c == k.c3
  }

  /** The cell whose old colour cell `c` holds after the shift of `k`. */
  function From(k: Cycle, c: Cell): Cell
  {
    if c == k.c0 then k.c3
    else if c == k.c1 then k.c0
    else if c == k.c2 then k.c1
    else if c == k.c3 then k.c2
    else c
  }

  /** The cell whose old colour cell `c` holds after the shift of `k` is undone. */
  function Back(k: Cycle, c: Cell): Cell
  {
    if c == k.c3 then k.c0
    else if c == k.c0 then k.c1
    else if c == k.c1 then k.c2
    else if c == k.c2 then k.c3
    else c
  }

  /**
   * `rotate_across_faces`: all four colours are read first, then cell 0
   * receives the old colour of cell 3, cell 1 that of cell 0, cell 2 that
   * of cell 1 and cell 3 that of cell 2.
   */
  function RotateAcross(w: Words, base: Face, offsets: Offsets, index: Indices): Words
  {
    var k := AcrossCells(base, offsets, index);
    var old0, old1, old2, old3 := Sticker(w, k.c0), Sticker(w, k.c1), Sticker(w, k.c2), Sticker(w, k.c3);
    var w0 := Set(w, k.c0.face, k.c0.slot, old3);
    var w1 := Set(w0, k.c1.face, k.c1.slot, old0);
    var w2 := Set(w1, k.c2.face, k.c2.slot, old1);
    Set(w2, k.c3.face, k.c3.slot, old2)
  }

  /** `rotate_within_face`: the cycle with all four offsets zero. */
  function RotateWithin(w: Words, face: Face, index: Indices): Words
  {
    RotateAcross(w, face, (0, 0, 0, 0), index)
  }

  /**
   * What `rotate_across_faces` does to the stickers: no cell outside its
   * cycle changes, and when the four cells are pairwise distinct every cell
   * takes the colour of `From` of itself, so the four named cells shift by
   * one place.
   */
  lemma RotateAcrossStickers(w: Words, base: Face, offsets: Offsets, index: Indices)
    ensures forall c: Cell :: !InCycle(AcrossCells(base, offsets, index), c) ==>
      Sticker(RotateAcross(w, base, offsets, index), c) == Sticker(w, c)
    ensures Distinct(AcrossCells(base, offsets, index)) ==> forall c: Cell ::
      Sticker(RotateAcross(w, base, offsets, index), c) == Sticker(w, From(AcrossCells(base, offsets, index), c))
  {
    var k := AcrossCells(base, offsets, index);
    var old0, old1, old2, old3 := Sticker(w, k.c0), Sticker(w, k.c1), Sticker(w, k.c2), Sticker(w, k.c3);
    var w0 := Set(w, k.c0.face, k.c0.slot, old3);
    var w1 := Set(w0, k.c1.face, k.c1.slot, old0);
    var w2 := Set(w1, k.c2.face, k.c2.slot, old1);
    StickersAfterSet(w, k.c0.face, k.c0.slot, old3);
    StickersAfterSet(w0, k.c1.face, k.c1.slot, old0);
    StickersAfterSet(w1, k.c2.face, k.c2.slot, old1);
    StickersAfterSet(w2, k.c3.face, k.c3.slot, old2);
  }

  /**
   * `rotate_across_faces` only moves colours that are already stored, so it
   * keeps every reserved bit, the representation invariant and
   * well-formedness.
   */
  lemma RotateAcrossReserved(w: Words, base: Face, offsets: Offsets, index: Indices)
    ensures SameReserved(RotateAcross(w, base, offsets, index), w)
    ensures Canonical(w) ==> Canonical(RotateAcross(w, base, offsets, index))
    ensures WellFormed(w) ==> WellFormed(RotateAcross(w, base, offsets, index))
  {
    var k := AcrossCells(base, offsets, index);
    var old0, old1, old2, old3 := Sticker(w, k.c0), Sticker(w, k.c1), Sticker(w, k.c2), Sticker(w, k.c3);
    var w0 := Set(w, k.c0.face, k.c0.slot, old3);
    var w1 := Set(w0, k.c1.face, k.c1.slot, old0);
    var w2 := Set(w1, k.c2.face, k.c2.slot, old1);
    SetReserved(w, k.c0.face, k.c0.slot, old3);
    SetReserved(w0, k.c1.face, k.c1.slot, old0);
    SetReserved(w1, k.c2.face, k.c2.slot, old1);
    SetReserved(w2, k.c3.face, k.c3.slot, old2);
    if WellFormed(w) {
      assert old0 < 6 && old1 < 6 && old2 < 6 && old3 < 6;
    }
  }

  /** The cells of turn `t` of a face, in the order they are shifted. */
  datatype Cycles = Cycles(corners: Cycle, edges: Cycle, row0: Cycle, row1: Cycle, row2: Cycle)

  /**
   * One quarter turn of a face: the corner and edge cycles within the face,
   * then three rows across the four neighbouring faces, all three taken at
   * the same four offsets.
   */
  datatype Turn = Turn(corners: Indices, edges: Indices, offsets: Offsets, rows: (Indices, Indices, Indices))

  /**
   * `rotate_clockwise`. The neighbours are visited at offsets 1, 5, 4, 2
   * from an even face and 1, 2, 4, 5 from an odd one, because the four side
   * faces run in opposite senses seen from the two poles.
   */
  function ClockwiseTurn(face: Face): Turn
  {
    if face % 2 == 0 then
      Turn((TL, TR, BR, BL), (TM, CR, BM, CL), (1, 5, 4, 2), ((TL, TR, BR, TR), (TM, CR, BM, CR), (TR, BR, BL, BR)))
    else
      Turn((TL, TR, BR, BL), (TM, CR, BM, CL), (1, 2, 4, 5), ((TL, BL, BR, BL), (TM, CL, BM, CL), (TR, TL, BL, TL)))
  }

  /**
   * `rotate_counterclockwise`: the within-face cycles run backwards, the two
   * parities exchange their offsets, and the rows are those of the
   * clockwise turn.
   */
  function CounterclockwiseTurn(face: Face): Turn
  {
    if face % 2 == 0 then
      Turn((TR, TL, BL, BR), (TM, CL, BM, CR), (1, 2, 4, 5), ((TL, TR, BR, TR), (TM, CR, BM, CR), (TR, BR, BL, BR)))
    else
      Turn((TR, TL, BL, BR), (TM, CL, BM, CR), (1, 5, 4, 2), ((TL, BL, BR, BL), (TM, CL, BM, CL), (TR, TL, BL, TL)))
  }

  /** The five cycles of turn `t` of `face`. */
  function CyclesOf(face: Face, t: Turn): Cycles
  {
    Cycles(AcrossCells(face, (0, 0, 0, 0), t.corners),
           AcrossCells(face, (0, 0, 0, 0), t.edges),
           AcrossCells(face, t.offsets, t.rows.0),
           AcrossCells(face, t.offsets, t.rows.1),
           AcrossCells(face, t.offsets, t.rows.2))
  }

  /** One `rotate_across_faces` call of a turn: its offsets and its slots. */
  type Step = (Offsets, Indices)

  /** The five calls a turn makes, in order; the first two stay within the face. */
  function Steps(t: Turn): seq<Step>
  {
    [((0, 0, 0, 0), t.corners), ((0, 0, 0, 0), t.edges), (t.offsets, t.rows.0), (t.offsets, t.rows.1), (t.offsets, t.rows.2)]
  }

  /** Makes the calls one after another. */
  function ApplySteps(w: Words, face: Face, steps: seq<Step>): Words
    decreases |steps|
  {
    if steps == [] then w else ApplySteps(RotateAcross(w, face, steps[0].0, steps[0].1), face, steps[1..])
  }

  /** Applies the five cycles of `t`, as the source does. */
  function ApplyTurn(w: Words, face: Face, t: Turn): Words
  {
    ApplySteps(w, face, Steps(t))
  }

  /** A turn is its two cycles within the face followed by its three rows. */
  lemma ApplyTurnStages(w: Words, face: Face, t: Turn)
    ensures ApplyTurn(w, face, t) ==
      RotateAcross(RotateAcross(RotateAcross(RotateWithin(RotateWithin(w, face, t.corners), face, t.edges),
        face, t.offsets, t.rows.0), face, t.offsets, t.rows.1), face, t.offsets, t.rows.2)
  {
    var s: seq<Step> := Steps(t);
    var w1 := RotateWithin(w, face, t.corners);
    var w2 := RotateWithin(w1, face, t.edges);
    var w3 := RotateAcross(w2, face, t.offsets, t.rows.0);
    var w4 := RotateAcross(w3, face, t.offsets, t.rows.1);
    var w5 := RotateAcross(w4, face, t.offsets, t.rows.2);
    assert s[1..][0] == s[1] && s[2..][0] == s[2] && s[3..][0] == s[3] && s[4..][0] == s[4];
    assert s[1..][1..] == s[2..] && s[2..][1..] == s[3..];
    assert s[3..][1..] == s[4..] && s[4..][1..] == s[5..] && s[5..] == [];
    calc {
      ApplySteps(w, face, s);
      ApplySteps(w1, face, s[1..]);
      ApplySteps(w2, face, s[2..]);
      ApplySteps(w3, face, s[3..]);
      ApplySteps(w4, face, s[4..]);
      ApplySteps(w5, face, s[5..]);
    }
  }

  /** The cell whose old colour cell `c` holds after the five cycles of `k`. */
  function Compose(k: Cycles, c: Cell): Cell
  {
    From(k.corners, From(k.edges, From(k.row0, From(k.row1, From(k.row2, c)))))
  }

  /** The clockwise quarter turn of `face` (`rotate_clockwise`, `better_rotate`). */
  function Clockwise(w: Words, face: Face): Words
  {
    ApplyTurn(w, face, ClockwiseTurn(face))
  }

  /** The counter-clockwise quarter turn of `face` (`rotate_counterclockwise`). */
  function Counterclockwise(w: Words, face: Face): Words
  {
    ApplyTurn(w, face, CounterclockwiseTurn(face))
  }

  /** `rotate_180`: two clockwise quarter turns. */
  function HalfTurn(w: Words, face: Face): Words
  {
    Clockwise(Clockwise(w, face), face)
  }

  /** The cell whose old colour cell `c` holds after a clockwise turn of `face`. */
  function ClockwiseFrom(face: Face, c: Cell): Cell
  {
    Compose(CyclesOf(face, ClockwiseTurn(face)), c)
  }

  /** The cell whose old colour cell `c` holds after a counter-clockwise turn of `face`. */
  function CounterclockwiseFrom(face: Face, c: Cell): Cell
  {
    Compose(CyclesOf(face, CounterclockwiseTurn(face)), c)
  }

  /** No cell lies in both cycles. */
  predicate Disjoint(k: Cycle, l: Cycle)
  {
    !InCycle(l, k.c0) && !InCycle(l, k.c1) && !InCycle(l, k.c2) && !InCycle(l, k.c3)
  }

  predicate InAny(k: Cycles, c: Cell)
  {
    InCycle(k.corners, c) || InCycle(k.edges, c) || InCycle(k.row0, c) || InCycle(k.row1, c) || InCycle(k.row2, c)
  }

  /** Every cycle has four distinct cells and no two cycles share a cell. */
  predicate Separate(k: Cycles)
  {
    Distinct(k.corners) && Distinct(k.edges) && Distinct(k.row0) && Distinct(k.row1) && Distinct(k.row2) &&
    Disjoint(k.corners, k.edges) && Disjoint(k.corners, k.row0) && Disjoint(k.corners, k.row1) &&
    Disjoint(k.corners, k.row2) && Disjoint(k.edges, k.row0) && Disjoint(k.edges, k.row1) &&
    Disjoint(k.edges, k.row2) && Disjoint(k.row0, k.row1) && Disjoint(k.row0, k.row2) && Disjoint(k.row1, k.row2)
  }

  /** `l` walks the four cells of `k` in the opposite direction. */
  predicate Reverses(l: Cycle, k: Cycle)
  {
    Distinct(k) && Distinct(l) &&
    InCycle(k, l.c0) && InCycle(k, l.c1) && InCycle(k, l.c2) && InCycle(k, l.c3) &&
    Back(k, l.c0) == l.c3 && Back(k, l.c1) == l.c0 && Back(k, l.c2) == l.c1 && Back(k, l.c3) == l.c2
  }

  /** Each cycle of `l` walks the matching cycle of `k` backwards. */
  predicate ReversesAll(l: Cycles, k: Cycles)
  {
    Reverses(l.corners, k.corners) && Reverses(l.edges, k.edges) && Reverses(l.row0, k.row0) &&
    Reverses(l.row1, k.row1) && Reverses(l.row2, k.row2)
  }

  /** Pairwise different offsets below 6 reach pairwise different faces. */
  lemma FaceAtInjective(base: Face, o: nat, p: nat)
    requires o < 6 && p < 6 && o != p
    ensures FaceAt(base, o) != FaceAt(base, p)
  {
    assert FaceAt(base, o) == if base + o < 6 then base + o else base + o - 6;
    assert FaceAt(base, p) == if base + p < 6 then base + p else base + p - 6;
  }

  predicate DistinctOffsets(o: Offsets)
  {
    o.0 < 6 && o.1 < 6 && o.2 < 6 && o.3 < 6 &&
    o.0 != o.1 && o.0 != o.2 && o.0 != o.3 && o.1 != o.2 && o.1 != o.3 && o.2 != o.3
  }

  /** A row over four different neighbouring faces has four distinct cells. */
  lemma RowDistinct(base: Face, o: Offsets, i: Indices)
    requires DistinctOffsets(o)
    ensures Distinct(AcrossCells(base, o, i))
  {
    FaceAtInjective(base, o.0, o.1); FaceAtInjective(base, o.0, o.2); FaceAtInjective(base, o.0, o.3);
    FaceAtInjective(base, o.1, o.2); FaceAtInjective(base, o.1, o.3); FaceAtInjective(base, o.2, o.3);
  }

  /** Two rows over the same faces that differ in every slot share no cell. */
  lemma RowsDisjoint(base: Face, o: Offsets, i: Indices, j: Indices)
    requires DistinctOffsets(o)
    requires i.0 != j.0 && i.1 != j.1 && i.2 != j.2 && i.3 != j.3
    ensures Disjoint(AcrossCells(base, o, i), AcrossCells(base, o, j))
  {
    FaceAtInjective(base, o.0, o.1); FaceAtInjective(base, o.0, o.2); FaceAtInjective(base, o.0, o.3);
    FaceAtInjective(base, o.1, o.2); FaceAtInjective(base, o.1, o.3); FaceAtInjective(base, o.2, o.3);
    FaceAtInjective(base, o.1, o.0); FaceAtInjective(base, o.2, o.0); FaceAtInjective(base, o.3, o.0);
    FaceAtInjective(base, o.2, o.1); FaceAtInjective(base, o.3, o.1); FaceAtInjective(base, o.3, o.2);
  }

  /** A row over the neighbours shares no cell with a cycle within the face. */
  lemma RowOffFace(base: Face, o: Offsets, i: Indices, j: Indices)
    requires DistinctOffsets(o) && o.0 != 0 && o.1 != 0 && o.2 != 0 && o.3 != 0
    ensures Disjoint(AcrossCells(base, (0, 0, 0, 0), j), AcrossCells(base, o, i))
  {
    FaceAtInjective(base, 0, o.0); FaceAtInjective(base, 0, o.1);
    FaceAtInjective(base, 0, o.2); FaceAtInjective(base, 0, o.3);
  }

  /** The rows read backwards, at the offsets read backwards, walk the row backwards. */
  lemma RowReversed(base: Face, o: Offsets, i: Indices)
    requires DistinctOffsets(o)
    ensures Reverses(AcrossCells(base, (o.0, o.3, o.2, o.1), (i.0, i.3, i.2, i.1)), AcrossCells(base, o, i))
  {
    RowDistinct(base, o, i);
    RowDistinct(base, (o.0, o.3, o.2, o.1), (i.0, i.3, i.2, i.1));
  }

  /**
   * The twelve cross-face cells of every turn, with the eight cells of the
   * face itself, are twenty distinct cells, so a quarter turn is a product
   * of five disjoint 4-cycles. The rows lie off the turned face and off the
   * opposite face, and the counter-clockwise turn walks each cycle of the
   * clockwise turn backwards.
   */
  lemma TurnCycles(face: Face)
    ensures Separate(CyclesOf(face, ClockwiseTurn(face)))
    ensures Separate(CyclesOf(face, CounterclockwiseTurn(face)))
    ensures ReversesAll(CyclesOf(face, CounterclockwiseTurn(face)), CyclesOf(face, ClockwiseTurn(face)))
    ensures forall c: Cell :: InAny(CyclesOf(face, ClockwiseTurn(face)), c) ==> c.face != FaceAt(face, 3)
    ensures forall c: Cell :: InAny(CyclesOf(face, CounterclockwiseTurn(face)), c) ==> c.face != FaceAt(face, 3)
  {
    var cw, ccw := ClockwiseTurn(face), CounterclockwiseTurn(face);
    TurnSeparate(face, cw);
    TurnSeparate(face, ccw);
    RowReversed(face, cw.offsets, cw.rows.0);
    RowReversed(face, cw.offsets, cw.rows.1);
    RowReversed(face, cw.offsets, cw.rows.2);
    FaceAtInjective(face, 0, 3);
    FaceAtInjective(face, 1, 3); FaceAtInjective(face, 2, 3);
    FaceAtInjective(face, 4, 3); FaceAtInjective(face, 5, 3);
  }

  /** Both turns of every face have separate cycles. */
  lemma TurnSeparate(face: Face, t: Turn)
    requires t == ClockwiseTurn(face) || t == CounterclockwiseTurn(face)
    ensures Separate(CyclesOf(face, t))
  {
    RowDistinct(face, t.offsets, t.rows.0);
    RowDistinct(face, t.offsets, t.rows.1);
    RowDistinct(face, t.offsets, t.rows.2);
    RowsDisjoint(face, t.offsets, t.rows.0, t.rows.1);
    RowsDisjoint(face, t.offsets, t.rows.0, t.rows.2);
    RowsDisjoint(face, t.offsets, t.rows.1, t.rows.2);
    RowOffFace(face, t.offsets, t.rows.0, t.corners);
    RowOffFace(face, t.offsets, t.rows.1, t.corners);
    RowOffFace(face, t.offsets, t.rows.2, t.corners);
    RowOffFace(face, t.offsets, t.rows.0, t.edges);
    RowOffFace(face, t.offsets, t.rows.1, t.edges);
    RowOffFace(face, t.offsets, t.rows.2, t.edges);
  }

  lemma FromCycle(k: Cycle, c: Cell)
    requires Distinct(k)
    ensures InCycle(k, c) ==> InCycle(k, From(k, c))
    ensures !InCycle(k, c) ==> From(k, c) == c
    ensures From(k, From(k, From(k, From(k, c)))) == c
    ensures Back(k, From(k, c)) == c
  {
  }

  lemma ReversedFrom(l: Cycle, k: Cycle, c: Cell)
    requires Reverses(l, k)
    ensures InCycle(l, c) <==> InCycle(k, c)
    ensures From(l, c) == Back(k, c)
  {
  }

  /**
   * For separate cycles, the composed shift moves a cell only within the one
   * cycle that holds it, exactly as that cycle alone would, and fixes every
   * cell that no cycle holds.
   */
  lemma ComposeAt(k: Cycles, c: Cell)
    requires Separate(k)
    ensures InCycle(k.corners, c) ==> Compose(k, c) == From(k.corners, c)
    ensures InCycle(k.edges, c) ==> Compose(k, c) == From(k.edges, c)
    ensures InCycle(k.row0, c) ==> Compose(k, c) == From(k.row0, c)
    ensures InCycle(k.row1, c) ==> Compose(k, c) == From(k.row1, c)
    ensures InCycle(k.row2, c) ==> Compose(k, c) == From(k.row2, c)
    ensures !InAny(k, c) ==> Compose(k, c) == c
  {
    FromCycle(k.corners, c); FromCycle(k.edges, c); FromCycle(k.row0, c);
    FromCycle(k.row1, c); FromCycle(k.row2, c);
  }

  lemma ClockwiseOrderFourCells(face: Face, c: Cell)
    ensures ClockwiseFrom(face, ClockwiseFrom(face, ClockwiseFrom(face, ClockwiseFrom(face, c)))) == c
  {
    TurnCycles(face);
    var k := CyclesOf(face, ClockwiseTurn(face));
    var c1 := ClockwiseFrom(face, c);
    var c2 := ClockwiseFrom(face, c1);
    var c3 := ClockwiseFrom(face, c2);
    ComposeAt(k, c); ComposeAt(k, c1); ComposeAt(k, c2); ComposeAt(k, c3);
    FromCycle(k.corners, c); FromCycle(k.edges, c); FromCycle(k.row0, c); FromCycle(k.row1, c); FromCycle(k.row2, c);
    FromCycle(k.corners, c1); FromCycle(k.edges, c1); FromCycle(k.row0, c1); FromCycle(k.row1, c1); FromCycle(k.row2, c1);
    FromCycle(k.corners, c2); FromCycle(k.edges, c2); FromCycle(k.row0, c2); FromCycle(k.row1, c2); FromCycle(k.row2, c2);
  }

  lemma InverseCells(face: Face, c: Cell)
    ensures CounterclockwiseFrom(face, ClockwiseFrom(face, c)) == c
    ensures ClockwiseFrom(face, CounterclockwiseFrom(face, c)) == c
  {
    TurnCycles(face);
    var k := CyclesOf(face, ClockwiseTurn(face));
    var l := CyclesOf(face, CounterclockwiseTurn(face));
    var d := ClockwiseFrom(face, c);
    var e := CounterclockwiseFrom(face, c);
    ComposeAt(k, c); ComposeAt(l, d); ComposeAt(l, c); ComposeAt(k, e);
    ReversedFrom(l.corners, k.corners, c); ReversedFrom(l.edges, k.edges, c); ReversedFrom(l.row0, k.row0, c);
    ReversedFrom(l.row1, k.row1, c); ReversedFrom(l.row2, k.row2, c);
    ReversedFrom(l.corners, k.corners, d); ReversedFrom(l.edges, k.edges, d); ReversedFrom(l.row0, k.row0, d);
    ReversedFrom(l.row1, k.row1, d); ReversedFrom(l.row2, k.row2, d);
    FromCycle(k.corners, c); FromCycle(k.edges, c); FromCycle(k.row0, c); FromCycle(k.row1, c); FromCycle(k.row2, c);
  }

  /**
   * On the stickers, a turn whose cycles are separate sends every cell the
   * colour of `Compose` of itself; it keeps the reserved bits, the
   * representation invariant and well-formedness.
   */
  lemma ApplyTurnStickers(w: Words, face: Face, t: Turn)
    requires Separate(CyclesOf(face, t))
    ensures SameReserved(ApplyTurn(w, face, t), w)
    ensures Canonical(w) ==> Canonical(ApplyTurn(w, face, t))
    ensures WellFormed(w) ==> WellFormed(ApplyTurn(w, face, t))
    ensures forall c: Cell :: Sticker(ApplyTurn(w, face, t), c) == Sticker(w, Compose(CyclesOf(face, t), c))
  {
    ApplyTurnStages(w, face, t);
    var w1 := RotateWithin(w, face, t.corners);
    var w2 := RotateWithin(w1, face, t.edges);
    var w3 := RotateAcross(w2, face, t.offsets, t.rows.0);
    var w4 := RotateAcross(w3, face, t.offsets, t.rows.1);
    RotateAcrossStickers(w, face, (0, 0, 0, 0), t.corners);
    RotateAcrossStickers(w1, face, (0, 0, 0, 0), t.edges);
    RotateAcrossStickers(w2, face, t.offsets, t.rows.0);
    RotateAcrossStickers(w3, face, t.offsets, t.rows.1);
    RotateAcrossStickers(w4, face, t.offsets, t.rows.2);
    RotateAcrossReserved(w, face, (0, 0, 0, 0), t.corners);
    RotateAcrossReserved(w1, face, (0, 0, 0, 0), t.edges);
    RotateAcrossReserved(w2, face, t.offsets, t.rows.0);
    RotateAcrossReserved(w3, face, t.offsets, t.rows.1);
    RotateAcrossReserved(w4, face, t.offsets, t.rows.2);
  }

  /**
   * A clockwise turn moves every sticker along `ClockwiseFrom`, and keeps
   * the reserved bits and well-formedness.
   */
  lemma ClockwiseStickers(w: Words, face: Face)
    ensures SameReserved(Clockwise(w, face), w)
    ensures WellFormed(w) ==> WellFormed(Clockwise(w, face))
    ensures forall c: Cell :: Sticker(Clockwise(w, face), c) == Sticker(w, ClockwiseFrom(face, c))
  {
    TurnCycles(face);
    ApplyTurnStickers(w, face, ClockwiseTurn(face));
  }

  /** The same for the counter-clockwise turn and `CounterclockwiseFrom`. */
  lemma CounterclockwiseStickers(w: Words, face: Face)
    ensures SameReserved(Counterclockwise(w, face), w)
    ensures WellFormed(w) ==> WellFormed(Counterclockwise(w, face))
    ensures forall c: Cell :: Sticker(Counterclockwise(w, face), c) == Sticker(w, CounterclockwiseFrom(face, c))
  {
    TurnCycles(face);
    ApplyTurnStickers(w, face, CounterclockwiseTurn(face));
  }

  /** Four clockwise quarter turns of any face restore any state. */
  lemma ClockwiseOrderFour(w: Words, face: Face)
    ensures Clockwise(Clockwise(Clockwise(Clockwise(w, face), face), face), face) == w
  {
    var w1 := Clockwise(w, face);
    var w2 := Clockwise(w1, face);
    var w3 := Clockwise(w2, face);
    var w4 := Clockwise(w3, face);
    ClockwiseStickers(w, face);
    ClockwiseStickers(w1, face);
    ClockwiseStickers(w2, face);
    ClockwiseStickers(w3, face);
    forall c: Cell ensures Sticker(w4, c) == Sticker(w, c) {
      ClockwiseOrderFourCells(face, c);
    }
    Extensional(w4, w);
  }

  /** A counter-clockwise turn undoes a clockwise one of the same face. */
  lemma CounterclockwiseUndoesClockwise(w: Words, face: Face)
    ensures Counterclockwise(Clockwise(w, face), face) == w
  {
    var a := Clockwise(w, face);
    ClockwiseStickers(w, face);
    CounterclockwiseStickers(a, face);
    forall c: Cell ensures Sticker(Counterclockwise(a, face), c) == Sticker(w, c) {
      InverseCells(face, c);
    }
    Extensional(Counterclockwise(a, face), w);
  }

  /** A clockwise turn undoes a counter-clockwise one of the same face. */
  lemma ClockwiseUndoesCounterclockwise(w: Words, face: Face)
    ensures Clockwise(Counterclockwise(w, face), face) == w
  {
    var b := Counterclockwise(w, face);
    CounterclockwiseStickers(w, face);
    ClockwiseStickers(b, face);
    forall c: Cell ensures Sticker(Clockwise(b, face), c) == Sticker(w, c) {
      InverseCells(face, c);
    }
    Extensional(Clockwise(b, face), w);
  }

  /** Three clockwise quarter turns are one counter-clockwise quarter turn. */
  lemma ThreeClockwise(w: Words, face: Face)
    ensures Clockwise(Clockwise(Clockwise(w, face), face), face) == Counterclockwise(w, face)
  {
    var b := Counterclockwise(w, face);
    ClockwiseUndoesCounterclockwise(w, face);
    ClockwiseOrderFour(b, face);
  }

  /**
   * `rotate_180` is two clockwise turns and equally two counter-clockwise
   * turns.
   */
  lemma HalfTurnBothWays(w: Words, face: Face)
    ensures HalfTurn(w, face) == Counterclockwise(Counterclockwise(w, face), face)
  {
    var h := HalfTurn(w, face);
    ThreeClockwise(w, face);
    ThreeClockwise(Counterclockwise(w, face), face);
    ClockwiseOrderFour(h, face);
  }

  /** Turning a face never touches the face opposite it, `(face + 3) % 6`. */
  lemma OppositeFaceUnchanged(w: Words, face: Face)
    ensures Clockwise(w, face)[FaceAt(face, 3)] == w[FaceAt(face, 3)]
    ensures Counterclockwise(w, face)[FaceAt(face, 3)] == w[FaceAt(face, 3)]
  {
    var o := FaceAt(face, 3);
    TurnCycles(face);
    ClockwiseStickers(w, face);
    CounterclockwiseStickers(w, face);
    forall i: Slot
      ensures Nibble(Clockwise(w, face)[o], i) == Nibble(w[o], i)
      ensures Nibble(Counterclockwise(w, face)[o], i) == Nibble(w[o], i)
    {
      ComposeAt(CyclesOf(face, ClockwiseTurn(face)), Cell(o, i));
      ComposeAt(CyclesOf(face, CounterclockwiseTurn(face)), Cell(o, i));
      assert Sticker(Clockwise(w, face), Cell(o, i)) == Sticker(w, Cell(o, i));
      assert Sticker(Counterclockwise(w, face), Cell(o, i)) == Sticker(w, Cell(o, i));
    }
    WordExtensional(Clockwise(w, face)[o], w[o]);
    WordExtensional(Counterclockwise(w, face)[o], w[o]);
  }

  /** Every slot index, as a finite set. */
  const SLOTS: set<Slot> := {TL, TM, TR, CR, BR, BM, BL, CL}

  /** The cells whose sticker has colour `x`. */
  function Colored(w: Words, x: Color): (s: set<Cell>)
    ensures forall c: Cell :: c in s <==> Sticker(w, c) == x
  {
    assert forall i: Slot :: i in SLOTS;
    set f: Face, i: Slot | i in SLOTS && Sticker(w, Cell(f, i)) == x :: Cell(f, i)
  }

  /** How many stickers have colour `x`. */
  function CountColor(w: Words, x: Color): nat
  {
    |Colored(w, x)|
  }

  /** A map on cells with a left inverse sends a finite set to one of the same size. */
  lemma {:induction false} ImageSize(a: set<Cell>, p: Cell -> Cell, q: Cell -> Cell)
    requires forall c: Cell :: q(p(c)) == c
    ensures |set c | c in a :: p(c)| == |a|
    decreases |a|
  {
    if a != {} {
      var x :| x in a;
      var b := a - {x};
      ImageSize(b, p, q);
      assert (set c | c in a :: p(c)) == (set c | c in b :: p(c)) + {p(x)};
      assert p(x) !in (set c | c in b :: p(c));
    }
  }

  /**
   * Two finite sets that a bijection on cells maps onto each other have the
   * same size.
   */
  lemma PermutedSize(a: set<Cell>, b: set<Cell>, p: Cell -> Cell, q: Cell -> Cell)
    requires forall c: Cell :: q(p(c)) == c && p(q(c)) == c
    requires forall c: Cell :: c in a <==> p(c) in b
    ensures |a| == |b|
  {
    ImageSize(a, p, q);
    assert (set c | c in a :: p(c)) == b by {
      forall d: Cell | d in b ensures d in (set c | c in a :: p(c)) {
        assert p(q(d)) == d;
      }
    }
  }

  /** A clockwise turn keeps the number of stickers of every colour. */
  lemma ClockwiseKeepsCounts(w: Words, face: Face, x: Color)
    ensures CountColor(Clockwise(w, face), x) == CountColor(w, x)
  {
    var p := (c: Cell) => ClockwiseFrom(face, c);
    var q := (c: Cell) => CounterclockwiseFrom(face, c);
    forall c: Cell ensures q(p(c)) == c && p(q(c)) == c {
      InverseCells(face, c);
    }
    ClockwiseStickers(w, face);
    PermutedSize(Colored(Clockwise(w, face), x), Colored(w, x), p, q);
  }

  /** A counter-clockwise turn keeps the number of stickers of every colour. */
  lemma CounterclockwiseKeepsCounts(w: Words, face: Face, x: Color)
    ensures CountColor(Counterclockwise(w, face), x) == CountColor(w, x)
  {
    var p := (c: Cell) => CounterclockwiseFrom(face, c);
    var q := (c: Cell) => ClockwiseFrom(face, c);
    forall c: Cell ensures q(p(c)) == c && p(q(c)) == c {
      InverseCells(face, c);
    }
    CounterclockwiseStickers(w, face);
    PermutedSize(Colored(Counterclockwise(w, face), x), Colored(w, x), p, q);
  }
}
