/**
 * The packed cube state of main.rs: six 32-bit words, one per face, each
 * holding eight 4-bit nibbles. The nibble of slot `i` sits at bit `4 * i`
 * and carries a colour in its low three bits; bit 3 of every nibble is
 * never written. The centre of a face is not stored at all.
 */
module CubeState {

  /** A face index, which is also the colour of that face's centre. */
  type Face = f: nat | f < 6

  /**
   * One of the eight stored slots of a face (TL .. CL), `u8` in the
   * source; kept as a bit-vector because it only ever scales a shift.
   */
  type Slot = i: bv32 | i < 8

  /**
   * A colour, `u8` in the source. Colours are only stored, compared and
   * shifted into a word, never added, so a 32-bit vector holds them
   * without loss; only values below 8 fit a slot.
   */
  type Color = bv32

  /** The six words of `Cube([u32; 6])`. */
  type Words = w: seq<bv32> | |w| == 6 witness [0, 0, 0, 0, 0, 0]

  // Colours, in face order.
  const WHITE: Face := 0
  const GREEN: Face := 1
  const RED: Face := 2
  const YELLOW: Face := 3
  const BLUE: Face := 4
  const ORANGE: Face := 5

  // Slot indices, clockwise around the face starting top-left.
  const TL: Slot := 0
  const TM: Slot := 1
  const TR: Slot := 2
  const CR: Slot := 3
  const BR: Slot := 4
  const BM: Slot := 5
  const BL: Slot := 6
  const CL: Slot := 7
  /** The centre marker used by the net tables; it is never a stored slot. */
  const CM: bv32 := 0xFF

  /** The solved cube: every sticker of face `f` has colour `f`. */
  const IDENTITY: Words := [0x0000_0000, 0x1111_1111, 0x2222_2222, 0x3333_3333, 0x4444_4444, 0x5555_5555]

  /** A sticker position: one slot of one face. */
  datatype Cell = Cell(face: Face, slot: Slot)

  /** The colour a face index stands for. */
  function ColorOf(f: Face): (c: Color)
    ensures c < 6 && c as nat == f
  {
    f as bv32
  }

  /** The three colour bits of slot `i` of one word. */
  function Nibble(x: bv32, i: Slot): bv32
  {
    (x >> (i * 4)) & 7
  }

  /** `get_square`: the colour stored at slot `index` of `face`. */
  function Get(w: Words, face: Face, index: Slot): (r: Color)
    ensures r < 8
  {
    Nibble(w[face], index)
  }

  /** The colour of one cell. */
  function Sticker(w: Words, c: Cell): Color
  {
    Get(w, c.face, c.slot)
  }

  /** Bit 3 of every nibble: the bits no operation writes. */
  function Reserved(x: bv32): bv32
  {
    x & 0x8888_8888
  }

  /** The representation invariant: bit 3 of every nibble of every face is zero. */
  predicate Canonical(w: Words)
  {
    forall f: Face :: Reserved(w[f]) == 0
  }

  /** The two states agree on every bit that no operation writes. */
  predicate SameReserved(w: Words, v: Words)
  {
    forall f: Face :: Reserved(w[f]) == Reserved(v[f])
  }

  /** Canonical, and every stored colour is one of the six colours. */
  ghost predicate WellFormed(w: Words)
  {
    Canonical(w) && forall c: Cell :: Sticker(w, c) < 6
  }

  /**
   * The word `set_square` computes: the low three bits of the nibble are
   * cleared and `value` is ORed in, unmasked.
   */
  function Put(x: bv32, index: Slot, value: Color): bv32
  {
    (x & !(7 << (index * 4))) | (value << (index * 4))
  }

  /** `set_square`: overwrites slot `index` of `face`; `value` must fit three bits. */
  function Set(w: Words, face: Face, index: Slot, value: Color): Words
    requires value < 8
  {
    w[face := Put(w[face], index, value)]
  }

  lemma PutNibble(x: bv32, index: Slot, value: Color, i: Slot)
    requires value < 8
    ensures Nibble(Put(x, index, value), i) == if i == index then value else Nibble(x, i)
  {
  }

  lemma PutReserved(x: bv32, index: Slot, value: Color)
    requires value < 8
    ensures Reserved(Put(x, index, value)) == Reserved(x)
  {
  }

  /**
   * Reading a cell after `set_square` gives `value` at the written cell and
   * the old colour everywhere else, on every face.
   */
  lemma GetSet(w: Words, face: Face, index: Slot, value: Color, f: Face, i: Slot)
    requires value < 8
    ensures Get(Set(w, face, index, value), f, i) == if f == face && i == index then value else Get(w, f, i)
  {
    if f == face {
      PutNibble(w[face], index, value, i);
    }
  }

  /** The cell-level statement of `GetSet`, for all cells at once. */
  lemma StickersAfterSet(w: Words, face: Face, index: Slot, value: Color)
    requires value < 8
    ensures forall c: Cell ::
      Sticker(Set(w, face, index, value), c) == if c == Cell(face, index) then value else Sticker(w, c)
  {
    forall c: Cell
      ensures Sticker(Set(w, face, index, value), c) == if c == Cell(face, index) then value else Sticker(w, c)
    {
      GetSet(w, face, index, value, c.face, c.slot);
    }
  }

  /**
   * `set_square` never touches bit 3 of a nibble, so it keeps the
   * representation invariant, and keeps a state well formed when the value
   * is a colour.
   */
  lemma SetReserved(w: Words, face: Face, index: Slot, value: Color)
    requires value < 8
    ensures SameReserved(Set(w, face, index, value), w)
    ensures Canonical(w) ==> Canonical(Set(w, face, index, value))
    ensures WellFormed(w) && value < 6 ==> WellFormed(Set(w, face, index, value))
  {
    PutReserved(w[face], index, value);
    StickersAfterSet(w, face, index, value);
  }

  /** A word is determined by its eight nibbles and its reserved bits. */
  lemma WordExtensional(a: bv32, b: bv32)
    requires Reserved(a) == Reserved(b)
    requires forall i: Slot :: Nibble(a, i) == Nibble(b, i)
    ensures a == b
  {
    assert Nibble(a, 0) == Nibble(b, 0) && Nibble(a, 1) == Nibble(b, 1);
    assert Nibble(a, 2) == Nibble(b, 2) && Nibble(a, 3) == Nibble(b, 3);
    assert Nibble(a, 4) == Nibble(b, 4) && Nibble(a, 5) == Nibble(b, 5);
    assert Nibble(a, 6) == Nibble(b, 6) && Nibble(a, 7) == Nibble(b, 7);
  }

  /**
   * Two states with the same colour in every cell and the same reserved
   * bits are the same state; for canonical states the 48 stickers alone are
   * an abstraction that loses nothing.
   */
  lemma Extensional(w: Words, v: Words)
    requires SameReserved(w, v)
    requires forall c: Cell :: Sticker(w, c) == Sticker(v, c)
    ensures w == v
  {
    forall f: Face ensures w[f] == v[f] {
      forall i: Slot ensures Nibble(w[f], i) == Nibble(v[f], i) {
        assert Sticker(w, Cell(f, i)) == Sticker(v, Cell(f, i));
      }
      WordExtensional(w[f], v[f]);
    }
  }

  /** Writing back the colour a slot already holds changes nothing. */
  lemma SetSameValue(w: Words, face: Face, index: Slot)
    ensures Set(w, face, index, Get(w, face, index)) == w
  {
    var r := Set(w, face, index, Get(w, face, index));
    SetReserved(w, face, index, Get(w, face, index));
    StickersAfterSet(w, face, index, Get(w, face, index));
    Extensional(r, w);
  }

  /** A second write to the same slot overrides the first. */
  lemma SetSetSameSlot(w: Words, face: Face, index: Slot, u: Color, v: Color)
    requires u < 8 && v < 8
    ensures Set(Set(w, face, index, u), face, index, v) == Set(w, face, index, v)
  {
    var r1 := Set(Set(w, face, index, u), face, index, v);
    var r2 := Set(w, face, index, v);
    SetReserved(w, face, index, u);
    SetReserved(Set(w, face, index, u), face, index, v);
    SetReserved(w, face, index, v);
    StickersAfterSet(w, face, index, u);
    StickersAfterSet(Set(w, face, index, u), face, index, v);
    StickersAfterSet(w, face, index, v);
    Extensional(r1, r2);
  }

  /** The identity holds colour `f` in every slot of face `f`, and is well formed. */
  lemma IdentityStickers()
    ensures WellFormed(IDENTITY)
    ensures forall f: Face, i: Slot :: Get(IDENTITY, f, i) == ColorOf(f)
  {
    forall f: Face, i: Slot ensures Get(IDENTITY, f, i) == ColorOf(f) {
      assert Nibble(IDENTITY[f], i) == ColorOf(f);
    }
  }
}
