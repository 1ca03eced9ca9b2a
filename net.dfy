/**
 * `Cube::parse_str`: reads a cube from the 18 three-letter groups of an
 * unfolded net. Each group belongs to one face (`COLORS`) and names, letter
 * by letter, the slots it fills (`INDICES`); a centre letter is not stored
 * but must name the face's own colour. Where the source panics, the model
 * returns an error naming the group and the letter.
 */
module Net {
  import opened Wrappers
  import opened CubeState
  import opened CubeObject

  /** A byte of an input string, `u8` in the source. */
  type Byte = b: nat | b < 256

  /** The 18 groups of the net, `[&str; 18]`, as bytes. */
  type Groups = g: seq<seq<Byte>> | |g| == 18 witness seq(18, _ => [])

  /** One of the 18 groups, and one of its three letters. */
  type Group = s: nat | s < 18
  type Letter = a: nat | a < 3

  /** A position of the net: letter `letter` of group `group`. */
  datatype Position = Position(group: Group, letter: Letter)

  /** Why a net was refused: a panic of the source, with its place. */
  datatype Reason = ShortGroup | BadChar | WrongCentre

  datatype ParseError = ParseError(group: nat, index: nat, reason: Reason)

  /** `char_to_color`: the colour a letter names; any other byte is refused. */
  function CharToColor(chr: Byte): (r: Option<Color>)
    ensures r.Some? ==> r.value < 6
  {
    if chr == 'w' as int then Some(ColorOf(WHITE))
    else if chr == 'o' as int then Some(ColorOf(ORANGE))
    else if chr == 'g' as int then Some(ColorOf(GREEN))
    else if chr == 'r' as int then Some(ColorOf(RED))
    else if chr == 'b' as int then Some(ColorOf(BLUE))
    else if chr == 'y' as int then Some(ColorOf(YELLOW))
    else None
  }

  /** The letter of each colour, in the order of the colours. */
  const LETTERS: seq<Byte> := ['w' as int, 'g' as int, 'r' as int, 'y' as int, 'b' as int, 'o' as int]

  /** Exactly the six letters are accepted, each naming its own colour. */
  lemma CharToColorLetters(chr: Byte)
    ensures forall f: Face :: CharToColor(LETTERS[f]) == Some(ColorOf(f))
    ensures CharToColor(chr).Some? <==> chr in LETTERS
    ensures CharToColor(chr).Some? ==> LETTERS[CharToColor(chr).value as int] == chr
  {
  }

  /** The face each group belongs to. */
  const COLORS: seq<Face> := [
                WHITE,
                WHITE,
                WHITE,
    ORANGE, GREEN, RED, BLUE,
    ORANGE, GREEN, RED, BLUE,
    ORANGE, GREEN, RED, BLUE,
                YELLOW,
                YELLOW,
                YELLOW]

  /** A slot, or `CM` for the centre. */
  type Index = i: bv32 | i < 8 || i == CM

  /** The indices of one group's three letters. */
  type Triple = t: seq<Index> | |t| == 3 witness [CM, CM, CM]

  /** The slots each group fills, left to right; `CM` marks the centre. */
  const INDICES: seq<Triple> := [
                  [TR, CR, BR],
                  [TM, CM, BM],
                  [TL, CL, BL],
    [TR, CR, BR], [TL, TM, TR], [TR, CR, BR], [BR, BM, BL],
    [TM, CM, BM], [CL, CM, CR], [TM, CM, BM], [CR, CM, CL],
    [TL, CL, BL], [BL, BM, BR], [TL, CL, BL], [TR, TM, TL],
                  [BL, CL, TL],
                  [BM, CM, TM],
                  [BR, CR, TR]]

  /**
   * The two tables of `parse_str`: the face of each group and, for each of
   * its three letters, the slot it fills or `CM` for the centre.
   */
  datatype Tables = Tables(colors: seq<Face>, indices: seq<Triple>)

  /** A layout has one entry per group in both tables. */
  type Layout = t: Tables | |t.colors| == 18 && |t.indices| == 18
    witness Tables(seq(18, _ => WHITE), seq(18, _ => [CM, CM, CM]))

  /** The layout of the net `parse_str` reads. */
  const NET: Layout := Tables(COLORS, INDICES)

  /** The cell position `p` writes, or `None` for a centre letter. */
  function Target(l: Layout, p: Position): (r: Option<Cell>)
    ensures r.Some? ==> r.value.face == l.colors[p.group]
  {
    var i := l.indices[p.group][p.letter];
    if i == CM then None else Some(Cell(l.colors[p.group], i))
  }

  /** For every cell, the one position that writes it. */
  const WRITERS: seq<seq<Position>> := [
    [P(2, 0), P(1, 0), P(0, 0), P(0, 1), P(0, 2), P(1, 2), P(2, 2), P(2, 1)],
    [P(4, 0), P(4, 1), P(4, 2), P(8, 2), P(12, 2), P(12, 1), P(12, 0), P(8, 0)],
    [P(13, 0), P(9, 0), P(5, 0), P(5, 1), P(5, 2), P(9, 2), P(13, 2), P(13, 1)],
    [P(15, 2), P(16, 2), P(17, 2), P(17, 1), P(17, 0), P(16, 0), P(15, 0), P(15, 1)],
    [P(14, 2), P(14, 1), P(14, 0), P(10, 0), P(6, 0), P(6, 1), P(6, 2), P(10, 2)],
    [P(11, 0), P(7, 0), P(3, 0), P(3, 1), P(3, 2), P(7, 2), P(11, 2), P(11, 1)]]

  function P(group: Group, letter: Letter): Position
  {
    Position(group, letter)
  }

  /** The position of the net that fills cell `c`. */
  function Writer(c: Cell): Position
  {
    WRITERS[c.face][c.slot]
  }

  /**
   * `writer` names, for every cell, the one position of layout `l` that
   * writes it: the written positions and the cells are in one-to-one
   * correspondence.
   */
  ghost predicate Inverse(l: Layout, writer: Cell -> Position)
  {
    (forall c: Cell :: Target(l, writer(c)) == Some(c)) &&
    (forall p: Position :: Target(l, p).Some? ==> writer(Target(l, p).value) == p)
  }

  /** `WRITERS` undoes `Target` on the net: every cell is written by its writer ... */
  lemma WriterWrites(c: Cell)
    ensures Target(NET, Writer(c)) == Some(c)
  {
    if c.face == WHITE {
    } else if c.face == GREEN {
    } else if c.face == RED {
    } else if c.face == YELLOW {
    } else if c.face == BLUE {
    } else {
    }
  }

  /** ... and by no other position. */
  lemma WrittenOnce(p: Position)
    ensures Target(NET, p).Some? ==> Writer(Target(NET, p).value) == p
  {
    if p.group == 0 {
    } else if p.group == 1 {
    } else if p.group == 2 {
    } else if p.group == 3 {
    } else if p.group == 4 {
    } else if p.group == 5 {
    } else if p.group == 6 {
    } else if p.group == 7 {
    } else if p.group == 8 {
    } else if p.group == 9 {
    } else if p.group == 10 {
    } else if p.group == 11 {
    } else if p.group == 12 {
    } else if p.group == 13 {
    } else if p.group == 14 {
    } else if p.group == 15 {
    } else if p.group == 16 {
    } else {
    }
  }

  /** On the net, the 48 written positions fill the 48 cells one to one, and `Writer` says which fills which. */
  lemma NetInverse()
    ensures Inverse(NET, Writer)
  {
    forall c: Cell ensures Target(NET, Writer(c)) == Some(c) {
      WriterWrites(c);
    }
    forall p: Position ensures Target(NET, p).Some? ==> Writer(Target(NET, p).value) == p {
      WrittenOnce(p);
    }
  }

  /** The order in which `parse_str` visits positions: group by group, letter by letter. */
  function Rank(p: Position): nat
  {
    3 * p.group + p.letter
  }

  /** Every position comes before the end of the net. */
  lemma RankBound(p: Position)
    ensures Rank(p) < 54
  {
  }

  /** No position lies strictly between `here` and the next one. */
  lemma RankNext(here: Position)
    ensures forall q: Position :: Rank(q) >= Rank(here) && q != here ==> Rank(q) >= Rank(here) + 1
  {
  }

  /**
   * What `parse_str` makes of the letter at `p`: its colour, or the panic it
   * causes — the group is too short, the byte is not a colour letter, or it
   * is a centre letter that does not name the group's face.
   */
  function Read(l: Layout, g: Groups, p: Position): Result<Color, ParseError>
  {
    var chrs := g[p.group];
    if p.letter >= |chrs| then Err(ParseError(p.group, p.letter, ShortGroup))
    else match CharToColor(chrs[p.letter])
      case None => Err(ParseError(p.group, p.letter, BadChar))
      case Some(c) =>
        if l.indices[p.group][p.letter] == CM && c != ColorOf(l.colors[p.group])
        then Err(ParseError(p.group, p.letter, WrongCentre))
        else Ok(c)
  }

  /** The effect of one accepted letter: `set_square` on its cell, nothing for a centre. */
  function Write(l: Layout, w: Words, p: Position, c: Color): Words
    requires c < 8
  {
    match Target(l, p)
    case None => w
    case Some(cell) => Set(w, cell.face, cell.slot, c)
  }

  /**
   * The rest of `parse_str` from letter `a` of group `s` on, starting from
   * the words `w`; `a == 3` stands for the end of a group.
   */
  function ParseFrom(l: Layout, w: Words, g: Groups, s: nat, a: nat): Result<Words, ParseError>
    requires s <= 18 && a <= 3 && (s == 18 ==> a == 0)
    decreases |g| - s, 3 - a
  {
    if s == 18 then Ok(w)
    else if a == 3 then ParseFrom(l, w, g, s + 1, 0)
    else match Read(l, g, Position(s, a))
      case Err(e) => Err(e)
      case Ok(c) => ParseFrom(l, Write(l, w, Position(s, a), c), g, s, a + 1)
  }

  /** `Cube::parse_str`, starting from the all-zero cube as the source does. */
  function Parse(g: Groups): Result<Words, ParseError>
  {
    ParseFrom(NET, [0, 0, 0, 0, 0, 0], g, 0, 0)
  }

  /** The rest of a parse succeeds exactly when every letter still to come reads successfully. */
  lemma {:induction false} ParseFromOk(l: Layout, w: Words, g: Groups, s: nat, a: nat)
    requires s <= 18 && a <= 3 && (s == 18 ==> a == 0)
    ensures ParseFrom(l, w, g, s, a).Ok? <==> forall p: Position :: Rank(p) >= 3 * s + a ==> Read(l, g, p).Ok?
    decreases |g| - s, 3 - a
  {
    if s == 18 {
    } else if a == 3 {
      ParseFromOk(l, w, g, s + 1, 0);
    } else {
      var here := Position(s, a);
      var r := Read(l, g, here);
      if r.Ok? {
        var u := Write(l, w, here, r.value);
        assert ParseFrom(l, w, g, s, a) == ParseFrom(l, u, g, s, a + 1);
        ParseFromOk(l, u, g, s, a + 1);
        RankNext(here);
      } else {
        assert ParseFrom(l, w, g, s, a).Err?;
      }
    }
  }

  /** A failing parse reports the first letter still to come that does not read. */
  lemma {:induction false} ParseFromError(l: Layout, w: Words, g: Groups, s: nat, a: nat, e: ParseError)
    requires s <= 18 && a <= 3 && (s == 18 ==> a == 0)
    requires ParseFrom(l, w, g, s, a) == Err(e)
    ensures e.group < 18 && e.index < 3
    ensures var p := Position(e.group, e.index);
      Rank(p) >= 3 * s + a && Read(l, g, p) == Err(e) &&
      forall q: Position :: 3 * s + a <= Rank(q) < Rank(p) ==> Read(l, g, q).Ok?
    decreases |g| - s, 3 - a
  {
    if a == 3 {
      ParseFromError(l, w, g, s + 1, 0, e);
    } else {
      var here := Position(s, a);
      var r := Read(l, g, here);
      if r.Ok? {
        var u := Write(l, w, here, r.value);
        assert ParseFrom(l, w, g, s, a) == ParseFrom(l, u, g, s, a + 1);
        ParseFromError(l, u, g, s, a + 1, e);
        RankNext(here);
      } else {
        assert r == Err(e);
        assert e == ParseError(s, a, e.reason);
      }
    }
  }

  /** One accepted letter sets the cell it targets and leaves every other cell and the reserved bits alone. */
  lemma WrittenAt(l: Layout, w: Words, p: Position, color: Color)
    requires color < 8
    ensures SameReserved(Write(l, w, p, color), w)
    ensures forall c: Cell :: Sticker(Write(l, w, p, color), c) == if Target(l, p) == Some(c) then color else Sticker(w, c)
  {
    match Target(l, p)
    case None =>
    case Some(cell) =>
      SetReserved(w, cell.face, cell.slot, color);
      StickersAfterSet(w, cell.face, cell.slot, color);
  }

  /** A successful rest of a parse leaves the reserved bits as they were. */
  lemma {:induction false} ParseFromReserved(l: Layout, w: Words, g: Groups, s: nat, a: nat, v: Words)
    requires s <= 18 && a <= 3 && (s == 18 ==> a == 0)
    requires ParseFrom(l, w, g, s, a) == Ok(v)
    ensures SameReserved(v, w)
    decreases |g| - s, 3 - a
  {
    if s < 18 && a == 3 {
      ParseFromReserved(l, w, g, s + 1, 0, v);
    } else if s < 18 {
      var here := Position(s, a);
      var u := Write(l, w, here, Read(l, g, here).value);
      assert ParseFrom(l, w, g, s, a) == ParseFrom(l, u, g, s, a + 1);
      ParseFromReserved(l, u, g, s, a + 1, v);
      WrittenAt(l, w, here, Read(l, g, here).value);
    }
  }

  /**
   * A successful rest of a parse leaves a cell whose writer is still to
   * come holding the colour its writer reads, and any other cell as it was.
   */
  lemma {:induction false} ParseFromSticker(l: Layout, writer: Cell -> Position, w: Words, g: Groups, s: nat, a: nat, v: Words, c: Cell)
    requires Inverse(l, writer)
    requires s <= 18 && a <= 3 && (s == 18 ==> a == 0)
    requires ParseFrom(l, w, g, s, a) == Ok(v)
    ensures Rank(writer(c)) >= 3 * s + a ==> Read(l, g, writer(c)) == Ok(Sticker(v, c))
    ensures Rank(writer(c)) < 3 * s + a ==> Sticker(v, c) == Sticker(w, c)
    decreases |g| - s, 3 - a
  {
    if s == 18 {
      RankBound(writer(c));
    } else if a == 3 {
      ParseFromSticker(l, writer, w, g, s + 1, 0, v, c);
    } else {
      var here := Position(s, a);
      var color := Read(l, g, here).value;
      var u := Write(l, w, here, color);
      assert ParseFrom(l, w, g, s, a) == ParseFrom(l, u, g, s, a + 1);
      ParseFromSticker(l, writer, u, g, s, a + 1, v, c);
      WrittenAt(l, w, here, color);
      StickerStep(l, writer, w, u, v, g, here, color, c);
    }
  }

  /** One step of `ParseFromSticker`: the letter at `here` accounts for the cell of that rank. */
  lemma StickerStep(l: Layout, writer: Cell -> Position, w: Words, u: Words, v: Words, g: Groups, here: Position, color: Color, c: Cell)
    requires Inverse(l, writer)
    requires Read(l, g, here) == Ok(color)
    requires Sticker(u, c) == if Target(l, here) == Some(c) then color else Sticker(w, c)
    requires Rank(writer(c)) >= Rank(here) + 1 ==> Read(l, g, writer(c)) == Ok(Sticker(v, c))
    requires Rank(writer(c)) < Rank(here) + 1 ==> Sticker(v, c) == Sticker(u, c)
    ensures Rank(writer(c)) >= Rank(here) ==> Read(l, g, writer(c)) == Ok(Sticker(v, c))
    ensures Rank(writer(c)) < Rank(here) ==> Sticker(v, c) == Sticker(w, c)
  {
    if Rank(writer(c)) == Rank(here) {
      assert writer(c) == here;
    }
  }

  /** A net is accepted exactly when every one of its 54 letters reads successfully. */
  lemma {:induction false} ParseAccepts(g: Groups)
    ensures Parse(g).Ok? <==> forall p: Position :: Read(NET, g, p).Ok?
  {
    ParseFromOk(NET, [0, 0, 0, 0, 0, 0], g, 0, 0);
  }

  /** A refused net is refused for its first letter, in reading order, that does not read. */
  lemma {:induction false} ParseFirstError(g: Groups, e: ParseError)
    requires Parse(g) == Err(e)
    ensures e.group < 18 && e.index < 3
    ensures var p := Position(e.group, e.index);
      Read(NET, g, p) == Err(e) && forall q: Position :: Rank(q) < Rank(p) ==> Read(NET, g, q).Ok?
  {
    ParseFromError(NET, [0, 0, 0, 0, 0, 0], g, 0, 0, e);
  }

  /**
   * An accepted net gives a well-formed cube whose every cell holds the
   * colour named by the one letter that writes it.
   */
  lemma {:induction false} ParseStickers(g: Groups, v: Words)
    requires Parse(g) == Ok(v)
    ensures WellFormed(v)
    ensures forall c: Cell :: Read(NET, g, Writer(c)) == Ok(Sticker(v, c))
  {
    NetInverse();
    forall c: Cell ensures Read(NET, g, Writer(c)) == Ok(Sticker(v, c)) {
      ParseFromSticker(NET, Writer, [0, 0, 0, 0, 0, 0], g, 0, 0, v, c);
    }
    ParseFromReserved(NET, [0, 0, 0, 0, 0, 0], g, 0, 0, v);
  }

  /**
   * Since every slot is written exactly once, the start value does not
   * matter: from any canonical cube the parse gives what it gives from the
   * all-zero cube.
   */
  lemma {:induction false} StartIgnored(w: Words, g: Groups)
    requires Canonical(w)
    ensures ParseFrom(NET, w, g, 0, 0) == Parse(g)
  {
    var zero: Words := [0, 0, 0, 0, 0, 0];
    ParseFromOk(NET, w, g, 0, 0);
    ParseFromOk(NET, zero, g, 0, 0);
    match ParseFrom(NET, w, g, 0, 0)
    case Err(e1) =>
      SameFirstError(w, zero, g, e1, Parse(g).error);
    case Ok(v1) =>
      SameFill(w, zero, g, v1, Parse(g).value);
  }

  /** Two failing parses of one net from any two starts report the same error. */
  lemma SameFirstError(w1: Words, w2: Words, g: Groups, e1: ParseError, e2: ParseError)
    requires ParseFrom(NET, w1, g, 0, 0) == Err(e1) && ParseFrom(NET, w2, g, 0, 0) == Err(e2)
    ensures e1 == e2
  {
    ParseFromError(NET, w1, g, 0, 0, e1);
    ParseFromError(NET, w2, g, 0, 0, e2);
    assert Position(e1.group, e1.index) == Position(e2.group, e2.index);
  }

  /** Two successful parses of one net from starts with the same reserved bits give the same words. */
  lemma SameFill(w1: Words, w2: Words, g: Groups, v1: Words, v2: Words)
    requires SameReserved(w1, w2)
    requires ParseFrom(NET, w1, g, 0, 0) == Ok(v1) && ParseFrom(NET, w2, g, 0, 0) == Ok(v2)
    ensures v1 == v2
  {
    NetInverse();
    forall c: Cell ensures Sticker(v1, c) == Sticker(v2, c) {
      ParseFromSticker(NET, Writer, w1, g, 0, 0, v1, c);
      ParseFromSticker(NET, Writer, w2, g, 0, 0, v2, c);
    }
    ParseFromReserved(NET, w1, g, 0, 0, v1);
    ParseFromReserved(NET, w2, g, 0, 0, v2);
    Extensional(v1, v2);
  }

  /** A byte other than the six colour letters, anywhere in the net, makes the parse fail there or earlier. */
  lemma {:induction false} BadLetterRefused(g: Groups, p: Position)
    requires p.letter < |g[p.group]| && CharToColor(g[p.group][p.letter]).None?
    ensures Parse(g).Err? && 3 * Parse(g).error.group + Parse(g).error.index <= Rank(p)
  {
    ParseAccepts(g);
    assert Read(NET, g, p).Err?;
    ParseFirstError(g, Parse(g).error);
  }

  /** A centre letter naming another colour than its face makes the parse fail there or earlier. */
  lemma {:induction false} WrongCentreRefused(g: Groups, p: Position)
    requires Target(NET, p).None? && p.letter < |g[p.group]|
    requires CharToColor(g[p.group][p.letter]).Some?
    requires CharToColor(g[p.group][p.letter]).value != ColorOf(COLORS[p.group])
    ensures Parse(g).Err? && 3 * Parse(g).error.group + Parse(g).error.index <= Rank(p)
  {
    ParseAccepts(g);
    assert Read(NET, g, p).Err?;
    ParseFirstError(g, Parse(g).error);
  }

  /** One letter of `parse_str`, in the terms of its loop body. */
  lemma LetterStep(w: Words, g: Groups, s: Group, a: Letter)
    ensures ParseFrom(NET, w, g, s, a) ==
      if a >= |g[s]| then Err(ParseError(s, a, ShortGroup))
      else match CharToColor(g[s][a])
        case None => Err(ParseError(s, a, BadChar))
        case Some(c) =>
          if INDICES[s][a] != CM then ParseFrom(NET, Set(w, COLORS[s], INDICES[s][a], c), g, s, a + 1)
          else if c != ColorOf(COLORS[s]) then Err(ParseError(s, a, WrongCentre))
          else ParseFrom(NET, w, g, s, a + 1)
  {
  }

  /**
   * `Cube::parse_str`: fills a fresh all-zero cube letter by letter with
   * `set_square`, checking each centre letter; the first panic of the
   * source is returned as an error. The letter is read before the centre
   * test, which panics in the same cases and order as the source's two
   * branches.
   */
  method ParseStr(g: Groups) returns (r: Result<Cube, ParseError>)
    ensures Parse(g).Err? ==> r == Err(Parse(g).error)
    ensures Parse(g).Ok? ==> r.Ok? && r.value.Valid() && fresh(r.value.words) && r.value.State() == Parse(g).value
  {
    var ret := new Cube([0, 0, 0, 0, 0, 0]);
    for s := 0 to 18
      invariant ret.Valid() && fresh(ret.words)
      invariant ParseFrom(NET, ret.State(), g, s, 0) == Parse(g)
    {
      var chrs := g[s];
      var inds := INDICES[s];
      for a := 0 to 3
        invariant ret.Valid() && fresh(ret.words)
        invariant ParseFrom(NET, ret.State(), g, s, a) == Parse(g)
      {
        LetterStep(ret.State(), g, s, a);
        if a >= |chrs| {
          return Err(ParseError(s, a, ShortGroup));
        }
        var color := CharToColor(chrs[a]);
        if color.None? {
          return Err(ParseError(s, a, BadChar));
        }
        if inds[a] != CM {
          ret.SetSquare(COLORS[s], inds[a], color.value);
        } else if color.value != ColorOf(COLORS[s]) {
          return Err(ParseError(s, a, WrongCentre));
        }
      }
    }
    return Ok(ret);
  }
}
