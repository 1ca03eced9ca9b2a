# rubiks_cube in Dafny

A model of the solver in `src/main.rs` of `rubiks_cube`. The solver packs
a 3×3×3 cube into six 32-bit words and turns its faces. It tests a goal
made of a yellow face, a green row and three corners. It searches every
sequence of clockwise quarter turns up to a given depth for a sequence that
reaches the goal. A net decoder reads a cube from 18 three-letter groups.

The model has seven modules, one file each:

- `wrappers.dfy` (`Wrappers`): `Option` and `Result`.
- `state.dfy` (`CubeState`): the packed state as a `seq<bv32>` of length 6.
  It defines the colour and slot constants, `IDENTITY`, and the word-level
  meaning of `get_square` and `set_square`. It also gives the abstract view
  of the state as 48 cells (face, slot) with a colour each, and proves that
  this view plus the never-written bit 3 of every nibble determines the words.
- `rotation.dfy` (`Rotation`): `rotate_across_faces`, `rotate_within_face`,
  the two quarter turns and the half turn, as functions on words. Each turn
  is proved to be a product of five disjoint 4-cycles of cells. From that
  follow the turn algebra, the frame condition on the opposite face, and
  the conservation of colour counts.
- `goal.dfy` (`Goal`): `match_corner` and `ending_condition`, and what
  these bit tests mean as statements about sets of colours.
- `cube.dfy` (`CubeObject`): the `Cube` object. It wraps an
  `array<bv32>` that its methods update in place, as the source's
  `&mut self` methods do. Each method is proved against the corresponding
  function in `Rotation` or `CubeState` (`SetSquare` against `Set`,
  `RotateAcrossFaces` against `RotateAcross`, `RotateClockwise` against
  `Clockwise`, `Rotate180` against `HalfTurn`, and so on).
- `search.dfy` (`Search`): the depth-bounded search.
  - `Find`, `TryFaces` and `TryTurns` are a pure specification that walks
    the tree of moves in the source's order. Their results are lists of
    moves.
  - That specification is proved sound and complete, and renders to the
    source's strings through `Render`. A parser `ParseMoves` reads the
    rendered string back.
  - The methods `FindSolution` and `CheckRotation` work on `Cube` objects
    like the source. `CheckRotation` clones its cube and turns the clone in
    place once, twice and three times, searching after each turn.
    `FindSolution` does not change its cube: it passes it unchanged to
    `CheckRotation` for each face. Both are proved to return the rendering
    of what the specification finds.
- `net.dfy` (`Net`): `char_to_color` and `parse_str`.
  - `ParseFrom` is a fold over the 54 letters of the net.
  - `ParseStr` is the source's nested loop over a `Cube`, proved equal to
    that fold.
  - The fold is proved to fail exactly at the first bad letter, short
    group or wrong centre. On success it fills every stored cell from
    exactly one letter, so the zero start value does not matter.

The goal is not the solved cube:

- The solved cube `IDENTITY` does not satisfy `ending_condition`
  (src/main.rs:211).
  - The first corner test expects the colours {red, green, white}, but the
    identity holds {green, white, orange} there.
  - `Goal.IdentityNotGoal` proves that the identity fails all three corner
    tests.
  - The search therefore does not stop at depth 0 from the identity.

## Model

| member | source | states |
|---|---|---|
| CubeState.ColorOf | src/main.rs:5-11 | each of the six colour constants is the index of its face and is below 6 |
| CubeState.Get | src/main.rs:105-108 | `get_square` returns the three colour bits of the slot, a value below 8 |
| CubeState.Put | src/main.rs:111-116 | definition of the word `set_square` computes; its contract is in `CubeState.PutNibble` and `CubeState.PutReserved` |
| CubeState.Set | src/main.rs:111-116 | definition of `set_square` on the six words; its contract is in `CubeState.GetSet` and `CubeState.SetReserved` |
| CubeState.PutNibble | src/main.rs:111-116 | the word written by `set_square` holds `value` at the written slot and the old colour at the seven other slots |
| CubeState.PutReserved | src/main.rs:113-114 | `set_square` leaves bit 3 of every nibble of the word as it was |
| CubeState.GetSet | src/main.rs:105-116 | reading after `set_square` gives `value` at the written slot and the old colour at every other slot of every face |
| CubeState.StickersAfterSet | src/main.rs:111-116 | `set_square` changes the colour of exactly one cell, to `value` |
| CubeState.SetReserved | src/main.rs:111-116 | `set_square` keeps bit 3 of every nibble zero, and keeps a well-formed state well formed when the value is a colour |
| CubeState.WordExtensional | src/main.rs:105-107 | a word is determined by its eight slots and its bit-3 nibble bits |
| CubeState.Extensional | src/main.rs:59-60 | two states that agree on all 48 cells and on the bit-3 bits are equal |
| CubeState.SetSameValue | src/main.rs:111-116 | writing back the colour a slot holds leaves the state unchanged |
| CubeState.SetSetSameSlot | src/main.rs:111-116 | a second `set_square` of the same slot overrides the first |
| CubeState.IdentityStickers | src/main.rs:23 | `IDENTITY` is well formed and holds colour `f` in every slot of face `f` |
| Rotation.RotateAcross | src/main.rs:118-131 | definition of `rotate_across_faces`; its contract is in `Rotation.RotateAcrossStickers` and `Rotation.RotateAcrossReserved` |
| Rotation.RotateWithin | src/main.rs:133-135 | definition of `rotate_within_face` as the zero-offset call; its contract is in `Rotation.RotateAcrossStickers` |
| Rotation.ClockwiseTurn | src/main.rs:137-157 | definition of the five calls of `rotate_clockwise`, by the parity of the face; its contract is in `Rotation.TurnCycles` |
| Rotation.Clockwise | src/main.rs:137-157 | definition of `rotate_clockwise`; its contract is in `Rotation.ClockwiseStickers` and `Rotation.ClockwiseOrderFour` |
| Rotation.CounterclockwiseTurn | src/main.rs:159-179 | definition of the five calls of `rotate_counterclockwise`, by the parity of the face; its contract is in `Rotation.TurnCycles` |
| Rotation.Counterclockwise | src/main.rs:159-179 | definition of `rotate_counterclockwise`; its contract is in `Rotation.CounterclockwiseStickers` and `Rotation.CounterclockwiseUndoesClockwise` |
| Rotation.HalfTurn | src/main.rs:181-184 | definition of `rotate_180`; its contract is in `Rotation.HalfTurnBothWays` |
| Rotation.RotateAcrossStickers | src/main.rs:118-131 | when the four cells differ, each cell of the cycle gets the old colour of its predecessor (0←3, 1←0, 2←1, 3←2); every other cell is unchanged |
| Rotation.RotateAcrossReserved | src/main.rs:118-131 | `rotate_across_faces` keeps bit 3 of every nibble and keeps a well-formed state well formed |
| Rotation.ApplyTurnStages | src/main.rs:137-156 | a turn is the two calls to `rotate_within_face` followed by the three calls to `rotate_across_faces`, in the source's order |
| Rotation.FaceAtInjective | src/main.rs:119-122 | `(base + o) % 6` gives different faces for different offsets below 6 |
| Rotation.RowDistinct | src/main.rs:118-131 | a cross-face cycle over four different offsets has four distinct cells |
| Rotation.RowsDisjoint | src/main.rs:148-155 | two rows at the same offsets with different slots share no cell |
| Rotation.RowOffFace | src/main.rs:146-156 | a row at non-zero offsets shares no cell with a cycle on the turned face |
| Rotation.RowReversed | src/main.rs:148-177 | swapping the order of the offsets and slots walks the same four cells backwards |
| Rotation.TurnCycles | src/main.rs:137-179 | in both parity branches of both turns, the five cycles have four distinct cells each, share no cell, and miss face `(f + 3) % 6`; each counter-clockwise cycle walks a clockwise one backwards |
| Rotation.TurnSeparate | src/main.rs:137-179 | the cycles of either turn of any face are pairwise disjoint 4-cycles |
| Rotation.FromCycle | src/main.rs:118-131 | a 4-cycle moves its own cells among themselves, fixes all other cells, has order four, and is undone by its reverse |
| Rotation.ReversedFrom | src/main.rs:159-179 | a reversed cycle has the same cells and moves each one back |
| Rotation.ComposeAt | src/main.rs:146-156 | on a product of disjoint cycles, each cell is moved by its own cycle alone |
| Rotation.ClockwiseOrderFourCells | src/main.rs:137-157 | four clockwise turns bring every cell back to its place |
| Rotation.InverseCells | src/main.rs:137-179 | the cell moves of the two quarter turns undo each other |
| Rotation.ApplyTurnStickers | src/main.rs:137-179 | a turn gives every cell the old colour of the cell its cycles move there, and keeps the bit-3 bits and well-formedness |
| Rotation.ClockwiseStickers | src/main.rs:137-157 | the cell-level effect of `rotate_clockwise`, and it keeps well-formedness |
| Rotation.CounterclockwiseStickers | src/main.rs:159-179 | the cell-level effect of `rotate_counterclockwise`, and it keeps well-formedness |
| Rotation.ClockwiseOrderFour | src/main.rs:137-157 | four clockwise turns of a face restore any state, on the words themselves |
| Rotation.CounterclockwiseUndoesClockwise | src/main.rs:137-179 | a counter-clockwise turn undoes a clockwise turn of the same face |
| Rotation.ClockwiseUndoesCounterclockwise | src/main.rs:137-179 | a clockwise turn undoes a counter-clockwise turn of the same face |
| Rotation.ThreeClockwise | src/main.rs:137-179 | three clockwise turns equal one counter-clockwise turn |
| Rotation.HalfTurnBothWays | src/main.rs:181-184 | `rotate_180` equals two counter-clockwise turns |
| Rotation.OppositeFaceUnchanged | src/main.rs:137-179 | neither quarter turn of `f` changes the word of face `(f + 3) % 6` |
| Rotation.Colored | src/main.rs:137-157 | the cells of one colour, exactly: a cell belongs iff its sticker has that colour |
| Rotation.ImageSize | src/main.rs:137-157 | an injective map on cells keeps the size of a set |
| Rotation.PermutedSize | src/main.rs:137-157 | two sets related by a bijection on cells have the same size |
| Rotation.ClockwiseKeepsCounts | src/main.rs:137-157 | `rotate_clockwise` keeps the number of stickers of each colour |
| Rotation.CounterclockwiseKeepsCounts | src/main.rs:159-179 | `rotate_counterclockwise` keeps the number of stickers of each colour |
| Goal.MatchCorner | src/main.rs:192-201 | definition of `match_corner`; its contract is in `Goal.MatchCornerSets` |
| Goal.EndingCondition | src/main.rs:203-214 | definition of `ending_condition`; its contract is in `Goal.EndingConditionMeaning` and `Goal.IdentityNotGoal` |
| Goal.MaskBit | src/main.rs:196-200 | bit `e` of `(1 << a) \| (1 << b) \| (1 << c)` is set iff `e` is one of `a`, `b`, `c` |
| Goal.MaskAbsorbs | src/main.rs:196-200 | ORing in the bit of a colour already in the mask changes nothing |
| Goal.MaskEqualWithin | src/main.rs:196-200 | equal masks mean every colour of one triple occurs in the other |
| Goal.WithinMaskEqual | src/main.rs:196-200 | two triples that each lie within the other have equal masks |
| Goal.WithinSubset | src/main.rs:196-200 | a triple within another is a subset of it |
| Goal.SubsetWithin | src/main.rs:196-200 | a subset of a triple lies within it |
| Goal.MaskEqual | src/main.rs:196-200 | two masks are equal iff the two sets of three colours are equal, whatever the order or repetition |
| Goal.MatchCornerSets | src/main.rs:192-201 | `match_corner` holds iff the set of the three stored colours equals the set of the three expected colours |
| Goal.YellowWord | src/main.rs:208 | the yellow test holds iff every yellow slot is yellow and no bit-3 bit is set |
| Goal.GreenRow | src/main.rs:206-209 | the green test under `gmask` holds iff slots BR, BM and BL of the green face are green |
| Goal.EndingConditionMeaning | src/main.rs:203-214 | `ending_condition` holds iff the yellow face is solid yellow, the bottom green row is green, and the three corners hold the expected colour sets |
| Goal.IdentityNotGoal | src/main.rs:203-214 | `IDENTITY` fails all three corner tests and so is not a goal state |
| CubeObject.Cube.State | src/main.rs:59-60 | the words of the state are the words of the array |
| CubeObject.Cube.constructor | src/main.rs:87 | a new cube holds the given words in a fresh array |
| CubeObject.Cube.Clone | src/main.rs:248 | `clone` copies the state into a fresh array the original does not share |
| CubeObject.Cube.GetSquare | src/main.rs:105-108 | the result is the colour the state holds at the slot, below 8 |
| CubeObject.Cube.SetSquare | src/main.rs:111-116 | the new state is the old state with one slot overwritten |
| CubeObject.Cube.RotateAcrossFaces | src/main.rs:118-131 | the new state is the old one with the four cells cycled |
| CubeObject.Cube.RotateWithinFace | src/main.rs:133-135 | the new state is the old one with four cells of one face cycled |
| CubeObject.Cube.RotateClockwise | src/main.rs:137-157 | the new state is the clockwise turn of the old one; the opposite face is unchanged; every colour count is kept |
| CubeObject.Cube.RotateCounterclockwise | src/main.rs:159-179 | the new state is the counter-clockwise turn of the old one, and a clockwise turn restores the old state |
| CubeObject.Cube.Rotate180 | src/main.rs:181-184 | the new state is two clockwise turns of the old one, which is also two counter-clockwise turns |
| CubeObject.Cube.BetterRotate | src/main.rs:186-188 | the new state is one clockwise turn of the old one |
| Search.Position | src/main.rs:224-241 | every face has a place in the order 1, 4, 2, 5, 0, 3 in which the search tries faces |
| Search.Find | src/main.rs:216-222 | a goal state gives the empty solution at every depth; at depth 0 there is a solution iff the state is a goal |
| Search.TryFaces | src/main.rs:224-243 | definition of the chain of `check_rotation` calls; its contract is in `Search.TryFacesSound` and `Search.TryFacesNone` |
| Search.TryTurns | src/main.rs:247-262 | definition of `check_rotation` on values; its contract is in `Search.TryTurnsSound` and `Search.TryTurnsNone` |
| Search.FindSound | src/main.rs:216-262 | a solution found within `depth` has at most `depth` moves, and applying them reaches the goal |
| Search.TryFacesSound | src/main.rs:224-243 | a solution found by the face chain has between 1 and `depth + 1` moves and reaches the goal |
| Search.TryTurnsSound | src/main.rs:247-262 | a solution found by `check_rotation` starts with its own face and reaches the goal |
| Search.TryFacesNone | src/main.rs:224-243 | when the face chain finds nothing, no face's `check_rotation` finds anything |
| Search.TryTurnsNone | src/main.rs:247-262 | when `check_rotation` finds nothing, no search after 1, 2 or 3 turns finds anything |
| Search.Completeness | src/main.rs:216-262 | when the search finds nothing within `depth`, no sequence of at most `depth` moves reaches the goal |
| Search.DepthMonotone | src/main.rs:216-262 | when the search finds nothing within `depth`, it finds nothing within any smaller depth |
| Search.SolveAgrees | src/main.rs:216-262 | the search over any functions equal to `rotate_clockwise` and `ending_condition` gives the search over the cube's own |
| Search.ColorToString | src/main.rs:25-35 | definition of `color_to_string`; its contract is in `Search.NameInitial` |
| Search.OpToString | src/main.rs:37-44 | definition of `op_to_string`; its contract is in `Search.ParseStep` |
| Search.Symbol | src/main.rs:251-259 | definition of the operators `-`, `=`, `+`; its contract is in `Search.SymbolTurns` |
| Search.Render | src/main.rs:37-44 | definition of the string a list of moves turns into; its contract is in `Search.RenderRoundTrip` |
| Search.SymbolTurns | src/main.rs:251-259 | each of the symbols `-`, `=`, `+` names exactly one turn count |
| Search.FaceOfInitial | src/main.rs:25-35 | a face is read back from the first letter of its colour name |
| Search.NameInitial | src/main.rs:25-35 | the six colour names have distinct first letters, so each name's initial gives its face back |
| Search.Token | src/main.rs:37-44 | the pieces `op_to_string` concatenates can be read back one by one |
| Search.ParseStep | src/main.rs:37-44 | reading a string that starts with one rendered move yields that move followed by whatever the rest reads as |
| Search.RenderedStep | src/main.rs:37-44 | reading the rendering of a non-empty list yields its first move followed by whatever the rest of the rendering reads as |
| Search.RenderRoundTrip | src/main.rs:37-44 | every rendered move list parses back to the same moves, so the rendering loses nothing |
| Search.CheckRotation | src/main.rs:247-262 | the result is the rendering of the specification's `check_rotation` for this state and face |
| Search.FindSolution | src/main.rs:216-244 | the result is the rendering of the specification's search for this state and depth |
| Net.CharToColor | src/main.rs:46-56 | an accepted letter names one of the six colours |
| Net.CharToColorLetters | src/main.rs:46-56 | exactly `w g r y b o` are accepted, each naming its own colour |
| Net.Target | src/main.rs:90-93 | a non-centre letter writes a cell of its group's face |
| Net.WriterWrites | src/main.rs:64-85 | every one of the 48 cells is written by its listed letter position |
| Net.WrittenOnce | src/main.rs:64-85 | every writing letter position is the listed writer of the cell it writes |
| Net.NetInverse | src/main.rs:64-85 | the tables are a bijection between the 48 non-centre letters and the 48 cells |
| Net.Read | src/main.rs:89-96 | definition of the checks on one letter: the index, `char_to_color`, then the centre `assert!`; its contract is in `Net.ParseFromOk` and `Net.ParseFromError` |
| Net.Write | src/main.rs:92-93 | definition of the `set_square` one accepted letter makes; its contract is in `Net.WrittenAt` |
| Net.ParseFrom | src/main.rs:88-98 | definition of the letter-by-letter loop as a fold; its contract is in `Net.ParseFromOk`, `Net.ParseFromError`, `Net.ParseFromReserved` and `Net.ParseFromSticker` |
| Net.Parse | src/main.rs:63-101 | definition of `parse_str` from the all-zero cube, over the tables `COLORS` and `INDICES` (src/main.rs:64-85); its contract is in `Net.ParseAccepts`, `Net.ParseStickers` and `Net.StartIgnored` |
| Net.ParseFromOk | src/main.rs:88-98 | the rest of the parse succeeds iff every later letter is present, a colour letter, and matches its centre where it is one |
| Net.ParseFromError | src/main.rs:88-98 | a failing parse reports the first failing letter after its start, with its reason |
| Net.WrittenAt | src/main.rs:92-96 | one letter changes the colour of at most its own cell and no bit-3 bit |
| Net.ParseFromReserved | src/main.rs:88-98 | a successful parse keeps the bit-3 bits of its start value |
| Net.ParseFromSticker | src/main.rs:88-98 | after a successful parse each cell holds the colour of its writer, or its start colour if its writer came earlier |
| Net.ParseAccepts | src/main.rs:63-101 | `parse_str` succeeds iff every one of the 54 letters passes its check |
| Net.ParseFirstError | src/main.rs:63-101 | a failing `parse_str` reports the first letter that fails, in reading order |
| Net.ParseStickers | src/main.rs:63-101 | a parsed cube is well formed and each cell holds the colour of the one letter that writes it |
| Net.StartIgnored | src/main.rs:87-98 | starting from any state with clear bit-3 bits gives the same result as starting from zero |
| Net.SameFirstError | src/main.rs:88-98 | the error does not depend on the start value |
| Net.SameFill | src/main.rs:88-98 | two successful parses whose start values agree on the bit-3 bits give the same state |
| Net.BadLetterRefused | src/main.rs:46-56 | a letter outside `w o g r b y` makes `parse_str` fail, at that letter or earlier |
| Net.WrongCentreRefused | src/main.rs:92-96 | a centre letter naming another colour than its face makes `parse_str` fail, at that letter or earlier |
| Net.ParseStr | src/main.rs:63-101 | the nested loop over a fresh `Cube` fails with the fold's error, or returns a fresh cube holding the fold's state |

Proof helpers, which model no line of the source by themselves: the
congruence lemmas `Search.RepeatPointwise`, `Search.FindPointwise`,
`Search.TryFacesPointwise` and `Search.TryTurnsPointwise` (the search
depends only on the values of its turn and goal functions); the unfolding
steps `Search.RepeatNext`, `Search.TryTurnsStep`, `Search.RenderStep`,
`Net.StickerStep` and `Net.LetterStep`; and the reading-order facts
`Net.RankBound` and `Net.RankNext`.

## Left out

- `main` (src/main.rs:267-286) is left out, with its timing through
  `Instant` and its printing. The program's clock and output are not modelled.
- Const generics are not modelled: `better_rotate::<face>` and
  `check_rotation::<face>` take the face as an ordinary argument.
- `#[inline]`, the `Debug` output format and the unused `rmask`
  (src/main.rs:207) are left out.
- Running time is not modelled: the search is exponential.
- The six unrolled `check_rotation` calls of `find_solution` are written
  as one loop over `ORDER`. The three unrolled turn-and-search steps of
  `check_rotation` are a loop over the turn count. Both loops make the
  same calls in the same order.
- The rotation functions model `(base_face + offset) % 6` on unbounded
  integers. In the source the sum is a `u8`, but it never exceeds 10.
- Search.FindSolution and Search.CheckRotation take a ghost turn function
  and a ghost goal function.
  - Their preconditions say these functions equal `Clockwise` and
    `EndingCondition` on every state.
  - This lets the recursion through methods be stated against one
    specification.
  - `SolveAgrees` shows the result is the search over the cube's own
    turn and goal.
  - CubeObject.Cube.BetterRotate takes the same ghost turn function.
- `Search.Find` and its companions return lists of moves, not strings.
  `Render` produces the source's strings from them. `ParseMoves` exists
  only to state that rendering loses nothing.
- Search.ColorToString uses a table of the six names instead of a match.
  The results are the same, including `"???"` for any other value.
- The panics of `parse_str` become `Err` values that say where and why:
  - a group shorter than three letters (`chrs[a]` out of bounds);
  - a byte `char_to_color` refuses (its `panic!`);
  - a wrong centre (the `assert!`).
- Net.ParseStr reads the letter before testing for the centre. The source
  calls `char_to_color` in both branches, so the same letters panic.
- Net.ParseFrom takes the two tables as a `Layout` parameter.
  `Net.Parse` fixes it to the source's tables.
- Groups are byte sequences. The UTF-8 decoding of `&str` is not modelled:
  `as_bytes` only exposes the bytes.
- Goal.MaskBit and Goal.MatchCornerSets require colours below 8. The
  source shifts a 32-bit `i32` literal (the unsuffixed `1`) by an
  unchecked `u8`. Only colours below
  8 come out of `get_square`, and the expected colours in
  `ending_condition` are all below 6.
