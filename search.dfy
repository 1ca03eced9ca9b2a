/**
 * The depth-bounded search of main.rs. A pure specification walks the same
 * tree of moves in the same order as the source; the two methods that
 * mirror `find_solution` and `check_rotation` over `Cube` objects are proved
 * to return the rendering of what the specification finds.
 */
module Search {
  import opened Wrappers
  import opened CubeState
  import opened Rotation
  import opened Goal
  import opened CubeObject

  /** How many clockwise quarter turns one move makes. */
  type Turns = k: nat | 1 <= k <= 3 witness 1

  /** One step of a solution: `turns` clockwise quarter turns of `face`. */
  datatype Move = Move(face: Face, turns: Turns)

  /** The order in which `find_solution` tries the faces. */
  const ORDER: seq<Face> := [GREEN, BLUE, RED, ORANGE, WHITE, YELLOW]

  /** Where a face stands in `ORDER`. */
  function Position(f: Face): (j: nat)
    ensures j < |ORDER| && ORDER[j] == f
  {
    if f == GREEN then 0 else if f == BLUE then 1 else if f == RED then 2
    else if f == ORANGE then 3 else if f == WHITE then 4 else 5
  }

  /*
   * The search never looks inside a quarter turn or inside the goal test, so
   * its specification takes both as parameters: `turn(w, f)` is one
   * clockwise quarter turn of face `f`, `goal(w)` the goal test. `Solve`
   * plugs in the cube's own.
   */

  /** `k` successive quarter turns of one face. */
  function Repeat(turn: (Words, Face) -> Words, w: Words, face: Face, k: nat): Words
  {
    if k == 0 then w else turn(Repeat(turn, w, face, k - 1), face)
  }

  /** The state reached by making the moves in order. */
  function ApplyMoves(turn: (Words, Face) -> Words, w: Words, ms: seq<Move>): Words
    decreases |ms|
  {
    if ms == [] then w else ApplyMoves(turn, Repeat(turn, w, ms[0].face, ms[0].turns), ms[1..])
  }

  /**
   * `find_solution`: the empty solution if the goal already holds, nothing
   * at depth 0, and otherwise the first solution found over the faces of
   * `ORDER`.
   */
  function Find(turn: (Words, Face) -> Words, goal: Words -> bool, w: Words, depth: nat): (r: Option<seq<Move>>)
    decreases depth, 0
    ensures goal(w) ==> r == Some([])
    ensures depth == 0 ==> (r.Some? <==> goal(w))
  {
    if goal(w) then Some([])
    else if depth == 0 then None
    else TryFaces(turn, goal, w, 0, depth - 1)
  }

  /** The chain of `check_rotation` calls, from the `i`-th face of `ORDER` on. */
  function TryFaces(turn: (Words, Face) -> Words, goal: Words -> bool, w: Words, i: nat, depth: nat): (r: Option<seq<Move>>)
    requires i <= |ORDER|
    decreases depth, 2, |ORDER| - i
  {
    if i == |ORDER| then None
    else match TryTurns(turn, goal, w, ORDER[i], 1, depth)
      case Some(ms) => Some(ms)
      case None => TryFaces(turn, goal, w, i + 1, depth)
  }

  /**
   * `check_rotation` from the `k`-th turn on: search below the state `k`
   * quarter turns of `face` away, then try the next number of turns; after
   * the third there is none left.
   */
  function TryTurns(turn: (Words, Face) -> Words, goal: Words -> bool, w: Words, face: Face, k: nat, depth: nat): (r: Option<seq<Move>>)
    requires 1 <= k <= 4
    decreases depth, 1, 4 - k
  {
    if k == 4 then None
    else match Find(turn, goal, Repeat(turn, w, face, k), depth)
      case Some(ms) => Some([Move(face, k)] + ms)
      case None => TryTurns(turn, goal, w, face, k + 1, depth)
  }

  /**
   * Soundness: whatever the search returns is a solution of at most `depth`
   * moves that reaches the goal.
   */
  lemma {:induction false} FindSound(turn: (Words, Face) -> Words, goal: Words -> bool, w: Words, depth: nat)
    ensures Find(turn, goal, w, depth).Some? ==>
      |Find(turn, goal, w, depth).value| <= depth && goal(ApplyMoves(turn, w, Find(turn, goal, w, depth).value))
    decreases depth, 0
  {
    if !goal(w) && depth > 0 {
      TryFacesSound(turn, goal, w, 0, depth - 1);
    }
  }

  /** Soundness of the chain of faces: a solution of one to `depth + 1` moves. */
  lemma {:induction false} TryFacesSound(turn: (Words, Face) -> Words, goal: Words -> bool, w: Words, i: nat, depth: nat)
    requires i <= |ORDER|
    ensures TryFaces(turn, goal, w, i, depth).Some? ==>
      1 <= |TryFaces(turn, goal, w, i, depth).value| <= depth + 1 && goal(ApplyMoves(turn, w, TryFaces(turn, goal, w, i, depth).value))
    decreases depth, 2, |ORDER| - i
  {
    if i < |ORDER| {
      TryTurnsSound(turn, goal, w, ORDER[i], 1, depth);
      TryFacesSound(turn, goal, w, i + 1, depth);
    }
  }

  /**
   * Soundness of one `check_rotation` from the `k`-th turn on: the first move
   * turns `face` at least `k` times, and a solution below it follows.
   */
  lemma {:induction false} TryTurnsSound(turn: (Words, Face) -> Words, goal: Words -> bool, w: Words, face: Face, k: nat, depth: nat)
    requires 1 <= k <= 4
    ensures TryTurns(turn, goal, w, face, k, depth).Some? ==>
      var ms := TryTurns(turn, goal, w, face, k, depth).value;
      1 <= |ms| <= depth + 1 && ms[0].face == face && k <= ms[0].turns && goal(ApplyMoves(turn, w, ms))
    decreases depth, 1, 4 - k
  {
    if k < 4 {
      var v := Repeat(turn, w, face, k);
      FindSound(turn, goal, v, depth);
      match Find(turn, goal, v, depth)
      case Some(ms) =>
        var m := [Move(face, k)] + ms;
        assert m[0] == Move(face, k) && m[1..] == ms;
      case None =>
        TryTurnsSound(turn, goal, w, face, k + 1, depth);
    }
  }

  /** A failed chain of faces failed on every face from the `i`-th on. */
  lemma {:induction false} TryFacesNone(turn: (Words, Face) -> Words, goal: Words -> bool, w: Words, i: nat, depth: nat, j: nat)
    requires i <= j < |ORDER| && TryFaces(turn, goal, w, i, depth) == None
    ensures TryTurns(turn, goal, w, ORDER[j], 1, depth) == None
    decreases j - i
  {
    if i < j {
      TryFacesNone(turn, goal, w, i + 1, depth, j);
    }
  }

  /** A failed `check_rotation` failed below every number of turns from `k` on. */
  lemma {:induction false} TryTurnsNone(turn: (Words, Face) -> Words, goal: Words -> bool, w: Words, face: Face, k: nat, depth: nat, j: Turns)
    requires 1 <= k <= j && TryTurns(turn, goal, w, face, k, depth) == None
    ensures Find(turn, goal, Repeat(turn, w, face, j), depth) == None
    decreases 3 - k
  {
    if k < j {
      TryTurnsNone(turn, goal, w, face, k + 1, depth, j);
    }
  }

  /**
   * Completeness: when the search finds nothing, no sequence of at most
   * `depth` moves reaches the goal.
   */
  lemma {:induction false} Completeness(turn: (Words, Face) -> Words, goal: Words -> bool, w: Words, depth: nat, ms: seq<Move>)
    requires Find(turn, goal, w, depth) == None
    requires |ms| <= depth
    ensures !goal(ApplyMoves(turn, w, ms))
    decreases depth
  {
    if ms != [] {
      var m := ms[0];
      TryFacesNone(turn, goal, w, 0, depth - 1, Position(m.face));
      TryTurnsNone(turn, goal, w, m.face, 1, depth - 1, m.turns);
      Completeness(turn, goal, Repeat(turn, w, m.face, m.turns), depth - 1, ms[1..]);
    }
  }

  /** A search that fails at some depth fails at every smaller depth. */
  lemma DepthMonotone(turn: (Words, Face) -> Words, goal: Words -> bool, w: Words, depth: nat, smaller: nat)
    requires Find(turn, goal, w, depth) == None && smaller <= depth
    ensures Find(turn, goal, w, smaller) == None
  {
    if Find(turn, goal, w, smaller).Some? {
      FindSound(turn, goal, w, smaller);
      Completeness(turn, goal, w, depth, Find(turn, goal, w, smaller).value);
    }
  }

  /** `Repeat` depends on the quarter turn only through its values. */
  lemma {:induction false} RepeatPointwise(t1: (Words, Face) -> Words, t2: (Words, Face) -> Words, w: Words, face: Face, k: nat)
    requires forall v: Words, f: Face :: t1(v, f) == t2(v, f)
    ensures Repeat(t1, w, face, k) == Repeat(t2, w, face, k)
  {
    if k > 0 {
      RepeatPointwise(t1, t2, w, face, k - 1);
    }
  }

  /** The search depends on the quarter turn and the goal only through their values. */
  lemma {:induction false} FindPointwise(t1: (Words, Face) -> Words, g1: Words -> bool, t2: (Words, Face) -> Words, g2: Words -> bool, w: Words, depth: nat)
    requires forall v: Words, f: Face :: t1(v, f) == t2(v, f)
    requires forall v: Words :: g1(v) == g2(v)
    ensures Find(t1, g1, w, depth) == Find(t2, g2, w, depth)
    decreases depth, 0
  {
    if !g1(w) && depth > 0 {
      TryFacesPointwise(t1, g1, t2, g2, w, 0, depth - 1);
    }
  }

  lemma {:induction false} TryFacesPointwise(t1: (Words, Face) -> Words, g1: Words -> bool, t2: (Words, Face) -> Words, g2: Words -> bool, w: Words, i: nat, depth: nat)
    requires i <= |ORDER|
    requires forall v: Words, f: Face :: t1(v, f) == t2(v, f)
    requires forall v: Words :: g1(v) == g2(v)
    ensures TryFaces(t1, g1, w, i, depth) == TryFaces(t2, g2, w, i, depth)
    decreases depth, 2, |ORDER| - i
  {
    if i < |ORDER| {
      TryTurnsPointwise(t1, g1, t2, g2, w, ORDER[i], 1, depth);
      TryFacesPointwise(t1, g1, t2, g2, w, i + 1, depth);
    }
  }

  lemma {:induction false} TryTurnsPointwise(t1: (Words, Face) -> Words, g1: Words -> bool, t2: (Words, Face) -> Words, g2: Words -> bool, w: Words, face: Face, k: nat, depth: nat)
    requires 1 <= k <= 4
    requires forall v: Words, f: Face :: t1(v, f) == t2(v, f)
    requires forall v: Words :: g1(v) == g2(v)
    ensures TryTurns(t1, g1, w, face, k, depth) == TryTurns(t2, g2, w, face, k, depth)
    decreases depth, 1, 4 - k
  {
    if k < 4 {
      RepeatPointwise(t1, t2, w, face, k);
      FindPointwise(t1, g1, t2, g2, Repeat(t1, w, face, k), depth);
      TryTurnsPointwise(t1, g1, t2, g2, w, face, k + 1, depth);
    }
  }

  /** The search of main.rs: clockwise quarter turns, `ending_condition` as the goal. */
  function Solve(w: Words, depth: nat): Option<seq<Move>>
  {
    Find(Clockwise, EndingCondition, w, depth)
  }

  /**
   * `turn` is the clockwise quarter turn. The methods below receive the
   * quarter turn and the goal test as ghost parameters tied to the real ones
   * by these two predicates, so that their proofs only ever unfold a quarter
   * turn or a goal test the code itself performs.
   */
  ghost predicate IsClockwise(turn: (Words, Face) -> Words)
  {
    forall v: Words, f: Face {:trigger Clockwise(v, f)} :: turn(v, f) == Clockwise(v, f)
  }

  /** `goal` is `ending_condition`. */
  ghost predicate IsEndingCondition(goal: Words -> bool)
  {
    forall v: Words {:trigger EndingCondition(v)} :: goal(v) == EndingCondition(v)
  }

  /** A search run with the real quarter turn and goal test is `Solve`. */
  lemma SolveAgrees(turn: (Words, Face) -> Words, goal: Words -> bool, w: Words, depth: nat)
    requires IsClockwise(turn) && IsEndingCondition(goal)
    ensures Find(turn, goal, w, depth) == Solve(w, depth)
  {
    forall v: Words, f: Face ensures turn(v, f) == Clockwise(v, f) {
    }
    forall v: Words ensures goal(v) == EndingCondition(v) {
    }
    FindPointwise(turn, goal, Clockwise, EndingCondition, w, depth);
  }

  /** The names of the six colours, in colour order. */
  const NAMES: seq<string> := ["white", "green", "red", "yellow", "blue", "orange"]

  /** `color_to_string`; any value that is not a colour is shown as `???`. */
  function ColorToString(color: Color): string
  {
    if color < 6 then NAMES[color as int] else "???"
  }

  /** `op_to_string`: the operator, the colour's name, a space, then the rest. */
  function OpToString(op: string, color: Color, append: string): string
  {
    op + ColorToString(color) + " " + append
  }

  /** The operator `check_rotation` emits for one, two and three quarter turns. */
  function Symbol(k: Turns): string
  {
    if k == 1 then "-" else if k == 2 then "=" else "+"
  }

  /** The string the search returns for a list of moves. */
  function Render(ms: seq<Move>): string
    decreases |ms|
  {
    if ms == [] then "" else OpToString(Symbol(ms[0].turns), ColorOf(ms[0].face), Render(ms[1..]))
  }

  /** The string form of a search result. */
  function Show(r: Option<seq<Move>>): Option<string>
  {
    match r
    case None => None
    case Some(ms) => Some(Render(ms))
  }

  /** The number of quarter turns an operator stands for. */
  function SymbolTurns(c: char): (r: Option<Turns>)
    ensures r.Some? ==> Symbol(r.value) == [c]
    ensures forall k: Turns :: Symbol(k) == [c] ==> r == Some(k)
  {
    if c == '-' then Some(1) else if c == '=' then Some(2) else if c == '+' then Some(3) else None
  }

  /** The colour whose name begins with `c`. */
  function FaceOfInitial(c: char): (r: Option<Face>)
    ensures r.Some? ==> |ColorToString(ColorOf(r.value))| > 0 && ColorToString(ColorOf(r.value))[0] == c
  {
    if c == 'w' then Some(WHITE) else if c == 'g' then Some(GREEN) else if c == 'r' then Some(RED)
    else if c == 'y' then Some(YELLOW) else if c == 'b' then Some(BLUE) else if c == 'o' then Some(ORANGE)
    else None
  }

  /** Every colour's name is non-empty and its first letter names that colour alone. */
  lemma NameInitial(f: Face)
    ensures |ColorToString(ColorOf(f))| > 0 && FaceOfInitial(ColorToString(ColorOf(f))[0]) == Some(f)
  {
    if f == WHITE { assert ColorToString(ColorOf(f)) == "white"; }
    else if f == GREEN { assert ColorToString(ColorOf(f)) == "green"; }
    else if f == RED { assert ColorToString(ColorOf(f)) == "red"; }
    else if f == YELLOW { assert ColorToString(ColorOf(f)) == "yellow"; }
    else if f == BLUE { assert ColorToString(ColorOf(f)) == "blue"; }
    else { assert ColorToString(ColorOf(f)) == "orange"; }
  }

  /**
   * Reads back a string of moves in the form `Render` writes them: an
   * operator, a colour's name, a space, then the rest.
   */
  function ParseMoves(s: string): Option<seq<Move>>
    decreases |s|
  {
    if s == [] then Some([])
    else if |s| < 2 then None
    else match SymbolTurns(s[0])
      case None => None
      case Some(k) =>
        match FaceOfInitial(s[1])
        case None => None
        case Some(f) =>
          var token := ColorToString(ColorOf(f)) + " ";
          if !(token <= s[1..]) then None
          else match ParseMoves(s[1 + |token|..])
            case None => None
            case Some(ms) => Some([Move(f, k)] + ms)
  }

  /** How one rendered move splits into operator, name and rest. */
  lemma Token(op: string, name: string, rest: string)
    requires |op| == 1 && |name| > 0
    ensures var s := op + name + " " + rest;
      |s| >= 2 && s[0] == op[0] && s[1] == name[0] && name + " " <= s[1..] && s[1 + |name + " "|..] == rest
  {
    var s := op + name + " " + rest;
    assert s == op + (name + " " + rest);
    assert s[1..] == name + " " + rest;
    assert (name + " " + rest)[..|name + " "|] == name + " ";
    assert s[1 + |name + " "|..] == (name + " " + rest)[|name + " "|..];
  }

  /** Reading one rendered move, then the rest. */
  lemma ParseStep(m: Move, rest: string)
    ensures ParseMoves(OpToString(Symbol(m.turns), ColorOf(m.face), rest)) ==
      match ParseMoves(rest)
      case None => None
      case Some(ms) => Some([m] + ms)
  {
    var name := ColorToString(ColorOf(m.face));
    NameInitial(m.face);
    Token(Symbol(m.turns), name, rest);
    assert SymbolTurns(Symbol(m.turns)[0]) == Some(m.turns);
  }

  /** Reading the first rendered move of a non-empty list, then the rest. */
  lemma RenderedStep(ms: seq<Move>)
    requires ms != []
    ensures ParseMoves(Render(ms)) ==
      match ParseMoves(Render(ms[1..]))
      case None => None
      case Some(t) => Some([ms[0]] + t)
  {
    ParseStep(ms[0], Render(ms[1..]));
  }

  /** The rendering of a move list reads back as the same list. */
  lemma {:induction false} RenderRoundTrip(ms: seq<Move>)
    ensures ParseMoves(Render(ms)) == Some(ms)
    decreases |ms|
  {
    if ms != [] {
      RenderedStep(ms);
      RenderRoundTrip(ms[1..]);
      assert [ms[0]] + ms[1..] == ms;
    }
  }

  /** One more quarter turn after `k` of them. */
  lemma RepeatNext(turn: (Words, Face) -> Words, w: Words, face: Face, k: nat, v: Words)
    requires v == Repeat(turn, w, face, k)
    ensures Repeat(turn, w, face, k + 1) == turn(v, face)
  {
  }

  /** One step of `TryTurns`, with the turned state given by name. */
  lemma TryTurnsStep(turn: (Words, Face) -> Words, goal: Words -> bool, w: Words, face: Face, k: Turns, depth: nat, v: Words)
    requires v == Repeat(turn, w, face, k)
    ensures TryTurns(turn, goal, w, face, k, depth) ==
      match Find(turn, goal, v, depth)
      case Some(ms) => Some([Move(face, k)] + ms)
      case None => TryTurns(turn, goal, w, face, k + 1, depth)
  {
  }

  /** One step of `Render`. */
  lemma RenderStep(m: Move, ms: seq<Move>)
    ensures Render([m] + ms) == OpToString(Symbol(m.turns), ColorOf(m.face), Render(ms))
  {
    assert ([m] + ms)[1..] == ms;
  }

  /**
   * `check_rotation` over a cube object: a clone of the cube is turned in
   * place once, twice and three times, searching below each; the operator
   * of the result says how many turns were made.
   */
  method CheckRotation(cube: Cube, face: Face, desiredDepth: nat, ghost turn: (Words, Face) -> Words, ghost goal: Words -> bool) returns (r: Option<string>)
    requires cube.Valid() && IsClockwise(turn) && IsEndingCondition(goal)
    ensures r == Show(TryTurns(turn, goal, cube.State(), face, 1, desiredDepth))
    decreases desiredDepth, 1
  {
    ghost var w := cube.State();
    var newCube := new Cube.Clone(cube);
    for k := 1 to 4
      invariant newCube.Valid() && fresh(newCube.words)
      invariant newCube.State() == Repeat(turn, w, face, k - 1)
      invariant Show(TryTurns(turn, goal, w, face, 1, desiredDepth)) == Show(TryTurns(turn, goal, w, face, k, desiredDepth))
    {
      ghost var v := newCube.State();
      newCube.BetterRotate(face, turn);
      RepeatNext(turn, w, face, k - 1, v);
      TryTurnsStep(turn, goal, w, face, k, desiredDepth, newCube.State());
      var sol := FindSolution(newCube, desiredDepth, turn, goal);
      if sol.Some? {
        RenderStep(Move(face, k), Find(turn, goal, newCube.State(), desiredDepth).value);
        return Some(OpToString(Symbol(k), ColorOf(face), sol.value));
      }
    }
    return None;
  }

  /**
   * `find_solution` over a cube object: the goal test, the depth test, then
   * `check_rotation` for each face of `ORDER` in turn. Its result is the
   * rendering of `Solve` (see `SolveAgrees`).
   */
  method FindSolution(cube: Cube, desiredDepth: nat, ghost turn: (Words, Face) -> Words, ghost goal: Words -> bool) returns (r: Option<string>)
    requires cube.Valid() && IsClockwise(turn) && IsEndingCondition(goal)
    ensures r == Show(Find(turn, goal, cube.State(), desiredDepth))
    decreases desiredDepth, 0
  {
    if EndingCondition(cube.State()) {
      return Some("");
    }
    if desiredDepth == 0 {
      return None;
    }
    ghost var w := cube.State();
    for i := 0 to |ORDER|
      invariant Show(TryFaces(turn, goal, w, i, desiredDepth - 1)) == Show(Find(turn, goal, w, desiredDepth))
    {
      var sol := CheckRotation(cube, ORDER[i], desiredDepth - 1, turn, goal);
      if sol.Some? {
        return sol;
      }
    }
    return None;
  }
}
