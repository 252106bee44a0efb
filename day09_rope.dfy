/** Rope bridge of day-09/src/main.rs: the head of a rope moves by unit steps, and
    every following knot, when its predecessor is more than one square away, steps
    one square towards it on each axis that differs; the squares the last knot
    visits are collected. */
module RopeBridge {

  /** `struct Position` (main.rs:9-13). */
  datatype Position = Position(x: int, y: int)

  const Origin := Position(0, 0)

  /** `enum Direction` and `struct Move` (main.rs:15-39). */
  datatype Direction = Up | Down | Left | Right

  datatype Move = Move(direction: Direction, value: int)

  /** `impl Add for Position` (main.rs:74-83): taking away either summand leaves the
      other. */
  function Add(a: Position, b: Position): (r: Position)
    ensures Sub(r, b) == a && Sub(r, a) == b
  {
    Position(a.x + b.x, a.y + b.y)
  }

  /** `impl Sub for Position` (main.rs:85-94): the difference is zero exactly between
      equal positions. */
  function Sub(a: Position, b: Position): (r: Position)
    ensures r == Origin <==> a == b
  {
    Position(a.x - b.x, a.y - b.y)
  }

  /** Subtracting undoes adding. */
  lemma SubAdd(a: Position, b: Position)
    ensures Sub(Add(a, b), b) == a && Add(Sub(a, b), b) == a
  {
  }

  /** `impl From<Move> for Position` (main.rs:51-72): a displacement of `value` along
      the move's axis, positive for right and up, negative for left and down. */
  function FromMove(m: Move): (r: Position)
    ensures m.direction in {Left, Right} ==> r.y == 0
    ensures m.direction in {Up, Down} ==> r.x == 0
    ensures m.direction in {Right, Up} ==> r.x + r.y == m.value
    ensures m.direction in {Left, Down} ==> r.x + r.y == -m.value
  {
    match m.direction
    case Right => Position(m.value, 0)
    case Left => Position(-m.value, 0)
    case Up => Position(0, m.value)
    case Down => Position(0, -m.value)
  }

  /** The displacement of one step in `d`. */
  function Unit(d: Direction): Position {
    FromMove(Move(d, 1))
  }

  function Scale(p: Position, n: int): Position {
    Position(p.x * n, p.y * n)
  }

  /** A move's displacement is `value` times the unit step of its direction: R is +x,
      L is -x, U is +y, D is -y. */
  lemma FromMoveAlongAxis(m: Move)
    ensures FromMove(m) == Scale(Unit(m.direction), m.value)
    ensures Unit(m.direction) in {Position(1, 0), Position(-1, 0), Position(0, 1), Position(0, -1)}
    ensures m.direction == Right ==> FromMove(m).x == m.value && FromMove(m).y == 0
    ensures m.direction == Left ==> FromMove(m).x == -m.value && FromMove(m).y == 0
    ensures m.direction == Up ==> FromMove(m).x == 0 && FromMove(m).y == m.value
    ensures m.direction == Down ==> FromMove(m).x == 0 && FromMove(m).y == -m.value
  {
  }

  // ---------------------------------------------------------------------------
  // `get_path` (main.rs:108-120)
  // ---------------------------------------------------------------------------

  /** The unit steps of a move: `1..value + 1` is empty for a value below 1. */
  function Path(m: Move): (path: seq<Position>)
    ensures |path| == if m.value > 0 then m.value else 0
  {
    seq(if m.value > 0 then m.value else 0, _ => Unit(m.direction))
  }

  /** The `Add`-sum of a list of positions. */
  function SumPositions(ps: seq<Position>): Position {
    if ps == [] then Origin else Add(SumPositions(ps[..|ps| - 1]), ps[|ps| - 1])
  }

  lemma {:induction false} SumConstant(ps: seq<Position>, u: Position)
    requires forall k :: 0 <= k < |ps| ==> ps[k] == u
    ensures SumPositions(ps) == Scale(u, |ps|)
  {
    if ps != [] {
      SumConstant(ps[..|ps| - 1], u);
    }
  }

  /** The steps of a move with a non-negative value add up to its displacement. */
  lemma PathSum(m: Move)
    requires m.value >= 0
    ensures SumPositions(Path(m)) == FromMove(m)
  {
    SumConstant(Path(m), Unit(m.direction));
    FromMoveAlongAxis(m);
  }

  lemma {:induction false} SumConcat(a: seq<Position>, b: seq<Position>)
    ensures SumPositions(a + b) == Add(SumPositions(a), SumPositions(b))
  {
    if b == [] {
      assert a + b == a;
    } else {
      var ab := a + b;
      var init := b[..|b| - 1];
      SumConcat(a, init);
      assert ab[..|ab| - 1] == a + init;
      assert ab[|ab| - 1] == b[|b| - 1];
    }
  }

  /** `get_path` builds its steps one by one. */
  method GetPath(m: Move) returns (path: seq<Position>)
    ensures path == Path(m)
  {
    path := [];
    var n := if m.value > 0 then m.value else 0;
    for i := 0 to n
      invariant path == seq(i, _ => Unit(m.direction))
    {
      path := path + [FromMove(Move(m.direction, 1))];
    }
  }

  // ---------------------------------------------------------------------------
  // Following (main.rs:152-166)
  // ---------------------------------------------------------------------------

  function Abs(v: int): nat {
    if v < 0 then -v else v
  }

  /** `max(diff.x.abs(), diff.y.abs())`. */
  function Chebyshev(d: Position): nat {
    if Abs(d.x) < Abs(d.y) then Abs(d.y) else Abs(d.x)
  }

  /** Rust's `/`, which rounds towards zero. */
  function TruncDiv(a: int, b: int): int
    requires b != 0
  {
    if (a < 0) == (b < 0) then Abs(a) / Abs(b) else -(Abs(a) / Abs(b))
  }

  /** `v.checked_div(v.abs()).unwrap_or(0)`: `None` only for a zero divisor. */
  function CheckedDivAbs(v: int): int {
    if Abs(v) == 0 then 0 else TruncDiv(v, Abs(v))
  }

  function Signum(v: int): int {
    if v > 0 then 1 else if v < 0 then -1 else 0
  }

  /** The checked division computes the sign. */
  lemma CheckedDivIsSignum(v: int)
    ensures CheckedDivAbs(v) == Signum(v)
  {
    if v != 0 {
      assert Abs(v) / Abs(v) == 1;
    }
  }

  /** Where knot `knot` ends when its predecessor is at `lead`: it stays put while
      the two touch, it moves at most one square per axis, and one at most two squares
      from its predecessor ends touching it. */
  function Follow(lead: Position, knot: Position): (r: Position)
    ensures Touching(lead, knot) ==> r == knot
    ensures Touching(r, knot)
    ensures Chebyshev(Sub(lead, knot)) <= 2 ==> Touching(lead, r)
  {
    var diff := Sub(lead, knot);
    CheckedDivIsSignum(diff.x);
    CheckedDivIsSignum(diff.y);
    if Chebyshev(diff) <= 1 then knot
    else Add(knot, Position(CheckedDivAbs(diff.x), CheckedDivAbs(diff.y)))
  }

  /** A knot stays put while its predecessor touches it, and otherwise moves by the
      sign of the difference on each axis. */
  lemma FollowRule(lead: Position, knot: Position)
    ensures var d := Sub(lead, knot);
      Follow(lead, knot) == if Chebyshev(d) <= 1 then knot else Add(knot, Position(Signum(d.x), Signum(d.y)))
  {
    var d := Sub(lead, knot);
    CheckedDivIsSignum(d.x);
    CheckedDivIsSignum(d.y);
  }

  /** The two positions are at most one square apart on each axis. */
  predicate Touching(a: Position, b: Position) {
    Chebyshev(Sub(a, b)) <= 1
  }

  /** The knots after `process_tail` has handled indices `1..n`: each knot follows its
      predecessor's new position. */
  function Pulled(knots: seq<Position>, n: nat): (r: seq<Position>)
    requires n <= |knots|
    ensures |r| == |knots|
  {
    if n <= 1 then knots
    else
      var p := Pulled(knots, n - 1);
      p[n - 1 := Follow(p[n - 2], p[n - 1])]
  }

  /** Handling knot `n` in `process_tail`: it stays where it is while it touches its
      predecessor, and otherwise takes the checked-division step towards it. */
  lemma PulledNext(knots: seq<Position>, n: nat)
    requires 1 <= n < |knots|
    ensures var p := Pulled(knots, n); var diff := Sub(p[n - 1], p[n]);
      Pulled(knots, n + 1) ==
        if Chebyshev(diff) <= 1 then p
        else p[n := Add(p[n], Position(CheckedDivAbs(diff.x), CheckedDivAbs(diff.y)))]
  {
    var p := Pulled(knots, n);
    if Chebyshev(Sub(p[n - 1], p[n])) <= 1 {
      assert p[n := p[n]] == p;
    }
  }

  /** What `process_step` does to the knots: the head takes the step, the rest follow. */
  function StepRope(knots: seq<Position>, step: Position): (r: seq<Position>)
    requires |knots| > 0
    ensures |r| == |knots|
  {
    Pulled(knots[0 := Add(knots[0], step)], |knots|)
  }

  function Last(knots: seq<Position>): Position
    requires |knots| > 0
  {
    knots[|knots| - 1]
  }

  /** The knots after the steps, in order. */
  function RunSteps(knots: seq<Position>, steps: seq<Position>): (r: seq<Position>)
    requires |knots| > 0
    ensures |r| == |knots|
  {
    if steps == [] then knots else StepRope(RunSteps(knots, steps[..|steps| - 1]), steps[|steps| - 1])
  }

  /** The squares the last knot occupies after each of the steps. */
  function Visited(knots: seq<Position>, steps: seq<Position>): set<Position>
    requires |knots| > 0
  {
    if steps == [] then {} else Visited(knots, steps[..|steps| - 1]) + {Last(RunSteps(knots, steps))}
  }

  /** The steps of the moves, in order. */
  function StepsOf(moves: seq<Move>): seq<Position> {
    if moves == [] then [] else StepsOf(moves[..|moves| - 1]) + Path(moves[|moves| - 1])
  }

  /** The sum of the displacements of the moves. */
  function Displacement(moves: seq<Move>): Position {
    if moves == [] then Origin else Add(Displacement(moves[..|moves| - 1]), FromMove(moves[|moves| - 1]))
  }

  // ---------------------------------------------------------------------------
  // `struct Rope` (main.rs:127-175)
  // ---------------------------------------------------------------------------

  class Rope {
    var knots: seq<Position>
    var tailPositions: set<Position>

    /** `Rope::new` (main.rs:133-138): the given knots, and the origin as the only
        visited square. */
    constructor (knots: seq<Position>)
      ensures this.knots == knots && tailPositions == {Origin}
    {
      this.knots := knots;
      tailPositions := {Origin};
    }

    /** `process_head` (main.rs:147-150): knot 0 takes the step; `get_mut(0).unwrap()`
        panics on a rope without knots. */
    method ProcessHead(step: Position)
      requires |knots| > 0
      modifies this
      ensures knots == old(knots)[0 := Add(old(knots)[0], step)]
      ensures tailPositions == old(tailPositions)
    {
      var head := knots[0];
      knots := knots[0 := Add(head, step)];
    }

    /** `process_tail` (main.rs:152-166): knots `1..len` in order, each following the
        already updated one before it. */
    method ProcessTail()
      modifies this
      ensures knots == Pulled(old(knots), |old(knots)|)
      ensures tailPositions == old(tailPositions)
    {
      if |knots| <= 1 {
        return;
      }
      for idx := 1 to |knots|
        invariant |knots| == |old(knots)| && tailPositions == old(tailPositions)
        invariant knots == Pulled(old(knots), idx)
      {
        PulledNext(old(knots), idx);
        var diff := Sub(knots[idx - 1], knots[idx]);
        if Chebyshev(diff) <= 1 {
          continue;
        }
        var knot := knots[idx];
        var stepValue := Position(CheckedDivAbs(diff.x), CheckedDivAbs(diff.y));
        knots := knots[idx := Add(knot, stepValue)];
      }
    }

    /** `process_step` (main.rs:140-145): the head step, the tail, and the last knot's
        square recorded. */
    method ProcessStep(step: Position)
      requires |knots| > 0
      modifies this
      ensures knots == StepRope(old(knots), step)
      ensures tailPositions == old(tailPositions) + {Last(knots)}
    {
      ProcessHead(step);
      ProcessTail();
      tailPositions := tailPositions + {knots[|knots| - 1]};
    }

    /** The inner loop of `execute_moves` (main.rs:170-172): the steps of one move,
        continuing the run of `done` from `start`. */
    method ProcessPath(path: seq<Position>, ghost start: seq<Position>, ghost done: seq<Position>, ghost base: set<Position>)
      requires |start| > 0 && knots == RunSteps(start, done)
      requires tailPositions == base + Visited(start, done)
      modifies this
      ensures |knots| > 0 && knots == RunSteps(start, done + path)
      ensures tailPositions == base + Visited(start, done + path)
    {
      assert done + path[..0] == done;
      for t := 0 to |path|
        invariant |knots| > 0
        invariant knots == RunSteps(start, done + path[..t])
        invariant tailPositions == base + Visited(start, done + path[..t])
      {
        ExtendRun(start, done, path, t);
        ProcessStep(path[t]);
      }
      assert path[..|path|] == path;
    }

    /** `execute_moves` (main.rs:168-174): every step of every move, in order. */
    method ExecuteMoves(moves: seq<Move>)
      requires |knots| > 0
      modifies this
      ensures knots == RunSteps(old(knots), StepsOf(moves))
      ensures tailPositions == old(tailPositions) + Visited(old(knots), StepsOf(moves))
    {
      for k := 0 to |moves|
        invariant |knots| > 0
        invariant knots == RunSteps(old(knots), StepsOf(moves[..k]))
        invariant tailPositions == old(tailPositions) + Visited(old(knots), StepsOf(moves[..k]))
      {
        var path := GetPath(moves[k]);
        assert moves[..k + 1][..k] == moves[..k];
        assert StepsOf(moves[..k + 1]) == StepsOf(moves[..k]) + path;
        ProcessPath(path, old(knots), StepsOf(moves[..k]), old(tailPositions));
      }
      assert moves[..|moves|] == moves;
    }
  }

  /** The run of `done` and one more step of `path`. */
  lemma ExtendRun(start: seq<Position>, done: seq<Position>, path: seq<Position>, t: nat)
    requires |start| > 0 && t < |path|
    ensures RunSteps(start, done + path[..t + 1]) == StepRope(RunSteps(start, done + path[..t]), path[t])
    ensures Visited(start, done + path[..t + 1]) ==
      Visited(start, done + path[..t]) + {Last(RunSteps(start, done + path[..t + 1]))}
  {
    SnocSlice(done, path, t);
    RunSnoc(start, done + path[..t], path[t]);
  }

  lemma SnocSlice(done: seq<Position>, path: seq<Position>, t: nat)
    requires t < |path|
    ensures done + path[..t + 1] == (done + path[..t]) + [path[t]]
  {
    assert path[..t + 1] == path[..t] + [path[t]];
  }

  lemma RunSnoc(knots: seq<Position>, steps: seq<Position>, step: Position)
    requires |knots| > 0
    ensures RunSteps(knots, steps + [step]) == StepRope(RunSteps(knots, steps), step)
    ensures Visited(knots, steps + [step]) == Visited(knots, steps) + {Last(RunSteps(knots, steps + [step]))}
  {
    assert (steps + [step])[..|steps|] == steps;
  }

  // ---------------------------------------------------------------------------
  // What the moves do to the rope
  // ---------------------------------------------------------------------------

  lemma {:induction false} PulledKeepsHead(knots: seq<Position>, n: nat)
    requires 0 < n <= |knots|
    ensures Pulled(knots, n)[0] == knots[0]
  {
    if n > 1 {
      PulledKeepsHead(knots, n - 1);
    }
  }

  /** The head is where the steps add up to. */
  lemma {:induction false} HeadAfterSteps(knots: seq<Position>, steps: seq<Position>)
    requires |knots| > 0
    ensures RunSteps(knots, steps)[0] == Add(knots[0], SumPositions(steps))
  {
    if steps != [] {
      var init := steps[..|steps| - 1];
      HeadAfterSteps(knots, init);
      var r := RunSteps(knots, init);
      PulledKeepsHead(r[0 := Add(r[0], steps[|steps| - 1])], |r|);
    }
  }

  lemma {:induction false} StepsOfSum(moves: seq<Move>)
    requires forall k :: 0 <= k < |moves| ==> moves[k].value >= 0
    ensures SumPositions(StepsOf(moves)) == Displacement(moves)
  {
    if moves != [] {
      var init := moves[..|moves| - 1];
      StepsOfSum(init);
      SumConcat(StepsOf(init), Path(moves[|moves| - 1]));
      PathSum(moves[|moves| - 1]);
    }
  }

  /** After `execute_moves` with non-negative values, the head has moved by the sum of
      the moves' displacements; the rope keeps its number of knots. */
  lemma HeadAfterMoves(knots: seq<Position>, moves: seq<Move>)
    requires |knots| > 0
    requires forall k :: 0 <= k < |moves| ==> moves[k].value >= 0
    ensures |RunSteps(knots, StepsOf(moves))| == |knots|
    ensures RunSteps(knots, StepsOf(moves))[0] == Add(knots[0], Displacement(moves))
  {
    HeadAfterSteps(knots, StepsOf(moves));
    StepsOfSum(moves);
  }

  /** Consecutive knots touch. */
  predicate Taut(knots: seq<Position>) {
    forall i :: 1 <= i < |knots| ==> Touching(knots[i - 1], knots[i])
  }

  /** A step of at most one square per axis. */
  predicate IsUnitStep(step: Position) {
    Chebyshev(step) <= 1
  }

  lemma ChebyshevTriangle(a: Position, b: Position, c: Position)
    ensures Chebyshev(Sub(a, c)) <= Chebyshev(Sub(a, b)) + Chebyshev(Sub(b, c))
  {
  }

  /** Halfway through `process_tail` after a unit step of the head of a taut rope:
      the handled knots touch, the others are untouched, and the last handled knot is
      within one square of where it was. */
  lemma {:induction false} PulledTaut(knots: seq<Position>, step: Position, n: nat)
    requires Taut(knots) && IsUnitStep(step) && 1 <= n <= |knots|
    ensures var p := Pulled(knots[0 := Add(knots[0], step)], n);
      (forall i :: 1 <= i < n ==> Touching(p[i - 1], p[i])) &&
      (forall i :: n <= i < |knots| ==> p[i] == knots[i]) &&
      Touching(p[n - 1], knots[n - 1])
  {
    var moved := knots[0 := Add(knots[0], step)];
    if n > 1 {
      PulledTaut(knots, step, n - 1);
      var p := Pulled(moved, n - 1);
      ChebyshevTriangle(p[n - 2], knots[n - 2], knots[n - 1]);
    }
  }

  /** A unit step of the head keeps a taut rope taut. */
  lemma StepKeepsTaut(knots: seq<Position>, step: Position)
    requires |knots| > 0 && Taut(knots) && IsUnitStep(step)
    ensures Taut(StepRope(knots, step))
  {
    PulledTaut(knots, step, |knots|);
  }

  lemma {:induction false} RunKeepsTaut(knots: seq<Position>, steps: seq<Position>)
    requires |knots| > 0 && Taut(knots)
    requires forall k :: 0 <= k < |steps| ==> IsUnitStep(steps[k])
    ensures Taut(RunSteps(knots, steps))
  {
    if steps != [] {
      RunKeepsTaut(knots, steps[..|steps| - 1]);
      StepKeepsTaut(RunSteps(knots, steps[..|steps| - 1]), steps[|steps| - 1]);
    }
  }

  lemma {:induction false} StepsOfUnit(moves: seq<Move>)
    ensures forall k :: 0 <= k < |StepsOf(moves)| ==> IsUnitStep(StepsOf(moves)[k])
  {
    if moves != [] {
      StepsOfUnit(moves[..|moves| - 1]);
      FromMoveAlongAxis(Move(moves[|moves| - 1].direction, 1));
    }
  }

  /** A rope of knots all at the origin, as `main` builds, stays taut whatever the
      moves: every knot ends touching the one before it. */
  lemma MovesKeepTaut(knots: seq<Position>, moves: seq<Move>)
    requires |knots| > 0 && forall k :: 0 <= k < |knots| ==> knots[k] == Origin
    ensures Taut(RunSteps(knots, StepsOf(moves)))
  {
    StepsOfUnit(moves);
    RunKeepsTaut(knots, StepsOf(moves));
  }

  /** The square of the last knot after the first `k` steps. */
  function TailAfter(knots: seq<Position>, steps: seq<Position>, k: nat): Position
    requires |knots| > 0 && k <= |steps|
  {
    Last(RunSteps(knots, steps[..k]))
  }

  /** The last knot visits at most one new square per step, and every square it ends a
      step on is recorded. */
  lemma {:induction false} VisitedBound(knots: seq<Position>, steps: seq<Position>)
    requires |knots| > 0
    ensures |Visited(knots, steps)| <= |steps|
    ensures forall k :: 1 <= k <= |steps| ==> TailAfter(knots, steps, k) in Visited(knots, steps)
  {
    if steps != [] {
      var init := steps[..|steps| - 1];
      VisitedBound(knots, init);
      var v := Visited(knots, init);
      var t := Last(RunSteps(knots, steps));
      if t !in v {
        assert |v + {t}| == |v| + 1;
      } else {
        assert v + {t} == v;
      }
      forall k | 1 <= k <= |steps|
        ensures TailAfter(knots, steps, k) in Visited(knots, steps)
      {
        if k < |steps| {
          assert init[..k] == steps[..k];
          assert TailAfter(knots, init, k) in v;
        } else {
          assert steps[..k] == steps;
        }
      }
    }
  }
}
