// The planning encoding of solver.py, as semantics: a candidate assignment
// (one colour grid per time step, one move value per step, one "solved"
// flag per step) and the constraints the encoder states about it; the
// constraint solver as an oracle that returns an assignment; and the loop
// that decodes the oracle's answer into a list of moves.
module Solver {
  import opened Moves
  import opened Facemaps
  import opened Cube

  // ----- Horizon and move alphabet -----

  /** The number of moves that always suffices for the cube size. */
  function GodsNumber(n: CubeSize): nat
  {
    if n == 2 then 11 else 20
  }

  /** The number of move steps encoded: the request, raised to God's number. */
  function Horizon(n: CubeSize, requested: int): (h: nat)
    ensures h >= requested && h >= GodsNumber(n)
    ensures h == requested || h == GodsNumber(n)
  {
    if requested > GodsNumber(n) then requested else GodsNumber(n)
  }

  /** How many values a move variable ranges over. */
  function MoveDomain(n: CubeSize, optimize: bool): (d: nat)
    ensures d == 9 || d == 18
    ensures d == 9 <==> (n == 2 && optimize)
  {
    if n == 2 && optimize then 9 else 18
  }

  /** The move a move value stands for; encoder and decoder share it. */
  function MoveOfIndex(n: CubeSize, optimize: bool, v: int): (m: Move)
    requires 0 <= v < MoveDomain(n, optimize)
    ensures n == 2 && optimize ==> GetFace(m) in {FaceType.U, FaceType.L, FaceType.F}
    ensures !(n == 2 && optimize) ==> m.Value() == v
  {
    if n == 2 && optimize then
      RestrictedAlphabetFaces();
      RestrictedMoveMapping(v)
    else
      MoveOfValue(v)
  }

  /** Every value of `vs` is a legal move value. */
  ghost predicate InDomain(n: CubeSize, optimize: bool, vs: seq<int>)
  {
    forall s :: 0 <= s < |vs| ==> 0 <= vs[s] < MoveDomain(n, optimize)
  }

  /** The moves a sequence of move values stands for. */
  function Decoded(n: CubeSize, optimize: bool, vs: seq<int>): (ms: seq<Move>)
    requires InDomain(n, optimize, vs)
    ensures |ms| == |vs|
  {
    seq(|vs|, s requires 0 <= s < |vs| => MoveOfIndex(n, optimize, vs[s]))
  }

  /** Decoding one more value appends its move. */
  lemma DecodedSnoc(n: CubeSize, optimize: bool, vs: seq<int>, i: nat)
    requires InDomain(n, optimize, vs) && i < |vs|
    ensures Decoded(n, optimize, vs[..i + 1]) ==
            Decoded(n, optimize, vs[..i]) + [MoveOfIndex(n, optimize, vs[i])]
  {
    var ms := Decoded(n, optimize, vs[..i + 1]);
    var ps := Decoded(n, optimize, vs[..i]);
    forall k | 0 <= k < i + 1
      ensures ms[k] == (ps + [MoveOfIndex(n, optimize, vs[i])])[k]
    {
      assert vs[..i + 1][k] == vs[k];
    }
  }

  /** The cube after turning by each move of `ms` in order, as successive
      `DoMove` calls leave it. */
  function Replay(n: CubeSize, faces: Faces, ms: seq<Move>): (r: Faces)
    requires HasCells(n, faces)
    ensures HasCells(n, r)
    ensures WellShaped(n, faces) ==> WellShaped(n, r)
    decreases |ms|
  {
    if |ms| == 0 then faces
    else Turned(n, Replay(n, faces, ms[..|ms| - 1]), ms[|ms| - 1])
  }

  lemma {:induction false} ReplayColorsInRange(n: CubeSize, faces: Faces, ms: seq<Move>)
    requires HasCells(n, faces) && ColorsInRange(n, faces)
    ensures ColorsInRange(n, Replay(n, faces, ms))
    decreases |ms|
  {
    if |ms| > 0 {
      ReplayColorsInRange(n, faces, ms[..|ms| - 1]);
      TurnedColorsInRange(n, Replay(n, faces, ms[..|ms| - 1]), ms[|ms| - 1]);
    }
  }

  /** Replaying one more move turns the replayed cube once more. */
  lemma ReplayStep(n: CubeSize, optimize: bool, faces: Faces, vs: seq<int>, s: nat)
    requires HasCells(n, faces) && InDomain(n, optimize, vs) && s < |vs|
    ensures Replay(n, faces, Decoded(n, optimize, vs[..s + 1])) ==
            Turned(n, Replay(n, faces, Decoded(n, optimize, vs[..s])), MoveOfIndex(n, optimize, vs[s]))
  {
    var ms := Decoded(n, optimize, vs[..s + 1]);
    var ps := Decoded(n, optimize, vs[..s]);
    assert ms[..s] == ps by {
      forall i | 0 <= i < s
        ensures ms[i] == ps[i]
      {
        assert vs[..s + 1][i] == vs[..s][i];
      }
    }
    assert ms[s] == MoveOfIndex(n, optimize, vs[s]) by {
      assert vs[..s + 1][s] == vs[s];
    }
    ReplayLast(n, faces, ms);
  }

  /** The last move of a replay is the last turn. */
  lemma ReplayLast(n: CubeSize, faces: Faces, ms: seq<Move>)
    requires HasCells(n, faces) && |ms| > 0
    ensures Replay(n, faces, ms) == Turned(n, Replay(n, faces, ms[..|ms| - 1]), ms[|ms| - 1])
  {
  }

  // ----- Counting and weighing the solved flags -----

  /** `sum(state_is_solved)`. */
  function CountTrue(flags: seq<bool>): (c: nat)
    ensures c <= |flags|
    ensures c == 0 <==> forall j :: 0 <= j < |flags| ==> !flags[j]
    decreases |flags|
  {
    if |flags| == 0 then 0
    else CountTrue(flags[..|flags| - 1]) + (if flags[|flags| - 1] then 1 else 0)
  }

  /** The one step whose flag is set, when exactly one is. */
  function SolvedIndex(flags: seq<bool>): (k: nat)
    requires CountTrue(flags) == 1
    ensures k < |flags| && flags[k]
    ensures forall j :: 0 <= j < |flags| && j != k ==> !flags[j]
    decreases |flags|
  {
    var last := |flags| - 1;
    if flags[last] then
      assert CountTrue(flags[..last]) == 0;
      last
    else
      var k := SolvedIndex(flags[..last]);
      assert flags[..last][k] == flags[k];
      k
  }

  /** Exactly one flag set means a count of one. */
  lemma {:induction false} CountSingle(flags: seq<bool>, k: nat)
    requires k < |flags| && flags[k]
    requires forall j :: 0 <= j < |flags| && j != k ==> !flags[j]
    ensures CountTrue(flags) == 1
    decreases |flags|
  {
    var last := |flags| - 1;
    if k < last {
      CountSingle(flags[..last], k);
    } else {
      assert forall j :: 0 <= j < last ==> !flags[..last][j];
    }
  }

  /** The objective `sum(i * state_is_solved[i])`. */
  function Weighted(flags: seq<bool>): int
    decreases |flags|
  {
    if |flags| == 0 then 0
    else Weighted(flags[..|flags| - 1]) + (|flags| - 1) * (if flags[|flags| - 1] then 1 else 0)
  }

  /** `create_objective`: the loop that sums `i * state_is_solved[i]`,
      evaluated on a set of flag values. */
  method ObjectiveValue(flags: seq<bool>) returns (obj: int)
    ensures obj == Weighted(flags)
  {
    obj := 0;
    for i := 0 to |flags|
      invariant obj == Weighted(flags[..i])
    {
      assert flags[..i + 1][..i] == flags[..i];
      obj := obj + i * (if flags[i] then 1 else 0);
    }
    assert flags[..|flags|] == flags;
  }

  lemma {:induction false} WeightedNone(flags: seq<bool>)
    requires forall j :: 0 <= j < |flags| ==> !flags[j]
    ensures Weighted(flags) == 0
    decreases |flags|
  {
    if |flags| > 0 {
      WeightedNone(flags[..|flags| - 1]);
    }
  }

  /** With exactly one flag set, the objective is the index of that flag. */
  lemma {:induction false} ObjectiveIsSolvedIndex(flags: seq<bool>)
    requires CountTrue(flags) == 1
    ensures Weighted(flags) == SolvedIndex(flags)
    decreases |flags|
  {
    var last := |flags| - 1;
    if flags[last] {
      WeightedNone(flags[..last]);
    } else {
      ObjectiveIsSolvedIndex(flags[..last]);
    }
  }

  // ----- The constraints -----

  /** What the encoder is given: the cube size, whether the 9-move
      alphabet is in use, the horizon and the input cube's faces. */
  datatype Problem = Problem(n: CubeSize, optimize: bool, horizon: nat, initial: Faces)

  /** One candidate value for every model variable: `solution`, `moves`
      and `state_is_solved`. */
  datatype Assignment = Assignment(snapshots: seq<Faces>, moves: seq<int>, solved: seq<bool>)

  /** The input cube can be written into snapshot 0 without indexing past
      its N*N cells. */
  ghost predicate Encodable(p: Problem)
  {
    |p.initial| == 6 && forall f :: 0 <= f < 6 ==> |p.initial[f]| <= Cells(p.n)
  }

  /** A state variable's value: six faces of N*N colours in 0..5. */
  ghost predicate Snapshot(n: CubeSize, faces: Faces)
  {
    WellShaped(n, faces) && ColorsInRange(n, faces)
  }

  /** `create_vars`: horizon+1 snapshots, horizon move values, and one
      flag per snapshot. */
  ghost predicate VarsOk(p: Problem, a: Assignment)
  {
    |a.snapshots| == p.horizon + 1 && |a.moves| == p.horizon && |a.solved| == p.horizon + 1 &&
    (forall s :: 0 <= s < |a.snapshots| ==> Snapshot(p.n, a.snapshots[s])) &&
    InDomain(p.n, p.optimize, a.moves)
  }

  /** `create_initial_constraint`: snapshot 0 holds the input colours. */
  ghost predicate InitialOk(p: Problem, a: Assignment)
    requires Encodable(p) && VarsOk(p, a)
  {
    forall i, j :: 0 <= i < 6 && 0 <= j < |p.initial[i]| ==> a.snapshots[0][i][j] == p.initial[i][j]
  }

  /** `create_final_constraint`: a set flag forces its snapshot to be
      uniform (not conversely), and exactly one flag is set. */
  ghost predicate FinalOk(p: Problem, a: Assignment)
    requires VarsOk(p, a)
  {
    (forall s :: 0 <= s < |a.solved| && a.solved[s] ==> IsSolved(p.n, a.snapshots[s])) &&
    CountTrue(a.solved) == 1
  }

  /** Every colour of `cur` reappears in `next` at its destination under `m`. */
  ghost predicate StepMatches(n: CubeSize, cur: Faces, next: Faces, m: Move)
    requires WellShaped(n, cur) && WellShaped(n, next)
  {
    forall f: nat, i: nat :: InGrid(n, f, i) ==>
      next[Facemap(n, f, i, m).0][Facemap(n, f, i, m).1] == cur[f][i]
  }

  /** `create_move_constraints`: if step s takes move value v, snapshot
      s+1 is snapshot s turned by the move v stands for. */
  ghost predicate MovesOk(p: Problem, a: Assignment)
    requires VarsOk(p, a)
  {
    forall s, v :: 0 <= s < p.horizon && 0 <= v < MoveDomain(p.n, p.optimize) && a.moves[s] == v ==>
      StepMatches(p.n, a.snapshots[s], a.snapshots[s + 1], MoveOfIndex(p.n, p.optimize, v))
  }

  /** Every constraint of the model holds. */
  ghost predicate Satisfies(p: Problem, a: Assignment)
  {
    Encodable(p) && VarsOk(p, a) && InitialOk(p, a) && FinalOk(p, a) && MovesOk(p, a)
  }

  // ----- The constraint solver, as an oracle -----

  datatype Status = Optimal | Feasible | Infeasible | ModelInvalid | Unknown

  /** What `CpSolver.Solve` hands back: a status and variable values. */
  datatype SolverOutcome = SolverOutcome(status: Status, assignment: Assignment)

  /** What the oracle promises: an OPTIMAL answer satisfies every
      constraint and minimises the objective; INFEASIBLE means nothing
      satisfies them. */
  ghost predicate OracleSound(p: Problem, o: SolverOutcome)
  {
    (o.status == Optimal ==>
       Satisfies(p, o.assignment) &&
       forall b :: Satisfies(p, b) ==> Weighted(o.assignment.solved) <= Weighted(b.solved)) &&
    (o.status == Infeasible ==> forall b :: !Satisfies(p, b))
  }

  datatype Failure = IndexOutOfRange | NotOptimal

  datatype Result<T> = Ok(value: T) | Err(error: Failure)

  class RubiksSolver {
    const cube: RubiksCube
    const nMoves: nat
    const optimize: bool

    /** `RubiksSolver(cube, n_moves, optimize)`: the horizon is the
        requested number of moves, raised to God's number. */
    constructor (cube: RubiksCube, nMoves: int, optimize: bool)
      ensures this.cube == cube && this.optimize == optimize
      ensures this.nMoves == Horizon(cube.n, nMoves)
    {
      var gods := if cube.n == 2 then 11 else 20;
      this.cube := cube;
      this.nMoves := if nMoves > gods then nMoves else gods;
      this.optimize := optimize;
    }

    /** The encoding `solve` builds from the cube as it is now. */
    ghost function Encoding(): Problem
      reads cube
    {
      Problem(cube.n, optimize, nMoves, cube.faces)
    }

    /** `solve`, with the constraint solver's answer as a parameter. */
    method Solve(outcome: SolverOutcome) returns (r: Result<seq<Move>>)
      requires cube.Valid()
      requires OracleSound(Encoding(), outcome)
      ensures !Encodable(Encoding()) ==> r == Err(IndexOutOfRange)
      ensures Encodable(Encoding()) && outcome.status != Optimal ==> r == Err(NotOptimal)
      ensures r.Ok? <==> Encodable(Encoding()) && outcome.status == Optimal
      ensures r.Ok? ==>
        var a := outcome.assignment;
        Satisfies(Encoding(), a) &&
        r.value == Decoded(cube.n, optimize, a.moves[..SolvedIndex(a.solved)])
      ensures r.Ok? && HasCells(cube.n, cube.faces) ==>
        IsSolved(cube.n, Replay(cube.n, cube.faces, r.value))
    {
      var fits := forall f :: 0 <= f < 6 ==> |cube.faces[f]| <= Cells(cube.n);
      if !fits {
        return Err(IndexOutOfRange);
      }
      if outcome.status != Optimal {
        return Err(NotOptimal);
      }
      ghost var p := Encoding();
      var a := outcome.assignment;
      assert Satisfies(p, a);
      assert InDomain(cube.n, optimize, a.moves) && CountTrue(a.solved) == 1;
      var steps := if |a.moves| < |a.solved| - 1 then |a.moves| else |a.solved| - 1;
      var moves: seq<Move> := [];
      for i := 0 to steps
        invariant moves == Decoded(cube.n, optimize, a.moves[..i])
        invariant forall j :: 1 <= j <= i ==> !a.solved[j]
      {
        var move := MoveOfIndex(cube.n, optimize, a.moves[i]);
        DecodedSnoc(cube.n, optimize, a.moves, i);
        moves := moves + [move];
        if a.solved[i + 1] {
          assert SolvedIndex(a.solved) == i + 1;
          if HasCells(cube.n, cube.faces) {
            EndToEnd(p, a);
          }
          return Ok(moves);
        }
      }
      assert SolvedIndex(a.solved) == 0;
      assert a.moves[..0] == [];
      if HasCells(cube.n, cube.faces) {
        EndToEnd(p, a);
      }
      return Ok([]);
    }
  }

  // ----- From a satisfying assignment to a solving move list -----

  /** Snapshot 0 equals the input cube. */
  lemma InitialSnapshot(p: Problem, a: Assignment)
    requires Satisfies(p, a) && HasCells(p.n, p.initial)
    ensures a.snapshots[0] == p.initial
  {
    forall i | 0 <= i < 6
      ensures a.snapshots[0][i] == p.initial[i]
    {
    }
  }

  /** A step's move constraint makes the next snapshot the turned one. */
  lemma StepMatchesIsTurn(n: CubeSize, cur: Faces, next: Faces, m: Move)
    requires WellShaped(n, cur) && WellShaped(n, next) && StepMatches(n, cur, next, m)
    ensures next == Turned(n, cur, m)
  {
    assert Scattered(n, m, cur, next, 6, 0);
    ScatterComplete(n, m, cur, next);
  }

  /** Snapshot s+1 is `do_move` applied to snapshot s, with the move the
      step's move value stands for. */
  lemma SnapshotStep(p: Problem, a: Assignment, s: nat)
    requires Satisfies(p, a) && s < p.horizon
    ensures a.snapshots[s + 1] == Turned(p.n, a.snapshots[s], MoveOfIndex(p.n, p.optimize, a.moves[s]))
  {
    var v := a.moves[s];
    assert Snapshot(p.n, a.snapshots[s]) && Snapshot(p.n, a.snapshots[s + 1]);
    assert StepMatches(p.n, a.snapshots[s], a.snapshots[s + 1], MoveOfIndex(p.n, p.optimize, v));
    StepMatchesIsTurn(p.n, a.snapshots[s], a.snapshots[s + 1], MoveOfIndex(p.n, p.optimize, v));
  }

  /** Snapshot s is the input cube with the first s decoded moves replayed. */
  lemma {:induction false} SnapshotsReplay(p: Problem, a: Assignment, s: nat)
    requires Satisfies(p, a) && HasCells(p.n, p.initial) && s <= p.horizon
    ensures a.snapshots[s] == Replay(p.n, p.initial, Decoded(p.n, p.optimize, a.moves[..s]))
  {
    if s == 0 {
      assert a.moves[..0] == [];
      InitialSnapshot(p, a);
    } else {
      SnapshotsReplay(p, a, s - 1);
      SnapshotStep(p, a, s - 1);
      ReplayStep(p.n, p.optimize, p.initial, a.moves, s - 1);
    }
  }

  /** End to end: replaying the moves before the solved step turns the
      input cube into one whose every face is uniform. */
  lemma EndToEnd(p: Problem, a: Assignment)
    requires Satisfies(p, a) && HasCells(p.n, p.initial)
    ensures SolvedIndex(a.solved) <= p.horizon
    ensures IsSolved(p.n, Replay(p.n, p.initial, Decoded(p.n, p.optimize, a.moves[..SolvedIndex(a.solved)])))
  {
    var k := SolvedIndex(a.solved);
    SnapshotsReplay(p, a, k);
  }

  /** The model has a solution only if every input colour lies in 0..5:
      CP-SAT is told that each state variable ranges over 0..5. */
  lemma SatisfiableColoursInRange(p: Problem, a: Assignment)
    requires Satisfies(p, a)
    ensures forall f, i :: 0 <= f < 6 && 0 <= i < |p.initial[f]| ==> 0 <= p.initial[f][i] <= 5
  {
    forall f, i | 0 <= f < 6 && 0 <= i < |p.initial[f]|
      ensures 0 <= p.initial[f][i] <= 5
    {
      assert Snapshot(p.n, a.snapshots[0]);
      assert InGrid(p.n, f, i);
      assert a.snapshots[0][f][i] == p.initial[f][i];
    }
  }

  // ----- Optimality -----

  /** `vs` padded to the horizon with move value 0. */
  function Padded(p: Problem, vs: seq<int>): (r: seq<int>)
    requires |vs| <= p.horizon && InDomain(p.n, p.optimize, vs)
    ensures |r| == p.horizon && r[..|vs|] == vs && InDomain(p.n, p.optimize, r)
  {
    vs + seq(p.horizon - |vs|, _ => 0)
  }

  /** The assignment that plays `vs`, keeps turning by move value 0, and
      flags only step |vs|. */
  ghost function Witness(p: Problem, vs: seq<int>): Assignment
    requires HasCells(p.n, p.initial)
    requires |vs| <= p.horizon && InDomain(p.n, p.optimize, vs)
  {
    var ms := Padded(p, vs);
    Assignment(
      seq(p.horizon + 1, s requires 0 <= s <= p.horizon =>
        Replay(p.n, p.initial, Decoded(p.n, p.optimize, ms[..s]))),
      ms,
      seq(p.horizon + 1, s => s == |vs|))
  }

  lemma WitnessVars(p: Problem, vs: seq<int>)
    requires HasCells(p.n, p.initial) && ColorsInRange(p.n, p.initial) && WellShaped(p.n, p.initial)
    requires |vs| <= p.horizon && InDomain(p.n, p.optimize, vs)
    ensures VarsOk(p, Witness(p, vs))
  {
    var a := Witness(p, vs);
    forall s | 0 <= s < |a.snapshots|
      ensures Snapshot(p.n, a.snapshots[s])
    {
      ReplayColorsInRange(p.n, p.initial, Decoded(p.n, p.optimize, a.moves[..s]));
    }
  }

  lemma WitnessInitial(p: Problem, vs: seq<int>)
    requires HasCells(p.n, p.initial) && ColorsInRange(p.n, p.initial) && Encodable(p)
    requires |vs| <= p.horizon && InDomain(p.n, p.optimize, vs)
    ensures VarsOk(p, Witness(p, vs)) && InitialOk(p, Witness(p, vs))
  {
    WitnessVars(p, vs);
    var a := Witness(p, vs);
    assert a.moves[..0] == [];
    assert a.snapshots[0] == p.initial;
  }

  lemma WitnessFinal(p: Problem, vs: seq<int>)
    requires HasCells(p.n, p.initial) && ColorsInRange(p.n, p.initial) && WellShaped(p.n, p.initial)
    requires |vs| <= p.horizon && InDomain(p.n, p.optimize, vs)
    requires IsSolved(p.n, Replay(p.n, p.initial, Decoded(p.n, p.optimize, vs)))
    ensures VarsOk(p, Witness(p, vs)) && FinalOk(p, Witness(p, vs))
    ensures Weighted(Witness(p, vs).solved) == |vs|
  {
    WitnessVars(p, vs);
    var a := Witness(p, vs);
    assert a.snapshots[|vs|] == Replay(p.n, p.initial, Decoded(p.n, p.optimize, vs));
    CountSingle(a.solved, |vs|);
    ObjectiveIsSolvedIndex(a.solved);
  }

  lemma WitnessMoves(p: Problem, vs: seq<int>)
    requires HasCells(p.n, p.initial) && ColorsInRange(p.n, p.initial) && WellShaped(p.n, p.initial)
    requires |vs| <= p.horizon && InDomain(p.n, p.optimize, vs)
    ensures VarsOk(p, Witness(p, vs)) && MovesOk(p, Witness(p, vs))
  {
    WitnessVars(p, vs);
    var a := Witness(p, vs);
    forall s, v | 0 <= s < p.horizon && 0 <= v < MoveDomain(p.n, p.optimize) && a.moves[s] == v
      ensures StepMatches(p.n, a.snapshots[s], a.snapshots[s + 1], MoveOfIndex(p.n, p.optimize, v))
    {
      WitnessStep(p, vs, s);
    }
  }

  lemma WitnessStep(p: Problem, vs: seq<int>, s: nat)
    requires HasCells(p.n, p.initial) && WellShaped(p.n, p.initial)
    requires |vs| <= p.horizon && InDomain(p.n, p.optimize, vs) && s < p.horizon
    ensures var a := Witness(p, vs);
      StepMatches(p.n, a.snapshots[s], a.snapshots[s + 1], MoveOfIndex(p.n, p.optimize, a.moves[s]))
  {
    var a := Witness(p, vs);
    var m := MoveOfIndex(p.n, p.optimize, a.moves[s]);
    ReplayStep(p.n, p.optimize, p.initial, a.moves, s);
    assert a.snapshots[s + 1] == Turned(p.n, a.snapshots[s], m);
    forall f: nat, i: nat | InGrid(p.n, f, i)
      ensures a.snapshots[s + 1][Facemap(p.n, f, i, m).0][Facemap(p.n, f, i, m).1] == a.snapshots[s][f][i]
    {
      TurnedScatters(p.n, a.snapshots[s], m, f, i);
    }
  }

  /** Any move list of at most horizon moves that solves the input cube
      gives a satisfying assignment whose objective is its length. */
  lemma WitnessSatisfies(p: Problem, vs: seq<int>)
    requires Encodable(p) && HasCells(p.n, p.initial) && ColorsInRange(p.n, p.initial)
    requires |vs| <= p.horizon && InDomain(p.n, p.optimize, vs)
    requires IsSolved(p.n, Replay(p.n, p.initial, Decoded(p.n, p.optimize, vs)))
    ensures Satisfies(p, Witness(p, vs))
    ensures Weighted(Witness(p, vs).solved) == |vs|
  {
    assert WellShaped(p.n, p.initial);
    WitnessInitial(p, vs);
    WitnessFinal(p, vs);
    WitnessMoves(p, vs);
  }

  /** An OPTIMAL answer decodes to a shortest solution: no move list of at
      most horizon moves in the alphabet solves the input cube in fewer
      moves. */
  lemma Optimality(p: Problem, o: SolverOutcome, vs: seq<int>)
    requires OracleSound(p, o) && o.status == Optimal
    requires HasCells(p.n, p.initial) && ColorsInRange(p.n, p.initial)
    requires |vs| <= p.horizon && InDomain(p.n, p.optimize, vs)
    requires IsSolved(p.n, Replay(p.n, p.initial, Decoded(p.n, p.optimize, vs)))
    ensures SolvedIndex(o.assignment.solved) <= |vs|
  {
    WitnessSatisfies(p, vs);
    ObjectiveIsSolvedIndex(o.assignment.solved);
  }

  /** An OPTIMAL answer for an already solved cube decodes to no moves. */
  lemma SolvedInputNeedsNoMoves(p: Problem, o: SolverOutcome)
    requires OracleSound(p, o) && o.status == Optimal
    requires HasCells(p.n, p.initial) && ColorsInRange(p.n, p.initial)
    requires IsSolved(p.n, p.initial)
    ensures SolvedIndex(o.assignment.solved) == 0
  {
    assert Decoded(p.n, p.optimize, []) == [];
    Optimality(p, o, []);
  }

  // ----- Scrambles -----

  /** Replaying `a` and then `b` is replaying `a + b`. */
  lemma {:induction false} ReplayAppend(n: CubeSize, faces: Faces, a: seq<Move>, b: seq<Move>)
    requires HasCells(n, faces)
    ensures Replay(n, faces, a + b) == Replay(n, Replay(n, faces, a), b)
    decreases |b|
  {
    if |b| == 0 {
      assert a + b == a;
    } else {
      var b' := b[..|b| - 1];
      assert (a + b)[..|a + b| - 1] == a + b';
      ReplayAppend(n, faces, a, b');
    }
  }

  /** The moves that undo `ms`: the inverses of its moves, last first. */
  function Undo(ms: seq<Move>): (u: seq<Move>)
    ensures |u| == |ms|
  {
    seq(|ms|, i requires 0 <= i < |ms| => Inverse(ms[|ms| - 1 - i]))
  }

  /** Replaying `Undo(ms)` after `ms` restores the cube. */
  lemma {:induction false} UndoRestores(n: CubeSize, faces: Faces, ms: seq<Move>)
    requires WellShaped(n, faces)
    ensures Replay(n, Replay(n, faces, ms), Undo(ms)) == faces
    decreases |ms|
  {
    if |ms| > 0 {
      var ms' := ms[..|ms| - 1];
      var m := ms[|ms| - 1];
      var y := Replay(n, faces, ms');
      assert Undo(ms) == [Inverse(m)] + Undo(ms');
      ReplayAppend(n, Turned(n, y, m), [Inverse(m)], Undo(ms'));
      assert [Inverse(m)][..0] == [];
      TurnedInverse(n, y, m);
      UndoRestores(n, faces, ms');
    }
  }

  /** The move value, in the same alphabet, of the inverse of the move
      that `v` stands for. */
  function InverseIndex(n: CubeSize, optimize: bool, v: int): (u: int)
    requires 0 <= v < MoveDomain(n, optimize)
    ensures 0 <= u < MoveDomain(n, optimize)
    ensures MoveOfIndex(n, optimize, u) == Inverse(MoveOfIndex(n, optimize, v))
  {
    if n == 2 && optimize then
      RestrictedInverse(v);
      [1, 0, 2, 4, 3, 5, 7, 6, 8][v]
    else
      ValueRoundTrip(Inverse(MoveOfValue(v)));
      Inverse(MoveOfValue(v)).Value()
  }

  /** The 9-move alphabet is closed under inverses. */
  lemma RestrictedInverse(v: int)
    requires 0 <= v < 9
    ensures var u := [1, 0, 2, 4, 3, 5, 7, 6, 8][v];
      0 <= u < 9 && RestrictedMoveMapping(u) == Inverse(RestrictedMoveMapping(v))
  {
    InverseTable();
  }

  /** The move values of `Undo(Decoded(vs))`. */
  function UndoIndices(n: CubeSize, optimize: bool, vs: seq<int>): (us: seq<int>)
    requires InDomain(n, optimize, vs)
    ensures |us| == |vs| && InDomain(n, optimize, us)
  {
    seq(|vs|, i requires 0 <= i < |vs| => InverseIndex(n, optimize, vs[|vs| - 1 - i]))
  }

  /** The move values of the undoing moves stand for the undoing moves. */
  lemma DecodedUndo(n: CubeSize, optimize: bool, vs: seq<int>)
    requires InDomain(n, optimize, vs)
    ensures Decoded(n, optimize, UndoIndices(n, optimize, vs)) == Undo(Decoded(n, optimize, vs))
  {
    var us := Decoded(n, optimize, UndoIndices(n, optimize, vs));
    var ms := Undo(Decoded(n, optimize, vs));
    forall i | 0 <= i < |vs|
      ensures us[i] == ms[i]
    {
      DecodedUndoAt(n, optimize, vs, i);
    }
  }

  lemma DecodedUndoAt(n: CubeSize, optimize: bool, vs: seq<int>, i: nat)
    requires InDomain(n, optimize, vs) && i < |vs|
    ensures Decoded(n, optimize, UndoIndices(n, optimize, vs))[i] == Undo(Decoded(n, optimize, vs))[i]
  {
    var us := UndoIndices(n, optimize, vs);
    var ms := Decoded(n, optimize, vs);
    var v := vs[|vs| - 1 - i];
    assert us[i] == InverseIndex(n, optimize, v);
    assert Decoded(n, optimize, us)[i] == MoveOfIndex(n, optimize, us[i]);
    assert ms[|vs| - 1 - i] == MoveOfIndex(n, optimize, v);
    assert Undo(ms)[i] == Inverse(ms[|ms| - 1 - i]);
  }

  /** A solved cube scrambled by k moves of the alphabet, k at most the
      horizon, gets an OPTIMAL answer of at most k moves. */
  lemma ScrambleSolvedWithin(p: Problem, o: SolverOutcome, vs: seq<int>)
    requires OracleSound(p, o) && o.status == Optimal
    requires |vs| <= p.horizon && InDomain(p.n, p.optimize, vs)
    requires p.initial == Replay(p.n, SolvedFaces(p.n), Decoded(p.n, p.optimize, vs))
    ensures SolvedIndex(o.assignment.solved) <= |vs|
  {
    var s := SolvedFaces(p.n);
    var ms := Decoded(p.n, p.optimize, vs);
    var us := UndoIndices(p.n, p.optimize, vs);
    assert Replay(p.n, p.initial, Decoded(p.n, p.optimize, us)) == s by {
      DecodedUndo(p.n, p.optimize, vs);
      UndoRestores(p.n, s, ms);
    }
    assert ColorsInRange(p.n, p.initial) by {
      ReplayColorsInRange(p.n, s, ms);
    }
    Optimality(p, o, us);
  }

  /** A set flag implies a uniform snapshot, but a uniform snapshot does
      not imply a set flag: on the solved 2x2x2 cube, turning U and then
      U' satisfies every constraint with only step 2 flagged. */
  lemma SolvedFlagIsOneWay()
    ensures exists a :: Satisfies(Problem(2, false, Horizon(2, 0), SolvedFaces(2)), a) &&
                        IsSolved(2, a.snapshots[0]) && !a.solved[0]
  {
    var p := Problem(2, false, Horizon(2, 0), SolvedFaces(2));
    var vs := [0, 1];
    var s := SolvedFaces(2);
    TurnThenUndoRestores();
    WitnessSatisfies(p, vs);
    var a := Witness(p, vs);
    assert Padded(p, vs)[..0] == [];
    assert a.snapshots[0] == s;
  }

  /** Turning U and then U' leaves the solved 2x2x2 cube as it was. */
  lemma TurnThenUndoRestores()
    ensures Replay(2, SolvedFaces(2), Decoded(2, false, [0, 1])) == SolvedFaces(2)
  {
    var s := SolvedFaces(2);
    var ms := Decoded(2, false, [0, 1]);
    assert ms == [Move.U, Move.U1];
    assert ms[..1] == [Move.U];
    assert Replay(2, s, [Move.U]) == Turned(2, s, Move.U) by {
      assert [Move.U][..0] == [];
    }
    assert Replay(2, s, ms) == Turned(2, Turned(2, s, Move.U), Move.U1);
    assert Inverse(Move.U) == Move.U1;
    TurnedInverse(2, s, Move.U);
  }
}
