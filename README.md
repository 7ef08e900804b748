# rubik-sat in Dafny

This project models rubik-sat, which solves a 2x2x2 or 3x3x3 Rubik's cube optimally. It encodes "find the shortest move sequence" as a bounded constraint-optimisation problem and hands it to the CP-SAT solver. The model has two parts.

**The facelet transition model and the cube (`rubiks.py`):**

- The 18 moves. Their face and rotation-kind tables, the `get_move` search that recomposes a move, and the 9-move alphabet used for the 2x2x2 cube (`moves.dfy`).
- The per-size transition functions `facemap_2` and `facemap_3` (`facemaps.dfy`). They move a facelet along a 4-cycle of its own face or along a chain of four neighbouring faces, by a shift of +1, -1 or +2, and leave it fixed otherwise.
- The `RubiksCube` class (`cube.dfy`). Its constructor builds the solved cube, and `do_move` scatters every colour into a fresh grid and then replaces the faces.

**The search encoding (`solver.py`), as semantics (`solver.dfy`):**

- An `Assignment` gives a value to every model variable: one colour grid per time step, one move value per step, and one "solved" flag per step.
- One predicate per constraint-building method says what the constraints that method adds require of an assignment.
- The CP-SAT call is an oracle parameter. Its promise is `OracleSound`: an OPTIMAL answer satisfies every constraint and minimises the objective.
- The decode loop of `solve` is a method.

What is proved:

- Each transition is a bijection of the 6 x N² grid.
- Inverse moves undo each other, and the order laws hold.
- Centres and the opposite face stay fixed.
- `do_move` conserves the colours.
- Any satisfying assignment decodes to moves that, replayed with `do_move`, leave every face uniform.
- An OPTIMAL answer is a shortest solution within the horizon.

Shared notions:

- `Facemaps.Facemap(n, face, facelet, m)` is `facemaps[n](face, facelet, m)`.
- `Cube.Turned(n, faces, m)` is the grid `do_move(m)` leaves.
- `Solver.Replay(n, faces, ms)` is the grid after successive `do_move` calls.
- `Cube.IsSolved` says every face is uniform. Each facelet equals facelet 0 of its own face, which is the test `create_final_constraint` encodes.

The constraint predicates of `solver.dfy`:

| predicate | source | meaning |
|---|---|---|
| `VarsOk` | solver.py:58-77 | horizon+1 grids of 6 x N² colours in 0..5; horizon move values in 0..8 (N=2 with the reduced alphabet) or 0..17 |
| `InitialOk` | solver.py:79-82 | grid 0 equals the input cube at every cell the input has |
| `FinalOk` | solver.py:84-105 | a set flag forces its grid to be uniform (one direction only), and exactly one flag is set |
| `MovesOk` | solver.py:114-140 | if step s has move value v, every cell (f, i) of grid s reappears in grid s+1 at `Facemap(f, i, move(v))` |
| `Weighted` | solver.py:107-112 | the objective, the sum over s of s * solved[s] |

The reified helper literals of the encoding (`facelet_matching`, `is_this_move`) are eliminated. Each is tied to its condition in both directions, so a helper value always exists that fits.

## Model

| member | source | states |
|---|---|---|
| `Moves.MoveOfValue` | rubiks.py:7-26 | `Move(v)` is the move whose enum value is v, for v in 0..17 |
| `Moves.ValueRoundTrip` | rubiks.py:7-26 | every move's value lies in 0..17, and `Move(value)` gives the move back |
| `Moves.FaceOfValue` | rubiks.py:38-44 | `FaceType(v)` is the face whose value is v |
| `Moves.FaceValueRoundTrip` | rubiks.py:38-44 | every face's value lies in 0..5, and `FaceType(value)` gives the face back |
| `Moves.GetRotShift` | rubiks.py:79-87 | the shift is 1, -1 or 2; modulo 4 it is 1 exactly for CLOCK, 3 exactly for COUNTER and 2 exactly for FLIP |
| `Moves.GetFace` | rubiks.py:51-58 | the face of a turn is the face its name turns, for each of the 18 positional entries: U, U1, U2 give U, L, L1, L2 give L, and so on, although L2..B2 sit at values 6..9 |
| `Moves.GetRotType` | rubiks.py:60-69 | the rotation kind of a turn follows its name: a bare face letter is CLOCK, a trailing 1 COUNTER, a trailing 2 FLIP, for each of the 18 positional entries |
| `Moves.MoveForDecomposes` | rubiks.py:51-69 | every (face, rotation kind) pair is the decomposition given by `get_face` and `get_rot_type` of some move |
| `Moves.DecompositionDetermines` | rubiks.py:51-69 | the (face, rotation kind) pair determines the move, so the 18 pairs are distinct |
| `Moves.GetMove` | rubiks.py:71-77 | the result has the requested decomposition; it is the one move with that decomposition and no move of smaller value has it; the exception case occurs exactly when no move has it |
| `Moves.GetMoveNeverRaises` | rubiks.py:71-77 | every (face, rotation kind) pair has a move, so the `raise` is unreachable |
| `Moves.InverseDecomposes` | rubiks.py:60-87 | the inverse move turns the same face with CLOCK and COUNTER exchanged, and its shift cancels the move's shift modulo 4 |
| `Moves.InverseIsGetMoveOfSwap` | rubiks.py:60-77 | the inverse is the move `get_move` finds for the same face and the exchanged rotation kind |
| `Moves.InverseInvolutive` | rubiks.py:60-69 | exchanging CLOCK and COUNTER twice gives the move back |
| `Moves.HalfTurnOf` | rubiks.py:51-69 | the FLIP move of a move's face |
| `Moves.RestrictedMoveMapping` | rubiks.py:31-36 | value v in 0..8 stands for a turn of U, L or F, and v is that turn's slot: face U, L, F at 0, 3, 6, plus 0, 1, 2 for CLOCK, COUNTER, FLIP |
| `Moves.RestrictedAlphabetFaces` | rubiks.py:31-36 | `restricted_move_mapping` only turns U, L or F, and no two of its nine entries share a decomposition |
| `Moves.RestrictedAlphabetCovers` | rubiks.py:31-36 | every rotation kind of U, L and F occurs in the 9-move alphabet |
| `Facemaps.CellsIsSquare` | rubiks.py:244-254 | a face has N² facelets: 4 for the 2x2x2 cube and 9 for the 3x3x3 cube |
| `Facemaps.IndexOf` | rubiks.py:146-153 | `list.index`: a position holding the element, with no earlier occurrence |
| `Facemaps.ChainTables2WellFormed` | rubiks.py:103-138 | the 2x2x2 chain tables: four distinct faces that do not include the turned face, four facelet lists of equal length with distinct entries below 4 |
| `Facemaps.ChainTables3WellFormed` | rubiks.py:180-209 | the same for the 3x3x3 tables, with entries below 9, and the centre 4 in no facelet list |
| `Facemaps.Rings3WellFormed` | rubiks.py:170-175 | the two 3x3x3 rings are disjoint, have distinct entries, and together cover every facelet except the centre |
| `Facemaps.RingStep` | rubiks.py:97-101 | the step on the turned face, `chain[(chain.index(facelet) + rot_shift) % len(chain)]`, stays on the same ring (also rubiks.py:176-178) |
| `Facemaps.ChainStep` | rubiks.py:140-156 | the step along a face chain stays inside the grid |
| `Facemaps.Turn2` | rubiks.py:89-156 | `facemap_2`, with the move's face and shift as parameters, maps the 6 x 4 grid into itself |
| `Facemaps.Turn3` | rubiks.py:158-227 | `facemap_3`, with the move's face and shift as parameters, maps the 6 x 9 grid into itself |
| `Facemaps.Facemap2` | rubiks.py:89-156 | `facemap_2` maps the 6 x 4 grid into itself, keeps a facelet of the turned face on that face, and fixes every facelet of the opposite face |
| `Facemaps.Facemap3` | rubiks.py:158-227 | `facemap_3` maps the 6 x 9 grid into itself, fixes the centre facelet 4 of every face, keeps a facelet of the turned face on that face, and fixes every facelet of the opposite face |
| `Facemaps.Facemap` | rubiks.py:229 | `facemaps[n]` maps every in-range (face, facelet) to an in-range pair |
| `Facemaps.FacemapIsTurn` | rubiks.py:93-101 | an unfolding step: each facemap is its turn function at the move's face and the shift `get_rot_shift(get_rot_type(m))`, so that the shift lemmas apply to moves |
| `Facemaps.TurnCompose` | rubiks.py:147-154 | turning the same face by shift s1 and then s2 is turning it by s1 + s2; this also holds on the turned face |
| `Facemaps.TurnZero` | rubiks.py:218-225 | a shift that is a multiple of 4 moves no facelet |
| `Facemaps.TurnShiftMod` | rubiks.py:101 | shifts equal modulo 4 give the same transition |
| `Facemaps.FacemapInverse` | rubiks.py:89-227 | the inverse move sends every facelet back: a CLOCK turn followed by the COUNTER turn of the same face is the identity, and so is the reverse |
| `Facemaps.FacemapBijective` | rubiks.py:89-227 | for each move and size, the transition is injective and surjective on the 6 x N² grid |
| `Facemaps.FacemapPreimage` | rubiks.py:89-227 | the preimage of a position under a move is its image under the inverse move |
| `Facemaps.FlipTwice` | rubiks.py:84-85 | a FLIP applied twice moves no facelet |
| `Facemaps.QuarterTwiceIsHalf` | rubiks.py:79-87 | two quarter turns of a face in the same direction equal its FLIP |
| `Facemaps.FourTimes` | rubiks.py:79-87 | any move applied four times moves no facelet |
| `Facemaps.TurnedFaceStays` | rubiks.py:96-101 | a facelet on the turned face stays on that face |
| `Facemaps.OppositeNotInChain` | rubiks.py:133-144 | the face opposite the turned face is not in its face chain |
| `Facemaps.OppositeFaceFixed` | rubiks.py:214-215 | every facelet of the face opposite the turned face maps to itself |
| `Facemaps.CentreFixed` | rubiks.py:162-164 | in `facemap_3`, facelet 4 of every face maps to itself under every move, and no other facelet maps to a facelet 4 |
| `Cube.Turned` | rubiks.py:256-265 | the grid after a turn has six faces of N² cells |
| `Cube.SolvedFaces` | rubiks.py:247-249 | the solved cube has six faces of N² cells |
| `Cube.RubiksCube.constructor` | rubiks.py:244-254 | with no faces given, face i is filled with colour i; otherwise the given faces are kept; six faces, and face 0 of length N² |
| `Cube.RubiksCube.New` | rubiks.py:244-254 | the constructor with its assertions: it fails exactly when faces are given and they are not six or face 0 does not have N² facelets; otherwise it is a fresh cube holding the given faces, or the solved cube when none are given |
| `Cube.RubiksCube.DoMove` | rubiks.py:256-265 | the cube keeps six faces of N² cells, each old colour (f, i) lands at `Facemap(f, i, m)`, and the new faces are `Turned(old faces, m)` |
| `Cube.ScatterComplete` | rubiks.py:260-263 | once every position is scattered, every cell of the fresh grid holds the colour gathered from the inverse move's image, so no cell keeps its placeholder 0 |
| `Cube.TurnedScatters` | rubiks.py:260-263 | a turn moves the colour at (f, i) to `Facemap(f, i, m)` |
| `Cube.TurnedInverse` | rubiks.py:256-265 | a turn followed by the inverse turn restores the cube |
| `Cube.TurnedFlipTwice` | rubiks.py:256-265 | a half turn applied twice restores the cube |
| `Cube.TurnedFourTimes` | rubiks.py:256-265 | any turn applied four times restores the cube |
| `Cube.TurnedConservesColors` | rubiks.py:256-265 | a turn keeps the multiset of colours on the cube: it only permutes them |
| `Cube.TurnedColorsInRange` | rubiks.py:256-265 | a turn keeps every colour in 0..5 |
| `Solver.Horizon` | solver.py:12-20 | the horizon is the larger of the request and God's number (11 for N=2, 20 for N=3) |
| `Solver.MoveDomain` | solver.py:119 | move values range over 9 values exactly when N=2 with the reduced alphabet, and over 18 otherwise |
| `Solver.MoveOfIndex` | solver.py:129-132 | a move value stands for `restricted_move_mapping(v)`, a move turning U, L or F, when N=2 with the reduced alphabet; otherwise it stands for the move of value v |
| `Solver.Replay` | rubiks.py:256-265 | successive turns keep the cube six faces of N² cells |
| `Solver.ReplayColorsInRange` | rubiks.py:256-265 | successive turns keep every colour in 0..5 |
| `Solver.CountTrue` | solver.py:103-104 | the number of set flags is at most their count, and it is 0 exactly when no flag is set |
| `Solver.SolvedIndex` | solver.py:103-105 | when exactly one flag is set, the index of that flag; every other flag is clear |
| `Solver.ObjectiveValue` | solver.py:107-112 | the loop of `create_objective` computes the objective, the sum of s * solved[s] |
| `Solver.ObjectiveIsSolvedIndex` | solver.py:103-112 | with exactly one flag set, the objective equals the index of the solved step |
| `Solver.RubiksSolver.constructor` | solver.py:11-21 | the solver keeps the cube and the alphabet choice, and its horizon is `max(n_moves, gods)` |
| `Solver.RubiksSolver.Solve` | solver.py:23-51 | an input face longer than N² fails with an index error; a status other than OPTIMAL fails; otherwise the result is the moves of the first k steps, where k is the solved step, and replaying them on the cube leaves every face uniform |
| `Solver.InitialSnapshot` | solver.py:79-82 | in a satisfying assignment, grid 0 is the input cube |
| `Solver.StepMatchesIsTurn` | solver.py:114-140 | the move constraints of one step determine the next grid: it equals the turned grid |
| `Solver.SnapshotStep` | solver.py:114-140 | in a satisfying assignment, grid s+1 is grid s turned by the move that step s's move value stands for |
| `Solver.SnapshotsReplay` | solver.py:114-140 | in a satisfying assignment, grid s is the input cube after replaying the first s decoded moves |
| `Solver.EndToEnd` | solver.py:37-49 | replaying the moves before the solved step turns the input cube into one with every face uniform |
| `Solver.SatisfiableColoursInRange` | solver.py:58-82 | the model has a solution only if every input colour lies in 0..5 |
| `Solver.WitnessSatisfies` | solver.py:58-140 | any move list of at most horizon moves that solves the input gives a satisfying assignment whose objective is its length |
| `Solver.Optimality` | solver.py:107-112 | an OPTIMAL answer's solved step is at most the length of any solving move list within the horizon and the alphabet |
| `Solver.SolvedInputNeedsNoMoves` | solver.py:37-49 | an OPTIMAL answer for an already uniform input decodes to no moves |
| `Solver.ReplayAppend` | rubiks.py:256-265 | replaying `a` and then `b` is replaying `a + b` |
| `Solver.UndoRestores` | rubiks.py:256-265 | replaying the inverses of a move list in reverse order restores the cube |
| `Solver.InverseIndex` | rubiks.py:31-36 | each alphabet contains the inverse of each of its moves |
| `Solver.ScrambleSolvedWithin` | solver.py:107-112 | a solved cube scrambled by k moves of the alphabet, with k at most the horizon, gets an OPTIMAL answer of at most k moves |
| `Solver.SolvedFlagIsOneWay` | solver.py:99 | a uniform grid need not have its flag set: on the solved 2x2x2 cube, turning U and then U' satisfies every constraint with only step 2 flagged |

## Left out

- The CP-SAT search is not modelled: `CpSolver`, `Solve` and the 8 parallel search workers (solver.py:30-32). It is an external library. `Solve` takes the solver's answer as a parameter, constrained by `OracleSound`.
- The ortools object plumbing is left out: variable names, expression objects, `.Not()` and the `self.model` field. Only the logical meaning of each constraint is modelled.
- Sizes other than 2 and 3 are left out. `gods = float('inf')`, and `facemaps` has no table for them. `CubeSize` admits only 2 and 3.
- `extract_colors` is left out, because its result is never used.
- `move_strings` and the `pdb` imports are left out. They are display and debugging only.
- No geometric facts are modelled outside the code itself:
  - that the chain tables match a physical cube;
  - that God's number is 11 or 20;
  - that the 9-move alphabet solves every 2x2x2 position as quickly as the full one.
- Python's negative list indices are out of scope: faces and facelets are natural numbers. The facemaps require face < 6 and facelet < N². On other arguments the source raises `ValueError` for a bad face (in `facemap_3` only off the centre facelet, rubiks.py:163-164), or for a bad facelet on the turned face (`chain.index`); it returns any other out-of-range facelet unchanged (rubiks.py:143-144, 150-151). Every caller, `do_move` and the move constraints of the encoding, passes in-range arguments only.
- Solver.RubiksSolver.Solve: requires the cube's constructor invariant: six faces, face 0 of length N². The constructor establishes it and `DoMove` keeps it.
- Solver.RubiksSolver.Solve: the promise that replaying the answer leaves every face uniform is stated only when every face has N² cells. `do_move` would raise `IndexError` on a shorter face.
- Cube.RubiksCube.constructor: requires the two shape assertions of rubiks.py:250-251 rather than raising `AssertionError`; `Cube.RubiksCube.New` is the form that models the failure as `None`.
- Cube.RubiksCube.constructor: the source stores the caller's own list (rubiks.py:254), so changes the caller later makes to that list show in the cube until the first `do_move` replaces it. `Faces` is a value here, so the model has no such aliasing.
- Cube.RubiksCube.DoMove: requires every face to have at least N² cells, where the source would raise `IndexError`. The constructor checks face 0 only, so faces 1-5 may be shorter. Cells beyond N² are dropped by the turn, as in the source.
- Points where the system's design notes, which describe the intended behaviour in prose, and the code disagree. The model follows the code in each case:
  - **Move application.** The design notes describe it as returning a new cube. `do_move` mutates the receiver, so `DoMove` modifies `faces`.
  - **Malformed input.** The design notes say it is rejected before the model is built. The code does not validate colours. An out-of-range colour makes the model infeasible (`SatisfiableColoursInRange`), so `Solve` fails with a status that is not OPTIMAL.
  - **The exactly-one flag.** The design notes leave open whether exactly one flag should be set. Since a flag implies uniformity but not the converse (`SolvedFlagIsOneWay`), the count of set flags equal to one never forbids a solution (`WitnessSatisfies`), and the objective selects the shortest (`Optimality`).
