// The move taxonomy of rubiks.py: the 18 turns, the six faces, the three
// rotation kinds, the positional tables that decompose a turn, the linear
// search that recomposes it, and the 9-move alphabet used for 2x2x2 cubes.
module Moves {

  datatype Option<T> = None | Some(value: T)

  /** The 18 turns. Values are NOT grouped by face: the four half turns
      L2, R2, F2, B2 take values 6..9, before L = 10. */
  datatype Move = U | U1 | U2 | D | D1 | D2 | L2 | R2 | F2 | B2
                | L | L1 | R | R1 | F | F1 | B | B1
  {
    /** The enum value of the turn. */
    function Value(): nat
    {
      match this
      case U => 0   case U1 => 1  case U2 => 2
      case D => 3   case D1 => 4  case D2 => 5
      case L2 => 6  case R2 => 7  case F2 => 8  case B2 => 9
      case L => 10  case L1 => 11 case R => 12  case R1 => 13
      case F => 14  case F1 => 15 case B => 16  case B1 => 17
    }
  }

  /** `Move(v)`: the turn whose enum value is `v`. */
  function MoveOfValue(v: int): (m: Move)
    requires 0 <= v < 18
    ensures m.Value() == v
  {
    [Move.U, Move.U1, Move.U2, Move.D, Move.D1, Move.D2, Move.L2, Move.R2, Move.F2,
     Move.B2, Move.L, Move.L1, Move.R, Move.R1, Move.F, Move.F1, Move.B, Move.B1][v]
  }

  lemma ValueRoundTrip(m: Move)
    ensures m.Value() < 18 && MoveOfValue(m.Value()) == m
  {
    match m
    case U => case U1 => case U2 => case D => case D1 => case D2 =>
    case L2 => case R2 => case F2 => case B2 => case L => case L1 =>
    case R => case R1 => case F => case F1 => case B => case B1 =>
  }

  /** The six faces: 0 Up, 1 Down, 2 Left, 3 Right, 4 Front, 5 Back. */
  datatype FaceType = U | D | L | R | F | B
  {
    function Value(): nat
    {
      match this
      case U => 0 case D => 1 case L => 2 case R => 3 case F => 4 case B => 5
    }
  }

  /** `FaceType(v)`: the face whose enum value is `v`. */
  function FaceOfValue(v: int): (f: FaceType)
    requires 0 <= v < 6
    ensures f.Value() == v
  {
    [FaceType.U, FaceType.D, FaceType.L, FaceType.R, FaceType.F, FaceType.B][v]
  }

  lemma FaceValueRoundTrip(f: FaceType)
    ensures f.Value() < 6 && FaceOfValue(f.Value()) == f
  {
    match f
    case U => case D => case L => case R => case F => case B =>
  }

  /** The face across the cube from `f`. */
  function Opposite(f: FaceType): (o: FaceType)
    ensures o != f
  {
    match f
    case U => FaceType.D case D => FaceType.U
    case L => FaceType.R case R => FaceType.L
    case F => FaceType.B case B => FaceType.F
  }

  datatype RotType = Clock | Counter | Flip

  /** Positional table behind `get_face`, indexed by the move's value. */
  const FaceTable: seq<FaceType> :=
    [FaceType.U, FaceType.U, FaceType.U,
     FaceType.D, FaceType.D, FaceType.D,
     FaceType.L, FaceType.R, FaceType.F,
     FaceType.B, FaceType.L, FaceType.L,
     FaceType.R, FaceType.R, FaceType.F,
     FaceType.F, FaceType.B, FaceType.B]

  /** Positional table behind `get_rot_type`, indexed by the move's value. */
  const RotTable: seq<RotType> :=
    [Clock, Counter, Flip,
     Clock, Counter, Flip,
     Flip, Flip,
     Flip, Flip,
     Clock, Counter,
     Clock, Counter,
     Clock, Counter,
     Clock, Counter]

  /** `get_face`: the face named by the turn, whatever its value. */
  function GetFace(m: Move): (f: FaceType)
    ensures f == FaceType.U <==> m in {Move.U, Move.U1, Move.U2}
    ensures f == FaceType.D <==> m in {Move.D, Move.D1, Move.D2}
    ensures f == FaceType.L <==> m in {Move.L, Move.L1, Move.L2}
    ensures f == FaceType.R <==> m in {Move.R, Move.R1, Move.R2}
    ensures f == FaceType.F <==> m in {Move.F, Move.F1, Move.F2}
    ensures f == FaceType.B <==> m in {Move.B, Move.B1, Move.B2}
  {
    FaceTable[m.Value()]
  }

  /** `get_rot_type`: a bare name turns CLOCK, a trailing 1 COUNTER and a
      trailing 2 FLIP, whatever the turn's value. */
  function GetRotType(m: Move): (r: RotType)
    ensures r == Clock <==> m in {Move.U, Move.D, Move.L, Move.R, Move.F, Move.B}
    ensures r == Counter <==> m in {Move.U1, Move.D1, Move.L1, Move.R1, Move.F1, Move.B1}
    ensures r == Flip <==> m in {Move.U2, Move.D2, Move.L2, Move.R2, Move.F2, Move.B2}
  {
    RotTable[m.Value()]
  }

  /** The cyclic shift of a rotation kind along a 4-cycle. */
  function GetRotShift(r: RotType): (s: int)
    ensures s in {1, -1, 2}
    ensures s % 4 == 1 <==> r == Clock
    ensures s % 4 == 3 <==> r == Counter
    ensures s % 4 == 2 <==> r == Flip
  {
    match r
    case Clock => 1
    case Counter => -1
    case Flip => 2
  }

  /** The shift a move applies, as both facemaps compute it first. */
  function MoveShift(m: Move): int
  {
    GetRotShift(GetRotType(m))
  }

  /** Reference decomposition table: the turn of `face` of kind `rot`,
      written out independently of the positional tables. */
  function MoveFor(face: FaceType, rot: RotType): Move
  {
    match (face, rot)
    case (U, Clock) => Move.U   case (U, Counter) => Move.U1  case (U, Flip) => Move.U2
    case (D, Clock) => Move.D   case (D, Counter) => Move.D1  case (D, Flip) => Move.D2
    case (L, Clock) => Move.L   case (L, Counter) => Move.L1  case (L, Flip) => Move.L2
    case (R, Clock) => Move.R   case (R, Counter) => Move.R1  case (R, Flip) => Move.R2
    case (F, Clock) => Move.F   case (F, Counter) => Move.F1  case (F, Flip) => Move.F2
    case (B, Clock) => Move.B   case (B, Counter) => Move.B1  case (B, Flip) => Move.B2
  }

  /** Every (face, rotation kind) pair is the decomposition of some move. */
  lemma MoveForDecomposes(face: FaceType, rot: RotType)
    ensures GetFace(MoveFor(face, rot)) == face
    ensures GetRotType(MoveFor(face, rot)) == rot
  {
    match (face, rot)
    case (U, Clock) => case (U, Counter) => case (U, Flip) =>
    case (D, Clock) => case (D, Counter) => case (D, Flip) =>
    case (L, Clock) => case (L, Counter) => case (L, Flip) =>
    case (R, Clock) => case (R, Counter) => case (R, Flip) =>
    case (F, Clock) => case (F, Counter) => case (F, Flip) =>
    case (B, Clock) => case (B, Counter) => case (B, Flip) =>
  }

  /** No two moves share a decomposition: it determines the move. */
  lemma DecompositionDetermines(m: Move)
    ensures MoveFor(GetFace(m), GetRotType(m)) == m
  {
    match m
    case U => case U1 => case U2 => case D => case D1 => case D2 =>
    case L2 => case R2 => case F2 => case B2 => case L => case L1 =>
    case R => case R1 => case F => case F1 => case B => case B1 =>
  }

  /** `get_move`: the first move, by value, with the given decomposition;
      `None` stands for the exception raised when no move has it. */
  method GetMove(face: FaceType, rot: RotType) returns (r: Option<Move>)
    ensures r.Some? ==> GetFace(r.value) == face && GetRotType(r.value) == rot
    ensures r.Some? ==> r.value == MoveFor(face, rot)
    ensures r.None? <==> forall m: Move :: !(GetFace(m) == face && GetRotType(m) == rot)
    ensures r.Some? ==> forall m: Move :: m.Value() < r.value.Value() ==>
                          !(GetFace(m) == face && GetRotType(m) == rot)
  {
    for i := 0 to 18
      invariant forall j :: 0 <= j < i ==>
        !(GetFace(MoveOfValue(j)) == face && GetRotType(MoveOfValue(j)) == rot)
    {
      var move := MoveOfValue(i);
      if GetFace(move) == face && GetRotType(move) == rot {
        DecompositionDetermines(move);
        forall m: Move | m.Value() < move.Value()
          ensures !(GetFace(m) == face && GetRotType(m) == rot)
        {
          ValueRoundTrip(m);
        }
        return Some(move);
      }
    }
    forall m: Move ensures !(GetFace(m) == face && GetRotType(m) == rot) {
      ValueRoundTrip(m);
    }
    return None;
  }

  /** The search in `get_move` never reaches its `raise`. */
  lemma GetMoveNeverRaises(face: FaceType, rot: RotType)
    ensures exists m: Move :: GetFace(m) == face && GetRotType(m) == rot
  {
    MoveForDecomposes(face, rot);
  }

  /** Exchanges CLOCK and COUNTER; a half turn is its own inverse. */
  function SwapRot(r: RotType): RotType
  {
    match r
    case Clock => Counter
    case Counter => Clock
    case Flip => Flip
  }

  /** The turn that undoes `m`: the same face, the opposite rotation. */
  function Inverse(m: Move): Move
  {
    match m
    case U => Move.U1  case U1 => Move.U  case U2 => Move.U2
    case D => Move.D1  case D1 => Move.D  case D2 => Move.D2
    case L2 => Move.L2 case R2 => Move.R2 case F2 => Move.F2 case B2 => Move.B2
    case L => Move.L1  case L1 => Move.L  case R => Move.R1  case R1 => Move.R
    case F => Move.F1  case F1 => Move.F  case B => Move.B1  case B1 => Move.B
  }

  /** The inverse turns the same face the other way, so the two shifts
      cancel. */
  lemma InverseDecomposes(m: Move)
    ensures GetFace(Inverse(m)) == GetFace(m) && GetRotType(Inverse(m)) == SwapRot(GetRotType(m))
    ensures (MoveShift(m) + MoveShift(Inverse(m))) % 4 == 0
  {
    var r := GetRotType(m);
    InverseIsGetMoveOfSwap(m);
    MoveForDecomposes(GetFace(m), SwapRot(r));
    match r
    case Clock => case Counter => case Flip =>
  }

  /** The inverse is the move `get_move(get_face(m), swap(get_rot_type(m)))`. */
  lemma InverseIsGetMoveOfSwap(m: Move)
    ensures Inverse(m) == MoveFor(GetFace(m), SwapRot(GetRotType(m)))
  {
    match m
    case U => case U1 => case U2 => case D => case D1 => case D2 =>
    case L2 => case R2 => case F2 => case B2 => case L => case L1 =>
    case R => case R1 => case F => case F1 => case B => case B1 =>
  }

  /** Inverting twice gives the move back. */
  lemma InverseInvolutive(m: Move)
    ensures Inverse(Inverse(m)) == m
  {
    match m
    case U => case U1 => case U2 => case D => case D1 => case D2 =>
    case L2 => case R2 => case F2 => case B2 => case L => case L1 =>
    case R => case R1 => case F => case F1 => case B => case B1 =>
  }

  /** The inverses of the moves of the 9-move alphabet. */
  lemma InverseTable()
    ensures Inverse(Move.U) == Move.U1 && Inverse(Move.U1) == Move.U && Inverse(Move.U2) == Move.U2
    ensures Inverse(Move.L) == Move.L1 && Inverse(Move.L1) == Move.L && Inverse(Move.L2) == Move.L2
    ensures Inverse(Move.F) == Move.F1 && Inverse(Move.F1) == Move.F && Inverse(Move.F2) == Move.F2
  {
  }

  /** The half turn of the same face as `m`. */
  function HalfTurnOf(m: Move): (h: Move)
    ensures GetFace(h) == GetFace(m) && GetRotType(h) == Flip
  {
    MoveForDecomposes(GetFace(m), Flip);
    MoveFor(GetFace(m), Flip)
  }

  /** The list of `restricted_move_mapping`, in its order. */
  const RestrictedMoves: seq<Move> :=
    [Move.U, Move.U1, Move.U2,
     Move.L, Move.L1, Move.L2,
     Move.F, Move.F1, Move.F2]

  /** Entry v of the list turns U, L or F and sits at its own slot. */
  lemma RestrictedMovesDecompose(v: int)
    requires 0 <= v < 9
    ensures GetFace(RestrictedMoves[v]) in {FaceType.U, FaceType.L, FaceType.F}
    ensures RestrictedSlot(GetFace(RestrictedMoves[v]), GetRotType(RestrictedMoves[v])) == v
  {
    if v == 0 {} else if v == 1 {} else if v == 2 {} else if v == 3 {}
    else if v == 4 {} else if v == 5 {} else if v == 6 {} else if v == 7 {}
  }

  /** `restricted_move_mapping`: the 9-move alphabet of the 2x2x2 cube.
      Value v is the turn of U, L or F whose slot, face-major with CLOCK,
      COUNTER, FLIP in that order, is v. */
  function RestrictedMoveMapping(v: int): (m: Move)
    requires 0 <= v < 9
    ensures GetFace(m) in {FaceType.U, FaceType.L, FaceType.F}
    ensures RestrictedSlot(GetFace(m), GetRotType(m)) == v
  {
    RestrictedMovesDecompose(v);
    RestrictedMoves[v]
  }

  /** The 9-move alphabet only turns U, L or F, and no two of its entries
      have the same decomposition. */
  lemma RestrictedAlphabetFaces()
    ensures forall v :: 0 <= v < 9 ==>
      GetFace(RestrictedMoveMapping(v)) in {FaceType.U, FaceType.L, FaceType.F}
    ensures forall v, w ::
              (0 <= v < 9 && 0 <= w < 9 &&
               GetFace(RestrictedMoveMapping(v)) == GetFace(RestrictedMoveMapping(w)) &&
               GetRotType(RestrictedMoveMapping(v)) == GetRotType(RestrictedMoveMapping(w)))
              ==> v == w
  {
  }

  /** The position a (face, rotation kind) pair takes in the 9-move list. */
  function RestrictedSlot(face: FaceType, rot: RotType): int
  {
    (match face case U => 0 case L => 3 case _ => 6) +
    (match rot case Clock => 0 case Counter => 1 case Flip => 2)
  }

  /** Every rotation kind of U, L and F appears in the 9-move alphabet. */
  lemma RestrictedAlphabetCovers(face: FaceType, rot: RotType)
    requires face in {FaceType.U, FaceType.L, FaceType.F}
    ensures exists v :: 0 <= v < 9 && GetFace(RestrictedMoveMapping(v)) == face &&
                                    GetRotType(RestrictedMoveMapping(v)) == rot
  {
    var k := RestrictedSlot(face, rot);
    assert GetFace(RestrictedMoveMapping(k)) == face;
    assert GetRotType(RestrictedMoveMapping(k)) == rot;
  }
}
