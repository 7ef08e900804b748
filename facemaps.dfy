// The facelet transition model of rubiks.py: where a turn sends each
// (face, facelet) position, for the 2x2x2 and the 3x3x3 cube.
//
// A facelet on the turned face advances along a 4-cycle of positions on that
// face; a facelet on one of the four faces around it advances along that
// face's face chain, keeping its position in the aligned facelet chain; any
// other facelet stays where it is.  Both sizes share the two steps below; the
// shift is a parameter so that composition can be proved once for all moves.
module Facemaps {
  import opened Moves

  /** The cube sizes that have a transition table. */
  type CubeSize = n: nat | n == 2 || n == 3 witness 2

  /** `N ** 2`, the number of facelets on one face. */
  function Cells(n: CubeSize): (c: nat)
    ensures c == 4 <==> n == 2
    ensures c == 9 <==> n == 3
  {
    if n == 2 then 4 else 9
  }

  lemma CellsIsSquare(n: CubeSize)
    ensures Cells(n) == n * n
  {
  }

  /** `.index`: the first position holding `x`. */
  function IndexOf<T(==)>(s: seq<T>, x: T): (k: nat)
    requires x in s
    ensures k < |s| && s[k] == x && x !in s[..k]
  {
    if s[0] == x then 0 else
      assert s == [s[0]] + s[1..];
      1 + IndexOf(s[1..], x)
  }

  ghost predicate Distinct<T>(s: seq<T>)
  {
    forall j, k :: 0 <= j < k < |s| ==> s[j] != s[k]
  }

  lemma IndexOfDistinct<T>(s: seq<T>, k: nat)
    requires Distinct(s) && k < |s|
    ensures IndexOf(s, s[k]) == k
  {
  }

  /** The face chain of each turned face, indexed by the face's value. */
  const FaceChains: seq<seq<FaceType>> :=
    [[FaceType.F, FaceType.L, FaceType.B, FaceType.R],   // U
     [FaceType.F, FaceType.R, FaceType.B, FaceType.L],   // D
     [FaceType.F, FaceType.D, FaceType.B, FaceType.U],   // L
     [FaceType.F, FaceType.U, FaceType.B, FaceType.D],   // R
     [FaceType.U, FaceType.R, FaceType.D, FaceType.L],   // F
     [FaceType.U, FaceType.L, FaceType.D, FaceType.R]]   // B

  /** The facelet chains of the 2x2x2 cube, aligned with `FaceChains`. */
  const FaceletChains2: seq<seq<seq<nat>>> :=
    [[[0, 1], [0, 1], [0, 1], [0, 1]],
     [[2, 3], [2, 3], [2, 3], [2, 3]],
     [[0, 2], [0, 2], [3, 1], [0, 2]],
     [[1, 3], [1, 3], [2, 0], [1, 3]],
     [[2, 3], [0, 2], [1, 0], [3, 1]],
     [[0, 1], [2, 0], [3, 2], [1, 3]]]

  /** The facelet chains of the 3x3x3 cube, aligned with `FaceChains`. */
  const FaceletChains3: seq<seq<seq<nat>>> :=
    [[[0, 1, 2], [0, 1, 2], [0, 1, 2], [0, 1, 2]],
     [[6, 7, 8], [6, 7, 8], [6, 7, 8], [6, 7, 8]],
     [[0, 3, 6], [0, 3, 6], [8, 5, 2], [0, 3, 6]],
     [[2, 5, 8], [2, 5, 8], [6, 3, 0], [2, 5, 8]],
     [[6, 7, 8], [0, 3, 6], [2, 1, 0], [8, 5, 2]],
     [[0, 1, 2], [6, 3, 0], [8, 7, 6], [2, 5, 8]]]

  /** The 4-cycle of positions on a turned 2x2x2 face. */
  const Ring2: seq<nat> := [0, 1, 3, 2]

  /** The corner and the edge 4-cycle on a turned 3x3x3 face; 4 is the centre. */
  const Rings3: seq<seq<nat>> := [[0, 2, 8, 6], [1, 5, 7, 3]]

  /** What `ChainStep` needs of a chain pair to index it safely. */
  ghost predicate ChainShape(fc: seq<FaceType>, lc: seq<seq<nat>>, w: nat)
  {
    |fc| == 4 && |lc| == 4 &&
    (forall p :: 0 <= p < 4 ==> |lc[p]| == |lc[0]|) &&
    (forall p, j :: 0 <= p < 4 && 0 <= j < |lc[p]| ==> lc[p][j] < w)
  }

  /** What makes a chain pair a permutation: distinct faces other than the
      turned face `t`, and distinct facelets on each face. */
  ghost predicate WellFormedChain(t: FaceType, fc: seq<FaceType>, lc: seq<seq<nat>>, w: nat)
  {
    ChainShape(fc, lc, w) && t !in fc && Distinct(fc) &&
    forall p :: 0 <= p < 4 ==> Distinct(lc[p])
  }

  ghost predicate WellFormedTables(lcs: seq<seq<seq<nat>>>, w: nat)
  {
    |FaceChains| == 6 && |lcs| == 6 &&
    forall t :: 0 <= t < 6 ==> WellFormedChain(FaceOfValue(t), FaceChains[t], lcs[t], w)
  }

  lemma ChainTables2WellFormed()
    ensures WellFormedTables(FaceletChains2, 4)
  {
    forall t | 0 <= t < 6
      ensures WellFormedChain(FaceOfValue(t), FaceChains[t], FaceletChains2[t], 4)
    {
      ChainWellFormed(t, FaceletChains2[t], 4);
    }
  }

  lemma ChainTables3WellFormed()
    ensures WellFormedTables(FaceletChains3, 9)
    ensures forall t, p :: 0 <= t < 6 && 0 <= p < 4 ==> 4 !in FaceletChains3[t][p]
  {
    forall t | 0 <= t < 6
      ensures WellFormedChain(FaceOfValue(t), FaceChains[t], FaceletChains3[t], 9)
      ensures forall p :: 0 <= p < 4 ==> 4 !in FaceletChains3[t][p]
    {
      ChainWellFormed(t, FaceletChains3[t], 9);
    }
  }

  /** One face chain with its facelet chains, checked entry by entry. */
  lemma ChainWellFormed(t: nat, lc: seq<seq<nat>>, w: nat)
    requires t < 6 && ((lc == FaceletChains2[t] && w == 4) || (lc == FaceletChains3[t] && w == 9))
    ensures WellFormedChain(FaceOfValue(t), FaceChains[t], lc, w)
    ensures w == 9 ==> forall p :: 0 <= p < 4 ==> 4 !in lc[p]
  {
    var fc := FaceChains[t];
    assert |fc| == 4 && FaceOfValue(t) !in fc && Distinct(fc) by {
      if t == 0 {} else if t == 1 {} else if t == 2 {}
      else if t == 3 {} else if t == 4 {} else {}
    }
    assert |lc| == 4;
    forall p | 0 <= p < 4
      ensures |lc[p]| == |lc[0]| && Distinct(lc[p])
      ensures forall j :: 0 <= j < |lc[p]| ==> lc[p][j] < w
      ensures w == 9 ==> 4 !in lc[p]
    {
      if t == 0 {} else if t == 1 {} else if t == 2 {}
      else if t == 3 {} else if t == 4 {} else {}
    }
  }

  lemma Rings3WellFormed()
    ensures Distinct(Rings3[0]) && Distinct(Rings3[1])
    ensures forall x :: x in Rings3[0] ==> x !in Rings3[1]
    ensures forall x: nat :: x < 9 && x != 4 <==> x in Rings3[0] || x in Rings3[1]
  {
  }

  /** The turned face's own facelet: one step of `shift` along `ring`. */
  function RingStep(ring: seq<nat>, facelet: nat, shift: int): (r: nat)
    requires facelet in ring
    ensures r in ring
  {
    ring[(IndexOf(ring, facelet) + shift) % |ring|]
  }

  /** A facelet off the turned face: if its face is at position p of the
      face chain and the facelet at position j of p's facelet chain, it moves
      to position j of the facelet chain at p + shift; otherwise it stays. */
  function ChainStep(face: nat, facelet: nat, fc: seq<FaceType>, lc: seq<seq<nat>>,
                     w: nat, shift: int): (r: (nat, nat))
    requires face < 6 && facelet < w && ChainShape(fc, lc, w)
    ensures r.0 < 6 && r.1 < w
  {
    if FaceOfValue(face) !in fc then (face, facelet)
    else
      var p := IndexOf(fc, FaceOfValue(face));
      var q := (p + shift) % |fc|;
      var nextFace := fc[q];
      if facelet !in lc[p] then (face, facelet)
      else
        var j := IndexOf(lc[p], facelet);
        (nextFace.Value(), lc[q][j])
  }

  /** `facemap_2` with the turned face and the shift already computed. */
  function Turn2(face: nat, facelet: nat, turned: FaceType, shift: int): (r: (nat, nat))
    requires face < 6 && facelet < 4
    ensures r.0 < 6 && r.1 < 4
  {
    ChainTables2WellFormed();
    if turned == FaceOfValue(face) then
      (face, RingStep(Ring2, facelet, shift))
    else
      ChainStep(face, facelet, FaceChains[turned.Value()], FaceletChains2[turned.Value()], 4, shift)
  }

  /** `facemap_3` with the turned face and the shift already computed. */
  function Turn3(face: nat, facelet: nat, turned: FaceType, shift: int): (r: (nat, nat))
    requires face < 6 && facelet < 9
    ensures r.0 < 6 && r.1 < 9
  {
    ChainTables3WellFormed();
    Rings3WellFormed();
    if facelet == 4 then (face, facelet)
    else if turned == FaceOfValue(face) then
      var ring := if facelet in Rings3[0] then Rings3[0] else Rings3[1];
      (face, RingStep(ring, facelet, shift))
    else
      ChainStep(face, facelet, FaceChains[turned.Value()], FaceletChains3[turned.Value()], 9, shift)
  }

  /** `facemap_2`: where move `m` sends facelet `facelet` of face `face`. */
  function Facemap2(face: nat, facelet: nat, m: Move): (r: (nat, nat))
    requires face < 6 && facelet < 4
    ensures r.0 < 6 && r.1 < 4
    ensures face == GetFace(m).Value() ==> r.0 == face
    ensures face == Opposite(GetFace(m)).Value() ==> r == (face, facelet)
  {
    FaceValueRoundTrip(GetFace(m));
    FaceValueRoundTrip(Opposite(GetFace(m)));
    OppositeNotInChain(GetFace(m));
    Turn2(face, facelet, GetFace(m), MoveShift(m))
  }

  /** `facemap_3`: where move `m` sends facelet `facelet` of face `face`. */
  function Facemap3(face: nat, facelet: nat, m: Move): (r: (nat, nat))
    requires face < 6 && facelet < 9
    ensures r.0 < 6 && r.1 < 9
    ensures facelet == 4 ==> r == (face, 4)
    ensures face == GetFace(m).Value() ==> r.0 == face
    ensures face == Opposite(GetFace(m)).Value() ==> r == (face, facelet)
  {
    FaceValueRoundTrip(GetFace(m));
    FaceValueRoundTrip(Opposite(GetFace(m)));
    OppositeNotInChain(GetFace(m));
    Turn3(face, facelet, GetFace(m), MoveShift(m))
  }

  /** The size-indexed step shared by the lemmas below. */
  function Turn(n: CubeSize, face: nat, facelet: nat, turned: FaceType, shift: int): (r: (nat, nat))
    requires face < 6 && facelet < Cells(n)
    ensures r.0 < 6 && r.1 < Cells(n)
  {
    if n == 2 then Turn2(face, facelet, turned, shift) else Turn3(face, facelet, turned, shift)
  }

  /** `facemaps[n]`: the transition table of the given size. */
  function Facemap(n: CubeSize, face: nat, facelet: nat, m: Move): (r: (nat, nat))
    requires face < 6 && facelet < Cells(n)
    ensures r.0 < 6 && r.1 < Cells(n)
  {
    if n == 2 then Facemap2(face, facelet, m) else Facemap3(face, facelet, m)
  }

  // ----- Composition of steps along one cycle -----

  lemma RingStepCompose(ring: seq<nat>, x: nat, s1: int, s2: int)
    requires |ring| == 4 && Distinct(ring) && x in ring
    ensures RingStep(ring, x, s1) in ring
    ensures RingStep(ring, RingStep(ring, x, s1), s2) == RingStep(ring, x, s1 + s2)
  {
    var k1 := (IndexOf(ring, x) + s1) % 4;
    IndexOfDistinct(ring, k1);
    ModAdd(IndexOf(ring, x), s1, s2);
  }

  /** Stepping along a 4-cycle by s1 and then s2 is stepping by s1 + s2. */
  lemma ModAdd(p: int, s1: int, s2: int)
    ensures ((p + s1) % 4 + s2) % 4 == (p + (s1 + s2)) % 4
  {
  }

  lemma RingStepZero(ring: seq<nat>, x: nat, s: int)
    requires |ring| == 4 && x in ring && s % 4 == 0
    ensures RingStep(ring, x, s) == x
  {
  }

  lemma ChainStepCompose(t: FaceType, fc: seq<FaceType>, lc: seq<seq<nat>>, w: nat,
                         face: nat, facelet: nat, s1: int, s2: int)
    requires WellFormedChain(t, fc, lc, w) && face < 6 && facelet < w
    ensures var y := ChainStep(face, facelet, fc, lc, w, s1);
      (FaceOfValue(face) != t ==> FaceOfValue(y.0) != t) &&
      (y.1 != facelet ==> exists p :: 0 <= p < 4 && y.1 in lc[p]) &&
      ChainStep(y.0, y.1, fc, lc, w, s2) == ChainStep(face, facelet, fc, lc, w, s1 + s2)
  {
    ChainStepStaysInChain(t, fc, lc, w, face, facelet, s1);
    ChainStepAdd(t, fc, lc, w, face, facelet, s1, s2);
  }

  /** A chain step never lands on the turned face, and a facelet that moves
      lands on one of the chain's facelet lists. */
  lemma ChainStepStaysInChain(t: FaceType, fc: seq<FaceType>, lc: seq<seq<nat>>, w: nat,
                              face: nat, facelet: nat, s: int)
    requires WellFormedChain(t, fc, lc, w) && face < 6 && facelet < w
    ensures var y := ChainStep(face, facelet, fc, lc, w, s);
      (FaceOfValue(face) != t ==> FaceOfValue(y.0) != t) &&
      (y.1 != facelet ==> exists p :: 0 <= p < 4 && y.1 in lc[p])
  {
    var f := FaceOfValue(face);
    if f in fc {
      var p := IndexOf(fc, f);
      var q := (p + s) % 4;
      if facelet in lc[p] {
        FaceValueRoundTrip(fc[q]);
        var j := IndexOf(lc[p], facelet);
        assert lc[q][j] in lc[q];
      }
    }
  }

  lemma ChainStepAdd(t: FaceType, fc: seq<FaceType>, lc: seq<seq<nat>>, w: nat,
                     face: nat, facelet: nat, s1: int, s2: int)
    requires WellFormedChain(t, fc, lc, w) && face < 6 && facelet < w
    ensures var y := ChainStep(face, facelet, fc, lc, w, s1);
      ChainStep(y.0, y.1, fc, lc, w, s2) == ChainStep(face, facelet, fc, lc, w, s1 + s2)
  {
    var f := FaceOfValue(face);
    if f in fc {
      var p := IndexOf(fc, f);
      var q := (p + s1) % 4;
      if facelet in lc[p] {
        var j := IndexOf(lc[p], facelet);
        var y := (fc[q].Value(), lc[q][j]);
        assert ChainStep(face, facelet, fc, lc, w, s1) == y;
        FaceValueRoundTrip(fc[q]);
        IndexOfDistinct(fc, q);
        assert lc[q][j] in lc[q];
        IndexOfDistinct(lc[q], j);
        ModAdd(p, s1, s2);
        assert ChainStep(y.0, y.1, fc, lc, w, s2) == (fc[(q + s2) % 4].Value(), lc[(q + s2) % 4][j]);
      }
    }
  }

  lemma ChainStepZero(t: FaceType, fc: seq<FaceType>, lc: seq<seq<nat>>, w: nat,
                      face: nat, facelet: nat, s: int)
    requires WellFormedChain(t, fc, lc, w) && face < 6 && facelet < w && s % 4 == 0
    ensures ChainStep(face, facelet, fc, lc, w, s) == (face, facelet)
  {
  }

  lemma Turn2Compose(face: nat, facelet: nat, t: FaceType, s1: int, s2: int)
    requires face < 6 && facelet < 4
    ensures var y := Turn2(face, facelet, t, s1);
      Turn2(y.0, y.1, t, s2) == Turn2(face, facelet, t, s1 + s2)
  {
    FaceValueRoundTrip(t);
    ChainTables2WellFormed();
    if t == FaceOfValue(face) {
      RingStepCompose(Ring2, facelet, s1, s2);
    } else {
      ChainStepCompose(t, FaceChains[t.Value()], FaceletChains2[t.Value()], 4, face, facelet, s1, s2);
    }
  }

  lemma Turn3Compose(face: nat, facelet: nat, t: FaceType, s1: int, s2: int)
    requires face < 6 && facelet < 9
    ensures var y := Turn3(face, facelet, t, s1);
      Turn3(y.0, y.1, t, s2) == Turn3(face, facelet, t, s1 + s2)
  {
    FaceValueRoundTrip(t);
    ChainTables3WellFormed();
    Rings3WellFormed();
    if facelet == 4 {
    } else if t == FaceOfValue(face) {
      var ring := if facelet in Rings3[0] then Rings3[0] else Rings3[1];
      RingStepCompose(ring, facelet, s1, s2);
    } else {
      ChainStepCompose(t, FaceChains[t.Value()], FaceletChains3[t.Value()], 9, face, facelet, s1, s2);
    }
  }

  /** Two steps of the same face compose into one step of the summed shift. */
  lemma TurnCompose(n: CubeSize, face: nat, facelet: nat, t: FaceType, s1: int, s2: int)
    requires face < 6 && facelet < Cells(n)
    ensures var y := Turn(n, face, facelet, t, s1);
      Turn(n, y.0, y.1, t, s2) == Turn(n, face, facelet, t, s1 + s2)
  {
    if n == 2 { Turn2Compose(face, facelet, t, s1, s2); }
    else { Turn3Compose(face, facelet, t, s1, s2); }
  }

  lemma Turn2Zero(face: nat, facelet: nat, t: FaceType, s: int)
    requires face < 6 && facelet < 4 && s % 4 == 0
    ensures Turn2(face, facelet, t, s) == (face, facelet)
  {
    FaceValueRoundTrip(t);
    ChainTables2WellFormed();
    if t == FaceOfValue(face) {
      RingStepZero(Ring2, facelet, s);
    } else {
      ChainStepZero(t, FaceChains[t.Value()], FaceletChains2[t.Value()], 4, face, facelet, s);
    }
  }

  lemma Turn3Zero(face: nat, facelet: nat, t: FaceType, s: int)
    requires face < 6 && facelet < 9 && s % 4 == 0
    ensures Turn3(face, facelet, t, s) == (face, facelet)
  {
    FaceValueRoundTrip(t);
    ChainTables3WellFormed();
    Rings3WellFormed();
    if facelet == 4 {
    } else if t == FaceOfValue(face) {
      var ring := if facelet in Rings3[0] then Rings3[0] else Rings3[1];
      RingStepZero(ring, facelet, s);
    } else {
      ChainStepZero(t, FaceChains[t.Value()], FaceletChains3[t.Value()], 9, face, facelet, s);
    }
  }

  /** A shift that is a multiple of 4 moves nothing. */
  lemma TurnZero(n: CubeSize, face: nat, facelet: nat, t: FaceType, s: int)
    requires face < 6 && facelet < Cells(n) && s % 4 == 0
    ensures Turn(n, face, facelet, t, s) == (face, facelet)
  {
    if n == 2 { Turn2Zero(face, facelet, t, s); } else { Turn3Zero(face, facelet, t, s); }
  }

  /** An unfolding step, not a property: `Facemap` rewritten as `Turn` at
      the move's face and shift, so that lemmas about shifts apply to it. */
  lemma FacemapIsTurn(n: CubeSize, face: nat, facelet: nat, m: Move)
    requires face < 6 && facelet < Cells(n)
    ensures Facemap(n, face, facelet, m) == Turn(n, face, facelet, GetFace(m), MoveShift(m))
  {
  }

  lemma ModDifference(a: int, b: int)
    requires a % 4 == b % 4
    ensures (b - a) % 4 == 0
  {
    assert b - a == 4 * (b / 4 - a / 4);
  }

  lemma FourShiftsVanish(s: int)
    ensures (s + s + (s + s)) % 4 == 0
  {
    assert s + s + (s + s) == 4 * s;
  }

  /** A step depends on its shift only modulo 4. */
  lemma TurnShiftMod(n: CubeSize, face: nat, facelet: nat, t: FaceType, s1: int, s2: int)
    requires face < 6 && facelet < Cells(n) && s1 % 4 == s2 % 4
    ensures Turn(n, face, facelet, t, s1) == Turn(n, face, facelet, t, s2)
  {
    var d := s2 - s1;
    assert d % 4 == 0 by {
      ModDifference(s1, s2);
    }
    var y := Turn(n, face, facelet, t, s1);
    assert Turn(n, y.0, y.1, t, d) == y by {
      TurnZero(n, y.0, y.1, t, d);
    }
    assert Turn(n, y.0, y.1, t, d) == Turn(n, face, facelet, t, s1 + d) by {
      TurnCompose(n, face, facelet, t, s1, d);
    }
    assert s1 + d == s2;
  }

  /** A step followed by a step whose shift cancels it modulo 4 is the
      identity. */
  lemma TurnUndone(n: CubeSize, face: nat, facelet: nat, t: FaceType, s1: int, s2: int)
    requires face < 6 && facelet < Cells(n) && (s1 + s2) % 4 == 0
    ensures var y := Turn(n, face, facelet, t, s1);
      Turn(n, y.0, y.1, t, s2) == (face, facelet)
  {
    var s := s1 + s2;
    TurnCompose(n, face, facelet, t, s1, s2);
    TurnZero(n, face, facelet, t, s);
  }

  // ----- Properties of the transition tables, move by move -----

  /** The inverse move undoes every facelet transition: a CLOCK turn
      followed by the COUNTER turn of the same face, and the reverse, are
      the identity. */
  lemma FacemapInverse(n: CubeSize, face: nat, facelet: nat, m: Move)
    requires face < 6 && facelet < Cells(n)
    ensures var y := Facemap(n, face, facelet, m);
      Facemap(n, y.0, y.1, Inverse(m)) == (face, facelet)
  {
    InverseDecomposes(m);
    TurnUndone(n, face, facelet, GetFace(m), MoveShift(m), MoveShift(Inverse(m)));
  }

  /** A position of the 6 x n*n grid. */
  predicate InGrid(n: CubeSize, face: nat, facelet: nat)
  {
    face < 6 && facelet < Cells(n)
  }

  /** For every move, the transition is a bijection of the 6 x n*n grid. */
  lemma FacemapBijective(n: CubeSize, m: Move)
    ensures forall f1: nat, i1: nat, f2: nat, i2: nat ::
              (InGrid(n, f1, i1) && InGrid(n, f2, i2) &&
               Facemap(n, f1, i1, m) == Facemap(n, f2, i2, m)) ==> f1 == f2 && i1 == i2
    ensures forall g: nat, j: nat :: InGrid(n, g, j) ==>
              exists f: nat, i: nat :: InGrid(n, f, i) && Facemap(n, f, i, m) == (g, j)
  {
    forall f1: nat, i1: nat, f2: nat, i2: nat |
        InGrid(n, f1, i1) && InGrid(n, f2, i2) && Facemap(n, f1, i1, m) == Facemap(n, f2, i2, m)
      ensures f1 == f2 && i1 == i2
    {
      FacemapInverse(n, f1, i1, m);
      FacemapInverse(n, f2, i2, m);
    }
    forall g: nat, j: nat | InGrid(n, g, j)
      ensures exists f: nat, i: nat :: InGrid(n, f, i) && Facemap(n, f, i, m) == (g, j)
    {
      var x := Facemap(n, g, j, Inverse(m));
      FacemapPreimage(n, g, j, m);
      assert InGrid(n, x.0, x.1) && Facemap(n, x.0, x.1, m) == (g, j);
    }
  }

  /** The preimage of a position under `m` is its image under the inverse. */
  lemma FacemapPreimage(n: CubeSize, g: nat, j: nat, m: Move)
    requires g < 6 && j < Cells(n)
    ensures var x := Facemap(n, g, j, Inverse(m)); Facemap(n, x.0, x.1, m) == (g, j)
  {
    FacemapInverse(n, g, j, Inverse(m));
    InverseInvolutive(m);
  }

  /** A half turn applied twice is the identity. */
  lemma FlipTwice(n: CubeSize, face: nat, facelet: nat, m: Move)
    requires face < 6 && facelet < Cells(n) && GetRotType(m) == Flip
    ensures var y := Facemap(n, face, facelet, m);
      Facemap(n, y.0, y.1, m) == (face, facelet)
  {
    var t := GetFace(m);
    var y := Facemap(n, face, facelet, m);
    assert Facemap(n, y.0, y.1, m) == Turn(n, face, facelet, t, 4) by {
      Twice(n, face, facelet, m);
      assert MoveShift(m) == 2;
    }
    TurnZero(n, face, facelet, t, 4);
  }

  /** Two quarter turns of a face in the same direction make its half turn. */
  lemma QuarterTwiceIsHalf(n: CubeSize, face: nat, facelet: nat, m: Move)
    requires face < 6 && facelet < Cells(n) && GetRotType(m) != Flip
    ensures var y := Facemap(n, face, facelet, m);
      Facemap(n, y.0, y.1, m) == Facemap(n, face, facelet, HalfTurnOf(m))
  {
    var t, s := GetFace(m), MoveShift(m);
    var h := HalfTurnOf(m);
    var y := Facemap(n, face, facelet, m);
    assert Facemap(n, y.0, y.1, m) == Turn(n, face, facelet, t, s + s) by {
      Twice(n, face, facelet, m);
    }
    assert Turn(n, face, facelet, t, s + s) == Turn(n, face, facelet, t, 2) by {
      assert s == 1 || s == -1;
      DoubleQuarter(s);
      TurnShiftMod(n, face, facelet, t, s + s, 2);
    }
    assert Facemap(n, face, facelet, h) == Turn(n, face, facelet, t, 2) by {
      FacemapIsTurn(n, face, facelet, h);
      assert MoveShift(h) == 2;
    }
  }

  lemma DoubleQuarter(s: int)
    requires s == 1 || s == -1
    ensures (s + s) % 4 == 2 % 4
  {
  }

  /** A move applied twice is one step of twice its shift. */
  lemma Twice(n: CubeSize, face: nat, facelet: nat, m: Move)
    requires face < 6 && facelet < Cells(n)
    ensures var y := Facemap(n, face, facelet, m);
      Facemap(n, y.0, y.1, m) == Turn(n, face, facelet, GetFace(m), MoveShift(m) + MoveShift(m))
  {
    TurnCompose(n, face, facelet, GetFace(m), MoveShift(m), MoveShift(m));
  }

  /** Any move applied four times is the identity (in particular a CLOCK turn). */
  lemma FourTimes(n: CubeSize, face: nat, facelet: nat, m: Move)
    requires face < 6 && facelet < Cells(n)
    ensures var y1 := Facemap(n, face, facelet, m);
      var y2 := Facemap(n, y1.0, y1.1, m);
      var y3 := Facemap(n, y2.0, y2.1, m);
      Facemap(n, y3.0, y3.1, m) == (face, facelet)
  {
    var t, ss := GetFace(m), MoveShift(m) + MoveShift(m);
    var y1 := Facemap(n, face, facelet, m);
    var y2 := Facemap(n, y1.0, y1.1, m);
    Twice(n, face, facelet, m);
    Twice(n, y2.0, y2.1, m);
    FourShiftsVanish(MoveShift(m));
    DoubleShiftTwice(n, face, facelet, t, ss);
  }

  /** Turning twice by a shift whose double is a multiple of 4 is the
      identity. */
  lemma DoubleShiftTwice(n: CubeSize, face: nat, facelet: nat, t: FaceType, u: int)
    requires face < 6 && facelet < Cells(n) && (u + u) % 4 == 0
    ensures var z := Turn(n, face, facelet, t, u);
      Turn(n, z.0, z.1, t, u) == (face, facelet)
  {
    TurnUndone(n, face, facelet, t, u, u);
  }

  /** A facelet on the turned face stays on that face. */
  lemma TurnedFaceStays(n: CubeSize, face: nat, facelet: nat, m: Move)
    requires face < 6 && facelet < Cells(n) && face == GetFace(m).Value()
    ensures Facemap(n, face, facelet, m).0 == face
  {
    FaceValueRoundTrip(GetFace(m));
  }

  lemma OppositeNotInChain(t: FaceType)
    ensures Opposite(t) !in FaceChains[t.Value()]
  {
    match t
    case U => case D => case L => case R => case F => case B =>
  }

  /** Every facelet of the face opposite the turned face is left in place. */
  lemma OppositeFaceFixed(n: CubeSize, face: nat, facelet: nat, m: Move)
    requires face < 6 && facelet < Cells(n) && face == Opposite(GetFace(m)).Value()
    ensures Facemap(n, face, facelet, m) == (face, facelet)
  {
    FaceValueRoundTrip(Opposite(GetFace(m)));
    OppositeNotInChain(GetFace(m));
  }

  /** On the 3x3x3 cube the centre facelet 4 of every face is a fixed point,
      and no other facelet is ever sent to a centre. */
  lemma CentreFixed(face: nat, facelet: nat, m: Move)
    requires face < 6 && facelet < 9
    ensures facelet == 4 ==> Facemap3(face, facelet, m) == (face, 4)
    ensures Facemap3(face, facelet, m).1 == 4 <==> facelet == 4
  {
    var t := GetFace(m);
    FaceValueRoundTrip(t);
    ChainTables3WellFormed();
    Rings3WellFormed();
    if facelet != 4 {
      if t == FaceOfValue(face) {
        var ring := if facelet in Rings3[0] then Rings3[0] else Rings3[1];
        RingStepCompose(ring, facelet, MoveShift(m), 0);
      } else {
        ChainStepCompose(t, FaceChains[t.Value()], FaceletChains3[t.Value()], 9,
                         face, facelet, MoveShift(m), 0);
      }
    }
  }
}
