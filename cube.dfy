// The cube state of rubiks.py: six faces of N*N colours, and the turn that
// rewrites them in place by scattering every colour to the position the
// transition table sends it to.
module Cube {
  import opened Moves
  import opened Facemaps
  import SeqPerm

  /** Face and then facelet; colours are meant to lie in 0..5. */
  type Faces = seq<seq<int>>

  /** Six faces of exactly N*N facelets each. */
  ghost predicate WellShaped(n: CubeSize, faces: Faces)
  {
    |faces| == 6 && forall f :: 0 <= f < 6 ==> |faces[f]| == Cells(n)
  }

  /** Six faces each long enough for every read `do_move` makes. */
  ghost predicate HasCells(n: CubeSize, faces: Faces)
  {
    |faces| == 6 && forall f :: 0 <= f < 6 ==> |faces[f]| >= Cells(n)
  }

  /** The state after a turn, cell by cell: position (g, j) receives the
      colour of the one position that `m` sends to (g, j), which is where
      the inverse move sends (g, j). */
  function Turned(n: CubeSize, faces: Faces, m: Move): (r: Faces)
    requires HasCells(n, faces)
    ensures WellShaped(n, r)
  {
    seq(6, g requires 0 <= g < 6 =>
      seq(Cells(n), j requires 0 <= j < Cells(n) =>
        var x := Facemap(n, g, j, Inverse(m));
        faces[x.0][x.1]))
  }

  /** Every face is uniform: each facelet equals the face's facelet 0. */
  ghost predicate IsSolved(n: CubeSize, faces: Faces)
    requires HasCells(n, faces)
  {
    forall f, i :: 0 <= f < 6 && 0 <= i < Cells(n) ==> faces[f][i] == faces[f][0]
  }

  /** Every colour on the cube lies in 0..5. */
  ghost predicate ColorsInRange(n: CubeSize, faces: Faces)
    requires HasCells(n, faces)
  {
    forall f, i :: 0 <= f < 6 && 0 <= i < Cells(n) ==> 0 <= faces[f][i] <= 5
  }

  /** The solved cube of the constructor: face f filled with colour f. */
  function SolvedFaces(n: CubeSize): (r: Faces)
    ensures WellShaped(n, r)
  {
    seq(6, f requires 0 <= f < 6 => seq(Cells(n), _ => f))
  }

  class RubiksCube {
    const n: CubeSize
    var faces: Faces

    /** What the constructor asserts: six faces, the first of length N*N. */
    ghost predicate Valid()
      reads this
    {
      |faces| == 6 && |faces[0]| == Cells(n)
    }

    /** `RubiksCube(N, faces)`; `None` builds the solved cube. */
    constructor (n: CubeSize, faces: Option<Faces>)
      requires faces.Some? ==> |faces.value| == 6 && |faces.value[0]| == Cells(n)
      ensures Valid() && this.n == n
      ensures faces.Some? ==> this.faces == faces.value
      ensures faces.None? ==> this.faces == SolvedFaces(n)
    {
      var fs: Faces;
      if faces.None? {
        fs := [];
        for i := 0 to 6
          invariant |fs| == i
          invariant forall f :: 0 <= f < i ==> fs[f] == seq(Cells(n), _ => f)
        {
          fs := fs + [seq(Cells(n), _ => i)];
        }
        assert fs == SolvedFaces(n);
      } else {
        fs := faces.value;
      }
      this.n := n;
      this.faces := fs;
    }

    /** `RubiksCube(N, faces)` with its two assertions: `None` stands for
        the `AssertionError` raised when given faces are not six or face 0
        does not have N*N facelets. */
    static method New(n: CubeSize, faces: Option<Faces>) returns (r: Option<RubiksCube>)
      ensures r.None? <==> faces.Some? && !(|faces.value| == 6 && |faces.value[0]| == Cells(n))
      ensures r.Some? ==> fresh(r.value) && r.value.Valid() && r.value.n == n
      ensures r.Some? && faces.Some? ==> r.value.faces == faces.value
      ensures r.Some? && faces.None? ==> r.value.faces == SolvedFaces(n)
    {
      if faces.Some? && !(|faces.value| == 6 && |faces.value[0]| == Cells(n)) {
        return None;
      }
      var c := new RubiksCube(n, faces);
      return Some(c);
    }

    /** `do_move`: scatter every colour to its destination in a fresh
        6 x N*N grid, then replace the faces by it. */
    method DoMove(m: Move)
      requires HasCells(n, faces)
      modifies this
      ensures Valid() && WellShaped(n, faces)
      ensures forall f: nat, i: nat :: InGrid(n, f, i) ==>
                faces[Facemap(n, f, i, m).0][Facemap(n, f, i, m).1] == old(faces)[f][i]
      ensures faces == Turned(n, old(faces), m)
    {
      var w := Cells(n);
      var newFaces: Faces := seq(6, _ => seq(w, _ => 0));
      for face := 0 to 6
        invariant faces == old(faces)
        invariant WellShaped(n, newFaces)
        invariant Scattered(n, m, faces, newFaces, face, 0)
      {
        for facelet := 0 to w
          invariant faces == old(faces)
          invariant WellShaped(n, newFaces)
          invariant Scattered(n, m, faces, newFaces, face, facelet)
        {
          var x := Facemap(n, face, facelet, m);
          ScatterStep(n, m, faces, newFaces, face, facelet);
          newFaces := newFaces[x.0 := newFaces[x.0][x.1 := faces[face][facelet]]];
        }
        ScatterNextFace(n, m, faces, newFaces, face);
      }
      ScatterComplete(n, m, faces, newFaces);
      faces := newFaces;
    }
  }

  // ----- The scatter loop of `do_move` -----

  /** Every position before (face, facelet), in loop order, has had its
      colour written to its destination. */
  ghost predicate Scattered(n: CubeSize, m: Move, src: Faces, dst: Faces, face: nat, facelet: nat)
    requires HasCells(n, src) && WellShaped(n, dst)
  {
    forall f: nat, i: nat :: InGrid(n, f, i) && (f < face || (f == face && i < facelet)) ==>
      dst[Facemap(n, f, i, m).0][Facemap(n, f, i, m).1] == src[f][i]
  }

  /** One write of the loop keeps what earlier writes stored: distinct
      positions have distinct destinations. */
  lemma ScatterStep(n: CubeSize, m: Move, src: Faces, dst: Faces, face: nat, facelet: nat)
    requires HasCells(n, src) && WellShaped(n, dst) && InGrid(n, face, facelet)
    requires Scattered(n, m, src, dst, face, facelet)
    ensures var x := Facemap(n, face, facelet, m);
      var dst' := dst[x.0 := dst[x.0][x.1 := src[face][facelet]]];
      WellShaped(n, dst') && Scattered(n, m, src, dst', face, facelet + 1)
  {
    var x := Facemap(n, face, facelet, m);
    var dst' := dst[x.0 := dst[x.0][x.1 := src[face][facelet]]];
    forall f: nat, i: nat | InGrid(n, f, i) && (f < face || (f == face && i < facelet + 1))
      ensures dst'[Facemap(n, f, i, m).0][Facemap(n, f, i, m).1] == src[f][i]
    {
      if f != face || i != facelet {
        FacemapInverse(n, f, i, m);
        FacemapInverse(n, face, facelet, m);
      }
    }
  }

  lemma ScatterNextFace(n: CubeSize, m: Move, src: Faces, dst: Faces, face: nat)
    requires HasCells(n, src) && WellShaped(n, dst)
    requires Scattered(n, m, src, dst, face, Cells(n))
    ensures Scattered(n, m, src, dst, face + 1, 0)
  {
  }

  /** Once all six faces are done, every cell holds the gathered colour. */
  lemma ScatterComplete(n: CubeSize, m: Move, src: Faces, dst: Faces)
    requires HasCells(n, src) && WellShaped(n, dst)
    requires Scattered(n, m, src, dst, 6, 0)
    ensures dst == Turned(n, src, m)
    ensures forall f: nat, i: nat :: InGrid(n, f, i) ==>
              dst[Facemap(n, f, i, m).0][Facemap(n, f, i, m).1] == src[f][i]
  {
    forall g | 0 <= g < 6
      ensures dst[g] == Turned(n, src, m)[g]
    {
      forall j | 0 <= j < Cells(n)
        ensures dst[g][j] == Turned(n, src, m)[g][j]
      {
        FacemapPreimage(n, g, j, m);
      }
    }
  }

  // ----- What a turn does to the cube -----

  /** `do_move` moves the colour at (f, i) to the position the table gives. */
  lemma TurnedScatters(n: CubeSize, faces: Faces, m: Move, f: nat, i: nat)
    requires HasCells(n, faces) && InGrid(n, f, i)
    ensures var x := Facemap(n, f, i, m); Turned(n, faces, m)[x.0][x.1] == faces[f][i]
  {
    FacemapInverse(n, f, i, m);
  }

  /** Turning by `m` and then by its inverse restores the cube. */
  lemma TurnedInverse(n: CubeSize, faces: Faces, m: Move)
    requires WellShaped(n, faces)
    ensures Turned(n, Turned(n, faces, m), Inverse(m)) == faces
  {
    var t := Turned(n, Turned(n, faces, m), Inverse(m));
    forall g | 0 <= g < 6
      ensures t[g] == faces[g]
    {
      forall j | 0 <= j < Cells(n)
        ensures t[g][j] == faces[g][j]
      {
        InverseInvolutive(m);
        var x := Facemap(n, g, j, m);
        FacemapPreimage(n, g, j, Inverse(m));
        assert t[g][j] == Turned(n, faces, m)[x.0][x.1];
        FacemapInverse(n, g, j, m);
      }
    }
  }

  /** Turning by a half turn twice restores the cube. */
  lemma TurnedFlipTwice(n: CubeSize, faces: Faces, m: Move)
    requires WellShaped(n, faces) && GetRotType(m) == Flip
    ensures Turned(n, Turned(n, faces, m), m) == faces
  {
    DecompositionDetermines(m);
    assert Inverse(m) == m;
    TurnedInverse(n, faces, m);
  }

  /** Turning by any move four times restores the cube. */
  lemma TurnedFourTimes(n: CubeSize, faces: Faces, m: Move)
    requires WellShaped(n, faces)
    ensures Turned(n, Turned(n, Turned(n, Turned(n, faces, m), m), m), m) == faces
  {
    var t4 := Turned(n, Turned(n, Turned(n, Turned(n, faces, m), m), m), m);
    forall g | 0 <= g < 6
      ensures t4[g] == faces[g]
    {
      forall j | 0 <= j < Cells(n)
        ensures t4[g][j] == faces[g][j]
      {
        TurnedFourTimesAt(n, faces, m, g, j);
      }
    }
  }

  lemma TurnedFourTimesAt(n: CubeSize, faces: Faces, m: Move, g: nat, j: nat)
    requires WellShaped(n, faces) && InGrid(n, g, j)
    ensures Turned(n, Turned(n, Turned(n, Turned(n, faces, m), m), m), m)[g][j] == faces[g][j]
  {
    var im := Inverse(m);
    var t1 := Turned(n, faces, m);
    var t2 := Turned(n, t1, m);
    var t3 := Turned(n, t2, m);
    var x1 := Facemap(n, g, j, im);
    var x2 := Facemap(n, x1.0, x1.1, im);
    var x3 := Facemap(n, x2.0, x2.1, im);
    TurnedCell(n, t3, m, g, j);
    TurnedCell(n, t2, m, x1.0, x1.1);
    TurnedCell(n, t1, m, x2.0, x2.1);
    TurnedCell(n, faces, m, x3.0, x3.1);
    FourTimes(n, g, j, im);
  }

  /** Cell (g, j) of the turned cube holds the colour the inverse turn's
      table points at. */
  lemma TurnedCell(n: CubeSize, faces: Faces, m: Move, g: nat, j: nat)
    requires HasCells(n, faces) && InGrid(n, g, j)
    ensures var x := Facemap(n, g, j, Inverse(m));
      InGrid(n, x.0, x.1) && Turned(n, faces, m)[g][j] == faces[x.0][x.1]
  {
  }

  // ----- Colour conservation -----

  /** All colours of the cube, face after face. */
  function Flatten(faces: Faces): (r: seq<int>)
    ensures |faces| == 0 ==> r == []
  {
    if |faces| == 0 then [] else faces[0] + Flatten(faces[1..])
  }

  /** The multiset of colours on the cube. */
  function Colors(faces: Faces): multiset<int>
  {
    multiset(Flatten(faces))
  }

  lemma {:induction false} FlattenIndex(faces: Faces, w: nat, f: nat, i: nat)
    requires forall k :: 0 <= k < |faces| ==> |faces[k]| == w
    requires f < |faces| && i < w
    ensures |Flatten(faces)| == |faces| * w
    ensures f * w + i < |Flatten(faces)| && Flatten(faces)[f * w + i] == faces[f][i]
    decreases |faces|
  {
    FlattenLength(faces, w);
    if f > 0 {
      FlattenIndex(faces[1..], w, f - 1, i);
      assert f * w + i == w + ((f - 1) * w + i);
    }
  }

  lemma {:induction false} FlattenLength(faces: Faces, w: nat)
    requires forall k :: 0 <= k < |faces| ==> |faces[k]| == w
    ensures |Flatten(faces)| == |faces| * w
    decreases |faces|
  {
    if |faces| > 0 {
      FlattenLength(faces[1..], w);
      assert |faces| * w == w + (|faces| - 1) * w;
    }
  }

  /** Row-major index of a grid position, and back. */
  lemma GridIndex(n: CubeSize, k: nat, f: nat, i: nat)
    requires InGrid(n, f, i)
    requires k < 6 * Cells(n)
    ensures f * Cells(n) + i < 6 * Cells(n)
    ensures (f * Cells(n) + i) / Cells(n) == f && (f * Cells(n) + i) % Cells(n) == i
    ensures k / Cells(n) < 6 && k % Cells(n) < Cells(n)
    ensures k == (k / Cells(n)) * Cells(n) + k % Cells(n)
  {
  }

  /** The row-major index of the cell whose colour a turn by `m` moves to
      cell `k`. */
  function FlatSource(n: CubeSize, m: Move, k: nat): nat
    requires k < 6 * Cells(n)
  {
    GridIndex(n, k, 0, 0);
    var x := Facemap(n, k / Cells(n), k % Cells(n), Inverse(m));
    x.0 * Cells(n) + x.1
  }

  /** The row-major index of the cell a turn by `m` moves cell `k` to. */
  function FlatDest(n: CubeSize, m: Move, k: nat): nat
    requires k < 6 * Cells(n)
  {
    GridIndex(n, k, 0, 0);
    var y := Facemap(n, k / Cells(n), k % Cells(n), m);
    y.0 * Cells(n) + y.1
  }

  /** `FlatDest` undoes `FlatSource` ... */
  lemma FlatSourceThenDest(n: CubeSize, m: Move, k: nat)
    requires k < 6 * Cells(n)
    ensures FlatSource(n, m, k) < 6 * Cells(n) && FlatDest(n, m, FlatSource(n, m, k)) == k
  {
    var w := Cells(n);
    GridIndex(n, k, 0, 0);
    var g, j := k / w, k % w;
    var x := Facemap(n, g, j, Inverse(m));
    var p := FlatSource(n, m, k);
    assert p == x.0 * w + x.1;
    assert p < 6 * w && p / w == x.0 && p % w == x.1 by {
      GridIndex(n, k, x.0, x.1);
    }
    assert Facemap(n, x.0, x.1, m) == (g, j) by {
      FacemapPreimage(n, g, j, m);
    }
    assert FlatDest(n, m, p) == g * w + j;
  }

  /** ... and `FlatSource` undoes `FlatDest`. */
  lemma FlatDestThenSource(n: CubeSize, m: Move, k: nat)
    requires k < 6 * Cells(n)
    ensures FlatDest(n, m, k) < 6 * Cells(n) && FlatSource(n, m, FlatDest(n, m, k)) == k
  {
    var w := Cells(n);
    GridIndex(n, k, 0, 0);
    var g, j := k / w, k % w;
    var y := Facemap(n, g, j, m);
    var p := FlatDest(n, m, k);
    assert p == y.0 * w + y.1;
    assert p < 6 * w && p / w == y.0 && p % w == y.1 by {
      GridIndex(n, k, y.0, y.1);
    }
    assert Facemap(n, y.0, y.1, Inverse(m)) == (g, j) by {
      FacemapInverse(n, g, j, m);
    }
    assert FlatSource(n, m, p) == g * w + j;
  }

  /** Cell `k` of a flattened cube is its cell (k / N², k % N²). */
  lemma FlatCell(n: CubeSize, faces: Faces, k: nat)
    requires WellShaped(n, faces) && k < 6 * Cells(n)
    ensures |Flatten(faces)| == 6 * Cells(n)
    ensures k / Cells(n) < 6 && k % Cells(n) < Cells(n)
    ensures Flatten(faces)[k] == faces[k / Cells(n)][k % Cells(n)]
  {
    GridIndex(n, k, 0, 0);
    FlattenIndex(faces, Cells(n), k / Cells(n), k % Cells(n));
  }

  /** Cell `k` of the flattened turned cube is its cell (k / N², k % N²). */
  lemma FlatTurnedCell(n: CubeSize, faces: Faces, m: Move, k: nat)
    requires WellShaped(n, faces) && k < 6 * Cells(n)
    ensures k / Cells(n) < 6 && k % Cells(n) < Cells(n)
    ensures |Flatten(Turned(n, faces, m))| == 6 * Cells(n)
    ensures Flatten(Turned(n, faces, m))[k] == Turned(n, faces, m)[k / Cells(n)][k % Cells(n)]
  {
    FlatCell(n, Turned(n, faces, m), k);
  }

  /** Cell `FlatSource(k)` of the flattened cube is the cell the inverse
      move sends (k / N², k % N²) to. */
  lemma FlatSourceCell(n: CubeSize, faces: Faces, m: Move, k: nat)
    requires WellShaped(n, faces) && k < 6 * Cells(n)
    ensures k / Cells(n) < 6 && k % Cells(n) < Cells(n)
    ensures |Flatten(faces)| == 6 * Cells(n) && FlatSource(n, m, k) < 6 * Cells(n)
    ensures var x := Facemap(n, k / Cells(n), k % Cells(n), Inverse(m));
      Flatten(faces)[FlatSource(n, m, k)] == faces[x.0][x.1]
  {
    GridIndex(n, k, 0, 0);
    var x := Facemap(n, k / Cells(n), k % Cells(n), Inverse(m));
    var p := FlatSource(n, m, k);
    assert p == x.0 * Cells(n) + x.1;
    assert p < 6 * Cells(n) && p / Cells(n) == x.0 && p % Cells(n) == x.1 by {
      GridIndex(n, k, x.0, x.1);
    }
    FlatCell(n, faces, p);
  }

  /** Cell `k` of the turned cube holds the colour of cell `FlatSource(k)`. */
  lemma FlatGather(n: CubeSize, faces: Faces, m: Move, k: nat)
    requires WellShaped(n, faces) && k < 6 * Cells(n)
    ensures |Flatten(faces)| == |Flatten(Turned(n, faces, m))| == 6 * Cells(n)
    ensures FlatSource(n, m, k) < 6 * Cells(n)
    ensures Flatten(Turned(n, faces, m))[k] == Flatten(faces)[FlatSource(n, m, k)]
  {
    FlatTurnedCell(n, faces, m, k);
    FlatSourceCell(n, faces, m, k);
  }

  /** A turn conserves the colours of the cube: it only permutes them. */
  lemma TurnedConservesColors(n: CubeSize, faces: Faces, m: Move)
    requires WellShaped(n, faces)
    ensures Colors(Turned(n, faces, m)) == Colors(faces)
  {
    var w := Cells(n);
    var perm := seq(6 * w, k requires 0 <= k < 6 * w => FlatSource(n, m, k));
    var inv := seq(6 * w, k requires 0 <= k < 6 * w => FlatDest(n, m, k));
    SourcesArePermutation(n, m, perm, inv);
    TurnedIsPermute(n, faces, m, perm);
    SeqPerm.PermutePreservesMultiset(Flatten(faces), perm, inv);
  }

  /** The flat sources and destinations of a turn are inverse permutations. */
  lemma SourcesArePermutation(n: CubeSize, m: Move, perm: seq<nat>, inv: seq<nat>)
    requires |perm| == 6 * Cells(n) && |inv| == 6 * Cells(n)
    requires forall k :: 0 <= k < 6 * Cells(n) ==>
               perm[k] == FlatSource(n, m, k) && inv[k] == FlatDest(n, m, k)
    ensures SeqPerm.IsPermutation(perm, inv)
  {
    forall k | 0 <= k < 6 * Cells(n)
      ensures perm[k] < 6 * Cells(n) && inv[perm[k]] == k
      ensures inv[k] < 6 * Cells(n) && perm[inv[k]] == k
    {
      FlatSourceThenDest(n, m, k);
      FlatDestThenSource(n, m, k);
    }
  }

  /** The flattened turned grid reads the flattened grid at the sources. */
  lemma TurnedIsPermute(n: CubeSize, faces: Faces, m: Move, perm: seq<nat>)
    requires WellShaped(n, faces) && |perm| == 6 * Cells(n)
    requires forall k :: 0 <= k < 6 * Cells(n) ==> perm[k] == FlatSource(n, m, k)
    ensures |Flatten(faces)| == 6 * Cells(n)
    ensures forall k :: 0 <= k < |perm| ==> perm[k] < |Flatten(faces)|
    ensures Flatten(Turned(n, faces, m)) == SeqPerm.Permute(Flatten(faces), perm)
  {
    var t := Turned(n, faces, m);
    FlattenLength(faces, Cells(n));
    FlattenLength(t, Cells(n));
    forall k | 0 <= k < 6 * Cells(n)
      ensures perm[k] < 6 * Cells(n) && Flatten(t)[k] == Flatten(faces)[perm[k]]
    {
      FlatGather(n, faces, m, k);
    }
  }

  /** A turn keeps colours in 0..5. */
  lemma TurnedColorsInRange(n: CubeSize, faces: Faces, m: Move)
    requires HasCells(n, faces) && ColorsInRange(n, faces)
    ensures ColorsInRange(n, Turned(n, faces, m))
  {
  }
}
