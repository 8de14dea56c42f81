/**
 * Triangle meshes as values: an ordered vertex sequence and faces holding
 * three vertex indices each, plus the "stack with a running vertex offset"
 * composition that every sphere assembler in the repository performs.
 */
module Geometry {

  datatype Vec3 = Vec3(x: real, y: real, z: real)

  /** A triangle as three (possibly invalid) vertex indices. */
  datatype Face = Face(a: int, b: int, c: int)

  datatype Mesh = Mesh(vertices: seq<Vec3>, faces: seq<Face>)

  const EmptyMesh := Mesh([], [])

  predicate FaceBelow(f: Face, n: int)
  {
    0 <= f.a < n && 0 <= f.b < n && 0 <= f.c < n
  }

  /** Every face index names an existing vertex. */
  predicate WellFormed(m: Mesh)
  {
    forall i :: 0 <= i < |m.faces| ==> FaceBelow(m.faces[i], |m.vertices|)
  }

  /** A face with `k` added to each of its indices (numpy `faces + offset`). */
  function Shift(f: Face, k: int): Face
  {
    Face(f.a + k, f.b + k, f.c + k)
  }

  function ShiftAll(fs: seq<Face>, k: int): (r: seq<Face>)
    ensures |r| == |fs|
    ensures forall i :: 0 <= i < |fs| ==> r[i] == Shift(fs[i], k)
  {
    seq(|fs|, i requires 0 <= i < |fs| => Shift(fs[i], k))
  }

  /** One step of the assemblers' loops: stack `m` below `acc`, its faces offset by the vertices already there. */
  function Append(acc: Mesh, m: Mesh): (r: Mesh)
  {
    Mesh(acc.vertices + m.vertices, acc.faces + ShiftAll(m.faces, |acc.vertices|))
  }

  /** All pieces stacked in order, each piece's faces offset by the vertex count of the pieces before it. */
  function Concat(ms: seq<Mesh>): Mesh
  {
    if ms == [] then EmptyMesh else Append(Concat(ms[..|ms| - 1]), ms[|ms| - 1])
  }

  function TotalVertices(ms: seq<Mesh>): nat
  {
    if ms == [] then 0 else TotalVertices(ms[..|ms| - 1]) + |ms[|ms| - 1].vertices|
  }

  function TotalFaces(ms: seq<Mesh>): nat
  {
    if ms == [] then 0 else TotalFaces(ms[..|ms| - 1]) + |ms[|ms| - 1].faces|
  }

  lemma AppendWellFormed(acc: Mesh, m: Mesh)
    requires WellFormed(acc) && WellFormed(m)
    ensures WellFormed(Append(acc, m))
  {
    var r := Append(acc, m);
    forall i | 0 <= i < |r.faces| ensures FaceBelow(r.faces[i], |r.vertices|) {
      if i >= |acc.faces| {
        var f := m.faces[i - |acc.faces|];
        assert FaceBelow(f, |m.vertices|);
      }
    }
  }

  /** Concat(ms + [m]) is one more loop step on Concat(ms). */
  lemma ConcatSnoc(ms: seq<Mesh>, m: Mesh)
    ensures Concat(ms + [m]) == Append(Concat(ms), m)
    ensures TotalVertices(ms + [m]) == TotalVertices(ms) + |m.vertices|
    ensures TotalFaces(ms + [m]) == TotalFaces(ms) + |m.faces|
  {
    assert (ms + [m])[..|ms|] == ms;
  }

  /** The stacked mesh holds exactly the pieces' vertices and faces. */
  lemma {:induction false} ConcatCounts(ms: seq<Mesh>)
    ensures |Concat(ms).vertices| == TotalVertices(ms)
    ensures |Concat(ms).faces| == TotalFaces(ms)
  {
    if ms != [] {
      ConcatCounts(ms[..|ms| - 1]);
    }
  }

  /** Stacking well-formed pieces gives a well-formed mesh: every offset face index is below the total vertex count. */
  lemma {:induction false} ConcatWellFormed(ms: seq<Mesh>)
    requires forall k :: 0 <= k < |ms| ==> WellFormed(ms[k])
    ensures WellFormed(Concat(ms))
  {
    if ms != [] {
      ConcatWellFormed(ms[..|ms| - 1]);
      AppendWellFormed(Concat(ms[..|ms| - 1]), ms[|ms| - 1]);
    }
  }

  /**
   * Piece k sits at vertex offset TotalVertices(ms[..k]) and face offset
   * TotalFaces(ms[..k]); its vertices are copied and its faces shifted by
   * the vertex offset.
   */
  lemma {:induction false} ConcatPiece(ms: seq<Mesh>, k: nat, i: nat)
    requires k < |ms|
    ensures TotalVertices(ms[..k]) + |ms[k].vertices| <= |Concat(ms).vertices|
    ensures TotalFaces(ms[..k]) + |ms[k].faces| <= |Concat(ms).faces|
    ensures i < |ms[k].vertices| ==>
      Concat(ms).vertices[TotalVertices(ms[..k]) + i] == ms[k].vertices[i]
    ensures i < |ms[k].faces| ==>
      Concat(ms).faces[TotalFaces(ms[..k]) + i] == Shift(ms[k].faces[i], TotalVertices(ms[..k]))
    decreases |ms|
  {
    var n := |ms| - 1;
    var p := ms[..n];
    ConcatCounts(ms);
    ConcatCounts(p);
    assert p[..k] == ms[..k];
    if k < n {
      ConcatPiece(p, k, i);
    } else {
      assert ms[..k] == p;
    }
  }

  /** Pieces of equal size stack to a whole whose counts are the piece counts times the number of pieces. */
  lemma {:induction false} TotalsUniform(ms: seq<Mesh>, nv: nat, nf: nat)
    requires forall k :: 0 <= k < |ms| ==> |ms[k].vertices| == nv && |ms[k].faces| == nf
    ensures TotalVertices(ms) == |ms| * nv
    ensures TotalFaces(ms) == |ms| * nf
  {
    if ms != [] {
      TotalsUniform(ms[..|ms| - 1], nv, nf);
    }
  }

  /** Floor division as Python's `//` computes it (Dafny's `/` is Euclidean). */
  function FloorDiv(a: int, b: int): (q: int)
    requires b != 0
    ensures b > 0 ==> q * b <= a < q * b + b
    ensures b < 0 ==> q * b + b < a <= q * b
  {
    if b > 0 then a / b else (-a) / (-b)
  }

  /** Python's `%`: the remainder takes the sign of the divisor. */
  function FloorMod(a: int, b: int): (r: int)
    requires b != 0
    ensures a == FloorDiv(a, b) * b + r
    ensures b > 0 ==> 0 <= r < b
    ensures b < 0 ==> b < r <= 0
  {
    a - FloorDiv(a, b) * b
  }

  function Min(a: int, b: int): int { if a <= b then a else b }
  function Max(a: int, b: int): int { if a <= b then b else a }

  /** Multiplying both sides by a non-negative factor keeps their order. */
  lemma MulMonoRight(a: int, b: int, c: int)
    requires a <= b && c >= 0
    ensures a * c <= b * c
  {
    assert b * c - a * c == (b - a) * c;
  }

  /** The same for reals and a positive factor. */
  lemma RealMulMono(a: real, b: real, w: real)
    requires w > 0.0
    ensures a <= b ==> a * w <= b * w
  {
    if a <= b {
      assert b * w - a * w == (b - a) * w;
    }
  }

  /** The smallest of a non-empty sequence (`min`). */
  function MinReal(ps: seq<real>): (r: real)
    requires ps != []
    ensures forall i :: 0 <= i < |ps| ==> r <= ps[i]
    ensures exists i :: 0 <= i < |ps| && r == ps[i]
  {
    if |ps| == 1 then ps[0]
    else
      var m := MinReal(ps[..|ps| - 1]);
      assert forall i :: 0 <= i < |ps| - 1 ==> ps[..|ps| - 1][i] == ps[i];
      if m <= ps[|ps| - 1] then m else ps[|ps| - 1]
  }

  /** The largest of a non-empty sequence (`max`, `np.max`). */
  function MaxReal(ps: seq<real>): (r: real)
    requires ps != []
    ensures forall i :: 0 <= i < |ps| ==> ps[i] <= r
    ensures exists i :: 0 <= i < |ps| && r == ps[i]
  {
    if |ps| == 1 then ps[0]
    else
      var m := MaxReal(ps[..|ps| - 1]);
      assert forall i :: 0 <= i < |ps| - 1 ==> ps[..|ps| - 1][i] == ps[i];
      if m >= ps[|ps| - 1] then m else ps[|ps| - 1]
  }
}
