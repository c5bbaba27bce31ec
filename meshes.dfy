/** Results of operations that the original raises an exception for, and
    optional arguments. */
module Results {
  datatype Result<T, E> = Ok(value: T) | Err(error: E)

  datatype Option<T> = None | Some(value: T)
}

/**
  The triangle-mesh data model of stl_util.py: vertex positions, faces as
  index triples, and the canonical (sorted) edge that the boundary
  extractor counts.
*/
module Meshes {

  /** A vertex position. Coordinates are exact reals: the model does not
      reproduce floating-point rounding. */
  type Point = (real, real, real)

  /** A triangle as three vertex indices, in the order the file lists them. */
  type Face = (nat, nat, nat)

  /** An unordered edge, stored with its smaller endpoint first. */
  type Edge = (nat, nat)

  /** `face[i]` for i in 0..2. */
  function Corner(f: Face, i: nat): (v: nat)
    requires i < 3
    ensures v == f.0 || v == f.1 || v == f.2
  {
    if i == 0 then f.0 else if i == 1 then f.1 else f.2
  }

  /** `tuple(sorted((a, b)))`: the pair in ascending order. */
  function Canon(a: nat, b: nat): (e: Edge)
    ensures e.0 <= e.1
    ensures (e.0 == a && e.1 == b) || (e.0 == b && e.1 == a)
  {
    if a <= b then (a, b) else (b, a)
  }

  /** The edge counter does not see the direction in which a face lists an edge. */
  lemma CanonOrderInsensitive(a: nat, b: nat)
    ensures Canon(a, b) == Canon(b, a)
    ensures Canon(a, b).0 == (if a <= b then a else b)
  {
  }

  /** The edges a face contributes, one per side, each canonicalised. */
  function FaceEdges(f: Face): (es: seq<Edge>)
    ensures |es| == 3
    ensures forall i :: 0 <= i < 3 ==> es[i] == Canon(Corner(f, i), Corner(f, (i + 1) % 3))
  {
    [Canon(f.0, f.1), Canon(f.1, f.2), Canon(f.2, f.0)]
  }

  /** Every corner of `f` is the index of one of `n` vertices. */
  predicate FaceInRange(f: Face, n: nat)
  {
    f.0 < n && f.1 < n && f.2 < n
  }

  /** Squared Euclidean distance, the quantity a tolerance ball compares. */
  function SqDist(p: Point, q: Point): (d: real)
    ensures d >= 0.0
  {
    var dx, dy, dz := p.0 - q.0, p.1 - q.1, p.2 - q.2;
    dx * dx + dy * dy + dz * dz
  }

  /** A point lies within any tolerance of itself. */
  lemma WithinTolOfItself(p: Point, tol: real)
    ensures WithinTol(p, p, tol)
  {
    assert SqDist(p, p) == 0.0;
    assert tol * tol >= 0.0;
  }

  /** Every face of `fs` refers to one of `n` vertices. */
  predicate FacesInRange(fs: seq<Face>, n: nat)
  {
    forall j :: 0 <= j < |fs| ==> FaceInRange(fs[j], n)
  }

  /** `p` lies in the closed ball of radius `tol` around `q`. Like the
      ball query, this compares squared distances with `tol * tol`, so the
      sign of `tol` does not matter. */
  predicate WithinTol(p: Point, q: Point, tol: real)
  {
    SqDist(p, q) <= tol * tol
  }

  /**
    A loaded mesh: the vertex array is updated in place by the snapper, the
    face array is only read.
  */
  class Mesh {
    const vertices: array<Point>
    const faces: array<Face>

    /** Every face refers to existing vertices, as the mesh loader guarantees. */
    ghost predicate Valid()
      reads faces
    {
      FacesInRange(faces[..], vertices.Length)
    }

    constructor (vs: seq<Point>, fs: seq<Face>)
      requires FacesInRange(fs, |vs|)
      ensures Valid()
      ensures vertices[..] == vs && faces[..] == fs
      ensures fresh(vertices) && fresh(faces)
    {
      vertices := new Point[|vs|](i requires 0 <= i < |vs| => vs[i]);
      faces := new Face[|fs|](j requires 0 <= j < |fs| => fs[j]);
    }
  }
}
