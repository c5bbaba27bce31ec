/**
  Boundary extraction (`get_boundary_vertices` in stl_util.py): count how
  many times each canonical edge occurs over all faces and return, sorted and
  without duplicates, the endpoints of the edges that occur exactly once.
*/
module Boundary {
  import opened Meshes

  /** The canonical edges of all faces in scan order, one entry per occurrence. */
  function EdgeList(faces: seq<Face>): (es: seq<Edge>)
    ensures |es| == 3 * |faces|
  {
    if |faces| == 0 then []
    else EdgeList(faces[..|faces| - 1]) + FaceEdges(faces[|faces| - 1])
  }

  /** How many times the scan over `faces` meets edge `e`. */
  function Occurrences(faces: seq<Face>, e: Edge): (n: nat)
    ensures n <= 3 * |faces|
    ensures n > 0 <==> e in EdgeList(faces)
  {
    multiset(EdgeList(faces))[e]
  }

  /** Scanning one more face adds the occurrences among its three sides. */
  lemma OccurrencesExtend(faces: seq<Face>, j: nat)
    requires j < |faces|
    ensures forall e :: Occurrences(faces[..j + 1], e) == Occurrences(faces[..j], e) + multiset(FaceEdges(faces[j]))[e]
  {
    assert faces[..j + 1][..j] == faces[..j];
    assert EdgeList(faces[..j + 1]) == EdgeList(faces[..j]) + FaceEdges(faces[j]);
  }

  /** Every side of every face is among the scanned edges. */
  lemma {:induction false} SidesAreUniqueEdges(faces: seq<Face>, j: nat)
    requires j < |faces|
    ensures forall e :: e in FaceEdges(faces[j]) ==> e in EdgeList(faces)
    decreases |faces|
  {
    if j < |faces| - 1 {
      SidesAreUniqueEdges(faces[..|faces| - 1], j);
    }
  }

  /** The distinct canonical edges of the mesh (what the loader calls its unique edges). */
  function UniqueEdges(faces: seq<Face>): (u: set<Edge>)
    ensures forall e :: e in u <==> Occurrences(faces, e) > 0
  {
    set e | e in EdgeList(faces)
  }

  /** Edges met exactly once: the rim of the open mesh. */
  function BoundaryEdges(faces: seq<Face>): (b: set<Edge>)
    ensures forall e :: e in b <==> Occurrences(faces, e) == 1
  {
    set e | e in EdgeList(faces) && Occurrences(faces, e) == 1
  }

  /** The independent statement of what a boundary vertex is. */
  ghost predicate IsBoundaryVertex(faces: seq<Face>, v: nat)
  {
    exists e :: Occurrences(faces, e) == 1 && (e.0 == v || e.1 == v)
  }

  /** Both endpoints of every boundary edge. */
  function BoundaryVertexSet(faces: seq<Face>): (vs: set<nat>)
    ensures forall v :: v in vs <==> IsBoundaryVertex(faces, v)
  {
    var b := BoundaryEdges(faces);
    (set e | e in b :: e.0) + (set e | e in b :: e.1)
  }

  /** Every entry of `idx` addresses one of `n` vertices. */
  predicate IndicesBelow(idx: seq<nat>, n: nat)
  {
    forall i :: 0 <= i < |idx| ==> idx[i] < n
  }

  predicate StrictlyIncreasing(s: seq<nat>)
  {
    forall i, j :: 0 <= i < j < |s| ==> s[i] < s[j]
  }

  /** `m` is the least element of `s`. */
  predicate IsLeast(m: nat, s: set<nat>)
  {
    m in s && forall y :: y in s ==> m <= y
  }

  /** A non-empty finite set of naturals has a least element. */
  lemma {:induction false} MinExists(s: set<nat>)
    requires s != {}
    ensures exists m :: IsLeast(m, s)
    decreases |s|
  {
    var x :| x in s;
    var rest := s - {x};
    if rest == {} {
      assert s == {x};
      assert IsLeast(x, s);
    } else {
      assert |rest| == |s| - 1;
      MinExists(rest);
      var m :| IsLeast(m, rest);
      var least := if x < m then x else m;
      forall y | y in s ensures least <= y {
        if y != x {
          assert y in rest;
        }
      }
      assert IsLeast(least, s);
    }
  }

  /** The elements of `s` in ascending order, each once (`np.unique`). */
  function SortedElements(s: set<nat>): (r: seq<nat>)
    ensures StrictlyIncreasing(r)
    ensures forall x :: x in r <==> x in s
    decreases |s|
  {
    if s == {} then []
    else
      MinExists(s);
      var m :| IsLeast(m, s);
      [m] + SortedElements(s - {m})
  }

  /** The value `get_boundary_vertices` returns: sorted boundary vertex indices. */
  function BoundaryVertices(faces: seq<Face>): (bv: seq<nat>)
    ensures StrictlyIncreasing(bv)
    ensures forall v :: v in bv <==> IsBoundaryVertex(faces, v)
  {
    SortedElements(BoundaryVertexSet(faces))
  }

  /** Every occurring edge joins two vertices of the mesh. */
  lemma {:induction false} EdgeEndpointsInRange(faces: seq<Face>, n: nat)
    requires FacesInRange(faces, n)
    ensures forall e :: e in EdgeList(faces) ==> e.0 < n && e.1 < n
  {
    if |faces| > 0 {
      EdgeEndpointsInRange(faces[..|faces| - 1], n);
    }
  }

  /** Boundary vertex indices are valid vertex indices. */
  lemma BoundaryVerticesInRange(faces: seq<Face>, n: nat)
    requires FacesInRange(faces, n)
    ensures IndicesBelow(BoundaryVertices(faces), n)
  {
    EdgeEndpointsInRange(faces, n);
    var bv := BoundaryVertices(faces);
    forall i | 0 <= i < |bv| ensures bv[i] < n {
      assert IsBoundaryVertex(faces, bv[i]);
      var e :| Occurrences(faces, e) == 1 && (e.0 == bv[i] || e.1 == bv[i]);
      assert e in EdgeList(faces);
    }
  }

  /** A watertight mesh, every edge of which two face sides share, has no boundary. */
  lemma ClosedMeshHasNoBoundary(faces: seq<Face>)
    requires forall e :: e in EdgeList(faces) ==> Occurrences(faces, e) == 2
    ensures BoundaryVertices(faces) == []
  {
    forall e ensures e !in BoundaryEdges(faces) {
      if Occurrences(faces, e) > 0 {
        assert e in EdgeList(faces);
      }
    }
    assert BoundaryVertexSet(faces) == {};
  }

  /** A face whose three corners are distinct vertices. */
  predicate NonDegenerate(f: Face)
  {
    f.0 != f.1 && f.1 != f.2 && f.2 != f.0
  }

  /** The number of faces that have `e` as one of their sides. */
  function FacesWith(faces: seq<Face>, e: Edge): nat
  {
    if |faces| == 0 then 0
    else FacesWith(faces[..|faces| - 1], e) + (if e in FaceEdges(faces[|faces| - 1]) then 1 else 0)
  }

  /** The three sides of a non-degenerate face are distinct edges. */
  lemma SidesOfNonDegenerate(f: Face, e: Edge)
    requires NonDegenerate(f)
    ensures multiset(FaceEdges(f))[e] == if e in FaceEdges(f) then 1 else 0
  {
    var es := FaceEdges(f);
    assert es[0] != es[1] && es[1] != es[2] && es[2] != es[0];
    assert es == [es[0]] + [es[1]] + [es[2]];
  }

  /** On a mesh without degenerate faces, counting occurrences is counting
      the faces that contain the edge. */
  lemma {:induction false} OccurrencesCountFaces(faces: seq<Face>, e: Edge)
    requires forall j :: 0 <= j < |faces| ==> NonDegenerate(faces[j])
    ensures Occurrences(faces, e) == FacesWith(faces, e)
  {
    if |faces| > 0 {
      var n := |faces| - 1;
      OccurrencesCountFaces(faces[..n], e);
      SidesOfNonDegenerate(faces[n], e);
      assert EdgeList(faces) == EdgeList(faces[..n]) + FaceEdges(faces[n]);
    }
  }

  /** So on such a mesh a boundary edge is one that exactly one face contains. */
  lemma BoundaryEdgeInOneFace(faces: seq<Face>, e: Edge)
    requires forall j :: 0 <= j < |faces| ==> NonDegenerate(faces[j])
    ensures e in BoundaryEdges(faces) <==> FacesWith(faces, e) == 1
  {
    OccurrencesCountFaces(faces, e);
  }

  /** The scan over the single face (0, 0, 1). */
  lemma RepeatedCornerScan()
    ensures EdgeList([(0, 0, 1)]) == [(0, 0), (0, 1), (0, 1)]
  {
    var faces: seq<Face> := [(0, 0, 1)];
    var es := FaceEdges(faces[0]);
    assert es[0] == (0, 0) && es[1] == (0, 1) && es[2] == (0, 1);
    assert faces[..0] == [];
    assert EdgeList(faces) == EdgeList(faces[..0]) + es;
  }

  /** Its only edge counted once is the self-loop (0, 0). */
  lemma RepeatedCornerCounts(e: Edge)
    ensures Occurrences([(0, 0, 1)], e) == (if e == (0, 0) then 1 else if e == (0, 1) then 2 else 0)
  {
    RepeatedCornerScan();
    assert multiset(EdgeList([(0, 0, 1)])) == multiset{(0, 0), (0, 1), (0, 1)};
  }

  /** Its only boundary vertex is 0, the end of the self-loop. */
  lemma RepeatedCornerBoundaryVertex(v: nat)
    ensures IsBoundaryVertex([(0, 0, 1)], v) <==> v == 0
  {
    if v == 0 {
      RepeatedCornerCounts((0, 0));
    } else {
      forall e: Edge | e.0 == v || e.1 == v ensures Occurrences([(0, 0, 1)], e) != 1 {
        RepeatedCornerCounts(e);
      }
    }
  }

  /**
    With a repeated corner the two readings part: the scan counts sides, and
    the face (0, 0, 1) carries side (0, 1) twice and the self-loop (0, 0)
    once. So (0, 1), which one face contains, is no boundary edge, and the
    boundary list is [0] rather than [0, 1].
  */
  lemma RepeatedCornerCountsSides()
    ensures var faces := [(0, 0, 1)];
            && FacesWith(faces, (0, 1)) == 1
            && (0, 1) !in BoundaryEdges(faces)
            && BoundaryVertices(faces) == [0]
  {
    var faces: seq<Face> := [(0, 0, 1)];
    assert faces[..0] == [];
    assert (0, 1) in FaceEdges(faces[0]) by { assert FaceEdges(faces[0])[1] == (0, 1); }
    RepeatedCornerCounts((0, 1));
    var bv := BoundaryVertices(faces);
    forall v: nat ensures v in bv <==> v == 0 {
      RepeatedCornerBoundaryVertex(v);
    }
    assert 0 in bv;
  }

  /** The count a dictionary holds for `e`, zero when `e` is not a key. */
  function CountOf(counts: map<Edge, nat>, e: Edge): nat
  {
    if e in counts then counts[e] else 0
  }

  /**
    The inner loop of `get_boundary_vertices`: add one to the count of each
    of the face's three sides, creating the entry when it is missing.
  */
  method CountFaceSides(counts: map<Edge, nat>, face: Face) returns (updated: map<Edge, nat>)
    ensures forall e :: e in updated <==> e in counts || e in FaceEdges(face)
    ensures forall e :: CountOf(updated, e) == CountOf(counts, e) + multiset(FaceEdges(face))[e]
  {
    updated := counts;
    ghost var sides := FaceEdges(face);
    for k := 0 to 3
      invariant forall e :: e in updated <==> e in counts || e in sides[..k]
      invariant forall e :: CountOf(updated, e) == CountOf(counts, e) + multiset(sides[..k])[e]
    {
      var a, b := Corner(face, k), Corner(face, (k + 1) % 3);
      var edge := Canon(a, b);
      ghost var previous := updated;
      assert sides[..k + 1] == sides[..k] + [edge];
      if edge in updated {
        updated := updated[edge := updated[edge] + 1];
      } else {
        updated := updated[edge := 1];
      }
      forall e ensures CountOf(updated, e) == CountOf(counts, e) + multiset(sides[..k + 1])[e] {
        assert CountOf(updated, e) == CountOf(previous, e) + (if e == edge then 1 else 0);
      }
    }
    assert sides[..3] == sides;
  }

  /** `counts` has an entry for exactly the unique edges of the whole mesh
      and holds the occurrences over the first `j` faces. */
  ghost predicate Tallied(counts: map<Edge, nat>, faces: seq<Face>, j: nat)
    requires j <= |faces|
  {
    && counts.Keys == UniqueEdges(faces)
    && (forall e :: CountOf(counts, e) == Occurrences(faces[..j], e))
  }

  /** Counting the sides of face `j` extends a tally of the first `j` faces
      to one of the first `j + 1`. */
  lemma TallyStep(previous: map<Edge, nat>, updated: map<Edge, nat>, faces: seq<Face>, j: nat)
    requires j < |faces| && Tallied(previous, faces, j)
    requires forall e :: e in updated <==> e in previous || e in FaceEdges(faces[j])
    requires forall e :: CountOf(updated, e) == CountOf(previous, e) + multiset(FaceEdges(faces[j]))[e]
    ensures Tallied(updated, faces, j + 1)
  {
    SidesAreUniqueEdges(faces, j);
    assert updated.Keys == previous.Keys;
    OccurrencesExtend(faces, j);
  }

  /** Before any face is scanned every unique edge has count zero. */
  lemma TallyStart(faces: seq<Face>)
    ensures Tallied(map e | e in UniqueEdges(faces) :: 0, faces, 0)
  {
    assert faces[..0] == [];
  }

  /** A tally of all faces is the occurrence count of the whole mesh. */
  lemma TallyDone(counts: map<Edge, nat>, faces: seq<Face>)
    requires Tallied(counts, faces, |faces|)
    ensures counts.Keys == UniqueEdges(faces)
    ensures forall e :: CountOf(counts, e) == Occurrences(faces, e)
  {
    assert faces[..|faces|] == faces;
  }

  /**
    The counting loop of `get_boundary_vertices`: starting from zero for
    every unique edge, count the sides of each face in turn. Only the face
    array is read.
  */
  method CountEdges(mesh: Mesh) returns (edgeCounts: map<Edge, nat>)
    ensures edgeCounts.Keys == UniqueEdges(mesh.faces[..])
    ensures forall e :: CountOf(edgeCounts, e) == Occurrences(mesh.faces[..], e)
  {
    ghost var faces := mesh.faces[..];
    edgeCounts := map e | e in UniqueEdges(mesh.faces[..]) :: 0;
    TallyStart(faces);
    for j := 0 to mesh.faces.Length
      invariant Tallied(edgeCounts, faces, j)
    {
      ghost var previous := edgeCounts;
      edgeCounts := CountFaceSides(edgeCounts, mesh.faces[j]);
      TallyStep(previous, edgeCounts, faces, j);
    }
    TallyDone(edgeCounts, faces);
  }

  /**
    `get_boundary_vertices`: count the edges, then keep, sorted and without
    duplicates, the endpoints of those counted exactly once.
  */
  method GetBoundaryVertices(mesh: Mesh) returns (bv: seq<nat>)
    ensures bv == BoundaryVertices(mesh.faces[..])
    ensures StrictlyIncreasing(bv)
    ensures forall v :: v in bv <==> IsBoundaryVertex(mesh.faces[..], v)
  {
    var edgeCounts := CountEdges(mesh);
    var boundaryEdges := set e | e in edgeCounts && edgeCounts[e] == 1;
    forall e ensures e in boundaryEdges <==> e in BoundaryEdges(mesh.faces[..]) {
      assert CountOf(edgeCounts, e) == Occurrences(mesh.faces[..], e);
    }
    assert boundaryEdges == BoundaryEdges(mesh.faces[..]);
    var endpoints := (set e | e in boundaryEdges :: e.0) + (set e | e in boundaryEdges :: e.1);
    bv := SortedElements(endpoints);
  }
}
