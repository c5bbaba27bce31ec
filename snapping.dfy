/**
  Boundary snapping (`cleanBoundaries` in stl_util.py): every boundary
  vertex of the primary mesh whose tolerance-ball query found reference
  boundary points is overwritten, in place, with the first of them.
*/
module Snapping {
  import opened Results
  import opened Meshes
  import opened Boundary

  /** Numpy raises when a mesh has no boundary: the empty endpoint list
      becomes a float array, which cannot index the vertex array. */
  datatype SnapError = EmptyPrimaryBoundary | EmptyReferenceBoundary

  /** `snap_count`: the number of non-empty match lists. */
  function CountNonEmpty(matches: seq<seq<nat>>): (n: nat)
    ensures n <= |matches|
    ensures n == 0 <==> forall i :: 0 <= i < |matches| ==> matches[i] == []
  {
    if |matches| == 0 then 0
    else
      var last := |matches| - 1;
      CountNonEmpty(matches[..last]) + (if matches[last] != [] then 1 else 0)
  }

  /** Every index in every match list addresses one of `m` reference points. */
  predicate MatchesInRange(matches: seq<seq<nat>>, m: nat)
  {
    forall i, j :: 0 <= i < |matches| && 0 <= j < |matches[i]| ==> matches[i][j] < m
  }

  /** Slot `k` is written by the loop: some boundary entry naming `k` has a
      non-empty match list. */
  ghost predicate Snapped(targets: seq<nat>, matches: seq<seq<nat>>, k: nat)
    requires |targets| == |matches|
  {
    exists i :: 0 <= i < |matches| && targets[i] == k && matches[i] != []
  }

  /**
    The vertex positions after the snapping loop has handled the match
    lists in order: list `i`, when non-empty, writes its first reference
    point into slot `targets[i]`.
  */
  function SnapAll(verts: seq<Point>, targets: seq<nat>, pointsRef: seq<Point>,
                   matches: seq<seq<nat>>): (r: seq<Point>)
    requires |targets| == |matches|
    requires IndicesBelow(targets, |verts|)
    requires MatchesInRange(matches, |pointsRef|)
    ensures |r| == |verts|
  {
    if |matches| == 0 then verts
    else
      var last := |matches| - 1;
      var before := SnapAll(verts, targets[..last], pointsRef, matches[..last]);
      if matches[last] != [] then before[targets[last] := pointsRef[matches[last][0]]]
      else before
  }

  /** A slot that no non-empty match list names keeps its position. */
  lemma {:induction false} SnapAllKeeps(verts: seq<Point>, targets: seq<nat>, pointsRef: seq<Point>,
                                        matches: seq<seq<nat>>, k: nat)
    requires |targets| == |matches|
    requires IndicesBelow(targets, |verts|)
    requires MatchesInRange(matches, |pointsRef|)
    requires k < |verts| && !Snapped(targets, matches, k)
    ensures SnapAll(verts, targets, pointsRef, matches)[k] == verts[k]
  {
    if |matches| > 0 {
      var last := |matches| - 1;
      forall i | 0 <= i < last ensures !(targets[..last][i] == k && matches[..last][i] != []) {
        assert targets[..last][i] == targets[i] && matches[..last][i] == matches[i];
      }
      SnapAllKeeps(verts, targets[..last], pointsRef, matches[..last], k);
      assert !(targets[last] == k && matches[last] != []);
    }
  }

  /** A boundary vertex with a non-empty match list ends at the first
      reference point of that list; since boundary indices are distinct, no
      later write overrides it. */
  lemma {:induction false} SnapAllMoves(verts: seq<Point>, targets: seq<nat>, pointsRef: seq<Point>,
                                        matches: seq<seq<nat>>, i: nat)
    requires |targets| == |matches|
    requires IndicesBelow(targets, |verts|)
    requires MatchesInRange(matches, |pointsRef|)
    requires StrictlyIncreasing(targets)
    requires i < |matches| && matches[i] != []
    ensures SnapAll(verts, targets, pointsRef, matches)[targets[i]] == pointsRef[matches[i][0]]
  {
    var last := |matches| - 1;
    if i < last {
      SnapAllMoves(verts, targets[..last], pointsRef, matches[..last], i);
      assert targets[i] < targets[last];
    }
  }

  /** Slot `k` moves by at most the tolerance when every first match lies
      within the tolerance of the vertex it replaces. */
  lemma SnapAllWithinTolAt(verts: seq<Point>, targets: seq<nat>, pointsRef: seq<Point>,
                           matches: seq<seq<nat>>, tol: real, k: nat)
    requires |targets| == |matches|
    requires IndicesBelow(targets, |verts|)
    requires MatchesInRange(matches, |pointsRef|)
    requires StrictlyIncreasing(targets)
    requires forall i :: 0 <= i < |matches| && matches[i] != [] ==>
               WithinTol(verts[targets[i]], pointsRef[matches[i][0]], tol)
    requires k < |verts|
    ensures SqDist(verts[k], SnapAll(verts, targets, pointsRef, matches)[k]) <= tol * tol
  {
    var r := SnapAll(verts, targets, pointsRef, matches);
    if Snapped(targets, matches, k) {
      var i :| 0 <= i < |matches| && targets[i] == k && matches[i] != [];
      SnapAllMoves(verts, targets, pointsRef, matches, i);
      assert r[k] == pointsRef[matches[i][0]];
      assert WithinTol(verts[k], r[k], tol);
    } else {
      SnapAllKeeps(verts, targets, pointsRef, matches, k);
      assert r[k] == verts[k];
      WithinTolOfItself(verts[k], tol);
    }
  }

  /** Every slot moves by at most the tolerance when every first match lies
      within the tolerance of the vertex it replaces. */
  lemma SnapAllWithinTol(verts: seq<Point>, targets: seq<nat>, pointsRef: seq<Point>,
                         matches: seq<seq<nat>>, tol: real)
    requires |targets| == |matches|
    requires IndicesBelow(targets, |verts|)
    requires MatchesInRange(matches, |pointsRef|)
    requires StrictlyIncreasing(targets)
    requires forall i :: 0 <= i < |matches| && matches[i] != [] ==>
               WithinTol(verts[targets[i]], pointsRef[matches[i][0]], tol)
    ensures forall k :: 0 <= k < |verts| ==>
              SqDist(verts[k], SnapAll(verts, targets, pointsRef, matches)[k]) <= tol * tol
  {
    forall k | 0 <= k < |verts|
      ensures SqDist(verts[k], SnapAll(verts, targets, pointsRef, matches)[k]) <= tol * tol
    {
      SnapAllWithinTolAt(verts, targets, pointsRef, matches, tol, k);
    }
  }

  /** The slots the loop writes. */
  function SnappedSlots(targets: seq<nat>, matches: seq<seq<nat>>): (slots: set<nat>)
    requires |targets| == |matches|
    ensures forall k :: k in slots ==> k in targets
  {
    if |matches| == 0 then {}
    else
      var last := |matches| - 1;
      SnappedSlots(targets[..last], matches[..last]) + (if matches[last] != [] then {targets[last]} else {})
  }

  /** A slot is written exactly when some non-empty match list names it. */
  lemma {:induction false} SnappedSlotsMembers(targets: seq<nat>, matches: seq<seq<nat>>, k: nat)
    requires |targets| == |matches|
    ensures k in SnappedSlots(targets, matches) <==> Snapped(targets, matches, k)
  {
    if |matches| > 0 {
      var last := |matches| - 1;
      SnappedSlotsMembers(targets[..last], matches[..last], k);
      if Snapped(targets[..last], matches[..last], k) {
        var i :| 0 <= i < last && targets[..last][i] == k && matches[..last][i] != [];
        assert targets[i] == k && matches[i] != [];
      }
      if Snapped(targets, matches, k) {
        var i :| 0 <= i < |matches| && targets[i] == k && matches[i] != [];
        if i < last {
          assert targets[..last][i] == k && matches[..last][i] != [];
        }
      }
    }
  }

  /** With distinct boundary indices, `snap_count` is the number of distinct
      vertices written: each primary vertex is written at most once. */
  lemma {:induction false} SnapCountIsSlotCount(targets: seq<nat>, matches: seq<seq<nat>>)
    requires |targets| == |matches|
    requires StrictlyIncreasing(targets)
    ensures |SnappedSlots(targets, matches)| == CountNonEmpty(matches)
  {
    if |matches| > 0 {
      var last := |matches| - 1;
      SnapCountIsSlotCount(targets[..last], matches[..last]);
    }
  }

  /**
    The loop of stl_util.py:101-106: for each non-empty match list, write its
    first reference point over the primary boundary vertex and count it.
  */
  method SnapBoundary(vertices: array<Point>, targets: seq<nat>, pointsRef: seq<Point>,
                      matches: seq<seq<nat>>) returns (snapCount: nat)
    requires |targets| == |matches|
    requires IndicesBelow(targets, vertices.Length)
    requires MatchesInRange(matches, |pointsRef|)
    modifies vertices
    ensures vertices[..] == SnapAll(old(vertices[..]), targets, pointsRef, matches)
    ensures snapCount == CountNonEmpty(matches)
  {
    ghost var original := vertices[..];
    snapCount := 0;
    for i := 0 to |matches|
      invariant vertices[..] == SnapAll(original, targets[..i], pointsRef, matches[..i])
      invariant snapCount == CountNonEmpty(matches[..i])
    {
      assert targets[..i + 1][..i] == targets[..i];
      assert matches[..i + 1][..i] == matches[..i];
      var candidates := matches[i];
      if candidates != [] {
        var originalIdx := targets[i];
        vertices[originalIdx] := pointsRef[candidates[0]];
        snapCount := snapCount + 1;
      }
    }
    assert targets[..|matches|] == targets;
    assert matches[..|matches|] == matches;
  }

  /**
    What a tolerance-ball query over the reference boundary `bvR` returns
    for the primary boundary `bvP`: one list per primary boundary vertex,
    each index addressing a reference boundary point within `tol` of it,
    positions taken before any write. A negative tolerance acts as its
    absolute value.
  */
  predicate BallQueryResult(matches: seq<seq<nat>>, verts: seq<Point>, bvP: seq<nat>,
                            refVerts: seq<Point>, bvR: seq<nat>, tol: real)
  {
    && IndicesBelow(bvP, |verts|)
    && IndicesBelow(bvR, |refVerts|)
    && |matches| == |bvP|
    && MatchesInRange(matches, |bvR|)
    && forall i, j :: 0 <= i < |matches| && 0 <= j < |matches[i]| ==>
         WithinTol(verts[bvP[i]], refVerts[bvR[matches[i][j]]], tol)
  }

  /** The query compares squared distances with `tol * tol`, so `tol` and
      `-tol` admit exactly the same answers. */
  lemma BallQueryIgnoresSign(matches: seq<seq<nat>>, verts: seq<Point>, bvP: seq<nat>,
                             refVerts: seq<Point>, bvR: seq<nat>, tol: real)
    ensures BallQueryResult(matches, verts, bvP, refVerts, bvR, tol) <==>
            BallQueryResult(matches, verts, bvP, refVerts, bvR, -tol)
  {
    assert (-tol) * (-tol) == tol * tol;
  }

  /** `points_ref`: the reference boundary positions, copied. */
  function Gather(positions: seq<Point>, idx: seq<nat>): (pts: seq<Point>)
    requires IndicesBelow(idx, |positions|)
    ensures |pts| == |idx|
    ensures forall i :: 0 <= i < |idx| ==> pts[i] == positions[idx[i]]
  {
    seq(|idx|, i requires 0 <= i < |idx| => positions[idx[i]])
  }

  /**
    Snapping with ball-query matches moves no primary vertex further than
    `tol`: the point written into a boundary slot was found within the
    tolerance ball around that slot's original position, and every other
    slot keeps its position.
  */
  lemma BallQueryBoundsDisplacement(matches: seq<seq<nat>>, verts: seq<Point>, bvP: seq<nat>,
                                    refVerts: seq<Point>, bvR: seq<nat>, tol: real)
    requires BallQueryResult(matches, verts, bvP, refVerts, bvR, tol)
    requires StrictlyIncreasing(bvP)
    ensures forall k :: 0 <= k < |verts| ==>
              SqDist(verts[k], SnapAll(verts, bvP, Gather(refVerts, bvR), matches)[k]) <= tol * tol
  {
    var pointsRef := Gather(refVerts, bvR);
    forall i | 0 <= i < |matches| && matches[i] != []
      ensures WithinTol(verts[bvP[i]], pointsRef[matches[i][0]], tol)
    {
      assert WithinTol(verts[bvP[i]], refVerts[bvR[matches[i][0]]], tol);
    }
    SnapAllWithinTol(verts, bvP, pointsRef, matches, tol);
  }

  /**
    `cleanBoundaries` between loading and export: extract both boundaries,
    take the tolerance-ball matches, and snap the primary boundary in place.
    Only the primary vertex array changes. The ghost results name the two
    boundaries the contract speaks about.
  */
  method CleanBoundaries(primary: Mesh, reference: Mesh, matches: seq<seq<nat>>, tol: real)
      returns (r: Result<nat, SnapError>, ghost bvP: seq<nat>, ghost bvR: seq<nat>)
    requires primary.Valid() && reference.Valid()
    requires primary.vertices != reference.vertices
    requires BallQueryResult(matches, primary.vertices[..], BoundaryVertices(primary.faces[..]),
                             reference.vertices[..], BoundaryVertices(reference.faces[..]), tol)
    modifies primary.vertices
    ensures primary.Valid() && reference.Valid()
    ensures bvP == BoundaryVertices(primary.faces[..]) && bvR == BoundaryVertices(reference.faces[..])
    ensures primary.faces[..] == old(primary.faces[..])
    ensures reference.vertices[..] == old(reference.vertices[..])
    ensures bvP == [] ==> r == Err(EmptyPrimaryBoundary) && primary.vertices[..] == old(primary.vertices[..])
    ensures bvP != [] && bvR == [] ==>
              r == Err(EmptyReferenceBoundary) && primary.vertices[..] == old(primary.vertices[..])
    ensures bvP != [] && bvR != [] ==> r == Ok(CountNonEmpty(matches))
    ensures r.Ok? ==> primary.vertices[..] == SnapAll(old(primary.vertices[..]), bvP, Gather(reference.vertices[..], bvR), matches)
  {
    var boundaryPrimary := GetBoundaryVertices(primary);
    bvP, bvR := boundaryPrimary, BoundaryVertices(reference.faces[..]);
    if |boundaryPrimary| == 0 {
      return Err(EmptyPrimaryBoundary), bvP, bvR;
    }
    var boundaryRef := GetBoundaryVertices(reference);
    if |boundaryRef| == 0 {
      return Err(EmptyReferenceBoundary), bvP, bvR;
    }
    var pointsRef := Gather(reference.vertices[..], boundaryRef);
    var snapCount := SnapBoundary(primary.vertices, boundaryPrimary, pointsRef, matches);
    r := Ok(snapCount);
  }
}
