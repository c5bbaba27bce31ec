# STL preprocessing for OpenFOAM, modelled in Dafny

`stl_util.py` prepares STL surfaces exported from FreeCAD for OpenFOAM's
meshing tools. It has three operations:

- `bin2ascii` detects ASCII STL by its header and converts a binary file otherwise.
- `cleanBoundaries` snaps the open-boundary vertices of one surface onto the
  boundary vertices of another, so that the two surfaces join without gaps.
- `mergeSTLs` concatenates several ASCII parts into one multi-region file with
  one named `solid` per part.

This project models the logic of those operations and proves what they
promise. Each module follows one part of the script:

- `Meshes` (meshes.dfy) holds the data model.
  - Points have exact real coordinates.
  - A face is a triple of vertex indices.
  - An edge is a sorted pair.
  - `Mesh` is a class over a vertex array and a face array.
  - The module `Results` in the same file holds the `Result` and `Option` wrappers.
- `Boundary` (boundary.dfy) models `get_boundary_vertices`.
  - `CountEdges` fills a map of edge counts in a loop.
  - `GetBoundaryVertices` is proved equal to a specification: the strictly increasing list of the endpoints of edges that exactly one face side carries.
- `Snapping` (snapping.dfy) models the snapping loop of `cleanBoundaries` on the primary vertex array.
  - The result of the KD-tree ball query is an input, constrained to what such a query returns.
  - The loop is proved equal to `SnapAll`, a function of the original positions.
  - Lemmas about `SnapAll` show that:
    - untouched vertices keep their position;
    - matched vertices land on their first match;
    - no vertex moves further than the tolerance;
    - `snap_count` is the number of distinct vertices written (snapped), each at most once.
- `Merge` (merge.dfy) models `mergeSTLs`.
  - Python's `strip` and `startswith` are modelled, with `str.isspace` white space.
  - The output file is the sequence of strings written to it.
  - The merge loop is proved equal to `MergedRegions`.
  - Lemmas about `MergedRegions` show that:
    - only the parts' `solid`/`endsolid` lines are dropped;
    - the markers in the result are exactly one header/footer pair per region, in order;
    - the result has length 2n plus the number of kept lines.
- `AsciiCheck` (ascii.dfy) models the header test and the control flow of `bin2ascii` over a file system held as a map.

## Model

| member | source | states |
|---|---|---|
| Meshes.Canon | stl_util.py:78 | `tuple(sorted((a, b)))`: the pair has the same two endpoints, smaller first |
| Meshes.CanonOrderInsensitive | stl_util.py:78 | the edge key does not depend on the direction in which a face lists the side |
| Meshes.FaceEdges | stl_util.py:76-78 | a face contributes three sides, side `i` joining corner `i` to corner `(i + 1) % 3`, each as a sorted pair |
| Meshes.Mesh.constructor | stl_util.py:89-90 | a loaded mesh holds the given vertices and faces, every face addressing existing vertices |
| Boundary.EdgeList | stl_util.py:75-78 | the scan visits exactly three sides per face |
| Boundary.Occurrences | stl_util.py:75-82 | an edge's count is at most three per face, and it is positive if and only if some face side carries the edge |
| Boundary.OccurrencesExtend | stl_util.py:75-82 | scanning one more face adds that face's sides to every edge's count and changes nothing else |
| Boundary.SidesAreUniqueEdges | stl_util.py:71-82 | every side met in the scan is already a key of the dictionary, which is pre-seeded from the mesh's unique edges |
| Boundary.UniqueEdges | stl_util.py:71-73 | the pre-seeded keys are exactly the edges that occur as a side of some face |
| Boundary.BoundaryEdges | stl_util.py:84-85 | an edge is a boundary edge if and only if it occurs exactly once |
| Boundary.BoundaryVertexSet | stl_util.py:86 | a vertex is collected if and only if it is an endpoint of a boundary edge |
| Boundary.SortedElements | stl_util.py:86 | `np.unique`: a strictly increasing list holding exactly the members of the set |
| Boundary.BoundaryVertices | stl_util.py:84-87 | the boundary vertices are strictly increasing, and a vertex is listed if and only if it ends a boundary edge |
| Boundary.CountFaceSides | stl_util.py:76-82 | the inner loop adds one to the count of each of the face's sides, creating missing keys, and changes no other count |
| Boundary.CountEdges | stl_util.py:71-82 | after the scan, the keys are the unique edges and every count equals the number of face sides carrying that edge |
| Boundary.GetBoundaryVertices | stl_util.py:69-87 | the computed list is the specified boundary list: strictly increasing, holding exactly the endpoints of edges counted once |
| Boundary.BoundaryVerticesInRange | stl_util.py:86-96 | every boundary index addresses an existing vertex, so the fancy indexing at lines 93 and 96 is in range |
| Boundary.ClosedMeshHasNoBoundary | stl_util.py:84-87 | if every edge is shared by two face sides, the boundary list is empty |
| Boundary.SidesOfNonDegenerate | stl_util.py:76-78 | a face with three distinct corners has three distinct sides |
| Boundary.OccurrencesCountFaces | stl_util.py:75-82 | without degenerate faces, an edge's count is the number of faces containing it |
| Boundary.BoundaryEdgeInOneFace | stl_util.py:84-85 | without degenerate faces, a boundary edge is exactly an edge that belongs to one face |
| Boundary.RepeatedCornerCountsSides | stl_util.py:75-86 | the scan counts face sides, not faces: for the single face `(0, 0, 1)` the edge `(0, 1)` lies in one face but is counted twice, so it is no boundary edge, and the boundary list is `[0]` |
| Snapping.CountNonEmpty | stl_util.py:101-106 | `snap_count` is at most the number of match lists, and it is zero exactly when every list is empty |
| Snapping.SnapAll | stl_util.py:101-106 | snapping keeps the number of vertices |
| Snapping.SnapAllKeeps | stl_util.py:101-106 | a vertex that no non-empty match list names keeps its position |
| Snapping.SnapAllMoves | stl_util.py:103-105 | with distinct boundary indices, a boundary vertex with a non-empty match list ends at the first reference point of that list |
| Snapping.SnapAllWithinTol | stl_util.py:98-105 | if every first match lies within `tol` of the vertex it replaces, no vertex moves further than `tol` |
| Snapping.SnappedSlots | stl_util.py:102-105 | only boundary vertices are written |
| Snapping.SnappedSlotsMembers | stl_util.py:102-105 | a vertex is written if and only if some non-empty match list belongs to it |
| Snapping.SnapCountIsSlotCount | stl_util.py:101-106 | `snap_count` equals the number of distinct vertices written, because each vertex is written at most once; a vertex snapped onto its own position counts although it does not move |
| Snapping.SnapBoundary | stl_util.py:101-106 | the loop leaves the vertex array equal to `SnapAll` of its old contents and returns the number of non-empty match lists |
| Snapping.Gather | stl_util.py:96 | `vertices[boundary_vertices_ref]`: one point per boundary index, the point at that index |
| Snapping.BallQueryIgnoresSign | stl_util.py:98-99 | the ball query compares squared distances with `tol * tol`, so `tol` and `-tol` admit exactly the same answers |
| Snapping.BallQueryBoundsDisplacement | stl_util.py:92-105 | with ball-query matches taken on the original positions, snapping moves every primary vertex by at most the absolute value of `tol` |
| Snapping.CleanBoundaries | stl_util.py:92-106 | an empty primary or reference boundary is an error that leaves the mesh untouched; otherwise the primary vertices become `SnapAll` over the two boundaries, the count is that of non-empty match lists, and faces and reference mesh are unchanged |
| Merge.LStrip | stl_util.py:136 | `lstrip()` never lengthens the line |
| Merge.RStrip | stl_util.py:136 | `rstrip()` never lengthens the line |
| Merge.Strip | stl_util.py:136 | `strip()` never lengthens the line |
| Merge.LStripSpec | stl_util.py:136 | `lstrip()` returns a suffix of the line that is empty or starts with a non-space character, and every character it drops is white space |
| Merge.RStripSpec | stl_util.py:136 | `rstrip()` returns a prefix of the line that is empty or ends with a non-space character, and every character it drops is white space |
| Merge.StripSpec | stl_util.py:136 | `strip()` returns a contiguous stretch of the line that neither starts nor ends with white space, and everything around it is white space |
| Merge.KeywordLinesStayKeywordLines | stl_util.py:136 | a line that begins with `solid` or `endsolid` is still recognised after stripping |
| Merge.StripKeepsLeadingWord | stl_util.py:136 | a line that starts with a word ending in a non-space character still starts with it after `strip()` |
| Merge.Header | stl_util.py:134 | the written header is `solid`, a space, the region name and a newline: it starts with `solid`, ends with a newline, and the region can be read back |
| Merge.Footer | stl_util.py:139 | the written footer is `endsolid`, a space, the region name and a newline: it starts with `endsolid`, ends with a newline, and the region can be read back |
| Merge.HeaderFooterAreMarkers | stl_util.py:134-139 | the written `solid <region>` and `endsolid <region>` lines are themselves lines the merger would skip |
| Merge.KeptMembers | stl_util.py:135-138 | a part's line is copied if and only if, once stripped, it starts with neither `solid` nor `endsolid` |
| Merge.KeptMarkersSplit | stl_util.py:135-138 | each line of a part is either copied or skipped, never both |
| Merge.RegionBlock | stl_util.py:134-139 | one part contributes its copied lines plus exactly two lines, the header and the footer |
| Merge.KeptHasNoMarkers | stl_util.py:135-138 | no copied line is a line the merger would skip |
| Merge.RegionBlockBody | stl_util.py:134-139 | the non-marker lines of one region block are exactly the part's copied lines |
| Merge.RegionBlockMarkers | stl_util.py:134-139 | the only marker lines of one region block are its header and footer |
| Merge.WriteBody | stl_util.py:135-138 | the inner loop appends exactly the part's copied lines, in order, to what was already written |
| Merge.MergeSTLs | stl_util.py:125-139 | mismatched list lengths are an error raised before anything is written; otherwise the written lines are `MergedRegions` of the parts and names |
| Merge.MergedLength | stl_util.py:130-139 | the merged file has two lines per region plus the copied lines of all parts |
| Merge.MergedBody | stl_util.py:130-139 | the non-marker lines of the merged file are the non-marker lines of the parts, in order |
| Merge.MergedMarkers | stl_util.py:130-139 | the marker lines of the merged file are exactly `solid r`, `endsolid r` for each region `r`, in the order given |
| AsciiCheck.ReadHeader | stl_util.py:26-27 | `f.read(80)` is a prefix of the file of length 80, or the whole file if shorter |
| AsciiCheck.IsAscii | stl_util.py:27-28 | the header test accepts a file if and only if the whole file starts with `solid`: reading only 80 bytes loses nothing |
| AsciiCheck.Bin2Ascii | stl_util.py:22-49 | a missing input is an error; the returned path is `output_path`, defaulting to `input_path`; an ASCII input leaves every file as it was; a binary input puts the ASCII text at the returned path; no other file changes |
| AsciiCheck.AsWrittenReturnsUnwrittenPath | stl_util.py:30-33 | for an ASCII input and a distinct output path that does not exist, the returned path still names no file |
| AsciiCheck.AsWrittenCounterexample | stl_util.py:30-33 | the same for `part.stl` holding `solid` with `out.stl` requested |
| AsciiCheck.Bin2AsciiFixed | stl_util.py:22-49 | the corrected conversion has the same error case; an ASCII input returns its own path and changes no file; a binary input is written as before |
| AsciiCheck.FixedReturnsAsciiFile | stl_util.py:22-49 | with the correction, the returned path always holds a file that passes the ASCII header test |
| AsciiCheck.FixedAgreesWhereWrittenWorks | stl_util.py:30-43 | the correction behaves as written for binary inputs and for in-place conversion |
| AsciiCheck.FixedIdempotent | stl_util.py:22-49 | converting a second time changes nothing |

## Left out

- Loading and exporting STL are not modelled. This covers `trimesh.load` with its binary/ASCII decoding and vertex merging, `export_stl_ascii`, and the writing of `output_path` in `cleanBoundaries`. A mesh is given as its vertex and face arrays, and the ASCII text a conversion writes is a parameter.
- Boundary.BoundaryEdgeInOneFace: "a boundary edge is an edge that exactly one face contains" holds only for faces with three distinct corners. The code counts face sides, so a face with a repeated corner, which vertex merging can produce from a sliver triangle, is counted differently: the faces `[(0, 0, 1)]` give the boundary list `[0]`, not `[0, 1]` (`Boundary.RepeatedCornerCountsSides`). The model follows the code.
- `trimesh`'s `edges_unique` is taken to be the set of sorted face sides of the same faces, which is how the library derives it.
- `cKDTree.query_ball_point` is not modelled. Its result is an input constrained by `Snapping.BallQueryResult`: one list per primary boundary vertex, every index a reference boundary point within `tol` of it. The following are not modelled:
  - completeness: the constraint does not demand that every reference boundary point within `tol` appear in the list, so "a vertex within `tol` of some reference boundary point is snapped" is not claimed;
  - order: the library sorts a list by index, so `match[0]` is the lowest in-ball index, but the model lets any in-ball point come first;
  - nearest-point claims.
- Floating point is not modelled. Coordinates are exact reals, and "within `tol`" is a squared distance of at most `tol * tol`. `tol` is not checked, as in the code: a negative tolerance acts as its absolute value, because the query compares squared distances with `tol * tol`.
- Snapping.CleanBoundaries: a mesh without boundary edges ends in an error, not in zero snaps. `np.unique` of the empty list is a float array, and indexing the vertex array with it raises. The method returns `snap_count` rather than the output path, because the export is not modelled.
- `surface_check` and `_check_virtualenv` are not modelled. They run an external program or inspect the interpreter environment.
- Printing and the `quiet` flag are not modelled.
- Merge.MergeSTLs: file handling is not modelled:
  - the truncation of the output file before the parts are read;
  - the error when a part file is missing;
  - text-mode newline translation.
- Merge.Header: a region name containing a line break makes the header two lines of the file, and `Merge.Footer` likewise; the model counts writes, so `Merge.MergedMarkers` speaks of written strings, not of file lines.
- Merge.MergeSTLs: the output is the sequence of writes. A part whose last copied line lacks a line terminator would run into the following `endsolid` line in the file text, and the model does not show that join.
- Merge.LStrip: its own contract states only the length bound; the full characterisation is the lemma `Merge.LStripSpec`, kept out of the function so the merge proofs stay cheap.
- Merge.RStrip: its own contract states only the length bound; the full characterisation is the lemma `Merge.RStripSpec`.
- Merge.Strip: its own contract states only the length bound; the full characterisation is the lemma `Merge.StripSpec`.
- AsciiCheck.Bin2Ascii: the following are not modelled:
  - a binary file that the mesh library cannot decode;
  - the text encoding of the written file.

  A binary STL whose free-form 80-byte header happens to begin with `solid` is classified as ASCII, exactly as the code does.

## Findings

| source | as written | input that shows it | evidently intended | confidence | as-written member | corrected member |
|---|---|---|---|---|---|---|
| stl_util.py:30-33 | an input already in ASCII returns `output_path` without writing anything there | `part.stl` holding `solid ...`, called with `output_path="out.stl"` where `out.stl` does not exist: the returned path names no file | the returned path holds the ASCII file: return the input path, which already holds it | not executed; medium | AsciiCheck.AsWrittenReturnsUnwrittenPath | AsciiCheck.Bin2AsciiFixed |
