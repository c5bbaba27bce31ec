/**
  Region merging (`mergeSTLs` in stl_util.py): several ASCII STL parts are
  concatenated into one multi-region file. Each part's own `solid` and
  `endsolid` lines are dropped and the part is wrapped in a fresh
  `solid <region>` / `endsolid <region>` pair.

  A part is the list of lines `readlines()` returns (each keeping its line
  terminator); the output file is the sequence of strings written to it.
*/
module Merge {
  import opened Results

  /** `str.isspace()` for one character: Python's Unicode white space. */
  predicate IsSpace(c: char)
  {
    || c == '\t' || c == '\n' || c == '\U{0B}' || c == '\U{0C}' || c == '\r'
    || ('\U{1C}' <= c <= '\U{1F}') || c == ' ' || c == '\U{85}' || c == '\U{A0}'
    || c == '\U{1680}' || ('\U{2000}' <= c <= '\U{200A}')
    || c == '\U{2028}' || c == '\U{2029}' || c == '\U{202F}' || c == '\U{205F}'
    || c == '\U{3000}'
  }

  /** `s.lstrip()`: drop the leading white space (see `LStripSpec`). */
  function LStrip(s: string): (t: string)
    ensures |t| <= |s|
  {
    if |s| > 0 && IsSpace(s[0]) then LStrip(s[1..]) else s
  }

  /** `s.rstrip()`: drop the trailing white space (see `RStripSpec`). */
  function RStrip(s: string): (t: string)
    ensures |t| <= |s|
  {
    if |s| > 0 && IsSpace(s[|s| - 1]) then RStrip(s[..|s| - 1]) else s
  }

  /** `s.strip()` (see `StripSpec`). */
  function Strip(s: string): (t: string)
    ensures |t| <= |s|
  {
    RStrip(LStrip(s))
  }

  /** `s.startswith(p)`. */
  predicate StartsWith(s: string, p: string)
  {
    |p| <= |s| && s[..|p|] == p
  }

  /** A line the merger skips: once stripped it opens or closes a solid. */
  predicate IsRegionMarker(line: string)
  {
    StartsWith(Strip(line), "solid") || StartsWith(Strip(line), "endsolid")
  }

  /** A line the merger copies. */
  predicate IsBodyLine(line: string)
  {
    !IsRegionMarker(line)
  }

  /** The lines of `lines` that satisfy `pick`, in order. */
  function Filter(lines: seq<string>, pick: string -> bool): (f: seq<string>)
    ensures |f| <= |lines|
  {
    if |lines| == 0 then []
    else
      var last := |lines| - 1;
      Filter(lines[..last], pick) + (if pick(lines[last]) then [lines[last]] else [])
  }

  /** The lines of a part that are copied to the output, in order. */
  function Kept(lines: seq<string>): seq<string>
  {
    Filter(lines, IsBodyLine)
  }

  /** The lines the merger skips, in order. */
  function Markers(lines: seq<string>): seq<string>
  {
    Filter(lines, IsRegionMarker)
  }

  /** `f"solid {region}\n"`: `solid`, a space, the region name and a
      newline, from which the region name can be read back. */
  function Header(region: string): (h: string)
    ensures StartsWith(h, "solid")
    ensures |h| == |region| + 7 && h[..6] == "solid " && h[|h| - 1] == '\n' && h[6..|h| - 1] == region
  {
    var h := "solid " + region + "\n";
    assert h[..5] == "solid";
    assert h[..6] == "solid ";
    h
  }

  /** `f"endsolid {region}\n"`: likewise `endsolid`, a space, the region
      name and a newline. */
  function Footer(region: string): (f: string)
    ensures StartsWith(f, "endsolid")
    ensures |f| == |region| + 10 && f[..9] == "endsolid " && f[|f| - 1] == '\n' && f[9..|f| - 1] == region
  {
    var f := "endsolid " + region + "\n";
    assert f[..8] == "endsolid";
    assert f[..9] == "endsolid ";
    f
  }

  /** What one part contributes to the merged file: its copied lines
      between the region's header and footer. */
  function RegionBlock(lines: seq<string>, region: string): (b: seq<string>)
    ensures |b| == |Kept(lines)| + 2
  {
    [Header(region)] + Kept(lines) + [Footer(region)]
  }

  /** The merged file for parts and region names paired in order. */
  function MergedRegions(parts: seq<seq<string>>, regions: seq<string>): seq<string>
    requires |parts| == |regions|
  {
    if |parts| == 0 then []
    else
      var last := |parts| - 1;
      MergedRegions(parts[..last], regions[..last]) + RegionBlock(parts[last], regions[last])
  }

  /** All lines of all parts, in order. */
  function Flatten(parts: seq<seq<string>>): seq<string>
  {
    if |parts| == 0 then [] else Flatten(parts[..|parts| - 1]) + parts[|parts| - 1]
  }

  /** The region markers a well-formed merged file carries: one `solid` /
      `endsolid` pair per region, in the order given. */
  function RegionMarkers(regions: seq<string>): seq<string>
  {
    if |regions| == 0 then []
    else
      var last := |regions| - 1;
      RegionMarkers(regions[..last]) + [Header(regions[last]), Footer(regions[last])]
  }

  datatype MergeError = LengthMismatch

  /**
    The inner loop of the merger: append every line of a part that is not a
    region marker to what has been written.
  */
  method WriteBody(written: seq<string>, lines: seq<string>) returns (extended: seq<string>)
    ensures extended == written + Kept(lines)
  {
    extended := written;
    for j := 0 to |lines|
      invariant extended == written + Kept(lines[..j])
    {
      assert lines[..j + 1][..j] == lines[..j];
      var line := lines[j];
      if !IsRegionMarker(line) {
        extended := extended + [line];
      }
    }
    assert lines[..|lines|] == lines;
  }

  /**
    The merger: refuse mismatched lists before anything is written, then
    for each part write its header, its non-marker lines and its footer.
  */
  method MergeSTLs(parts: seq<seq<string>>, regions: seq<string>)
      returns (r: Result<seq<string>, MergeError>)
    ensures r.Err? <==> |parts| != |regions|
    ensures r.Ok? ==> r.value == MergedRegions(parts, regions)
  {
    if |parts| != |regions| {
      return Err(LengthMismatch);
    }
    var written: seq<string> := [];
    for p := 0 to |parts|
      invariant written == MergedRegions(parts[..p], regions[..p])
    {
      var lines := parts[p];
      var region := regions[p];
      written := written + [Header(region)];
      written := WriteBody(written, lines);
      written := written + [Footer(region)];
      assert parts[..p + 1][..p] == parts[..p];
      assert regions[..p + 1][..p] == regions[..p];
    }
    assert parts[..|parts|] == parts && regions[..|regions|] == regions;
    return Ok(written);
  }

  /** A line survives filtering exactly when it is a line of the input
      that satisfies the predicate. */
  lemma {:induction false} FilterMembers(lines: seq<string>, pick: string -> bool, x: string)
    ensures x in Filter(lines, pick) <==> x in lines && pick(x)
  {
    if |lines| > 0 {
      var last := |lines| - 1;
      FilterMembers(lines[..last], pick, x);
      assert lines == lines[..last] + [lines[last]];
    }
  }

  /** Filtering commutes with concatenation. */
  lemma {:induction false} FilterAppend(a: seq<string>, b: seq<string>, pick: string -> bool)
    ensures Filter(a + b, pick) == Filter(a, pick) + Filter(b, pick)
  {
    if |b| > 0 {
      var last := |b| - 1;
      assert (a + b)[..|a + b| - 1] == a + b[..last];
      FilterAppend(a, b[..last], pick);
    } else {
      assert a + b == a;
    }
  }

  /** Filtering a single line. */
  lemma FilterSingleton(x: string, pick: string -> bool)
    ensures Filter([x], pick) == if pick(x) then [x] else []
  {
    assert [x][..0] == [];
  }

  /** Two picked lines around a stretch with nothing picked filter to the pair. */
  lemma FilterFramed(h: string, body: seq<string>, f: string, pick: string -> bool)
    requires pick(h) && pick(f) && Filter(body, pick) == []
    ensures Filter([h] + body + [f], pick) == [h, f]
  {
    FilterSingleton(h, pick);
    FilterSingleton(f, pick);
    FilterAppend([h] + body, [f], pick);
    FilterAppend([h], body, pick);
  }

  /** Filtering twice by the same predicate is filtering once. */
  lemma {:induction false} FilterIdempotent(lines: seq<string>, pick: string -> bool)
    ensures Filter(Filter(lines, pick), pick) == Filter(lines, pick)
  {
    if |lines| > 0 {
      var last := |lines| - 1;
      var x := lines[last];
      var rest := Filter(lines[..last], pick);
      assert lines == lines[..last] + [x];
      assert Filter(lines, pick) == rest + (if pick(x) then [x] else []);
      FilterIdempotent(lines[..last], pick);
      FilterSingleton(x, pick);
      FilterAppend(rest, if pick(x) then [x] else [], pick);
    }
  }

  /** Filtering by one predicate and then by a disjoint one leaves nothing. */
  lemma {:induction false} FilterDisjoint(lines: seq<string>, pick: string -> bool, other: string -> bool)
    requires forall x :: pick(x) ==> !other(x)
    ensures Filter(Filter(lines, pick), other) == []
  {
    if |lines| > 0 {
      var last := |lines| - 1;
      var x := lines[last];
      FilterDisjoint(lines[..last], pick, other);
      FilterSingleton(x, other);
      FilterAppend(Filter(lines[..last], pick), if pick(x) then [x] else [], other);
    }
  }

  /** Two complementary filters split a sequence's length. */
  lemma {:induction false} FilterComplementLength(lines: seq<string>, pick: string -> bool, other: string -> bool)
    requires forall x :: pick(x) != other(x)
    ensures |Filter(lines, pick)| + |Filter(lines, other)| == |lines|
  {
    if |lines| > 0 {
      FilterComplementLength(lines[..|lines| - 1], pick, other);
    }
  }

  /** A kept line is a part's line that is not a region marker, and every
      such line is kept. */
  lemma KeptMembers(lines: seq<string>, x: string)
    ensures x in Kept(lines) <==> x in lines && !IsRegionMarker(x)
  {
    FilterMembers(lines, IsBodyLine, x);
  }

  /** Every line of a part is either copied or skipped, never both. */
  lemma KeptMarkersSplit(lines: seq<string>)
    ensures |Kept(lines)| + |Markers(lines)| == |lines|
  {
    FilterComplementLength(lines, IsBodyLine, IsRegionMarker);
  }

  /** Stripping trailing white space keeps a prefix that ends in a
      non-space character. */
  lemma {:induction false} RStripKeepsPrefix(s: string, k: nat)
    requires 0 < k <= |s| && !IsSpace(s[k - 1])
    ensures k <= |RStrip(s)| && RStrip(s)[..k] == s[..k]
  {
    if IsSpace(s[|s| - 1]) {
      assert k < |s|;
      RStripKeepsPrefix(s[..|s| - 1], k);
    }
  }

  /** A line that starts with a non-space `p` still starts with `p` after
      stripping. */
  lemma StripKeepsLeadingWord(s: string, p: string)
    requires |p| > 0 && StartsWith(s, p)
    requires !IsSpace(p[0]) && !IsSpace(p[|p| - 1])
    ensures StartsWith(Strip(s), p)
  {
    assert s[0] == p[0];
    assert LStrip(s) == s;
    RStripKeepsPrefix(s, |p|);
  }

  /** `lstrip` removes a leading run of white space, and only that. */
  lemma {:induction false} LStripSpec(s: string)
    ensures var t := LStrip(s);
            && t == s[|s| - |t|..]
            && (t == [] || !IsSpace(t[0]))
            && forall i :: 0 <= i < |s| - |t| ==> IsSpace(s[i])
  {
    if |s| > 0 && IsSpace(s[0]) {
      LStripSpec(s[1..]);
    }
  }

  /** `rstrip` removes a trailing run of white space, and only that. */
  lemma {:induction false} RStripSpec(s: string)
    ensures var t := RStrip(s);
            && t == s[..|t|]
            && (t == [] || !IsSpace(t[|t| - 1]))
            && forall i :: |t| <= i < |s| ==> IsSpace(s[i])
  {
    if |s| > 0 && IsSpace(s[|s| - 1]) {
      RStripSpec(s[..|s| - 1]);
    }
  }

  /** A stretch `t` cut from the front of a suffix `l` of `s`, with only
      white space dropped on either side, sits at offset |s| - |l| in `s`. */
  lemma StripFrame(s: string, l: string, t: string)
    requires |l| <= |s| && l == s[|s| - |l|..]
    requires forall i :: 0 <= i < |s| - |l| ==> IsSpace(s[i])
    requires |t| <= |l| && t == l[..|t|]
    requires forall i :: |t| <= i < |l| ==> IsSpace(l[i])
    requires t == [] || (t[0] == l[0] && !IsSpace(l[0]) && !IsSpace(t[|t| - 1]))
    ensures var k := |s| - |l|;
            && t == s[k..k + |t|]
            && (t == [] || (!IsSpace(t[0]) && !IsSpace(t[|t| - 1])))
            && (forall i :: 0 <= i < k ==> IsSpace(s[i]))
            && (forall i :: k + |t| <= i < |s| ==> IsSpace(s[i]))
  {
    var k := |s| - |l|;
    forall i | k + |t| <= i < |s| ensures IsSpace(s[i]) {
      assert s[i] == l[i - k];
    }
  }

  /** `strip` keeps a stretch of the line that neither starts nor ends with
      white space, and everything it drops around it is white space. */
  lemma StripSpec(s: string)
    ensures var t := Strip(s);
            var k := |s| - |LStrip(s)|;
            && t == s[k..k + |t|]
            && (t == [] || (!IsSpace(t[0]) && !IsSpace(t[|t| - 1])))
            && (forall i :: 0 <= i < k ==> IsSpace(s[i]))
            && (forall i :: k + |t| <= i < |s| ==> IsSpace(s[i]))
  {
    var l := LStrip(s);
    var t := RStrip(l);
    LStripSpec(s);
    RStripSpec(l);
    if t != [] {
      RStripKeepsPrefix(l, 1);
    }
    StripFrame(s, l, t);
  }

  /** A line that begins with either keyword still does so once stripped. */
  lemma KeywordLinesStayKeywordLines(line: string)
    ensures StartsWith(line, "solid") ==> StartsWith(Strip(line), "solid")
    ensures StartsWith(line, "endsolid") ==> StartsWith(Strip(line), "endsolid")
  {
    if StartsWith(line, "solid") {
      StripKeepsLeadingWord(line, "solid");
    }
    if StartsWith(line, "endsolid") {
      StripKeepsLeadingWord(line, "endsolid");
    }
  }

  /** The written header and footer are themselves region markers, so a
      merged file read back by the merger is re-wrapped, not duplicated. */
  lemma HeaderFooterAreMarkers(region: string)
    ensures IsRegionMarker(Header(region))
    ensures IsRegionMarker(Footer(region))
  {
    KeywordLinesStayKeywordLines(Header(region));
    KeywordLinesStayKeywordLines(Footer(region));
  }

  /** A region block contributes exactly its part's kept lines. */
  lemma RegionBlockBody(lines: seq<string>, region: string)
    ensures Kept(RegionBlock(lines, region)) == Kept(lines)
  {
    var h, f := Header(region), Footer(region);
    var body := Kept(lines);
    HeaderFooterAreMarkers(region);
    FilterSingleton(h, IsBodyLine);
    FilterSingleton(f, IsBodyLine);
    FilterIdempotent(lines, IsBodyLine);
    FilterAppend([h] + body, [f], IsBodyLine);
    FilterAppend([h], body, IsBodyLine);
  }

  /** No copied line is a marker. */
  lemma KeptHasNoMarkers(lines: seq<string>)
    ensures Markers(Kept(lines)) == []
  {
    FilterDisjoint(lines, IsBodyLine, IsRegionMarker);
  }

  /** A region block's only markers are its header and its footer. */
  lemma RegionBlockMarkers(lines: seq<string>, region: string)
    ensures Markers(RegionBlock(lines, region)) == [Header(region), Footer(region)]
  {
    var h, f := Header(region), Footer(region);
    assert RegionBlock(lines, region) == [h] + Kept(lines) + [f];
    HeaderFooterAreMarkers(region);
    KeptHasNoMarkers(lines);
    FilterFramed(h, Kept(lines), f, IsRegionMarker);
  }

  /** The merged file has two lines per region plus every kept line. */
  lemma {:induction false} MergedLength(parts: seq<seq<string>>, regions: seq<string>)
    requires |parts| == |regions|
    ensures |MergedRegions(parts, regions)| == 2 * |parts| + |Kept(Flatten(parts))|
  {
    if |parts| > 0 {
      var last := |parts| - 1;
      MergedLength(parts[..last], regions[..last]);
      FilterAppend(Flatten(parts[..last]), parts[last], IsBodyLine);
    }
  }

  /** Nothing but markers is lost or added: the non-marker lines of the
      merged file are exactly the non-marker lines of the parts, in order. */
  lemma {:induction false} MergedBody(parts: seq<seq<string>>, regions: seq<string>)
    requires |parts| == |regions|
    ensures Kept(MergedRegions(parts, regions)) == Kept(Flatten(parts))
  {
    if |parts| > 0 {
      var last := |parts| - 1;
      MergedBody(parts[..last], regions[..last]);
      var prev := MergedRegions(parts[..last], regions[..last]);
      var block := RegionBlock(parts[last], regions[last]);
      assert MergedRegions(parts, regions) == prev + block;
      RegionBlockBody(parts[last], regions[last]);
      FilterAppend(prev, block, IsBodyLine);
      FilterAppend(Flatten(parts[..last]), parts[last], IsBodyLine);
    }
  }

  /** The merged file's region markers are exactly one header and one
      footer per region, in the order of the region names. */
  lemma {:induction false} MergedMarkers(parts: seq<seq<string>>, regions: seq<string>)
    requires |parts| == |regions|
    ensures Markers(MergedRegions(parts, regions)) == RegionMarkers(regions)
  {
    if |parts| > 0 {
      var last := |parts| - 1;
      MergedMarkers(parts[..last], regions[..last]);
      var prev := MergedRegions(parts[..last], regions[..last]);
      var block := RegionBlock(parts[last], regions[last]);
      assert MergedRegions(parts, regions) == prev + block;
      RegionBlockMarkers(parts[last], regions[last]);
      FilterAppend(prev, block, IsRegionMarker);
    }
  }
}
