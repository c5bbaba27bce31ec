/**
  Format detection and conversion (`bin2ascii` in stl_util.py). A file whose
  first 80 bytes start with `solid` is taken to be ASCII STL already and is
  left alone; anything else is decoded as a mesh and written out as ASCII
  STL. Files are modelled as a map from path to contents.
*/
module AsciiCheck {
  import opened Results

  type Byte = b: int | 0 <= b < 256

  type FileSystem = map<string, seq<Byte>>

  /** The bytes `f.read(80)` returns. */
  const HeaderLength: nat := 80

  /** `b'solid'`. */
  const SolidTag: seq<Byte> := [115, 111, 108, 105, 100]

  /** `f.read(80)`: at most the first 80 bytes. */
  function ReadHeader(content: seq<Byte>): (h: seq<Byte>)
    ensures |h| <= HeaderLength && |h| <= |content| && h == content[..|h|]
    ensures |h| == HeaderLength || h == content
  {
    if |content| <= HeaderLength then content else content[..HeaderLength]
  }

  /** `header.startswith(b'solid')`. Reading only 80 bytes loses nothing:
      the test is whether the whole file starts with `solid`. */
  predicate IsAscii(content: seq<Byte>)
    ensures IsAscii(content) <==> |SolidTag| <= |content| && content[..|SolidTag|] == SolidTag
  {
    var header := ReadHeader(content);
    assert |SolidTag| <= |header| ==> header[..|SolidTag|] == content[..|SolidTag|];
    |SolidTag| <= |header| && header[..|SolidTag|] == SolidTag
  }

  datatype IoError = FileNotFound(path: string)

  /** The path returned and the file system afterwards. */
  datatype Conversion = Conversion(path: string, files: FileSystem)

  /** Every file other than `path` is as it was. */
  ghost predicate OnlyChanges(before: FileSystem, after: FileSystem, path: string)
  {
    forall p :: p != path ==> (p in after <==> p in before) && (p in after ==> after[p] == before[p])
  }

  /**
    `bin2ascii` as written. `asciiText` stands for the ASCII text the mesh
    library produces for the decoded input; it is consulted only when the
    input is binary. Reading a missing input raises.
  */
  function Bin2Ascii(files: FileSystem, inputPath: string, outputPath: Option<string>,
                     asciiText: seq<Byte>): (r: Result<Conversion, IoError>)
    ensures r.Err? <==> inputPath !in files
    ensures r.Ok? ==> r.value.path == (if outputPath.Some? then outputPath.value else inputPath)
    ensures r.Ok? ==> OnlyChanges(files, r.value.files, r.value.path)
    ensures r.Ok? && IsAscii(files[inputPath]) ==> r.value.files == files
    ensures r.Ok? && !IsAscii(files[inputPath]) ==> r.value.files == files[r.value.path := asciiText]
  {
    var out := if outputPath.Some? then outputPath.value else inputPath;
    if inputPath !in files then Err(FileNotFound(inputPath))
    else if IsAscii(files[inputPath]) then Ok(Conversion(out, files))
    else Ok(Conversion(out, files[out := asciiText]))
  }

  /**
    As written, an ASCII input with a separate output path returns that path
    although nothing was written there: a caller reading the returned path
    finds no file.
  */
  lemma AsWrittenReturnsUnwrittenPath(files: FileSystem, inputPath: string, outputPath: string,
                                      asciiText: seq<Byte>)
    requires inputPath in files && IsAscii(files[inputPath])
    requires outputPath != inputPath && outputPath !in files
    ensures Bin2Ascii(files, inputPath, Some(outputPath), asciiText).Ok?
    ensures Bin2Ascii(files, inputPath, Some(outputPath), asciiText).value.path !in
            Bin2Ascii(files, inputPath, Some(outputPath), asciiText).value.files
  {
  }

  /** A concrete instance: `part.stl` is ASCII, `out.stl` is requested. */
  lemma AsWrittenCounterexample()
    ensures var files := map["part.stl" := SolidTag];
            var r := Bin2Ascii(files, "part.stl", Some("out.stl"), []);
            r.Ok? && r.value.path == "out.stl" && "out.stl" !in r.value.files
  {
    var files := map["part.stl" := SolidTag];
    assert IsAscii(files["part.stl"]);
    assert "out.stl" != "part.stl" by { assert "out.stl"[0] != "part.stl"[0]; }
  }

  /**
    The corrected conversion: an input that is already ASCII is left where
    it is and its own path is returned, so the returned path always names
    the converted file.
  */
  function Bin2AsciiFixed(files: FileSystem, inputPath: string, outputPath: Option<string>,
                          asciiText: seq<Byte>): (r: Result<Conversion, IoError>)
    ensures r.Err? <==> inputPath !in files
    ensures r.Ok? && IsAscii(files[inputPath]) ==>
              r.value.path == inputPath && r.value.files == files
    ensures r.Ok? && !IsAscii(files[inputPath]) ==>
              && r.value.path == (if outputPath.Some? then outputPath.value else inputPath)
              && r.value.files == files[r.value.path := asciiText]
    ensures r.Ok? ==> OnlyChanges(files, r.value.files, r.value.path)
  {
    var out := if outputPath.Some? then outputPath.value else inputPath;
    if inputPath !in files then Err(FileNotFound(inputPath))
    else if IsAscii(files[inputPath]) then Ok(Conversion(inputPath, files))
    else Ok(Conversion(out, files[out := asciiText]))
  }

  /** With the correction, the returned path holds ASCII STL whenever the
      exporter writes ASCII STL. */
  lemma FixedReturnsAsciiFile(files: FileSystem, inputPath: string, outputPath: Option<string>,
                              asciiText: seq<Byte>)
    requires inputPath in files && IsAscii(asciiText)
    ensures var r := Bin2AsciiFixed(files, inputPath, outputPath, asciiText);
            r.Ok? && r.value.path in r.value.files && IsAscii(r.value.files[r.value.path])
  {
  }

  /** The correction changes nothing where the original already delivered:
      a binary input, or an ASCII input converted in place. */
  lemma FixedAgreesWhereWrittenWorks(files: FileSystem, inputPath: string, outputPath: Option<string>,
                                     asciiText: seq<Byte>)
    requires inputPath in files
    requires !IsAscii(files[inputPath]) || outputPath == None || outputPath == Some(inputPath)
    ensures Bin2AsciiFixed(files, inputPath, outputPath, asciiText) == Bin2Ascii(files, inputPath, outputPath, asciiText)
  {
  }

  /** Converting twice is converting once: the second run finds either the
      same binary input again or the ASCII file the first run produced. */
  lemma FixedIdempotent(files: FileSystem, inputPath: string, outputPath: Option<string>,
                        asciiText: seq<Byte>)
    requires inputPath in files
    ensures var once := Bin2AsciiFixed(files, inputPath, outputPath, asciiText).value;
            var twice := Bin2AsciiFixed(once.files, inputPath, outputPath, asciiText).value;
            twice == once
  {
    var out := if outputPath.Some? then outputPath.value else inputPath;
    var once := Bin2AsciiFixed(files, inputPath, outputPath, asciiText).value;
    if !IsAscii(files[inputPath]) {
      if out == inputPath {
        if IsAscii(asciiText) {
          assert once.path == inputPath;
        } else {
          assert once.files[inputPath := asciiText] == once.files;
        }
      } else {
        assert once.files[inputPath] == files[inputPath];
        assert once.files[out := asciiText] == once.files;
      }
    }
  }
}
