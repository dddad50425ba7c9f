/**
 * Loading of Wavefront .obj and .mtl files: comment stripping, the line
 * dispatchers that append vertices, normals, texture coordinates and faces
 * (grouped by the active material) or define materials, and the material
 * lookup across the .mtl files an .obj file names.
 *
 * Numbers keep their tokens (std::stof is not modelled), the regex
 * tokenizer and file reading are parameters, and a thrown error (Assert in
 * a debug build, ThrowError) is a Failure.
 */
module ModelLoading {
  import opened Wrappers
  import opened Strings
  import opened Vectors

  datatype Vertex = Vertex(x: string, y: string, z: string)
  datatype TextureCoordinate = TextureCoordinate(x: string, y: string)
  datatype Normal = Normal(x: string, y: string, z: string)
  /** IndexedTriangleI3: three index tokens. */
  datatype Triangle = Triangle(i1: string, i2: string, i3: string)
  datatype Surface = Surface(vertexIndex: Triangle, texCoordinateIndex: Triangle, normalIndex: Triangle)
  /** A colour as its channel tokens; Unset is a default-constructed ColorF3, whose channels are never written. */
  datatype Color = Unset | Rgb(r: string, g: string, b: string)
  datatype Material = Material(color: Color, texture: string)

  const AssertFailed: string := "Assert failed!"

  function UnknownArgument(arg: string): string
  {
    "[Parse Error] Unknown Argument: " + arg
  }

  // ---- single lines ----

  /** Vertex::from_obj_file_line: exactly four tokens, the last three the coordinates. */
  function VertexFromLine(args: seq<string>): (r: Result<Vertex>)
    ensures r.Success? <==> |args| == 4
    ensures r.Success? ==> [args[0], r.value.x, r.value.y, r.value.z] == args
  {
    if |args| == 4 then Success(Vertex(args[1], args[2], args[3])) else Failure(AssertFailed)
  }

  /** TextureCoordinate::from_obj_file_line: exactly three tokens. */
  function TextureCoordinateFromLine(args: seq<string>): (r: Result<TextureCoordinate>)
    ensures r.Success? <==> |args| == 3
    ensures r.Success? ==> [args[0], r.value.x, r.value.y] == args
  {
    if |args| == 3 then Success(TextureCoordinate(args[1], args[2])) else Failure(AssertFailed)
  }

  /** Normal::from_obj_file_line: exactly four tokens. */
  function NormalFromLine(args: seq<string>): (r: Result<Normal>)
    ensures r.Success? <==> |args| == 4
    ensures r.Success? ==> [args[0], r.value.x, r.value.y, r.value.z] == args
  {
    if |args| == 4 then Success(Normal(args[1], args[2], args[3])) else Failure(AssertFailed)
  }

  /** The 16 tokens of a face line "f v/t/n v/t/n v/t/n", the separators "/" tokens of their own. */
  function FaceLine(s: Surface): seq<string>
  {
    ["f",
     s.vertexIndex.i1, "/", s.texCoordinateIndex.i1, "/", s.normalIndex.i1,
     s.vertexIndex.i2, "/", s.texCoordinateIndex.i2, "/", s.normalIndex.i2,
     s.vertexIndex.i3, "/", s.texCoordinateIndex.i3, "/", s.normalIndex.i3]
  }

  /**
   * Surface::from_obj_file_line: exactly 16 tokens; vertex indices from
   * tokens 1, 6, 11, texture indices from 3, 8, 13, normal indices from
   * 5, 10, 15.
   */
  function SurfaceFromLine(args: seq<string>): (r: Result<Surface>)
    ensures r.Success? <==> |args| == 16
  {
    if |args| == 16 then
      Success(Surface(Triangle(args[1], args[6], args[11]), Triangle(args[3], args[8], args[13]), Triangle(args[5], args[10], args[15])))
    else Failure(AssertFailed)
  }

  /** Reading a face back from the line that writes it gives the same face. */
  lemma SurfaceRoundTrip(s: Surface)
    ensures SurfaceFromLine(FaceLine(s)) == Success(s)
  {
  }

  /** A parsed face line is the line written for that face, up to its separators and keyword. */
  lemma SurfaceFromLineTokens(args: seq<string>)
    requires SurfaceFromLine(args).Success?
    ensures var f := FaceLine(SurfaceFromLine(args).value);
      forall k :: 0 <= k < 16 && k % 5 != 2 && k % 5 != 4 && k != 0 ==> f[k] == args[k]
  {
  }

  /** The line "Kd r g b" for a colour. */
  function ColorLine(c: Color): seq<string>
    requires c.Rgb?
  {
    ["Kd", c.r, c.g, c.b]
  }

  /**
   * Color::from_obj_file_line as written: ColorF3's constructor copies the
   * blue channel into green, so the green token is lost.
   */
  function ColorFromLineAsWritten(args: seq<string>): (r: Result<Color>)
    ensures r.Success? <==> |args| == 4
    ensures r.Success? ==> r.value.Rgb? && r.value.r == args[1] && r.value.g == r.value.b == args[3]
  {
    if |args| == 4 then Success(Rgb(args[1], args[3], args[3])) else Failure(AssertFailed)
  }

  /** "Kd 0 1 0" (pure green) is read as black: the as-written colour does not round-trip. */
  lemma GreenIsLostAsWritten()
    ensures ColorFromLineAsWritten(ColorLine(Rgb("0", "1", "0"))) == Success(Rgb("0", "0", "0"))
    ensures ColorFromLineAsWritten(ColorLine(Rgb("0", "1", "0"))) != Success(Rgb("0", "1", "0"))
  {
  }

  /** Color::from_obj_file_line with each channel from its own token. */
  function ColorFromLine(args: seq<string>): (r: Result<Color>)
    ensures r.Success? <==> |args| == 4
    ensures r.Success? ==> r.value.Rgb? && [args[0]] + ColorLine(r.value)[1..] == args
  {
    if |args| == 4 then Success(Rgb(args[1], args[2], args[3])) else Failure(AssertFailed)
  }

  /** Reading a colour back from its "Kd" line gives the same colour. */
  lemma ColorRoundTrip(c: Color)
    requires c.Rgb?
    ensures ColorFromLine(ColorLine(c)) == Success(c)
  {
  }

  // ---- comments ----

  /** A line cut before its first '#' holds no '#'. */
  lemma NoHashLeft(line: string)
    ensures '#' !in CutOffAfterFind(line, "#")
  {
    var r := CutOffAfterFind(line, "#");
    forall k | 0 <= k < |r|
      ensures r[k] != '#'
    {
      assert !OccursAt(r, "#", k);
      assert r[k..k + 1] == [r[k]];
    }
  }

  /** remove_hashtag_comments: each line cut before its first '#', the line count unchanged. */
  method RemoveHashtagComments(fileLines: array<string>)
    modifies fileLines
    ensures forall i :: 0 <= i < fileLines.Length ==> fileLines[i] == CutOffAfterFind(old(fileLines[i]), "#")
    ensures forall i :: 0 <= i < fileLines.Length ==> '#' !in fileLines[i]
  {
    var i := 0;
    while i < fileLines.Length
      invariant 0 <= i <= fileLines.Length
      invariant forall j :: 0 <= j < i ==> fileLines[j] == CutOffAfterFind(old(fileLines[j]), "#") && '#' !in fileLines[j]
      invariant forall j :: i <= j < fileLines.Length ==> fileLines[j] == old(fileLines[j])
    {
      NoHashLeft(fileLines[i]);
      fileLines[i] := CutOffAfterFind(fileLines[i], "#");
      i := i + 1;
    }
  }

  /** The token lists of the lines, one per line. */
  function Tokenized(lines: seq<string>, tokenize: string -> seq<string>): (r: seq<seq<string>>)
    ensures |r| == |lines| && forall i :: 0 <= i < |lines| ==> r[i] == tokenize(lines[i])
  {
    seq(|lines|, i requires 0 <= i < |lines| => tokenize(lines[i]))
  }

  // ---- .obj contents ----

  /** The fields of ObjFileContents, as a value. */
  datatype ObjState = ObjState(
    vertices: seq<Vertex>,
    normals: seq<Normal>,
    textureCoordinates: seq<TextureCoordinate>,
    surfaces: map<string, seq<Surface>>,
    mtlFiles: seq<string>,
    activeMaterial: string)

  /** A freshly constructed ObjFileContents: nothing loaded, material "Undefined". */
  const EmptyObj: ObjState := ObjState([], [], [], map[], [], "Undefined")

  /** surfaces[name] through std::map's operator[]: an absent name reads as an empty list. */
  function SurfacesOf(surfaces: map<string, seq<Surface>>, name: string): seq<Surface>
  {
    if name in surfaces then surfaces[name] else []
  }

  /** use_material: the active material becomes name, with an empty list if it had none; other lists are kept. */
  function UseMaterialOn(st: ObjState, name: string): (r: ObjState)
    ensures r.activeMaterial == name && name in r.surfaces && SurfacesOf(r.surfaces, name) == SurfacesOf(st.surfaces, name)
    ensures r.surfaces.Keys == st.surfaces.Keys + {name}
    ensures forall k :: k in st.surfaces ==> r.surfaces[k] == st.surfaces[k]
    ensures r.(surfaces := st.surfaces, activeMaterial := st.activeMaterial) == st
  {
    if name in st.surfaces then st.(activeMaterial := name)
    else st.(activeMaterial := name, surfaces := st.surfaces[name := []])
  }

  /** A face joins the active material's list; every other list is kept. */
  function AddSurface(st: ObjState, s: Surface): (r: ObjState)
    ensures r.surfaces.Keys == st.surfaces.Keys + {st.activeMaterial}
    ensures r.surfaces[st.activeMaterial] == SurfacesOf(st.surfaces, st.activeMaterial) + [s]
    ensures forall k :: k in st.surfaces && k != st.activeMaterial ==> r.surfaces[k] == st.surfaces[k]
    ensures r.(surfaces := st.surfaces) == st
  {
    st.(surfaces := st.surfaces[st.activeMaterial := SurfacesOf(st.surfaces, st.activeMaterial) + [s]])
  }

  /** The leading tokens parse_obj_line skips. */
  const ObjIgnored: seq<string> := ["o", "g", "s", "l"]

  /** The leading tokens parse_obj_line acts on. */
  predicate IsObjKeyword(tag: string)
  {
    tag in {"mtllib", "v", "vn", "usemtl", "vt", "f"} || tag in ObjIgnored
  }

  /** parse_obj_line, on a line with at least one token. */
  function ParseObjLineOn(st: ObjState, args: seq<string>): (r: Result<ObjState>)
    requires |args| > 0
  {
    if args[0] == "mtllib" then
      if |args| == 2 then Success(st.(mtlFiles := st.mtlFiles + [args[1]])) else Failure(AssertFailed)
    else if args[0] == "v" then
      match VertexFromLine(args)
      case Success(v) => Success(st.(vertices := st.vertices + [v]))
      case Failure(e) => Failure(e)
    else if args[0] == "vn" then
      match NormalFromLine(args)
      case Success(n) => Success(st.(normals := st.normals + [n]))
      case Failure(e) => Failure(e)
    else if args[0] == "usemtl" then
      if |args| == 2 then Success(UseMaterialOn(st, args[1])) else Failure(AssertFailed)
    else if args[0] == "vt" then
      match TextureCoordinateFromLine(args)
      case Success(t) => Success(st.(textureCoordinates := st.textureCoordinates + [t]))
      case Failure(e) => Failure(e)
    else if args[0] == "f" then
      match SurfaceFromLine(args)
      case Success(s) => Success(AddSurface(st, s))
      case Failure(e) => Failure(e)
    else if InVector(args[0], ObjIgnored) then Success(st)
    else Failure(UnknownArgument(args[0]))
  }

  /**
   * What one line does: "v", "vn", "vt" and "mtllib" each append one entry
   * to their own list and touch nothing else, "o", "g", "s", "l" change
   * nothing, and any other leading token is an error.
   */
  lemma ParseObjLineEffect(st: ObjState, args: seq<string>)
    requires |args| > 0
    ensures !IsObjKeyword(args[0]) ==> ParseObjLineOn(st, args) == Failure(UnknownArgument(args[0]))
    ensures args[0] in ObjIgnored ==> ParseObjLineOn(st, args) == Success(st)
    ensures args[0] == "v" ==> (ParseObjLineOn(st, args).Success? <==> |args| == 4)
    ensures args[0] == "v" && ParseObjLineOn(st, args).Success? ==> (var r := ParseObjLineOn(st, args).value;
      r.(vertices := st.vertices) == st && |r.vertices| == |st.vertices| + 1 && r.vertices[..|st.vertices|] == st.vertices)
    ensures args[0] == "vn" ==> (ParseObjLineOn(st, args).Success? <==> |args| == 4)
    ensures args[0] == "vn" && ParseObjLineOn(st, args).Success? ==> (var r := ParseObjLineOn(st, args).value;
      r.(normals := st.normals) == st && |r.normals| == |st.normals| + 1 && r.normals[..|st.normals|] == st.normals)
    ensures args[0] == "vt" ==> (ParseObjLineOn(st, args).Success? <==> |args| == 3)
    ensures args[0] == "vt" && ParseObjLineOn(st, args).Success? ==> (var r := ParseObjLineOn(st, args).value;
      r.(textureCoordinates := st.textureCoordinates) == st && |r.textureCoordinates| == |st.textureCoordinates| + 1)
    ensures args[0] == "mtllib" ==> (ParseObjLineOn(st, args).Success? <==> |args| == 2)
    ensures args[0] == "mtllib" && ParseObjLineOn(st, args).Success? ==> ParseObjLineOn(st, args).value == st.(mtlFiles := st.mtlFiles + [args[1]])
    ensures args[0] == "usemtl" ==> (ParseObjLineOn(st, args).Success? <==> |args| == 2)
    ensures args[0] == "usemtl" && ParseObjLineOn(st, args).Success? ==> ParseObjLineOn(st, args).value.activeMaterial == args[1]
    ensures args[0] == "f" ==> (ParseObjLineOn(st, args).Success? <==> |args| == 16)
    ensures args[0] == "f" && ParseObjLineOn(st, args).Success? ==> (var r := ParseObjLineOn(st, args).value;
      r == AddSurface(st, SurfaceFromLine(args).value))
  {
    if args[0] in ObjIgnored {
      assert InVector(args[0], ObjIgnored);
    }
  }

  /** A line with no tokens is skipped; the others go through parse_obj_line. */
  function ObjLineStep(st: ObjState, args: seq<string>): Result<ObjState>
  {
    if |args| == 0 then Success(st) else ParseObjLineOn(st, args)
  }

  /** The token lines in file order; the first error stops the load. */
  function ParseObjLines(st: ObjState, lines: seq<seq<string>>): Result<ObjState>
    decreases |lines|
  {
    if |lines| == 0 then Success(st)
    else
      match ObjLineStep(st, lines[0])
      case Success(next) => ParseObjLines(next, lines[1..])
      case Failure(e) => Failure(e)
  }

  /** Loading a + b is loading a and then b from where a left off. */
  lemma {:induction false} ParseObjLinesAppend(st: ObjState, a: seq<seq<string>>, b: seq<seq<string>>)
    ensures ParseObjLines(st, a).Failure? ==> ParseObjLines(st, a + b) == ParseObjLines(st, a)
    ensures ParseObjLines(st, a).Success? ==> ParseObjLines(st, a + b) == ParseObjLines(ParseObjLines(st, a).value, b)
    decreases |a|
  {
    if |a| == 0 {
      assert a + b == b;
    } else {
      assert (a + b)[0] == a[0] && (a + b)[1..] == a[1..] + b;
      match ObjLineStep(st, a[0])
      case Success(next) => ParseObjLinesAppend(next, a[1..], b);
      case Failure(e) =>
    }
  }

  /** The number of lines whose first token is tag. */
  function CountTag(lines: seq<seq<string>>, tag: string): nat
  {
    if |lines| == 0 then 0
    else (if |lines[0]| > 0 && lines[0][0] == tag then 1 else 0) + CountTag(lines[1..], tag)
  }

  /** Lines that start with a "usemtl". */
  predicate NoUseMaterial(lines: seq<seq<string>>)
  {
    forall i :: 0 <= i < |lines| ==> |lines[i]| == 0 || lines[i][0] != "usemtl"
  }

  /**
   * A successful load has one vertex per "v" line and one normal per "vn"
   * line, appended in file order after what was there.
   */
  lemma {:induction false} ParseObjLinesVertexCounts(st: ObjState, lines: seq<seq<string>>)
    requires ParseObjLines(st, lines).Success?
    ensures var r := ParseObjLines(st, lines).value;
      && |r.vertices| == |st.vertices| + CountTag(lines, "v") && r.vertices[..|st.vertices|] == st.vertices
      && |r.normals| == |st.normals| + CountTag(lines, "vn") && r.normals[..|st.normals|] == st.normals
    decreases |lines|
  {
    if |lines| > 0 {
      var next := ObjLineStep(st, lines[0]).value;
      if |lines[0]| > 0 {
        ParseObjLineEffect(st, lines[0]);
      }
      ParseObjLinesVertexCounts(next, lines[1..]);
    }
  }

  /**
   * A successful load has one texture coordinate per "vt" line and one
   * .mtl file name per "mtllib" line, the names in file order.
   */
  lemma {:induction false} ParseObjLinesOtherCounts(st: ObjState, lines: seq<seq<string>>)
    requires ParseObjLines(st, lines).Success?
    ensures var r := ParseObjLines(st, lines).value;
      && |r.textureCoordinates| == |st.textureCoordinates| + CountTag(lines, "vt")
      && |r.mtlFiles| == |st.mtlFiles| + CountTag(lines, "mtllib") && r.mtlFiles[..|st.mtlFiles|] == st.mtlFiles
    decreases |lines|
  {
    if |lines| > 0 {
      var next := ObjLineStep(st, lines[0]).value;
      if |lines[0]| > 0 {
        ParseObjLineEffect(st, lines[0]);
      }
      ParseObjLinesOtherCounts(next, lines[1..]);
    }
  }

  /**
   * Without a "usemtl" line every face goes to the material already
   * active: starting from a fresh file, all faces are filed under
   * "Undefined", one per "f" line.
   */
  lemma {:induction false} FacesWithoutUseMaterial(st: ObjState, lines: seq<seq<string>>)
    requires NoUseMaterial(lines) && ParseObjLines(st, lines).Success?
    ensures var r := ParseObjLines(st, lines).value;
      && r.activeMaterial == st.activeMaterial
      && st.surfaces.Keys <= r.surfaces.Keys <= st.surfaces.Keys + {st.activeMaterial}
      && |SurfacesOf(r.surfaces, st.activeMaterial)| == |SurfacesOf(st.surfaces, st.activeMaterial)| + CountTag(lines, "f")
      && forall k :: k in st.surfaces && k != st.activeMaterial ==> r.surfaces[k] == st.surfaces[k]
    decreases |lines|
  {
    if |lines| > 0 {
      var next := ObjLineStep(st, lines[0]).value;
      if |lines[0]| > 0 {
        ParseObjLineEffect(st, lines[0]);
        if lines[0][0] == "f" {
          var s := SurfaceFromLine(lines[0]).value;
          assert next == AddSurface(st, s);
        }
      }
      assert NoUseMaterial(lines[1..]) by {
        forall i | 0 <= i < |lines[1..]|
          ensures |lines[1..][i]| == 0 || lines[1..][i][0] != "usemtl"
        {
          assert lines[1..][i] == lines[i + 1];
        }
      }
      FacesWithoutUseMaterial(next, lines[1..]);
    }
  }

  lemma FreshFileFacesAreUndefined(lines: seq<seq<string>>)
    requires NoUseMaterial(lines) && ParseObjLines(EmptyObj, lines).Success?
    ensures var r := ParseObjLines(EmptyObj, lines).value;
      r.surfaces.Keys <= {"Undefined"} && |SurfacesOf(r.surfaces, "Undefined")| == CountTag(lines, "f")
  {
    FacesWithoutUseMaterial(EmptyObj, lines);
  }

  /** The material named by the last "usemtl" line with one argument, or active when there is none. */
  function LastMaterial(active: string, lines: seq<seq<string>>): string
    decreases |lines|
  {
    if |lines| == 0 then active
    else
      var last := LastMaterial(active, lines[..|lines| - 1]);
      var line := lines[|lines| - 1];
      if |line| == 2 && line[0] == "usemtl" then line[1] else last
  }

  /** After a successful load the active material is the one the last "usemtl" line names, and it has a face list. */
  lemma {:induction false} ActiveIsLastUseMaterial(st: ObjState, lines: seq<seq<string>>)
    requires ParseObjLines(st, lines).Success?
    ensures ParseObjLines(st, lines).value.activeMaterial == LastMaterial(st.activeMaterial, lines)
    decreases |lines|
  {
    if |lines| > 0 {
      var init := lines[..|lines| - 1];
      var line := lines[|lines| - 1];
      assert lines == init + [line];
      ParseObjLinesAppend(st, init, [line]);
      var mid := ParseObjLines(st, init).value;
      ActiveIsLastUseMaterial(st, init);
      if |line| > 0 {
        ParseObjLineEffect(mid, line);
        assert ParseObjLines(mid, [line]) == ObjLineStep(mid, line);
      }
    }
  }

  /** ObjFileContents: the loaded lists and the material the next faces belong to. */
  class ObjFileContents {
    var vertices: seq<Vertex>
    var normals: seq<Normal>
    var textureCoordinates: seq<TextureCoordinate>
    var surfaces: map<string, seq<Surface>>
    var mtlFiles: seq<string>
    var activeMaterial: string

    function State(): ObjState
      reads this
    {
      ObjState(vertices, normals, textureCoordinates, surfaces, mtlFiles, activeMaterial)
    }

    constructor ()
      ensures State() == EmptyObj
    {
      vertices, normals, textureCoordinates := [], [], [];
      surfaces, mtlFiles := map[], [];
      activeMaterial := "Undefined";
    }

    /** use_material */
    method UseMaterial(materialName: string)
      modifies this
      ensures State() == UseMaterialOn(old(State()), materialName)
    {
      activeMaterial := materialName;
      if activeMaterial !in surfaces {
        surfaces := surfaces[activeMaterial := []];
      }
    }

    /** parse_obj_line: a rejected line (ok false) leaves every field as it was. */
    method ParseObjLine(args: seq<string>) returns (ok: bool)
      requires |args| > 0
      modifies this
      ensures ok <==> ParseObjLineOn(old(State()), args).Success?
      ensures ok ==> State() == ParseObjLineOn(old(State()), args).value
      ensures !ok ==> State() == old(State())
    {
      ok := true;
      if args[0] == "mtllib" {
        if |args| != 2 {
          return false;
        }
        mtlFiles := mtlFiles + [args[1]];
        return;
      }
      if args[0] == "v" {
        var v := VertexFromLine(args);
        if v.Failure? {
          return false;
        }
        vertices := vertices + [v.value];
        return;
      }
      if args[0] == "vn" {
        var n := NormalFromLine(args);
        if n.Failure? {
          return false;
        }
        normals := normals + [n.value];
        return;
      }
      if args[0] == "usemtl" {
        if |args| != 2 {
          return false;
        }
        UseMaterial(args[1]);
        return;
      }
      if args[0] == "vt" {
        var t := TextureCoordinateFromLine(args);
        if t.Failure? {
          return false;
        }
        textureCoordinates := textureCoordinates + [t.value];
        return;
      }
      if args[0] == "f" {
        var s := SurfaceFromLine(args);
        if s.Failure? {
          return false;
        }
        surfaces := surfaces[activeMaterial := SurfacesOf(surfaces, activeMaterial) + [s.value]];
        return;
      }
      if InVector(args[0], ObjIgnored) {
        return;
      }
      ok := false;
    }

    /**
     * from_file_contents: strips the comments from the caller's lines in
     * place, then parses the token lines in order from a fresh object,
     * skipping lines without tokens; ok is false where the source throws.
     */
    static method FromFileContents(fileContentsLines: array<string>, tokenize: string -> seq<string>) returns (contents: ObjFileContents, ok: bool)
      modifies fileContentsLines
      ensures forall i :: 0 <= i < fileContentsLines.Length ==> fileContentsLines[i] == CutOffAfterFind(old(fileContentsLines[i]), "#")
      ensures fresh(contents)
      ensures ok <==> LoadObj(old(fileContentsLines[..]), tokenize).Success?
      ensures ok ==> contents.State() == LoadObj(old(fileContentsLines[..]), tokenize).value
    {
      contents := new ObjFileContents();
      RemoveHashtagComments(fileContentsLines);
      var lines := fileContentsLines[..];
      assert lines == CommentsRemoved(old(fileContentsLines[..]));
      ok := contents.ParseFileLines(lines, tokenize);
    }

    /** The loop of from_file_contents: each line tokenized, lines without tokens skipped, the first error stops. */
    method ParseFileLines(lines: seq<string>, tokenize: string -> seq<string>) returns (ok: bool)
      modifies this
      ensures ok <==> ParseObjLines(old(State()), Tokenized(lines, tokenize)).Success?
      ensures ok ==> State() == ParseObjLines(old(State()), Tokenized(lines, tokenize)).value
    {
      ghost var tokens := Tokenized(lines, tokenize);
      ghost var start := State();
      var i := 0;
      while i < |lines|
        invariant 0 <= i <= |lines|
        invariant ParseObjLines(start, tokens) == ParseObjLines(State(), tokens[i..])
      {
        var args := tokenize(lines[i]);
        assert tokens[i..][0] == args && tokens[i..][1..] == tokens[i + 1..];
        if |args| > 0 {
          ok := ParseObjLine(args);
          if !ok {
            return;
          }
        }
        i := i + 1;
      }
      ok := true;
    }
  }

  // ---- .mtl contents ----

  /** The fields of MtlFileContents, as a value. */
  datatype MtlState = MtlState(materials: map<string, Material>, activeMaterial: string)

  const EmptyMtl: MtlState := MtlState(map[], "Undefined")

  /** A default-constructed Material. */
  const NewMaterialValue: Material := Material(Unset, "")

  /** new_material: a name already defined is an error; otherwise it is defined afresh and becomes active. */
  function NewMaterialOn(st: MtlState, name: string): (r: Result<MtlState>)
    ensures r.Success? <==> name !in st.materials
    ensures r.Success? ==> r.value.activeMaterial == name && r.value.materials == st.materials[name := NewMaterialValue]
  {
    if name in st.materials then Failure("material already defined: " + name)
    else Success(MtlState(st.materials[name := NewMaterialValue], name))
  }

  /** materials[name] through operator[]: an absent name reads as a default Material. */
  function MaterialOf(materials: map<string, Material>, name: string): Material
  {
    if name in materials then materials[name] else NewMaterialValue
  }

  /** The leading tokens parse_mtl_line skips ("Ks" is listed twice in the source). */
  const MtlIgnored: seq<string> := ["Ns", "Ka", "Ks", "Ke", "Ks", "Ni", "d", "illum"]

  /** parse_mtl_line, on a line with at least one token. */
  function ParseMtlLineOn(st: MtlState, args: seq<string>): (r: Result<MtlState>)
    requires |args| > 0
  {
    if args[0] == "newmtl" then
      if |args| == 2 then NewMaterialOn(st, args[1]) else Failure(AssertFailed)
    else if args[0] == "Kd" then
      match ColorFromLine(args)
      case Success(c) => Success(st.(materials := st.materials[st.activeMaterial := MaterialOf(st.materials, st.activeMaterial).(color := c)]))
      case Failure(e) => Failure(e)
    else if InVector(args[0], MtlIgnored) then Success(st)
    else Failure(UnknownArgument(args[0]))
  }

  /**
   * What one .mtl line does: a duplicate "newmtl" is an error, "Kd" sets
   * the active material's colour and nothing else, the listed keywords
   * change nothing, and anything else is an error.
   */
  lemma ParseMtlLineEffect(st: MtlState, args: seq<string>)
    requires |args| > 0
    ensures args[0] == "newmtl" && |args| == 2 ==> ParseMtlLineOn(st, args) == NewMaterialOn(st, args[1])
    ensures args[0] == "Kd" ==> (ParseMtlLineOn(st, args).Success? <==> |args| == 4)
    ensures args[0] == "Kd" && ParseMtlLineOn(st, args).Success? ==> (var r := ParseMtlLineOn(st, args).value;
      && r.activeMaterial == st.activeMaterial
      && r.materials.Keys == st.materials.Keys + {st.activeMaterial}
      && r.materials[st.activeMaterial] == MaterialOf(st.materials, st.activeMaterial).(color := Rgb(args[1], args[2], args[3]))
      && forall k :: k in st.materials && k != st.activeMaterial ==> r.materials[k] == st.materials[k])
    ensures args[0] in MtlIgnored ==> ParseMtlLineOn(st, args) == Success(st)
    ensures args[0] !in MtlIgnored && args[0] != "newmtl" && args[0] != "Kd" ==> ParseMtlLineOn(st, args) == Failure(UnknownArgument(args[0]))
  {
    if args[0] in MtlIgnored {
      assert InVector(args[0], MtlIgnored);
    }
  }

  function MtlLineStep(st: MtlState, args: seq<string>): Result<MtlState>
  {
    if |args| == 0 then Success(st) else ParseMtlLineOn(st, args)
  }

  /** The .mtl token lines in file order; the first error stops the load. */
  function ParseMtlLines(st: MtlState, lines: seq<seq<string>>): Result<MtlState>
    decreases |lines|
  {
    if |lines| == 0 then Success(st)
    else
      match MtlLineStep(st, lines[0])
      case Success(next) => ParseMtlLines(next, lines[1..])
      case Failure(e) => Failure(e)
  }

  /** Materials are only ever added: a successful load keeps every material already defined. */
  lemma {:induction false} ParseMtlLinesKeepsNames(st: MtlState, lines: seq<seq<string>>)
    requires ParseMtlLines(st, lines).Success?
    ensures st.materials.Keys <= ParseMtlLines(st, lines).value.materials.Keys
    decreases |lines|
  {
    if |lines| > 0 {
      var next := MtlLineStep(st, lines[0]).value;
      if |lines[0]| > 0 {
        ParseMtlLineEffect(st, lines[0]);
      }
      ParseMtlLinesKeepsNames(next, lines[1..]);
    }
  }

  /** A successful load defines every material a "newmtl" line names. */
  lemma {:induction false} ParseMtlLinesDefines(st: MtlState, lines: seq<seq<string>>)
    requires ParseMtlLines(st, lines).Success?
    ensures forall i :: 0 <= i < |lines| && |lines[i]| == 2 && lines[i][0] == "newmtl" ==> lines[i][1] in ParseMtlLines(st, lines).value.materials
    decreases |lines|
  {
    if |lines| > 0 {
      var next := MtlLineStep(st, lines[0]).value;
      if |lines[0]| > 0 {
        ParseMtlLineEffect(st, lines[0]);
      }
      ParseMtlLinesDefines(next, lines[1..]);
      ParseMtlLinesKeepsNames(next, lines[1..]);
      forall i | 1 <= i < |lines| && |lines[i]| == 2 && lines[i][0] == "newmtl"
        ensures lines[i][1] in ParseMtlLines(st, lines).value.materials
      {
        assert lines[1..][i - 1] == lines[i];
      }
    }
  }

  /** MtlFileContents: the materials defined so far and the one "Kd" lines colour. */
  class MtlFileContents {
    var materials: map<string, Material>
    var activeMaterial: string

    function State(): MtlState
      reads this
    {
      MtlState(materials, activeMaterial)
    }

    constructor ()
      ensures State() == EmptyMtl
    {
      materials := map[];
      activeMaterial := "Undefined";
    }

    /** new_material: the name becomes active before the duplicate check, so a rejected name is still active. */
    method NewMaterial(materialName: string) returns (ok: bool)
      modifies this
      ensures ok <==> NewMaterialOn(old(State()), materialName).Success?
      ensures ok ==> State() == NewMaterialOn(old(State()), materialName).value
      ensures !ok ==> materials == old(materials) && activeMaterial == materialName
    {
      activeMaterial := materialName;
      if activeMaterial in materials {
        return false;
      }
      materials := materials[activeMaterial := NewMaterialValue];
      ok := true;
    }

    /** parse_mtl_line; after a rejected line only a rejected "newmtl" name may have become active. */
    method ParseMtlLine(args: seq<string>) returns (ok: bool)
      requires |args| > 0
      modifies this
      ensures ok <==> ParseMtlLineOn(old(State()), args).Success?
      ensures ok ==> State() == ParseMtlLineOn(old(State()), args).value
      ensures !ok ==> materials == old(materials)
    {
      ok := true;
      if args[0] == "newmtl" {
        if |args| != 2 {
          return false;
        }
        ok := NewMaterial(args[1]);
        return;
      }
      if args[0] == "Kd" {
        var c := ColorFromLine(args);
        if c.Failure? {
          return false;
        }
        materials := materials[activeMaterial := MaterialOf(materials, activeMaterial).(color := c.value)];
        return;
      }
      if InVector(args[0], MtlIgnored) {
        return;
      }
      ok := false;
    }

    /** from_file_contents for .mtl files: comments stripped in place, then the token lines in order. */
    static method FromFileContents(fileContentsLines: array<string>, tokenize: string -> seq<string>) returns (contents: MtlFileContents, ok: bool)
      modifies fileContentsLines
      ensures forall i :: 0 <= i < fileContentsLines.Length ==> fileContentsLines[i] == CutOffAfterFind(old(fileContentsLines[i]), "#")
      ensures fresh(contents)
      ensures ok <==> LoadMtl(old(fileContentsLines[..]), tokenize).Success?
      ensures ok ==> contents.State() == LoadMtl(old(fileContentsLines[..]), tokenize).value
    {
      contents := new MtlFileContents();
      RemoveHashtagComments(fileContentsLines);
      var lines := fileContentsLines[..];
      assert lines == CommentsRemoved(old(fileContentsLines[..]));
      ok := contents.ParseFileLines(lines, tokenize);
    }

    /** The loop of from_file_contents: each line tokenized, lines without tokens skipped, the first error stops. */
    method ParseFileLines(lines: seq<string>, tokenize: string -> seq<string>) returns (ok: bool)
      modifies this
      ensures ok <==> ParseMtlLines(old(State()), Tokenized(lines, tokenize)).Success?
      ensures ok ==> State() == ParseMtlLines(old(State()), Tokenized(lines, tokenize)).value
    {
      ghost var tokens := Tokenized(lines, tokenize);
      ghost var start := State();
      var i := 0;
      while i < |lines|
        invariant 0 <= i <= |lines|
        invariant ParseMtlLines(start, tokens) == ParseMtlLines(State(), tokens[i..])
      {
        var args := tokenize(lines[i]);
        assert tokens[i..][0] == args && tokens[i..][1..] == tokens[i + 1..];
        if |args| > 0 {
          ok := ParseMtlLine(args);
          if !ok {
            return;
          }
        }
        i := i + 1;
      }
      ok := true;
    }
  }

  // ---- models ----

  /** The directory part of a path, with its trailing '/' (the path itself when it has no '/'). */
  function RootPath(filepath: string): (r: string)
    ensures |r| > 0 && r[|r| - 1] == '/' && r[..|r| - 1] <= filepath
  {
    CutOffAfterRFind(filepath, "/") + "/"
  }

  /** A path without a '/' is its own directory; otherwise the directory ends at the last '/'. */
  lemma RootPathCases(filepath: string)
    ensures '/' !in filepath ==> RootPath(filepath) == filepath + "/"
    ensures '/' in filepath ==> var dir := RootPath(filepath)[..|RootPath(filepath)| - 1];
      |dir| < |filepath| && filepath[|dir|] == '/' && '/' !in filepath[|dir| + 1..]
  {
    var dir := CutOffAfterRFind(filepath, "/");
    assert RootPath(filepath)[..|RootPath(filepath)| - 1] == dir;
    if '/' !in filepath {
      forall k: int
        ensures !OccursAt(filepath, "/", k)
      {
        if 0 <= k < |filepath| {
          assert filepath[k..k + 1] == [filepath[k]];
        }
      }
    } else {
      var m :| 0 <= m < |filepath| && filepath[m] == '/';
      assert filepath[m..m + 1] == "/";
      assert OccursAt(filepath, "/", m);
      assert OccursAt(filepath, "/", |dir|);
      assert filepath[|dir|..|dir| + 1] == "/";
      if '/' in filepath[|dir| + 1..] {
        var j :| 0 <= j < |filepath[|dir| + 1..]| && filepath[|dir| + 1..][j] == '/';
        var k := |dir| + 1 + j;
        assert filepath[k..k + 1] == "/";
        assert OccursAt(filepath, "/", k);
      }
    }
  }

  /** ModelsInfo: an .obj file's contents and the contents of the .mtl files it names, in order. */
  class ModelsInfo {
    var objFileContents: ObjState
    var mtlFilesContent: seq<MtlState>

    /**
     * get_material: the material from the first .mtl file defining the
     * name; an error when none does.
     */
    method GetMaterial(materialName: string) returns (r: Result<Material>)
      ensures r.Success? <==> exists i :: 0 <= i < |mtlFilesContent| && materialName in mtlFilesContent[i].materials
      ensures r.Success? ==> exists i :: (0 <= i < |mtlFilesContent| && materialName in mtlFilesContent[i].materials
        && r.value == mtlFilesContent[i].materials[materialName]
        && forall j :: 0 <= j < i ==> materialName !in mtlFilesContent[j].materials)
    {
      var i := 0;
      while i < |mtlFilesContent|
        invariant 0 <= i <= |mtlFilesContent|
        invariant forall j :: 0 <= j < i ==> materialName !in mtlFilesContent[j].materials
      {
        if materialName in mtlFilesContent[i].materials {
          return Success(mtlFilesContent[i].materials[materialName]);
        }
        i := i + 1;
      }
      r := Failure("Could not find material ");
    }

    /**
     * from_obj_file: loads the .obj file, then each .mtl file it names
     * from the .obj file's directory, in order. Reading a file's lines is
     * the parameter readLines; ok is false where the source throws.
     */
    static method FromObjFile(filepath: string, readLines: string -> seq<string>, tokenize: string -> seq<string>) returns (info: ModelsInfo, ok: bool)
      ensures fresh(info)
      ensures ok <==> (LoadObj(readLines(filepath), tokenize).Success?
        && AllMtlFilesLoad(LoadObj(readLines(filepath), tokenize).value.mtlFiles, RootPath(filepath), readLines, tokenize))
      ensures ok ==> LoadObj(readLines(filepath), tokenize) == Success(info.objFileContents)
      ensures ok ==> MtlFilesLoaded(info.objFileContents.mtlFiles, info.mtlFilesContent, RootPath(filepath), readLines, tokenize)
    {
      info := new ModelsInfo.Empty();
      var objLines := LinesArray(readLines(filepath));
      var obj;
      obj, ok := ObjFileContents.FromFileContents(objLines, tokenize);
      if !ok {
        return;
      }
      info.objFileContents := obj.State();
      ok := info.LoadMtlFiles(RootPath(filepath), readLines, tokenize);
    }

    /** The loop of from_obj_file over the .mtl file names, appending each file's contents. */
    method LoadMtlFiles(rootPath: string, readLines: string -> seq<string>, tokenize: string -> seq<string>) returns (ok: bool)
      requires mtlFilesContent == []
      modifies this
      ensures objFileContents == old(objFileContents)
      ensures ok <==> AllMtlFilesLoad(objFileContents.mtlFiles, rootPath, readLines, tokenize)
      ensures ok ==> MtlFilesLoaded(objFileContents.mtlFiles, mtlFilesContent, rootPath, readLines, tokenize)
    {
      var i := 0;
      while i < |objFileContents.mtlFiles|
        invariant objFileContents == old(objFileContents)
        invariant 0 <= i <= |objFileContents.mtlFiles| && |mtlFilesContent| == i
        invariant forall j :: 0 <= j < i ==>
          LoadMtl(readLines(rootPath + objFileContents.mtlFiles[j]), tokenize) == Success(mtlFilesContent[j])
      {
        var mtlLines := LinesArray(readLines(rootPath + objFileContents.mtlFiles[i]));
        var mtl;
        mtl, ok := MtlFileContents.FromFileContents(mtlLines, tokenize);
        if !ok {
          return;
        }
        mtlFilesContent := mtlFilesContent + [mtl.State()];
        i := i + 1;
      }
      ok := true;
    }

    constructor Empty()
      ensures objFileContents == EmptyObj && mtlFilesContent == []
    {
      objFileContents := EmptyObj;
      mtlFilesContent := [];
    }
  }

  /** An .obj file's lines loaded from a fresh ObjFileContents. */
  function LoadObj(lines: seq<string>, tokenize: string -> seq<string>): Result<ObjState>
  {
    ParseObjLines(EmptyObj, Tokenized(CommentsRemoved(lines), tokenize))
  }

  /** An .mtl file's lines loaded from a fresh MtlFileContents. */
  function LoadMtl(lines: seq<string>, tokenize: string -> seq<string>): Result<MtlState>
  {
    ParseMtlLines(EmptyMtl, Tokenized(CommentsRemoved(lines), tokenize))
  }

  /** One loaded .mtl file per name, in order, each read from rootPath + its name. */
  predicate MtlFilesLoaded(names: seq<string>, contents: seq<MtlState>, rootPath: string, readLines: string -> seq<string>, tokenize: string -> seq<string>)
  {
    |contents| == |names| && forall i :: 0 <= i < |names| ==> LoadMtl(readLines(rootPath + names[i]), tokenize) == Success(contents[i])
  }

  /** Each named .mtl file, read from rootPath + its name, loads without an error. */
  predicate AllMtlFilesLoad(names: seq<string>, rootPath: string, readLines: string -> seq<string>, tokenize: string -> seq<string>)
  {
    forall i :: 0 <= i < |names| ==> LoadMtl(readLines(rootPath + names[i]), tokenize).Success?
  }

  /** The lines with every comment cut off. */
  function CommentsRemoved(lines: seq<string>): (r: seq<string>)
    ensures |r| == |lines| && forall i :: 0 <= i < |lines| ==> r[i] == CutOffAfterFind(lines[i], "#")
  {
    seq(|lines|, i requires 0 <= i < |lines| => CutOffAfterFind(lines[i], "#"))
  }

  /** A fresh array holding the lines, as read_file_contents_line_by_line's vector. */
  method LinesArray(lines: seq<string>) returns (a: array<string>)
    ensures fresh(a) && a[..] == lines
  {
    a := new string[|lines|](i requires 0 <= i < |lines| => lines[i]);
  }
}
