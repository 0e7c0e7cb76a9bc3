/**
 * The scene-file interpreter of RayTracer/Scene.cpp as a state machine over
 * already-parsed lines.  Each command either reads its numbers (failing,
 * and then changing nothing, when the line has too few) or touches the
 * transform stack.  Matrices are kept as uninterpreted terms: `Mul(a, b)`
 * is the product a * b, never evaluated.
 */
module Scene {
  import opened Wrappers
  import opened Geometry
  import opened Colors

  /** A 4x4 matrix as the term that built it. */
  datatype Mat =
    | Identity
    | Translate(tx: real, ty: real, tz: real)
    | ScaleBy(sx: real, sy: real, sz: real)
    | Rotate(ax: real, ay: real, az: real, degrees: real)
    | Mul(left: Mat, right: Mat)

  datatype Vec4 = Vec4(x: real, y: real, z: real, w: real)

  /** A light: homogeneous location (w = 0 for a direction) and colour. */
  datatype Light = Light(location: Vec4, color: Color)

  /** Light::isPointLight. */
  predicate IsPointLight(l: Light) {
    l.location.w > 0.0
  }

  /** The material current when an object is created; shininess is unset until a `shininess` line. */
  datatype Material = Material(diffuse: Color, specular: Color, emission: Color, ambient: Color, shininess: Option<real>)

  datatype Primitive =
    | SpherePrim(center: Vec3, radius: real)
    | TriPrim(v1: Vec3, v2: Vec3, v3: Vec3)
    | TriNormalPrim(v1: Vec3, v2: Vec3, v3: Vec3, n1: Vec3, n2: Vec3, n3: Vec3)

  /**
   * An object as stored: its primitive, material and the transform on top
   * of the stack at creation.  A triangle's vertices and normals are the
   * slot values as read; the source moves them into world space with
   * transformVerts and transformNorms, which the transform kept here
   * determines.
   */
  datatype SceneObject = SceneObject(prim: Primitive, material: Material, transform: Mat)

  datatype CameraSpec = CameraSpec(eye: Vec3, center: Vec3, up: Vec3, fovy: real)

  /** The image size after the conversion to unsigned int. */
  datatype Dimensions = Dimensions(width: nat, height: nat)

  /**
   * One line of the scene file.  Blank lines and lines starting with '#'
   * are `Ignored`.  A command line carries its first word, the numbers that
   * follow it for as long as they parse, and the first word after the
   * command (read by `output`).
   */
  datatype Line =
    | Ignored
    | Command(name: string, args: seq<real>, word: Option<string>)

  /**
   * The interpreter's state.  The counters numUsed and numObjects of the
   * source are |lights| and |objects|.  Vertex arrays are None until
   * written: fresh `new glm::vec3[n]` slots hold no value.
   */
  datatype SceneState = SceneState(
    stack: seq<Mat>,
    lights: seq<Light>,
    objects: seq<SceneObject>,
    verts: seq<Option<Vec3>>,
    vertIndex: nat,
    vertNorms: seq<Option<Vec3>>,
    vertNormIndex: nat,
    diffuse: Color,
    specular: Color,
    emission: Color,
    ambient: Color,
    shininess: Option<real>,
    attenuation: Vec3,
    maxDepth: int,
    outputFileName: string,
    size: Option<Dimensions>,
    camera: Option<CameraSpec>)

  const MaxLights := 100
  const MaxObjects := 200
  const DefaultAmbient := Color(0.2, 0.2, 0.2)
  const DefaultAttenuation := Vec3(1.0, 0.0, 0.0)
  const DefaultMaxDepth := 5
  const DefaultOutput := "test.png"

  /**
   * The state before the first line: setDefaults, ambient 0.2, black
   * diffuse/specular/emission, the stack holding the identity, and no
   * vertex arrays (the null pointers).
   */
  function Initial(): (s: SceneState)
    ensures s.stack == [Identity]
    ensures s.lights == [] && s.objects == []
    ensures s.attenuation == Vec3(1.0, 0.0, 0.0) && s.maxDepth == 5 && s.outputFileName == "test.png"
    ensures s.ambient == Color(0.2, 0.2, 0.2)
  {
    SceneState([Identity], [], [], [], 0, [], 0, Black, Black, Black, DefaultAmbient, None,
               DefaultAttenuation, DefaultMaxDepth, DefaultOutput, None, None)
  }

  /** readvals: the first n numbers, or failure when the line has fewer. */
  function ReadVals(args: seq<real>, n: nat): (r: Option<seq<real>>)
    ensures r.Some? <==> n <= |args|
    ensures r.Some? ==> |r.value| == n && forall i :: 0 <= i < n ==> r.value[i] == args[i]
  {
    if |args| < n then None else Some(args[..n])
  }

  /** An unsigned int assignment from an int: the value modulo 2^32. */
  function ToUnsigned(i: int): (u: nat)
    ensures u < 0x1_0000_0000
    ensures 0 <= i < 0x1_0000_0000 ==> u == i
  {
    i % 0x1_0000_0000
  }

  function Top(stack: seq<Mat>): Mat
    requires |stack| > 0
  {
    stack[|stack| - 1]
  }

  /** Replace the top of the stack by m * top. */
  function PreMultiplyTop(stack: seq<Mat>, m: Mat): (r: seq<Mat>)
    requires |stack| > 0
    ensures |r| == |stack| && r[..|r| - 1] == stack[..|stack| - 1]
    ensures Top(r) == Mul(m, Top(stack))
  {
    stack[..|stack| - 1] + [Mul(m, Top(stack))]
  }

  function CurrentMaterial(s: SceneState): Material {
    Material(s.diffuse, s.specular, s.emission, s.ambient, s.shininess)
  }

  function Vec(v: seq<real>, i: nat): Vec3
    requires i + 3 <= |v|
  {
    Vec3(v[i], v[i + 1], v[i + 2])
  }

  /** A vertex-array slot named by a float index, as `verts[(int)values[k]]` reads it. */
  predicate Readable(slots: seq<Option<Vec3>>, v: real) {
    0 <= Truncate(v) < |slots| && slots[Truncate(v)].Some?
  }

  function Slot(slots: seq<Option<Vec3>>, v: real): Vec3
    requires Readable(slots, v)
  {
    slots[Truncate(v)].value
  }

  /** The commands Scene::Scene recognises, in the order it tests for them. */
  datatype Keyword =
    | Directional | Point | Attenuation | MaxVerts | MaxVertNorms | Vertex | VertexNormal
    | Ambient | Diffuse | Specular | Emission | Shininess | Size | MaxDepth | Output | CameraCmd
    | SphereCmd | Tri | TriNormal | TranslateCmd | ScaleCmd | RotateCmd | PushTransform | PopTransform
    | Unknown

  /**
   * How each command is spelled in a scene file.  The source has no such
   * table: it exists only to check KeywordOf, the model of the source's
   * if-else chain, from the other direction.
   */
  function Spelling(k: Keyword): string {
    match k
    case Directional => "directional"
    case Point => "point"
    case Attenuation => "attenuation"
    case MaxVerts => "maxverts"
    case MaxVertNorms => "maxvertnorms"
    case Vertex => "vertex"
    case VertexNormal => "vertexnormal"
    case Ambient => "ambient"
    case Diffuse => "diffuse"
    case Specular => "specular"
    case Emission => "emission"
    case Shininess => "shininess"
    case Size => "size"
    case MaxDepth => "maxdepth"
    case Output => "output"
    case CameraCmd => "camera"
    case SphereCmd => "sphere"
    case Tri => "tri"
    case TriNormal => "trinormal"
    case TranslateCmd => "translate"
    case ScaleCmd => "scale"
    case RotateCmd => "rotate"
    case PushTransform => "pushTransform"
    case PopTransform => "popTransform"
    case Unknown => ""
  }

  /**
   * The chain of `cmd == "..."` tests: which command a first word names.
   * SpellingRecognised and RecognisedIsSpelling state that it is exactly
   * the inverse of Spelling; they are lemmas rather than ensures clauses
   * here because every Step would otherwise carry the string table.
   */
  function KeywordOf(name: string): Keyword {
    if name == "directional" then Directional
    else if name == "point" then Point
    else if name == "attenuation" then Attenuation
    else if name == "maxverts" then MaxVerts
    else if name == "maxvertnorms" then MaxVertNorms
    else if name == "vertex" then Vertex
    else if name == "vertexnormal" then VertexNormal
    else if name == "ambient" then Ambient
    else if name == "diffuse" then Diffuse
    else if name == "specular" then Specular
    else if name == "emission" then Emission
    else if name == "shininess" then Shininess
    else if name == "size" then Size
    else if name == "maxdepth" then MaxDepth
    else if name == "output" then Output
    else if name == "camera" then CameraCmd
    else if name == "sphere" then SphereCmd
    else if name == "tri" then Tri
    else if name == "trinormal" then TriNormal
    else if name == "translate" then TranslateCmd
    else if name == "scale" then ScaleCmd
    else if name == "rotate" then RotateCmd
    else if name == "pushTransform" then PushTransform
    else if name == "popTransform" then PopTransform
    else Unknown
  }

  /**
   * A consistency check on KeywordOf: every command is recognised by its
   * spelling, so no earlier test of the chain shadows a later one.
   */
  lemma SpellingRecognised(k: Keyword)
    requires k != Unknown
    ensures KeywordOf(Spelling(k)) == k
  {
    match k
    case Directional =>
    case Point =>
    case Attenuation =>
    case MaxVerts =>
    case MaxVertNorms =>
    case Vertex =>
    case VertexNormal =>
    case Ambient =>
    case Diffuse =>
    case Specular =>
    case Emission =>
    case Shininess =>
    case Size =>
    case MaxDepth =>
    case Output =>
    case CameraCmd =>
    case SphereCmd =>
    case Tri =>
    case TriNormal =>
    case TranslateCmd =>
    case ScaleCmd =>
    case RotateCmd =>
    case PushTransform =>
    case PopTransform =>
  }

  /**
   * A consistency check on KeywordOf: a recognised word is exactly the
   * spelling of the command it names, so no command answers to two words.
   */
  lemma RecognisedIsSpelling(name: string)
    requires KeywordOf(name) != Unknown
    ensures Spelling(KeywordOf(name)) == name
  {
    if name == "directional" {
    } else if name == "point" {
    } else if name == "attenuation" {
    } else if name == "maxverts" {
    } else if name == "maxvertnorms" {
    } else if name == "vertex" {
    } else if name == "vertexnormal" {
    } else if name == "ambient" {
    } else if name == "diffuse" {
    } else if name == "specular" {
    } else if name == "emission" {
    } else if name == "shininess" {
    } else if name == "size" {
    } else if name == "maxdepth" {
    } else if name == "output" {
    } else if name == "camera" {
    } else if name == "sphere" {
    } else if name == "tri" {
    } else if name == "trinormal" {
    } else if name == "translate" {
    } else if name == "scale" {
    } else if name == "rotate" {
    } else if name == "pushTransform" {
    } else if name == "popTransform" {
    }
  }

  /**
   * What a line needs of the state that the source does not check: the
   * vertex arrays must hold the slots a `vertex`, `vertexnormal`, `tri` or
   * `trinormal` line writes or reads, and the sizes given to `maxverts` and
   * `maxvertnorms` must be non-negative.
   */
  predicate Runnable(s: SceneState, line: Line) {
    line.Command? ==>
      var k, args := KeywordOf(line.name), line.args;
      && (k == MaxVerts && |args| >= 1 ==> Truncate(args[0]) >= 0)
      && (k == MaxVertNorms && |args| >= 1 ==> Truncate(args[0]) >= 0)
      && (k == Vertex && |args| >= 3 ==> s.vertIndex < |s.verts|)
      && (k == VertexNormal && |args| >= 6 ==> s.vertNormIndex + 1 < |s.vertNorms|)
      && (k == Tri && |s.objects| < MaxObjects && |args| >= 3 ==>
            forall i :: 0 <= i < 3 ==> Readable(s.verts, args[i]))
      && (k == TriNormal && |s.objects| < MaxObjects && |args| >= 6 ==>
            forall i :: 0 <= i < 6 ==> Readable(s.vertNorms, args[i]))
  }

  /** What every reachable state satisfies. */
  predicate Valid(s: SceneState) {
    && |s.stack| >= 1
    && |s.lights| <= MaxLights
    && |s.objects| <= MaxObjects
  }

  /** The object lines: ignored once MaxObjects are stored, or when their numbers are missing. */
  function AddObject(s: SceneState, k: Keyword, args: seq<real>): (r: SceneState)
    requires Valid(s) && (k == SphereCmd || k == Tri || k == TriNormal)
    requires k == Tri && |s.objects| < MaxObjects && |args| >= 3 ==> forall i :: 0 <= i < 3 ==> Readable(s.verts, args[i])
    requires k == TriNormal && |s.objects| < MaxObjects && |args| >= 6 ==> forall i :: 0 <= i < 6 ==> Readable(s.vertNorms, args[i])
    ensures r == s || (|s.objects| < MaxObjects && r == s.(objects := r.objects) && |r.objects| == |s.objects| + 1
                       && r.objects[..|s.objects|] == s.objects)
    ensures r != s <==> |s.objects| < MaxObjects && |args| >= ValuesNeeded(k).value
    ensures r != s && k == SphereCmd ==> r.objects[|s.objects|].prim == SpherePrim(Vec3(args[0], args[1], args[2]), args[3])
    ensures r != s && k == Tri ==>
      r.objects[|s.objects|].prim == TriPrim(Slot(s.verts, args[0]), Slot(s.verts, args[1]), Slot(s.verts, args[2]))
  {
    if |s.objects| == MaxObjects then s
    else if k == SphereCmd then
      match ReadVals(args, 4)
      case None => s
      case Some(v) =>
        s.(objects := s.objects + [SceneObject(SpherePrim(Vec(v, 0), v[3]), CurrentMaterial(s), Top(s.stack))])
    else if k == Tri then
      match ReadVals(args, 3)
      case None => s
      case Some(v) =>
        var prim := TriPrim(Slot(s.verts, args[0]), Slot(s.verts, args[1]), Slot(s.verts, args[2]));
        s.(objects := s.objects + [SceneObject(prim, CurrentMaterial(s), Top(s.stack))])
    else
      match ReadVals(args, 6)
      case None => s
      case Some(v) =>
        var prim := TriNormalPrim(Slot(s.vertNorms, args[0]), Slot(s.vertNorms, args[2]), Slot(s.vertNorms, args[4]),
                                  Slot(s.vertNorms, args[1]), Slot(s.vertNorms, args[3]), Slot(s.vertNorms, args[5]));
        s.(objects := s.objects + [SceneObject(prim, CurrentMaterial(s), Top(s.stack))])
  }

  /** A light line with homogeneous coordinate w: ignored once MaxLights are stored, or when numbers are missing. */
  function AddLight(s: SceneState, args: seq<real>, w: real): (r: SceneState)
    requires Valid(s)
    ensures r == s || (|s.lights| < MaxLights && r == s.(lights := r.lights) && |r.lights| == |s.lights| + 1
                       && r.lights[..|s.lights|] == s.lights)
  {
    if |s.lights| == MaxLights then s
    else
      match ReadVals(args, 6)
      case None => s
      case Some(v) =>
        s.(lights := s.lights + [Light(Vec4(v[0], v[1], v[2], w), Color(v[3], v[4], v[5]))])
  }

  /** The vertex-array lines. */
  function VertexStep(s: SceneState, k: Keyword, args: seq<real>): (r: SceneState)
    requires k == MaxVerts || k == MaxVertNorms || k == Vertex || k == VertexNormal
    requires (k == MaxVerts || k == MaxVertNorms) && |args| >= 1 ==> Truncate(args[0]) >= 0
    requires k == Vertex && |args| >= 3 ==> s.vertIndex < |s.verts|
    requires k == VertexNormal && |args| >= 6 ==> s.vertNormIndex + 1 < |s.vertNorms|
    ensures r == s.(verts := r.verts, vertIndex := r.vertIndex, vertNorms := r.vertNorms, vertNormIndex := r.vertNormIndex)
  {
    match k
    case MaxVerts =>
      (match ReadVals(args, 1)
       case None => s
       case Some(v) => s.(verts := seq(Truncate(v[0]), _ => None)))
    case MaxVertNorms =>
      (match ReadVals(args, 1)
       case None => s
       case Some(v) => s.(vertNorms := seq(Truncate(v[0]) * 2, _ => None)))
    case Vertex =>
      (match ReadVals(args, 3)
       case None => s
       case Some(v) => s.(verts := s.verts[s.vertIndex := Some(Vec(v, 0))], vertIndex := s.vertIndex + 1))
    case VertexNormal =>
      (match ReadVals(args, 6)
       case None => s
       case Some(v) =>
         var i := s.vertNormIndex;
         s.(vertNorms := s.vertNorms[i := Some(Vec(v, 0))][i + 1 := Some(Vec(v, 3))], vertNormIndex := i + 2))
  }

  /** The material and rendering-setting lines. */
  function SettingStep(s: SceneState, k: Keyword, args: seq<real>, word: Option<string>): (r: SceneState)
    requires k in {Attenuation, Ambient, Diffuse, Specular, Emission, Shininess, Size, MaxDepth, Output, CameraCmd}
    ensures r.stack == s.stack && r.lights == s.lights && r.objects == s.objects
  {
    match k
    case Attenuation =>
      (match ReadVals(args, 3)
       case None => s
       case Some(v) => s.(attenuation := Vec(v, 0)))
    case Ambient =>
      (match ReadVals(args, 3)
       case None => s
       case Some(v) => s.(ambient := Color(v[0], v[1], v[2])))
    case Diffuse =>
      (match ReadVals(args, 3)
       case None => s
       case Some(v) => s.(diffuse := Color(v[0], v[1], v[2])))
    case Specular =>
      (match ReadVals(args, 3)
       case None => s
       case Some(v) => s.(specular := Color(v[0], v[1], v[2])))
    case Emission =>
      (match ReadVals(args, 3)
       case None => s
       case Some(v) => s.(emission := Color(v[0], v[1], v[2])))
    case Shininess =>
      (match ReadVals(args, 1)
       case None => s
       case Some(v) => s.(shininess := Some(v[0])))
    case Size =>
      (match ReadVals(args, 2)
       case None => s
       case Some(v) => s.(size := Some(Dimensions(ToUnsigned(Truncate(v[0])), ToUnsigned(Truncate(v[1]))))))
    case MaxDepth =>
      (match ReadVals(args, 1)
       case None => s
       case Some(v) => s.(maxDepth := Truncate(v[0])))
    case Output =>
      (match word
       case None => s
       case Some(f) => s.(outputFileName := f))
    case CameraCmd =>
      (match ReadVals(args, 10)
       case None => s
       case Some(v) => s.(camera := Some(CameraSpec(Vec(v, 0), Vec(v, 3), Vec(v, 6), v[9]))))
  }

  /** The transform-stack lines. */
  function StackStep(s: SceneState, k: Keyword, args: seq<real>): (r: SceneState)
    requires |s.stack| >= 1 && k in {TranslateCmd, ScaleCmd, RotateCmd, PushTransform, PopTransform}
    ensures r == s.(stack := r.stack) && |r.stack| >= 1
  {
    match k
    case TranslateCmd =>
      (match ReadVals(args, 3)
       case None => s
       case Some(v) => s.(stack := PreMultiplyTop(s.stack, Translate(v[0], v[1], v[2]))))
    case ScaleCmd =>
      (match ReadVals(args, 3)
       case None => s
       case Some(v) => s.(stack := PreMultiplyTop(s.stack, ScaleBy(v[0], v[1], v[2]))))
    case RotateCmd =>
      (match ReadVals(args, 4)
       case None => s
       case Some(v) => s.(stack := PreMultiplyTop(s.stack, Rotate(v[0], v[1], v[2], v[3]))))
    case PushTransform =>
      s.(stack := s.stack + [Top(s.stack)])
    case PopTransform =>
      if |s.stack| <= 1 then s else s.(stack := s.stack[..|s.stack| - 1])
  }

  /** One pass of the loop body of Scene::Scene; unknown commands are skipped. */
  function Step(s: SceneState, line: Line): (r: SceneState)
    requires Valid(s) && Runnable(s, line)
    ensures Valid(r)
    ensures |s.lights| <= |r.lights| <= |s.lights| + 1 && r.lights[..|s.lights|] == s.lights
    ensures |s.objects| <= |r.objects| <= |s.objects| + 1 && r.objects[..|s.objects|] == s.objects
  {
    match line
    case Ignored => s
    case Command(name, args, word) =>
      var k := KeywordOf(name);
      if k == Directional then AddLight(s, args, 0.0)
      else if k == Point then AddLight(s, args, 1.0)
      else if k in {MaxVerts, MaxVertNorms, Vertex, VertexNormal} then VertexStep(s, k, args)
      else if k in {Attenuation, Ambient, Diffuse, Specular, Emission, Shininess, Size, MaxDepth, Output, CameraCmd} then
        SettingStep(s, k, args, word)
      else if k in {SphereCmd, Tri, TriNormal} then AddObject(s, k, args)
      else if k in {TranslateCmd, ScaleCmd, RotateCmd, PushTransform, PopTransform} then StackStep(s, k, args)
      else s
  }

  /** Every line can run from the state the lines before it leave. */
  predicate RunnableAll(s: SceneState, lines: seq<Line>)
    requires Valid(s)
    decreases |lines|
  {
    |lines| > 0 ==> Runnable(s, lines[0]) && RunnableAll(Step(s, lines[0]), lines[1..])
  }

  /** The whole loop of Scene::Scene: the lines in file order. */
  function Run(s: SceneState, lines: seq<Line>): (r: SceneState)
    requires Valid(s) && RunnableAll(s, lines)
    ensures Valid(r)
    ensures |s.lights| <= |r.lights| && |s.objects| <= |r.objects|
    decreases |lines|
  {
    if |lines| == 0 then s else Run(Step(s, lines[0]), lines[1..])
  }

  /** Scene::Scene on a file whose lines are given. */
  function Load(lines: seq<Line>): (r: SceneState)
    requires RunnableAll(Initial(), lines)
    ensures |r.stack| >= 1 && |r.lights| <= MaxLights && |r.objects| <= MaxObjects
  {
    Run(Initial(), lines)
  }

  /** How many numbers each command reads with readvals; None for those that read none. */
  function ValuesNeeded(k: Keyword): Option<nat> {
    match k
    case Directional | Point | VertexNormal | TriNormal => Some(6)
    case Attenuation | Vertex | Ambient | Diffuse | Specular | Emission | Tri | TranslateCmd | ScaleCmd => Some(3)
    case MaxVerts | MaxVertNorms | Shininess | MaxDepth => Some(1)
    case Size => Some(2)
    case SphereCmd | RotateCmd => Some(4)
    case CameraCmd => Some(10)
    case Output | PushTransform | PopTransform | Unknown => None
  }

  /** A command whose readvals fails changes nothing. */
  lemma FailedReadChangesNothing(s: SceneState, name: string, args: seq<real>, word: Option<string>)
    requires Valid(s) && Runnable(s, Command(name, args, word))
    requires ValuesNeeded(KeywordOf(name)).Some? && |args| < ValuesNeeded(KeywordOf(name)).value
    ensures Step(s, Command(name, args, word)) == s
  {
    var k := KeywordOf(name);
    assert ReadVals(args, ValuesNeeded(k).value).None?;
  }

  /** Directional and point lights are appended with w = 0 and w = 1 while fewer than 100 are stored. */
  lemma LightAppended(s: SceneState, name: string, args: seq<real>, word: Option<string>)
    requires Valid(s) && KeywordOf(name) in {Directional, Point}
    requires |s.lights| < MaxLights && |args| >= 6
    ensures var r := Step(s, Command(name, args, word));
      && r == s.(lights := r.lights)
      && r.lights[..|s.lights|] == s.lights
      && |r.lights| == |s.lights| + 1
      && var l := r.lights[|s.lights|];
      && l.location == Vec4(args[0], args[1], args[2], if KeywordOf(name) == Point then 1.0 else 0.0)
      && l.color == Color(args[3], args[4], args[5])
      && (IsPointLight(l) <==> KeywordOf(name) == Point)
  {
  }

  /** With 100 lights stored, light lines are ignored. */
  lemma LightsCapped(s: SceneState, name: string, args: seq<real>, word: Option<string>)
    requires Valid(s) && KeywordOf(name) in {Directional, Point}
    requires |s.lights| == MaxLights
    ensures Step(s, Command(name, args, word)) == s
  {
  }

  /** With 200 objects stored, object lines are ignored. */
  lemma ObjectsCapped(s: SceneState, name: string, args: seq<real>, word: Option<string>)
    requires Valid(s) && KeywordOf(name) in {SphereCmd, Tri, TriNormal}
    requires |s.objects| == MaxObjects
    ensures Step(s, Command(name, args, word)) == s
  {
  }

  /** A stored object takes the current material and the transform on top of the stack, and nothing else changes. */
  lemma ObjectAppended(s: SceneState, name: string, args: seq<real>, word: Option<string>)
    requires Valid(s) && Runnable(s, Command(name, args, word))
    requires KeywordOf(name) in {SphereCmd, Tri, TriNormal}
    requires |s.objects| < MaxObjects && |args| >= ValuesNeeded(KeywordOf(name)).value
    ensures var r := Step(s, Command(name, args, word));
      && r == s.(objects := r.objects)
      && r.objects[..|s.objects|] == s.objects
      && |r.objects| == |s.objects| + 1
      && r.objects[|s.objects|].transform == Top(s.stack)
      && r.objects[|s.objects|].material == Material(s.diffuse, s.specular, s.emission, s.ambient, s.shininess)
    ensures KeywordOf(name) == SphereCmd ==>
      Step(s, Command(name, args, word)).objects[|s.objects|].prim == SpherePrim(Vec3(args[0], args[1], args[2]), args[3])
    ensures KeywordOf(name) == Tri ==>
      var p := Step(s, Command(name, args, word)).objects[|s.objects|].prim;
      && p.TriPrim?
      && p.v1 == s.verts[Truncate(args[0])].value
      && p.v2 == s.verts[Truncate(args[1])].value
      && p.v3 == s.verts[Truncate(args[2])].value
  {
  }

  /**
   * trinormal takes its vertices from the slots named by the 1st, 3rd and
   * 5th numbers and its normals from the 2nd, 4th and 6th.
   */
  lemma TriNormalSlots(s: SceneState, args: seq<real>, word: Option<string>)
    requires Valid(s) && Runnable(s, Command("trinormal", args, word))
    requires |s.objects| < MaxObjects && |args| >= 6
    ensures var p := Step(s, Command("trinormal", args, word)).objects[|s.objects|].prim;
      && p.TriNormalPrim?
      && p.v1 == s.vertNorms[Truncate(args[0])].value
      && p.n1 == s.vertNorms[Truncate(args[1])].value
      && p.v2 == s.vertNorms[Truncate(args[2])].value
      && p.n2 == s.vertNorms[Truncate(args[3])].value
      && p.v3 == s.vertNorms[Truncate(args[4])].value
      && p.n3 == s.vertNorms[Truncate(args[5])].value
  {
    assert KeywordOf("trinormal") == TriNormal;
  }

  /** vertexnormal fills the two next slots, advances the index by two and leaves every other slot alone. */
  lemma VertexNormalFillsTwoSlots(s: SceneState, args: seq<real>, word: Option<string>)
    requires Valid(s) && Runnable(s, Command("vertexnormal", args, word)) && |args| >= 6
    ensures var r := Step(s, Command("vertexnormal", args, word));
      var i := s.vertNormIndex;
      && r == s.(vertNorms := r.vertNorms, vertNormIndex := i + 2)
      && |r.vertNorms| == |s.vertNorms|
      && r.vertNorms[i] == Some(Vec3(args[0], args[1], args[2]))
      && r.vertNorms[i + 1] == Some(Vec3(args[3], args[4], args[5]))
      && forall j :: 0 <= j < |s.vertNorms| && j != i && j != i + 1 ==> r.vertNorms[j] == s.vertNorms[j]
  {
    assert KeywordOf("vertexnormal") == VertexNormal;
  }

  /** pushTransform duplicates the top; popTransform then restores the state. */
  lemma PushThenPop(s: SceneState)
    requires Valid(s)
    ensures var pushed := Step(s, Command("pushTransform", [], None));
      && pushed.stack == s.stack + [Top(s.stack)]
      && Step(pushed, Command("popTransform", [], None)) == s
  {
    assert KeywordOf("pushTransform") == PushTransform;
    var pushed := Step(s, Command("pushTransform", [], None));
    assert pushed == s.(stack := s.stack + [Top(s.stack)]);
    PopGuarded(pushed, [], None);
    assert pushed.stack[..|pushed.stack| - 1] == s.stack;
  }

  /** popTransform is refused on a one-entry stack and removes the top otherwise. */
  lemma PopGuarded(s: SceneState, args: seq<real>, word: Option<string>)
    requires Valid(s)
    ensures var r := Step(s, Command("popTransform", args, word));
      && (|s.stack| == 1 ==> r == s)
      && (|s.stack| > 1 ==> r == s.(stack := s.stack[..|s.stack| - 1]))
  {
    assert KeywordOf("popTransform") == PopTransform;
    assert Step(s, Command("popTransform", args, word)) == StackStep(s, PopTransform, args);
  }

  /** translate, scale and rotate replace only the top, by M * top. */
  lemma TransformReplacesTop(s: SceneState, name: string, args: seq<real>, word: Option<string>)
    requires Valid(s) && KeywordOf(name) in {TranslateCmd, ScaleCmd, RotateCmd}
    requires |args| >= ValuesNeeded(KeywordOf(name)).value
    ensures var r := Step(s, Command(name, args, word));
      && r == s.(stack := r.stack)
      && |r.stack| == |s.stack|
      && r.stack[..|r.stack| - 1] == s.stack[..|s.stack| - 1]
      && (KeywordOf(name) == TranslateCmd ==> Top(r.stack) == Mul(Translate(args[0], args[1], args[2]), Top(s.stack)))
      && (KeywordOf(name) == ScaleCmd ==> Top(r.stack) == Mul(ScaleBy(args[0], args[1], args[2]), Top(s.stack)))
      && (KeywordOf(name) == RotateCmd ==> Top(r.stack) == Mul(Rotate(args[0], args[1], args[2], args[3]), Top(s.stack)))
  {
  }

  /**
   * A material line with its three numbers replaces that one colour of the
   * current material, which every later object then takes; no other state
   * changes.
   */
  lemma MaterialSet(s: SceneState, name: string, args: seq<real>, word: Option<string>)
    requires Valid(s) && KeywordOf(name) in {Ambient, Diffuse, Specular, Emission}
    requires |args| >= 3
    ensures var r := Step(s, Command(name, args, word));
      var c := Color(args[0], args[1], args[2]);
      && (KeywordOf(name) == Ambient ==> r == s.(ambient := c))
      && (KeywordOf(name) == Diffuse ==> r == s.(diffuse := c))
      && (KeywordOf(name) == Specular ==> r == s.(specular := c))
      && (KeywordOf(name) == Emission ==> r == s.(emission := c))
  {
  }

  /** Unknown commands and ignored lines change nothing. */
  lemma UnknownSkipped(s: SceneState, name: string, args: seq<real>, word: Option<string>)
    requires Valid(s) && KeywordOf(name) == Unknown
    ensures Step(s, Command(name, args, word)) == s
    ensures Step(s, Ignored) == s
  {
  }

  /** Running two files' worth of lines is running the first, then the second from where it stopped. */
  lemma {:induction false} RunConcat(s: SceneState, a: seq<Line>, b: seq<Line>)
    requires Valid(s) && RunnableAll(s, a + b)
    ensures RunnableAll(s, a) && RunnableAll(Run(s, a), b)
    ensures Run(s, a + b) == Run(Run(s, a), b)
    decreases |a|
  {
    if |a| > 0 {
      assert (a + b)[1..] == a[1..] + b;
      RunConcat(Step(s, a[0]), a[1..], b);
    } else {
      assert a + b == b;
    }
  }

  /** Lights and objects only ever accumulate: a prefix of a later state's lists. */
  lemma {:induction false} RunOnlyAppends(s: SceneState, lines: seq<Line>)
    requires Valid(s) && RunnableAll(s, lines)
    ensures Run(s, lines).lights[..|s.lights|] == s.lights
    ensures Run(s, lines).objects[..|s.objects|] == s.objects
    decreases |lines|
  {
    if |lines| > 0 {
      var next := Step(s, lines[0]);
      RunOnlyAppends(next, lines[1..]);
      assert Run(s, lines) == Run(next, lines[1..]);
      assert Run(s, lines).lights[..|next.lights|][..|s.lights|] == Run(s, lines).lights[..|s.lights|];
      assert Run(s, lines).objects[..|next.objects|][..|s.objects|] == Run(s, lines).objects[..|s.objects|];
    }
  }
}
