/** The string converters the GUI support plugin registers for surface
    formats, surface classes and types, shader types and painter paths. Qt
    enums are carried as their integer values, so values outside an enum
    follow the code's fall-through paths. */
module GuiSupport {
  import opened Text

  // QSurfaceFormat::RenderableType
  const DefaultRenderableType: int := 0
  const OpenGL: int := 1
  const OpenGLES: int := 2
  const OpenVG: int := 4

  // QSurfaceFormat::OpenGLContextProfile
  const NoProfile: int := 0
  const CoreProfile: int := 1
  const CompatibilityProfile: int := 2

  // QSurfaceFormat::SwapBehavior
  const DefaultSwapBehavior: int := 0
  const SingleBuffer: int := 1
  const DoubleBuffer: int := 2
  const TripleBuffer: int := 3

  // QSurface::SurfaceClass
  const Window: int := 0
  const Offscreen: int := 1

  // QSurface::SurfaceType
  const RasterSurface: int := 0
  const OpenGLSurface: int := 1
  const RasterGLSurface: int := 2
  const OpenVGSurface: int := 3

  // QOpenGLShader::ShaderTypeBit
  const Vertex: bv32 := 0x0001
  const Fragment: bv32 := 0x0002
  const Geometry: bv32 := 0x0004
  const TessellationControl: bv32 := 0x0008
  const TessellationEvaluation: bv32 := 0x0010
  const Compute: bv32 := 0x0020
  /** Every shader-type bit the converter knows. */
  const ShaderTypeMask: bv32 := 0x003F

  /** The QSurfaceFormat getters the converter reads. */
  datatype SurfaceFormat = SurfaceFormat(
    renderableType: int, majorVersion: int, minorVersion: int, profile: int,
    redBufferSize: int, greenBufferSize: int, blueBufferSize: int, alphaBufferSize: int,
    depthBufferSize: int, stencilBufferSize: int, swapBehavior: int)

  /** The renderable-type switch; an unlisted value appends nothing. */
  function RenderableTypeName(t: int): (r: string)
    ensures r == "Default" <==> t == DefaultRenderableType
    ensures r == "OpenGL" <==> t == OpenGL
    ensures r == "OpenGL ES" <==> t == OpenGLES
    ensures r == "OpenVG" <==> t == OpenVG
    ensures r == "" <==> t !in {DefaultRenderableType, OpenGL, OpenGLES, OpenVG}
  {
    if t == DefaultRenderableType then "Default"
    else if t == OpenGL then "OpenGL"
    else if t == OpenGLES then "OpenGL ES"
    else if t == OpenVG then "OpenVG"
    else ""
  }

  /** The profile switch: " core", " compat", or nothing. */
  function ProfileSuffix(p: int): (r: string)
    ensures r == " core" <==> p == CoreProfile
    ensures r == " compat" <==> p == CompatibilityProfile
    ensures r == "" <==> p != CoreProfile && p != CompatibilityProfile
    ensures Avoids(r, Digits)
  {
    if p == CoreProfile then " core"
    else if p == CompatibilityProfile then " compat"
    else ""
  }

  /** The swap-behaviour switch, with "unknown" as its default. */
  function SwapBehaviorName(b: int): (r: string)
    ensures r == "default" <==> b == DefaultSwapBehavior
    ensures r == "single" <==> b == SingleBuffer
    ensures r == "double" <==> b == DoubleBuffer
    ensures r == "triple" <==> b == TripleBuffer
    ensures r == "unknown" <==> b !in {DefaultSwapBehavior, SingleBuffer, DoubleBuffer, TripleBuffer}
    ensures Avoids(r, {' '})
  {
    if b == DefaultSwapBehavior then "default"
    else if b == SingleBuffer then "single"
    else if b == DoubleBuffer then "double"
    else if b == TripleBuffer then "triple"
    else "unknown"
  }

  /** The first part of `surfaceFormatToString`'s text: the renderable type,
      " (major.minor", the profile and ")". */
  function HeaderText(f: SurfaceFormat): string {
    RenderableTypeName(f.renderableType) + " (" + IntToString(f.majorVersion) + "." + IntToString(f.minorVersion)
    + ProfileSuffix(f.profile) + ")"
  }

  /** The whole text `surfaceFormatToString` builds: the header, the RGBA,
      depth and stencil sizes, and the swap behaviour. */
  function SurfaceFormatText(f: SurfaceFormat): string {
    HeaderText(f)
    + " RGBA: " + IntToString(f.redBufferSize) + "/" + IntToString(f.greenBufferSize)
    + "/" + IntToString(f.blueBufferSize) + "/" + IntToString(f.alphaBufferSize)
    + " Depth: " + IntToString(f.depthBufferSize)
    + " Stencil: " + IntToString(f.stencilBufferSize)
    + " Buffer: " + SwapBehaviorName(f.swapBehavior)
  }

  /** `surfaceFormatToString`: successive appends to `s`. */
  method SurfaceFormatToString(format: SurfaceFormat) returns (s: string)
    ensures s == SurfaceFormatText(format)
  {
    s := "";
    var t := format.renderableType;
    if t == DefaultRenderableType {
      s := s + "Default";
    } else if t == OpenGL {
      s := s + "OpenGL";
    } else if t == OpenGLES {
      s := s + "OpenGL ES";
    } else if t == OpenVG {
      s := s + "OpenVG";
    }
    assert s == RenderableTypeName(t);

    s := s + " (" + IntToString(format.majorVersion) + "." + IntToString(format.minorVersion);
    var p := format.profile;
    if p == CoreProfile {
      s := s + " core";
    } else if p == CompatibilityProfile {
      s := s + " compat";
    }
    s := s + ")";
    assert s == HeaderText(format);

    s := s + " RGBA: " + IntToString(format.redBufferSize) + "/" + IntToString(format.greenBufferSize)
           + "/" + IntToString(format.blueBufferSize) + "/" + IntToString(format.alphaBufferSize);
    s := s + " Depth: " + IntToString(format.depthBufferSize);
    s := s + " Stencil: " + IntToString(format.stencilBufferSize);

    s := s + " Buffer: ";
    var b := format.swapBehavior;
    if b == DefaultSwapBehavior {
      s := s + "default";
    } else if b == SingleBuffer {
      s := s + "single";
    } else if b == DoubleBuffer {
      s := s + "double";
    } else if b == TripleBuffer {
      s := s + "triple";
    } else {
      s := s + "unknown";
    }
  }

  /** A number at the end of a text, after a `stop` character it cannot
      contain, can be read off. */
  lemma PeelNumber(p1: string, n1: int, p2: string, n2: int, stop: set<char>)
    requires forall c :: c in stop ==> !IsNumberChar(c)
    requires |p1| > 0 && p1[|p1| - 1] in stop && |p2| > 0 && p2[|p2| - 1] in stop
    requires p1 + IntToString(n1) == p2 + IntToString(n2)
    ensures p1 == p2 && n1 == n2
  {
    NumberAvoids(n1, stop);
    NumberAvoids(n2, stop);
    SplitAfterLast(p1, IntToString(n1), p2, IntToString(n2), stop);
    IntToStringInjective(n1, n2);
  }

  /** The header determines the version and the renderable-type and profile
      names. */
  lemma HeaderDetermines(f: SurfaceFormat, g: SurfaceFormat)
    requires HeaderText(f) == HeaderText(g)
    ensures f.majorVersion == g.majorVersion && f.minorVersion == g.minorVersion
    ensures RenderableTypeName(f.renderableType) == RenderableTypeName(g.renderableType)
    ensures ProfileSuffix(f.profile) == ProfileSuffix(g.profile)
  {
    var r1, r2 := RenderableTypeName(f.renderableType), RenderableTypeName(g.renderableType);
    var major1, major2 := IntToString(f.majorVersion), IntToString(g.majorVersion);
    var minor1, minor2 := IntToString(f.minorVersion), IntToString(g.minorVersion);
    var v1, v2 := r1 + " (" + major1 + ".", r2 + " (" + major2 + ".";
    CancelSuffix(v1 + minor1 + ProfileSuffix(f.profile), v2 + minor2 + ProfileSuffix(g.profile), ")");
    assert (v1 + minor1)[|v1 + minor1| - 1] == minor1[|minor1| - 1];
    assert (v2 + minor2)[|v2 + minor2| - 1] == minor2[|minor2| - 1];
    SplitAfterLast(v1 + minor1, ProfileSuffix(f.profile), v2 + minor2, ProfileSuffix(g.profile), Digits);
    PeelNumber(v1, f.minorVersion, v2, g.minorVersion, {'.'});
    CancelSuffix(r1 + " (" + major1, r2 + " (" + major2, ".");
    PeelNumber(r1 + " (", f.majorVersion, r2 + " (", g.majorVersion, {'('});
    CancelSuffix(r1, r2, " (");
  }

  /** `surfaceFormatToString` loses no numeric field: equal texts mean equal
      versions and buffer sizes, and the same renderable-type, profile and
      swap-behaviour names. */
  lemma SurfaceFormatTextDetermines(f: SurfaceFormat, g: SurfaceFormat)
    requires SurfaceFormatText(f) == SurfaceFormatText(g)
    ensures f.majorVersion == g.majorVersion && f.minorVersion == g.minorVersion
    ensures f.redBufferSize == g.redBufferSize && f.greenBufferSize == g.greenBufferSize
    ensures f.blueBufferSize == g.blueBufferSize && f.alphaBufferSize == g.alphaBufferSize
    ensures f.depthBufferSize == g.depthBufferSize && f.stencilBufferSize == g.stencilBufferSize
    ensures RenderableTypeName(f.renderableType) == RenderableTypeName(g.renderableType)
    ensures ProfileSuffix(f.profile) == ProfileSuffix(g.profile)
    ensures SwapBehaviorName(f.swapBehavior) == SwapBehaviorName(g.swapBehavior)
  {
    var a1, a2 := HeaderText(f) + " RGBA: ", HeaderText(g) + " RGBA: ";
    var b1, b2 := a1 + IntToString(f.redBufferSize) + "/", a2 + IntToString(g.redBufferSize) + "/";
    var c1, c2 := b1 + IntToString(f.greenBufferSize) + "/", b2 + IntToString(g.greenBufferSize) + "/";
    var d1, d2 := c1 + IntToString(f.blueBufferSize) + "/", c2 + IntToString(g.blueBufferSize) + "/";
    var e1, e2 := d1 + IntToString(f.alphaBufferSize) + " Depth: ", d2 + IntToString(g.alphaBufferSize) + " Depth: ";
    var h1, h2 := e1 + IntToString(f.depthBufferSize) + " Stencil: ", e2 + IntToString(g.depthBufferSize) + " Stencil: ";
    var k1, k2 := h1 + IntToString(f.stencilBufferSize) + " Buffer: ", h2 + IntToString(g.stencilBufferSize) + " Buffer: ";
    SplitAfterLast(k1, SwapBehaviorName(f.swapBehavior), k2, SwapBehaviorName(g.swapBehavior), {' '});
    CancelSuffix(h1 + IntToString(f.stencilBufferSize), h2 + IntToString(g.stencilBufferSize), " Buffer: ");
    PeelNumber(h1, f.stencilBufferSize, h2, g.stencilBufferSize, {' '});
    CancelSuffix(e1 + IntToString(f.depthBufferSize), e2 + IntToString(g.depthBufferSize), " Stencil: ");
    PeelNumber(e1, f.depthBufferSize, e2, g.depthBufferSize, {' '});
    CancelSuffix(d1 + IntToString(f.alphaBufferSize), d2 + IntToString(g.alphaBufferSize), " Depth: ");
    PeelNumber(d1, f.alphaBufferSize, d2, g.alphaBufferSize, {'/'});
    CancelSuffix(c1 + IntToString(f.blueBufferSize), c2 + IntToString(g.blueBufferSize), "/");
    PeelNumber(c1, f.blueBufferSize, c2, g.blueBufferSize, {'/'});
    CancelSuffix(b1 + IntToString(f.greenBufferSize), b2 + IntToString(g.greenBufferSize), "/");
    PeelNumber(b1, f.greenBufferSize, b2, g.greenBufferSize, {'/'});
    CancelSuffix(a1 + IntToString(f.redBufferSize), a2 + IntToString(g.redBufferSize), "/");
    PeelNumber(a1, f.redBufferSize, a2, g.redBufferSize, {' '});
    CancelSuffix(HeaderText(f), HeaderText(g), " RGBA: ");
    HeaderDetermines(f, g);
  }

  /** `surfaceClassToString`. */
  function SurfaceClassToString(sc: int): (r: string)
    ensures r == "Window" <==> sc == Window
    ensures r == "Offscreen" <==> sc == Offscreen
    ensures r == "Unknown Surface Class" <==> sc != Window && sc != Offscreen
  {
    if sc == Window then "Window"
    else if sc == Offscreen then "Offscreen"
    else "Unknown Surface Class"
  }

  /** `surfaceTypeToString`. */
  function SurfaceTypeToString(t: int): (r: string)
    ensures r == "Raster" <==> t == RasterSurface
    ensures r == "OpenGL" <==> t == OpenGLSurface
    ensures r == "RasterGLSurface" <==> t == RasterGLSurface
    ensures r == "OpenVG" <==> t == OpenVGSurface
    ensures r == "Unknown Surface Type" <==> t !in {RasterSurface, OpenGLSurface, RasterGLSurface, OpenVGSurface}
  {
    if t == RasterSurface then "Raster"
    else if t == OpenGLSurface then "OpenGL"
    else if t == RasterGLSurface then "RasterGLSurface"
    else if t == OpenVGSurface then "OpenVG"
    else "Unknown Surface Type"
  }

  /** `name` alone if `b`, else nothing. */
  function ListIf(b: bool, name: string): seq<string> {
    if b then [name] else []
  }

  /** One `ST(t)` line: the flag's name if the bit is set. */
  function FlagName(t: bv32, bit: bv32, name: string): seq<string> {
    ListIf(t & bit != 0, name)
  }

  /** The names `shaderTypeToString` collects, in its fixed order. */
  function ShaderTypeNames(t: bv32): seq<string> {
    FlagName(t, Vertex, "Vertex") + FlagName(t, Fragment, "Fragment") + FlagName(t, Geometry, "Geometry")
    + FlagName(t, TessellationControl, "TessellationControl")
    + FlagName(t, TessellationEvaluation, "TessellationEvaluation")
    + FlagName(t, Compute, "Compute")
  }

  /** What `shaderTypeToString` returns. */
  function ShaderTypeText(t: bv32): string {
    var names := ShaderTypeNames(t);
    if |names| == 0 then "<none>" else Join(names, " | ")
  }

  /** `shaderTypeToString`: collect the names of the set flags, then join
      them, or say "<none>". */
  method ShaderTypeToString(t: bv32) returns (s: string)
    ensures s == ShaderTypeText(t)
  {
    var types: seq<string> := [];
    if t & Vertex != 0 {
      types := types + ["Vertex"];
    }
    assert types == FlagName(t, Vertex, "Vertex");
    if t & Fragment != 0 {
      types := types + ["Fragment"];
    }
    assert types == FlagName(t, Vertex, "Vertex") + FlagName(t, Fragment, "Fragment");
    if t & Geometry != 0 {
      types := types + ["Geometry"];
    }
    assert types == FlagName(t, Vertex, "Vertex") + FlagName(t, Fragment, "Fragment") + FlagName(t, Geometry, "Geometry");
    if t & TessellationControl != 0 {
      types := types + ["TessellationControl"];
    }
    assert types == FlagName(t, Vertex, "Vertex") + FlagName(t, Fragment, "Fragment") + FlagName(t, Geometry, "Geometry")
      + FlagName(t, TessellationControl, "TessellationControl");
    if t & TessellationEvaluation != 0 {
      types := types + ["TessellationEvaluation"];
    }
    assert types == FlagName(t, Vertex, "Vertex") + FlagName(t, Fragment, "Fragment") + FlagName(t, Geometry, "Geometry")
      + FlagName(t, TessellationControl, "TessellationControl")
      + FlagName(t, TessellationEvaluation, "TessellationEvaluation");
    if t & Compute != 0 {
      types := types + ["Compute"];
    }
    assert types == ShaderTypeNames(t);

    if |types| == 0 {
      return "<none>";
    }
    return Join(types, " | ");
  }

  /** How often `name` occurs in the list for `t`. */
  function NameCount(t: bv32, name: string): nat {
    multiset(ShaderTypeNames(t))[name]
  }

  /** A flag's entry holds its name once if the bit is set. */
  lemma FlagCount(t: bv32, bit: bv32, s: string, n: string)
    ensures multiset(FlagName(t, bit, s))[n] == if t & bit != 0 && n == s then 1 else 0
  {
  }

  /** A name's count is the sum of its counts in the six flags' entries. */
  lemma NameCountSplit(t: bv32, n: string)
    ensures NameCount(t, n) ==
      multiset(FlagName(t, Vertex, "Vertex"))[n] + multiset(FlagName(t, Fragment, "Fragment"))[n]
      + multiset(FlagName(t, Geometry, "Geometry"))[n]
      + multiset(FlagName(t, TessellationControl, "TessellationControl"))[n]
      + multiset(FlagName(t, TessellationEvaluation, "TessellationEvaluation"))[n]
      + multiset(FlagName(t, Compute, "Compute"))[n]
  {
  }

  /** Each flag's name is listed exactly when its bit is set, and then once. */
  lemma ShaderTypeNamesOnce(t: bv32)
    ensures NameCount(t, "Vertex") == if t & Vertex != 0 then 1 else 0
    ensures NameCount(t, "Fragment") == if t & Fragment != 0 then 1 else 0
    ensures NameCount(t, "Geometry") == if t & Geometry != 0 then 1 else 0
    ensures NameCount(t, "TessellationControl") == if t & TessellationControl != 0 then 1 else 0
    ensures NameCount(t, "TessellationEvaluation") == if t & TessellationEvaluation != 0 then 1 else 0
    ensures NameCount(t, "Compute") == if t & Compute != 0 then 1 else 0
  {
    assert "Fragment"[0] != "Geometry"[0];
    NameCountSplit(t, "Vertex");
    NameCountSplit(t, "Fragment");
    NameCountSplit(t, "Geometry");
    NameCountSplit(t, "TessellationControl");
    NameCountSplit(t, "TessellationEvaluation");
    NameCountSplit(t, "Compute");
    FlagCount(t, Vertex, "Vertex", "Vertex");
    FlagCount(t, Fragment, "Fragment", "Vertex");
    FlagCount(t, Geometry, "Geometry", "Vertex");
    FlagCount(t, TessellationControl, "TessellationControl", "Vertex");
    FlagCount(t, TessellationEvaluation, "TessellationEvaluation", "Vertex");
    FlagCount(t, Compute, "Compute", "Vertex");
    FlagCount(t, Vertex, "Vertex", "Fragment");
    FlagCount(t, Fragment, "Fragment", "Fragment");
    FlagCount(t, Geometry, "Geometry", "Fragment");
    FlagCount(t, TessellationControl, "TessellationControl", "Fragment");
    FlagCount(t, TessellationEvaluation, "TessellationEvaluation", "Fragment");
    FlagCount(t, Compute, "Compute", "Fragment");
    FlagCount(t, Vertex, "Vertex", "Geometry");
    FlagCount(t, Fragment, "Fragment", "Geometry");
    FlagCount(t, Geometry, "Geometry", "Geometry");
    FlagCount(t, TessellationControl, "TessellationControl", "Geometry");
    FlagCount(t, TessellationEvaluation, "TessellationEvaluation", "Geometry");
    FlagCount(t, Compute, "Compute", "Geometry");
    FlagCount(t, Vertex, "Vertex", "TessellationControl");
    FlagCount(t, Fragment, "Fragment", "TessellationControl");
    FlagCount(t, Geometry, "Geometry", "TessellationControl");
    FlagCount(t, TessellationControl, "TessellationControl", "TessellationControl");
    FlagCount(t, TessellationEvaluation, "TessellationEvaluation", "TessellationControl");
    FlagCount(t, Compute, "Compute", "TessellationControl");
    FlagCount(t, Vertex, "Vertex", "TessellationEvaluation");
    FlagCount(t, Fragment, "Fragment", "TessellationEvaluation");
    FlagCount(t, Geometry, "Geometry", "TessellationEvaluation");
    FlagCount(t, TessellationControl, "TessellationControl", "TessellationEvaluation");
    FlagCount(t, TessellationEvaluation, "TessellationEvaluation", "TessellationEvaluation");
    FlagCount(t, Compute, "Compute", "TessellationEvaluation");
    FlagCount(t, Vertex, "Vertex", "Compute");
    FlagCount(t, Fragment, "Fragment", "Compute");
    FlagCount(t, Geometry, "Geometry", "Compute");
    FlagCount(t, TessellationControl, "TessellationControl", "Compute");
    FlagCount(t, TessellationEvaluation, "TessellationEvaluation", "Compute");
    FlagCount(t, Compute, "Compute", "Compute");
  }

  /** The names `shaderTypeToString` can write. */
  const ShaderTypeNameSet: set<string> :=
    {"Vertex", "Fragment", "Geometry", "TessellationControl", "TessellationEvaluation", "Compute"}

  lemma ShaderTypeNameSetPlain()
    ensures forall n :: n in ShaderTypeNameSet ==> Avoids(n, {'|'}) && |n| > 0 && n[0] != '<'
  {
  }

  /** Entries that contain no '|' and do not start with '<'. */
  predicate PlainNames(xs: seq<string>) {
    forall i :: 0 <= i < |xs| ==> Avoids(xs[i], {'|'}) && |xs[i]| > 0 && xs[i][0] != '<'
  }

  lemma PlainNamesAppend(xs: seq<string>, ys: seq<string>)
    requires PlainNames(xs) && PlainNames(ys)
    ensures PlainNames(xs + ys)
  {
    forall i | 0 <= i < |xs + ys|
      ensures Avoids((xs + ys)[i], {'|'}) && |(xs + ys)[i]| > 0 && (xs + ys)[i][0] != '<'
    {
      if i >= |xs| {
        assert (xs + ys)[i] == ys[i - |xs|];
      }
    }
  }

  lemma FlagNamePlain(t: bv32, bit: bv32, name: string)
    requires name in ShaderTypeNameSet
    ensures PlainNames(FlagName(t, bit, name))
  {
    ShaderTypeNameSetPlain();
  }

  /** The listed names are plain, so the joined text can be read back. */
  lemma ShaderTypeNamesPlain(t: bv32)
    ensures PlainNames(ShaderTypeNames(t))
  {
    var v, fr, ge := FlagName(t, Vertex, "Vertex"), FlagName(t, Fragment, "Fragment"), FlagName(t, Geometry, "Geometry");
    var tc := FlagName(t, TessellationControl, "TessellationControl");
    var te := FlagName(t, TessellationEvaluation, "TessellationEvaluation");
    var co := FlagName(t, Compute, "Compute");
    FlagNamePlain(t, Vertex, "Vertex");
    FlagNamePlain(t, Fragment, "Fragment");
    FlagNamePlain(t, Geometry, "Geometry");
    FlagNamePlain(t, TessellationControl, "TessellationControl");
    FlagNamePlain(t, TessellationEvaluation, "TessellationEvaluation");
    FlagNamePlain(t, Compute, "Compute");
    PlainNamesAppend(v, fr);
    PlainNamesAppend(v + fr, ge);
    PlainNamesAppend(v + fr + ge, tc);
    PlainNamesAppend(v + fr + ge + tc, te);
    PlainNamesAppend(v + fr + ge + tc + te, co);
  }

  /** Two values agree on the known bits exactly when they agree on each. */
  lemma ShaderBitsAgree(a: bv32, b: bv32)
    ensures a & ShaderTypeMask == b & ShaderTypeMask <==>
      && (a & Vertex != 0 <==> b & Vertex != 0)
      && (a & Fragment != 0 <==> b & Fragment != 0)
      && (a & Geometry != 0 <==> b & Geometry != 0)
      && (a & TessellationControl != 0 <==> b & TessellationControl != 0)
      && (a & TessellationEvaluation != 0 <==> b & TessellationEvaluation != 0)
      && (a & Compute != 0 <==> b & Compute != 0)
  {
  }

  /** The name list determines the known bits, and nothing beyond them. */
  lemma ShaderTypeNamesDetermine(a: bv32, b: bv32)
    ensures ShaderTypeNames(a) == ShaderTypeNames(b) <==> a & ShaderTypeMask == b & ShaderTypeMask
  {
    ShaderBitsAgree(a, b);
    if ShaderTypeNames(a) == ShaderTypeNames(b) {
      ShaderTypeNamesOnce(a);
      ShaderTypeNamesOnce(b);
    }
  }

  /** "<none>" exactly when no shader-type bit is set. */
  lemma ShaderTypeNone(t: bv32)
    ensures ShaderTypeText(t) == "<none>" <==> t & ShaderTypeMask == 0
  {
    ShaderTypeNamesDetermine(t, 0);
    var names := ShaderTypeNames(t);
    if |names| > 0 {
      ShaderTypeNamesPlain(t);
      JoinStartsWithFirst(names, " | ");
    }
  }

  /** The text determines the shader-type bits, and nothing beyond them. */
  lemma ShaderTypeTextDetermines(a: bv32, b: bv32)
    ensures ShaderTypeText(a) == ShaderTypeText(b) <==> a & ShaderTypeMask == b & ShaderTypeMask
  {
    ShaderTypeNamesDetermine(a, b);
    ShaderTypeNone(a);
    ShaderTypeNone(b);
    if ShaderTypeText(a) == ShaderTypeText(b) && |ShaderTypeNames(a)| > 0 && |ShaderTypeNames(b)| > 0 {
      ShaderTypeNamesPlain(a);
      ShaderTypeNamesPlain(b);
      JoinInjective(ShaderTypeNames(a), ShaderTypeNames(b));
    }
  }

  /** QPainterPath element types. */
  datatype ElementType = MoveToElement | LineToElement | CurveToElement | CurveToDataElement

  /** `QPainterPath::isEmpty`: no elements, or a lone MoveTo. */
  predicate IsEmptyPath(path: seq<ElementType>) {
    |path| == 0 || (|path| == 1 && path[0] == MoveToElement)
  }

  /** `painterPathToString`. */
  function PainterPathToString(path: seq<ElementType>): (r: string)
    ensures r == "<empty>" <==> IsEmptyPath(path)
  {
    if IsEmptyPath(path) then "<empty>" else "<" + IntToString(|path|) + " elements>"
  }

  /** Two paths have the same text exactly when both are empty or both are
      non-empty with the same element count. */
  lemma PainterPathTextDetermines(p: seq<ElementType>, q: seq<ElementType>)
    ensures PainterPathToString(p) == PainterPathToString(q) <==>
      (IsEmptyPath(p) && IsEmptyPath(q)) || (!IsEmptyPath(p) && !IsEmptyPath(q) && |p| == |q|)
  {
    if !IsEmptyPath(p) && !IsEmptyPath(q) && PainterPathToString(p) == PainterPathToString(q) {
      var np, nq := IntToString(|p|), IntToString(|q|);
      CancelSuffix("<" + np, "<" + nq, " elements>");
      assert np == ("<" + np)[1..];
      assert nq == ("<" + nq)[1..];
      IntToStringInjective(|p|, |q|);
    }
  }
}
