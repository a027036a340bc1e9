/** What RenderTrace records and how a draw captures it (src/common/RenderTrace.cpp:38-182, 349-496, 551-687). */
module RenderState {
  /** The value of a state that was never recorded. */
  const UNKNOWN: nat := 0xFFFF_FFFF
  const STAGES := 4

  datatype RenderStateName =
    | ColorWriteEnable | AlphaBlendEnable | SrcBlend | DestBlend | BlendOp | AlphaTestEnable | AlphaFunc
    | AlphaRef | ZEnable | ZWriteEnable | ZFunc | CullMode | StencilEnable | StencilFunc | StencilRef
    | StencilFail | StencilZFail | StencilPass | TextureFactor | UntrackedState

  datatype StageStateName =
    | ColorOp | ColorArg1 | ColorArg2 | AlphaOp | AlphaArg1 | AlphaArg2 | TextureTransformFlags
    | TexCoordIndex | UntrackedStageState

  datatype Binding = Binding(
    known: bool, hasXboxTexture: bool, hasXboxData: bool, xboxDataAddress: nat, hasXboxDataHash: bool,
    xboxDataHash: nat, xboxResourceType: nat, xboxFormat: nat, xboxWidth: nat, xboxHeight: nat,
    hasHostTexture: bool, convertedFromSurface: bool, aliasesBackBuffer: bool, aliasesCurrentRenderTarget: bool)

  const NoBinding := Binding(false, false, false, 0, false, 0, 0, 0, 0, 0, false, false, false, false)

  datatype VertexDetails = VertexDetails(
    present: bool, program: bool, key: nat, cacheHash: nat, usesIndexedBoneConstants: bool, inputOverrideCount: nat)

  const NoDetails := VertexDetails(false, false, 0, 0, false, 0)

  /** The layout of the vertex data a shader reads, when it overrides the declared one. */
  datatype Input = Input(stride: nat, offset: nat)

  const NoInput := Input(0, 0)

  datatype PixelKey = PixelKey(present: bool, key: nat)

  /** The recorded state; a render state or stage state without a value is unknown. */
  datatype Tracked = Tracked(
    renderState: map<RenderStateName, nat>,
    stages: seq<map<StageStateName, nat>>,
    bindings: seq<Binding>,
    vertexShader: nat,
    vertexDetails: VertexDetails,
    pixelShader: nat,
    pixelKey: PixelKey)

  const Nothing := Tracked(map[], [map[], map[], map[], map[]], [NoBinding, NoBinding, NoBinding, NoBinding],
                           UNKNOWN, NoDetails, UNKNOWN, PixelKey(false, 0))

  ghost predicate WellFormed(t: Tracked) {
    |t.stages| == STAGES && |t.bindings| == STAGES
  }

  function Get<K(==)>(m: map<K, nat>, k: K): nat {
    if k in m then m[k] else UNKNOWN
  }

  /** One call of a recording function. */
  datatype Record =
    | RenderStateSet(name: RenderStateName, value: nat)
    | StageStateSet(stage: nat, stageName: StageStateName, value: nat)
    | BindingSet(stage: nat, binding: Binding)
    | VertexShaderSet(handle: nat)
    | VertexDetailsSet(program: bool, key: nat, cacheHash: nat, usesIndexedBoneConstants: bool,
                       inputOverrideCount: nat, input: Input)
    | PixelShaderSet(handle: nat)
    | PixelKeySet(present: bool, key: nat)

  /** A stage that is not tracked makes the call return at once. */
  predicate Accepted(r: Record) {
    (r.StageStateSet? || r.BindingSet?) ==> r.stage < STAGES
  }

  function Details(r: Record): VertexDetails
    requires r.VertexDetailsSet?
  {
    VertexDetails(true, r.program, if r.program then r.key else 0, if r.program then r.cacheHash else 0,
                  r.program && r.usesIndexedBoneConstants, r.inputOverrideCount)
  }

  function Apply(t: Tracked, r: Record): (after: Tracked)
    requires WellFormed(t) && Accepted(r)
    ensures WellFormed(after)
  {
    match r
    case RenderStateSet(name, value) =>
      if name.UntrackedState? then t else t.(renderState := t.renderState[name := value])
    case StageStateSet(stage, name, value) =>
      if name.UntrackedStageState? then t
      else
        var changed: map<StageStateName, nat> := t.stages[stage][name := value];
        t.(stages := t.stages[stage := changed])
    case BindingSet(stage, binding) => t.(bindings := t.bindings[stage := binding.(known := true)])
    case VertexShaderSet(handle) => t.(vertexShader := handle)
    case VertexDetailsSet(_, _, _, _, _, _) => t.(vertexDetails := Details(r))
    case PixelShaderSet(handle) => t.(pixelShader := handle)
    case PixelKeySet(present, key) => t.(pixelKey := PixelKey(present, if present then key else 0))
  }

  /** What the call copies from the sticky state into the current frame. */
  function Mirror(frame: Tracked, sticky: Tracked, r: Record): (after: Tracked)
    requires WellFormed(frame) && WellFormed(sticky) && Accepted(r)
    ensures WellFormed(after)
  {
    match r
    case RenderStateSet(_, _) => frame.(renderState := sticky.renderState)
    case StageStateSet(stage, _, _) => frame.(stages := frame.stages[stage := sticky.stages[stage]])
    case BindingSet(stage, _) => frame.(bindings := frame.bindings[stage := sticky.bindings[stage]])
    case VertexShaderSet(handle) => frame.(vertexShader := handle)
    case VertexDetailsSet(_, _, _, _, _, _) => frame.(vertexDetails := sticky.vertexDetails)
    case PixelShaderSet(handle) => frame.(pixelShader := handle)
    case PixelKeySet(present, key) => frame.(pixelKey := PixelKey(present, if present then key else 0))
  }

  /** A frame that agreed with the sticky state agrees again. */
  lemma {:induction false} MirrorKeepsAgreement(t: Tracked, r: Record)
    requires WellFormed(t) && Accepted(r)
    ensures Mirror(t, Apply(t, r), r) == Apply(t, r)
  {
    if r.StageStateSet? {
      assert t.stages[r.stage := t.stages[r.stage]] == t.stages;
    }
  }

  // ---------------------------------------------------------------- the signature of a draw

  /** A float as `==` sees it: NaN equals nothing, and the two zeros are one value. */
  datatype Float = NaN | Number(value: real)

  predicate FloatEquals(a: Float, b: Float) {
    a.Number? && b.Number? && a.value == b.value
  }

  datatype Bounds = Bounds(present: bool, min0: Float, min1: Float, max0: Float, max1: Float)

  datatype Colors = Colors(present: bool, minR: nat, minG: nat, minB: nat, minA: nat,
                           maxR: nat, maxG: nat, maxB: nat, maxA: nat)

  /** What the caller passes for a draw. */
  datatype Draw = Draw(
    indexed: bool, userPointer: bool, primitiveType: nat, primitiveCount: nat, hasGeometryHash: bool,
    geometryHash: nat, position: Bounds, texCoord0: Bounds, diffuse: Colors)

  /** What a draw captures of the recorded state. */
  datatype Captured = Captured(
    vertexShader: nat, vertexDetails: VertexDetails, pixelShader: nat, pixelKey: PixelKey,
    alphaBlendEnable: nat, srcBlend: nat, destBlend: nat, alphaTestEnable: nat,
    stage0ColorOp: nat, stage0AlphaOp: nat, stage0TextureTransformFlags: nat, stage0TexCoordIndex: nat,
    stage0HasTextureHash: bool, stage0TextureHash: nat, stage0TextureDataAddress: nat,
    stage0TextureFormat: nat, stage0TextureWidth: nat, stage0TextureHeight: nat, stage0HasHostTexture: bool)

  datatype Signature = Signature(draw: Draw, captured: Captured)

  function Capture(t: Tracked): Captured
    requires WellFormed(t)
  {
    var s, b := t.stages[0], t.bindings[0];
    Captured(t.vertexShader, t.vertexDetails, t.pixelShader, t.pixelKey,
             Get(t.renderState, AlphaBlendEnable), Get(t.renderState, SrcBlend),
             Get(t.renderState, DestBlend), Get(t.renderState, AlphaTestEnable),
             Get(s, ColorOp), Get(s, AlphaOp), Get(s, TextureTransformFlags), Get(s, TexCoordIndex),
             b.hasXboxDataHash, b.xboxDataHash, b.xboxDataAddress, b.xboxFormat, b.xboxWidth, b.xboxHeight,
             b.hasHostTexture)
  }

  predicate BoundsMatch(a: Bounds, b: Bounds) {
    && a.present == b.present
    && FloatEquals(a.min0, b.min0) && FloatEquals(a.min1, b.min1)
    && FloatEquals(a.max0, b.max0) && FloatEquals(a.max1, b.max1)
  }

  predicate DrawSignaturesMatch(a: Signature, b: Signature) {
    && a.draw.indexed == b.draw.indexed && a.draw.userPointer == b.draw.userPointer
    && a.draw.primitiveType == b.draw.primitiveType && a.draw.primitiveCount == b.draw.primitiveCount
    && a.draw.hasGeometryHash == b.draw.hasGeometryHash && a.draw.geometryHash == b.draw.geometryHash
    && a.captured == b.captured
    && BoundsMatch(a.draw.position, b.draw.position) && BoundsMatch(a.draw.texCoord0, b.draw.texCoord0)
    && a.draw.diffuse == b.draw.diffuse
  }

  predicate NumbersOnly(b: Bounds) {
    b.min0.Number? && b.min1.Number? && b.max0.Number? && b.max1.Number?
  }

  /** A signature without NaN. */
  predicate Comparable(s: Signature) {
    NumbersOnly(s.draw.position) && NumbersOnly(s.draw.texCoord0)
  }

  /** No coordinate of the signature is NaN. */
  predicate FreeOfNaN(s: Signature) {
    var p, t := s.draw.position, s.draw.texCoord0;
    && p.min0 != NaN && p.min1 != NaN && p.max0 != NaN && p.max1 != NaN
    && t.min0 != NaN && t.min1 != NaN && t.max0 != NaN && t.max1 != NaN
  }

  /** Matching is equality, except that a signature with a NaN matches nothing, not even itself. */
  lemma {:induction false} MatchIff(a: Signature, b: Signature)
    ensures DrawSignaturesMatch(a, b) <==> a == b && FreeOfNaN(b)
    ensures Comparable(b) <==> FreeOfNaN(b)
  {
    if DrawSignaturesMatch(a, b) {
      assert a.draw.position == b.draw.position && a.draw.texCoord0 == b.draw.texCoord0;
      assert a.draw == b.draw;
    }
  }

  lemma MatchIffAll(b: Signature)
    ensures forall a :: DrawSignaturesMatch(a, b) <==> a == b && Comparable(b)
  {
    forall a
      ensures DrawSignaturesMatch(a, b) <==> a == b && Comparable(b)
    {
      MatchIff(a, b);
    }
  }

  // ---------------------------------------------------------------- the last value recorded

  function LastRenderState(log: seq<Record>, name: RenderStateName): nat {
    if log == [] then UNKNOWN
    else
      var r := log[|log| - 1];
      if r.RenderStateSet? && r.name == name then r.value else LastRenderState(log[..|log| - 1], name)
  }

  function LastStageState(log: seq<Record>, stage: nat, name: StageStateName): nat {
    if log == [] then UNKNOWN
    else
      var r := log[|log| - 1];
      if r.StageStateSet? && r.stage == stage && r.stageName == name then r.value
      else LastStageState(log[..|log| - 1], stage, name)
  }

  /** The last binding of a stage; a stage never bound looks like one bound to nothing. */
  function LastBinding(log: seq<Record>, stage: nat): Binding {
    if log == [] then NoBinding
    else
      var r := log[|log| - 1];
      if r.BindingSet? && r.stage == stage then r.binding.(known := true) else LastBinding(log[..|log| - 1], stage)
  }

  function LastVertexShader(log: seq<Record>): nat {
    if log == [] then UNKNOWN
    else if log[|log| - 1].VertexShaderSet? then log[|log| - 1].handle else LastVertexShader(log[..|log| - 1])
  }

  function LastDetails(log: seq<Record>): VertexDetails {
    if log == [] then NoDetails
    else
      var r := log[|log| - 1];
      if !r.VertexDetailsSet? then LastDetails(log[..|log| - 1])
      else if r.program
      then VertexDetails(true, true, r.key, r.cacheHash, r.usesIndexedBoneConstants, r.inputOverrideCount)
      else VertexDetails(true, false, 0, 0, false, r.inputOverrideCount)
  }

  /** The layout given with the last call that overrode some input. */
  function LastInput(log: seq<Record>): Input {
    if log == [] then NoInput
    else
      var r := log[|log| - 1];
      if r.VertexDetailsSet? && r.inputOverrideCount > 0 then r.input else LastInput(log[..|log| - 1])
  }

  predicate Overrides(r: Record) {
    r.VertexDetailsSet? && r.inputOverrideCount > 0
  }

  function LastPixelShader(log: seq<Record>): nat {
    if log == [] then UNKNOWN
    else if log[|log| - 1].PixelShaderSet? then log[|log| - 1].handle else LastPixelShader(log[..|log| - 1])
  }

  function LastPixelKey(log: seq<Record>): PixelKey {
    if log == [] then PixelKey(false, 0)
    else if log[|log| - 1].PixelKeySet? then
      PixelKey(log[|log| - 1].present, if log[|log| - 1].present then log[|log| - 1].key else 0)
    else LastPixelKey(log[..|log| - 1])
  }

  /** What a draw should capture, read off the log of recording calls alone. */
  function LastCaptured(log: seq<Record>): Captured {
    var b := LastBinding(log, 0);
    Captured(LastVertexShader(log), LastDetails(log), LastPixelShader(log), LastPixelKey(log),
             LastRenderState(log, AlphaBlendEnable), LastRenderState(log, SrcBlend),
             LastRenderState(log, DestBlend), LastRenderState(log, AlphaTestEnable),
             LastStageState(log, 0, ColorOp), LastStageState(log, 0, AlphaOp),
             LastStageState(log, 0, TextureTransformFlags), LastStageState(log, 0, TexCoordIndex),
             b.hasXboxDataHash, b.xboxDataHash, b.xboxDataAddress, b.xboxFormat, b.xboxWidth, b.xboxHeight,
             b.hasHostTexture)
  }

  function Fold(log: seq<Record>): (t: Tracked)
    requires AllAccepted(log)
    ensures WellFormed(t)
  {
    if log == [] then Nothing else Apply(Fold(log[..|log| - 1]), log[|log| - 1])
  }

  ghost predicate AllAccepted(log: seq<Record>) {
    forall k :: 0 <= k < |log| ==> Accepted(log[k])
  }

  // Every tracked value after a log of calls is the last one recorded for it.

  lemma {:induction false} FoldRenderState(log: seq<Record>, name: RenderStateName)
    requires AllAccepted(log) && !name.UntrackedState?
    ensures Get(Fold(log).renderState, name) == LastRenderState(log, name)
  {
    if log == [] {
    } else {
      FoldRenderState(log[..|log| - 1], name);
    }
  }

  lemma {:induction false} FoldStageState(log: seq<Record>, stage: nat, name: StageStateName)
    requires AllAccepted(log) && stage < STAGES && !name.UntrackedStageState?
    ensures Get(Fold(log).stages[stage], name) == LastStageState(log, stage, name)
  {
    if log == [] {
    } else {
      FoldStageState(log[..|log| - 1], stage, name);
    }
  }

  lemma {:induction false} FoldBinding(log: seq<Record>, stage: nat)
    requires AllAccepted(log) && stage < STAGES
    ensures Fold(log).bindings[stage] == LastBinding(log, stage)
  {
    if log == [] {
    } else {
      FoldBinding(log[..|log| - 1], stage);
    }
  }

  lemma {:induction false} FoldShaders(log: seq<Record>)
    requires AllAccepted(log)
    ensures var t := Fold(log);
      && t.vertexShader == LastVertexShader(log) && t.vertexDetails == LastDetails(log)
      && t.pixelShader == LastPixelShader(log) && t.pixelKey == LastPixelKey(log)
  {
    if log == [] {
    } else {
      FoldShaders(log[..|log| - 1]);
    }
  }

  /** A draw after a log of calls captures the last value recorded for each field. */
  lemma {:induction false} CaptureIsLast(log: seq<Record>)
    requires AllAccepted(log)
    ensures Capture(Fold(log)) == LastCaptured(log)
  {
    FoldShaders(log);
    FoldRenderState(log, AlphaBlendEnable);
    FoldRenderState(log, SrcBlend);
    FoldRenderState(log, DestBlend);
    FoldRenderState(log, AlphaTestEnable);
    FoldStageState(log, 0, ColorOp);
    FoldStageState(log, 0, AlphaOp);
    FoldStageState(log, 0, TextureTransformFlags);
    FoldStageState(log, 0, TexCoordIndex);
    FoldBinding(log, 0);
  }
}
