/** The live color-table previewer as a state machine over values: what one
    hover request, one framework tick and one reset do to the previewer's
    fields and to the game's texture resources, and what follows from that
    over many frames. The class in module Previewer is proved to make exactly
    these transitions. */
module PreviewerSpec {
  import opened MaterialTypes

  // ---------------------------------------------------------------------
  // The animated highlight color

  /** Frames per hue step, and hue steps per cycle. */
  const FrameLength: int := 1
  const Steps: int := 64

  /** C#'s `%` on int: the remainder truncates toward zero, so it has the
      sign of the dividend. */
  function CsRem(a: int, b: int): (r: int)
    requires b > 0
    ensures a >= 0 ==> 0 <= r < b
    ensures a < 0 ==> -b < r <= 0
  {
    if a >= 0 then a % b else -((-a) % b)
  }

  /** C#'s `/` on int: the quotient truncates toward zero. */
  function CsDiv(a: int, b: int): (q: int)
    requires b > 0
    ensures b == 1 ==> q == a
  {
    if a >= 0 then a / b else -((-a) / b)
  }

  /** The truncating quotient and remainder recompose the dividend, so
      CsRem is C#'s remainder for negative dividends as well. */
  lemma CsDivRem(a: int, b: int)
    requires b > 0
    ensures CsDiv(a, b) * b + CsRem(a, b) == a
  {
    if a < 0 {
      var q, m := (-a) / b, (-a) % b;
      assert -a == q * b + m;
      assert (-q) * b == -(q * b);
    }
  }

  /** The hue step of a frame: the frame count modulo the cycle length. */
  function HueStep(frame: int): (step: int)
    ensures frame >= 0 ==> 0 <= step < Steps
    ensures -Steps < step < Steps
  {
    CsDiv(CsRem(frame, Steps * FrameLength), FrameLength)
  }

  /** The hue of a frame, a fraction of the full circle. */
  function Hue(frame: int): (h: real)
    ensures frame >= 0 ==> 0.0 <= h < 1.0
  {
    HueStep(frame) as real / Steps as real
  }

  /** The diffuse highlight color of a frame; `hueToRgb` stands for the
      HSV to RGB conversion at full saturation and value. */
  function CalculateDiffuse(frame: int, hueToRgb: real -> Color): (d: Color)
    ensures frame >= 0 ==> exists h: real :: 0.0 <= h < 1.0 && d == hueToRgb(h)
  {
    hueToRgb(Hue(frame))
  }

  /** For the non-negative frame counts the game produces, the hue step is
      the frame count modulo 64, and the highlight repeats every 64 frames. */
  lemma HueCycle(frame: int, hueToRgb: real -> Color)
    requires frame >= 0
    ensures HueStep(frame) == frame % Steps
    ensures HueStep(frame + Steps) == HueStep(frame)
    ensures CalculateDiffuse(frame + Steps, hueToRgb) == CalculateDiffuse(frame, hueToRgb)
  {
  }

  /** The highlight write: the snapshot with one row's diffuse color replaced
      and its emissive color set to an eighth of it. */
  function Highlighted(snapshot: ColorTable, row: nat, diffuse: Color): (t: ColorTable)
    requires row < NumRows
    ensures forall i :: 0 <= i < NumRows && i != row ==> t[i] == snapshot[i]
    ensures t[row].diffuse == diffuse && t[row].emissive == diffuse.Div(8.0)
    ensures t[row].other == snapshot[row].other
  {
    snapshot[row := snapshot[row].(diffuse := diffuse, emissive := diffuse.Div(8.0))]
  }

  // ---------------------------------------------------------------------
  // Previewer state

  /** The previewer's fields. `lastValueIndex`, `lastObjectIndex` and
      `lastOriginalColorTable` describe the active highlight; `valueIndex`,
      `objectIndex` and `originalColorTable` the request pending for the
      next tick. */
  datatype PreviewState = PreviewState(
    lastValueIndex: MaterialValueIndex,
    lastObjectIndex: ObjectIndex,
    lastOriginalColorTable: ColorTable,
    valueIndex: MaterialValueIndex,
    objectIndex: ObjectIndex,
    originalColorTable: ColorTable)
  {
    /** A highlight is active (the test Reset makes before restoring). */
    predicate Active() {
      lastValueIndex.Valid() && lastObjectIndex != AnyIndex
    }

    /** A usable hover request is pending (the test a tick makes first). */
    predicate Pending() {
      valueIndex.Valid() && objectIndex != AnyIndex
    }

    /** The active index is valid exactly when the active object is set. */
    predicate Inv() {
      lastValueIndex.Valid() <==> lastObjectIndex != AnyIndex
    }

    /** The texture the active highlight lives on. */
    function ActiveTexture(): TextureKey {
      TextureOf(lastValueIndex, lastObjectIndex)
    }

    /** The texture the pending request points at. */
    function PendingTexture(): TextureKey {
      TextureOf(valueIndex, objectIndex)
    }

    /** The pending request names another target than the active one. */
    predicate TargetChanged() {
      valueIndex != lastValueIndex || lastObjectIndex != objectIndex
    }
  }

  /** The state of a freshly constructed previewer. */
  const Initial: PreviewState :=
    PreviewState(Invalid, AnyIndex, DefaultTable, Invalid, AnyIndex, DefaultTable)

  /** The previewer together with the game it acts on. */
  datatype Scene = Scene(preview: PreviewState, world: World)

  // ---------------------------------------------------------------------
  // OnHover

  /** The condition under which a hover request re-seeds the snapshot: nothing
      is active, or the request is on another draw object, material or
      texture slot than the active highlight. */
  predicate RefreshesSnapshot(s: PreviewState, index: MaterialValueIndex) {
    || !s.lastValueIndex.Valid()
    || s.lastObjectIndex == AnyIndex
    || !s.lastValueIndex.SameResource(index)
  }

  /** A hover request. The first request carrying a valid index in a frame
      wins; a later one in the same frame changes nothing. The request is
      recorded as pending, and the caller's table is kept as the future
      snapshot unless the request stays on the resource already highlighted. */
  function Hover(s: PreviewState, index: MaterialValueIndex, objectIndex: ObjectIndex, table: ColorTable): (r: PreviewState)
    ensures s.valueIndex.Valid() ==> r == s
    ensures !s.valueIndex.Valid() ==> r.valueIndex == index && r.objectIndex == objectIndex
    ensures && r.lastValueIndex == s.lastValueIndex
            && r.lastObjectIndex == s.lastObjectIndex
            && r.lastOriginalColorTable == s.lastOriginalColorTable
    ensures r.originalColorTable == table || r.originalColorTable == s.originalColorTable
    ensures r.originalColorTable != s.originalColorTable ==> RefreshesSnapshot(s, index)
    ensures !s.valueIndex.Valid() && RefreshesSnapshot(s, index) ==> r.originalColorTable == table
  {
    if s.valueIndex.Valid() then s
    else
      var s' := s.(valueIndex := index, objectIndex := objectIndex);
      if RefreshesSnapshot(s', s'.valueIndex) then s'.(originalColorTable := table) else s'
  }

  /** Asking twice in one frame with the same arguments is the same as asking
      once. */
  lemma HoverIdempotent(s: PreviewState, index: MaterialValueIndex, objectIndex: ObjectIndex, table: ColorTable)
    ensures Hover(Hover(s, index, objectIndex, table), index, objectIndex, table) == Hover(s, index, objectIndex, table)
  {
  }

  // ---------------------------------------------------------------------
  // Reset

  /** The active highlight can be written back: its object is still a
      character and its texture resolves. */
  predicate Restorable(s: PreviewState, w: World) {
    s.lastObjectIndex in w.characters && s.ActiveTexture() in w.textures
  }

  /** Reset: when a highlight is active, write its snapshot back verbatim if
      the texture can still be reached, and forget the active target either
      way. Nothing else of the previewer changes. */
  function Reset(s: PreviewState, w: World): (r: Scene)
    ensures !r.preview.Active()
    ensures s.Inv() ==> !r.preview.lastValueIndex.Valid() && r.preview.lastObjectIndex == AnyIndex
    ensures && r.preview.valueIndex == s.valueIndex
            && r.preview.objectIndex == s.objectIndex
            && r.preview.originalColorTable == s.originalColorTable
            && r.preview.lastOriginalColorTable == s.lastOriginalColorTable
    ensures r.world.characters == w.characters && r.world.textures.Keys == w.textures.Keys
    ensures !s.Active() ==> r == Scene(s, w)
    ensures s.Active() && Restorable(s, w) ==> r.world.textures[s.ActiveTexture()] == s.lastOriginalColorTable
    ensures forall k :: k in w.textures && (k != s.ActiveTexture() || !Restorable(s, w) || !s.Active()) ==>
              r.world.textures[k] == w.textures[k]
  {
    if !s.Active() then Scene(s, w)
    else
      var w' := if Restorable(s, w) then w.(textures := w.textures[s.ActiveTexture() := s.lastOriginalColorTable]) else w;
      Scene(s.(lastValueIndex := Invalid, lastObjectIndex := AnyIndex), w')
  }

  /** Resetting, or disposing, a second time changes nothing further. */
  lemma ResetIdempotent(s: PreviewState, w: World)
    ensures Reset(Reset(s, w).preview, Reset(s, w).world) == Reset(s, w)
  {
  }

  // ---------------------------------------------------------------------
  // OnFramework

  function ClearPending(s: PreviewState): PreviewState {
    s.(valueIndex := Invalid, objectIndex := AnyIndex)
  }

  /** The pending request becomes the active target, with the pending
      snapshot. */
  function Adopt(sc: Scene): Scene {
    var p := sc.preview;
    Scene(p.(lastValueIndex := p.valueIndex, lastObjectIndex := p.objectIndex,
             lastOriginalColorTable := p.originalColorTable), sc.world)
  }

  /** Write the highlight of the active row, if its texture resolves. */
  function WriteHighlight(sc: Scene, frame: int, hueToRgb: real -> Color): Scene
    requires sc.preview.valueIndex.Valid()
  {
    var p := sc.preview;
    var key := p.PendingTexture();
    if key in sc.world.textures then
      var table := Highlighted(p.lastOriginalColorTable, p.valueIndex.rowIndex as nat, CalculateDiffuse(frame, hueToRgb));
      Scene(p, sc.world.(textures := sc.world.textures[key := table]))
    else sc
  }

  /** One framework tick. With no usable request it resets; with a request
      on an object that is no longer a character it only drops the request;
      otherwise it moves the highlight to the requested row (resetting the
      previous target first when the target changed) and writes the
      highlight. Every path ends with nothing pending. */
  function Tick(sc: Scene, frame: int, hueToRgb: real -> Color): (r: Scene)
    ensures r.preview.valueIndex == Invalid && r.preview.objectIndex == AnyIndex
    ensures r.preview.originalColorTable == sc.preview.originalColorTable
    ensures r.world.characters == sc.world.characters && r.world.textures.Keys == sc.world.textures.Keys
    ensures sc.preview.Inv() ==> r.preview.Inv()
    // no request: the highlight is taken down
    ensures !sc.preview.Pending() ==> r == Scene(ClearPending(Reset(sc.preview, sc.world).preview), Reset(sc.preview, sc.world).world)
    ensures !sc.preview.Pending() && sc.preview.Inv() ==> !r.preview.lastValueIndex.Valid() && r.preview.lastObjectIndex == AnyIndex
    // the object went away: only the request is dropped
    ensures sc.preview.Pending() && sc.preview.objectIndex !in sc.world.characters ==>
              r.world == sc.world && r.preview == ClearPending(sc.preview)
    // a live character: the request becomes the active target
    ensures sc.preview.Pending() && sc.preview.objectIndex in sc.world.characters ==>
              && r.preview.lastValueIndex == sc.preview.valueIndex
              && r.preview.lastObjectIndex == sc.preview.objectIndex
              && r.preview.lastOriginalColorTable ==
                   (if sc.preview.TargetChanged() then sc.preview.originalColorTable else sc.preview.lastOriginalColorTable)
    ensures sc.preview.Pending() && sc.preview.objectIndex in sc.world.characters && sc.preview.PendingTexture() in sc.world.textures ==>
              r.world.textures[sc.preview.PendingTexture()] ==
                Highlighted(r.preview.lastOriginalColorTable, sc.preview.valueIndex.rowIndex as nat, CalculateDiffuse(frame, hueToRgb))
    // every other texture is as the reset of the previous target left it
    ensures sc.preview.Pending() && sc.preview.objectIndex in sc.world.characters ==>
              forall k :: k in sc.world.textures && k != sc.preview.PendingTexture() ==>
                r.world.textures[k] == (if sc.preview.TargetChanged() then Reset(sc.preview, sc.world).world.textures[k] else sc.world.textures[k])
  {
    var s := sc.preview;
    if !s.Pending() then
      var reset := Reset(s, sc.world);
      Scene(ClearPending(reset.preview), reset.world)
    else if s.objectIndex !in sc.world.characters then
      Scene(ClearPending(s), sc.world)
    else
      var retargeted := if s.TargetChanged() then Adopt(Reset(s, sc.world)) else sc;
      var written := WriteHighlight(retargeted, frame, hueToRgb);
      Scene(ClearPending(written.preview), written.world)
  }
}
