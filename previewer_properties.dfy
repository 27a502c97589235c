/** What the previewer's transitions guarantee over several frames: the
    invariant between the active index and the active object, an empty
    pending slot after every tick, highlight writes that depend only on the
    saved snapshot, and the hover/release scenarios that restore the exact
    snapshot. */
module PreviewerProperties {
  import opened MaterialTypes
  import opened PreviewerSpec

  // ---------------------------------------------------------------------
  // Arbitrary interleavings of calls

  /** What can happen between two observations: a hover request, a framework
      tick, a dispose, or the game changing its objects and textures. */
  datatype Event =
    | HoverEvent(index: MaterialValueIndex, objectIndex: ObjectIndex, table: ColorTable)
    | TickEvent(frame: int)
    | DisposeEvent
    | GameEvent(world: World)

  function Step(sc: Scene, e: Event, hueToRgb: real -> Color): Scene {
    match e
    case HoverEvent(index, objectIndex, table) => Scene(Hover(sc.preview, index, objectIndex, table), sc.world)
    case TickEvent(frame) => Tick(sc, frame, hueToRgb)
    case DisposeEvent => Reset(sc.preview, sc.world)
    case GameEvent(world) => Scene(sc.preview, world)
  }

  function Run(sc: Scene, events: seq<Event>, hueToRgb: real -> Color): Scene
    decreases |events|
  {
    if events == [] then sc else Run(Step(sc, events[0], hueToRgb), events[1..], hueToRgb)
  }

  /** The previewer starts out satisfying its invariant. */
  lemma InitialIsQuiet()
    ensures Initial.Inv() && !Initial.Active() && !Initial.Pending()
  {
  }

  /** Every single call keeps the active index valid exactly when the active
      object is set. */
  lemma StepKeepsInvariant(sc: Scene, e: Event, hueToRgb: real -> Color)
    requires sc.preview.Inv()
    ensures Step(sc, e, hueToRgb).preview.Inv()
  {
  }

  /** So does every sequence of calls, in any order. */
  lemma {:induction false} RunKeepsInvariant(sc: Scene, events: seq<Event>, hueToRgb: real -> Color)
    requires sc.preview.Inv()
    ensures Run(sc, events, hueToRgb).preview.Inv()
    decreases |events|
  {
    if events != [] {
      StepKeepsInvariant(sc, events[0], hueToRgb);
      RunKeepsInvariant(Step(sc, events[0], hueToRgb), events[1..], hueToRgb);
    }
  }

  lemma {:induction false} RunSnoc(sc: Scene, events: seq<Event>, e: Event, hueToRgb: real -> Color)
    ensures Run(sc, events + [e], hueToRgb) == Step(Run(sc, events, hueToRgb), e, hueToRgb)
    decreases |events|
  {
    if events == [] {
      assert [e][1..] == [];
    } else {
      assert (events + [e])[1..] == events[1..] + [e];
      RunSnoc(Step(sc, events[0], hueToRgb), events[1..], e, hueToRgb);
    }
  }

  /** Whatever happened before, after a tick nothing is pending, and after a
      dispose nothing is active. */
  lemma RunEndState(sc: Scene, events: seq<Event>, hueToRgb: real -> Color)
    requires sc.preview.Inv()
    requires events != []
    ensures var last := events[|events| - 1];
            var r := Run(sc, events, hueToRgb);
            && (last.TickEvent? ==> r.preview.valueIndex == Invalid && r.preview.objectIndex == AnyIndex)
            && (last.DisposeEvent? ==> !r.preview.lastValueIndex.Valid() && r.preview.lastObjectIndex == AnyIndex)
  {
    var prefix := events[..|events| - 1];
    assert events == prefix + [events[|events| - 1]];
    RunSnoc(sc, prefix, events[|events| - 1], hueToRgb);
    RunKeepsInvariant(sc, prefix, hueToRgb);
  }

  // ---------------------------------------------------------------------
  // Writes depend on the snapshot, never on the live tables

  /** The tables one tick writes, computed from the previewer state and from
      which objects are characters and which textures resolve, but not from
      the contents of any texture. */
  function TickWrites(s: PreviewState, characters: set<ObjectIndex>, keys: set<TextureKey>,
                      frame: int, hueToRgb: real -> Color): map<TextureKey, ColorTable>
  {
    var restore :=
      if s.Active() && s.lastObjectIndex in characters && s.ActiveTexture() in keys
      then map[s.ActiveTexture() := s.lastOriginalColorTable] else map[];
    if !s.Pending() then restore
    else if s.objectIndex !in characters then map[]
    else
      var before := if s.TargetChanged() then restore else map[];
      var snapshot := if s.TargetChanged() then s.originalColorTable else s.lastOriginalColorTable;
      if s.PendingTexture() in keys then
        before[s.PendingTexture() := Highlighted(snapshot, s.valueIndex.rowIndex as nat, CalculateDiffuse(frame, hueToRgb))]
      else before
  }

  /** A tick changes the textures by exactly the writes above. */
  lemma TickAppliesWrites(s: PreviewState, w: World, frame: int, hueToRgb: real -> Color)
    ensures Tick(Scene(s, w), frame, hueToRgb).world ==
              w.(textures := w.textures + TickWrites(s, w.characters, w.textures.Keys, frame, hueToRgb))
  {
    var r := Tick(Scene(s, w), frame, hueToRgb);
    var expected := w.textures + TickWrites(s, w.characters, w.textures.Keys, frame, hueToRgb);
    assert r.world.textures.Keys == expected.Keys;
    forall k | k in expected
      ensures r.world.textures[k] == expected[k]
    {
    }
    assert r.world.textures == expected;
  }

  /** Hence two games that agree on which objects are characters and which
      textures resolve see the same previewer state after a tick, and the
      same table on every texture the tick writes. */
  lemma TickIgnoresLiveTables(s: PreviewState, w1: World, w2: World, frame: int, hueToRgb: real -> Color)
    requires w1.characters == w2.characters && w1.textures.Keys == w2.textures.Keys
    ensures Tick(Scene(s, w1), frame, hueToRgb).preview == Tick(Scene(s, w2), frame, hueToRgb).preview
    ensures forall k :: k in w1.textures ==>
              || (&& Tick(Scene(s, w1), frame, hueToRgb).world.textures[k] == w1.textures[k]
                  && Tick(Scene(s, w2), frame, hueToRgb).world.textures[k] == w2.textures[k])
              || Tick(Scene(s, w1), frame, hueToRgb).world.textures[k] == Tick(Scene(s, w2), frame, hueToRgb).world.textures[k]
  {
    TickAppliesWrites(s, w1, frame, hueToRgb);
    TickAppliesWrites(s, w2, frame, hueToRgb);
  }

  /** Every table a tick writes is a saved snapshot, verbatim or with one
      row highlighted. */
  lemma TickWritesOnlySnapshots(s: PreviewState, characters: set<ObjectIndex>, keys: set<TextureKey>,
                                frame: int, hueToRgb: real -> Color, k: TextureKey)
    requires k in TickWrites(s, characters, keys, frame, hueToRgb)
    ensures var t := TickWrites(s, characters, keys, frame, hueToRgb)[k];
            || t == s.lastOriginalColorTable
            || (s.Pending() && t == Highlighted(s.originalColorTable, s.valueIndex.rowIndex as nat, CalculateDiffuse(frame, hueToRgb)))
            || (s.Pending() && t == Highlighted(s.lastOriginalColorTable, s.valueIndex.rowIndex as nat, CalculateDiffuse(frame, hueToRgb)))
  {
  }

  // ---------------------------------------------------------------------
  // Hover and release scenarios

  /** Nothing is active and nothing is pending. */
  predicate Quiet(s: PreviewState) {
    !s.lastValueIndex.Valid() && s.lastObjectIndex == AnyIndex && !s.valueIndex.Valid()
  }

  /** Row `index` of object `o` is highlighted with `snapshot` as the saved
      table, the pending slot is empty, and the texture is reachable. */
  predicate Lit(sc: Scene, index: MaterialValueIndex, o: ObjectIndex, snapshot: ColorTable) {
    && index.Valid() && o != AnyIndex
    && sc.preview.lastValueIndex == index && sc.preview.lastObjectIndex == o
    && sc.preview.lastOriginalColorTable == snapshot
    && sc.preview.valueIndex == Invalid && sc.preview.objectIndex == AnyIndex
    && o in sc.world.characters && TextureOf(index, o) in sc.world.textures
  }

  /** One frame in which the caller hovers row `index` of object `o`,
      passing `table`, followed by the tick. */
  function HoverFrame(sc: Scene, index: MaterialValueIndex, o: ObjectIndex, table: ColorTable,
                      frame: int, hueToRgb: real -> Color): Scene
  {
    Tick(Scene(Hover(sc.preview, index, o, table), sc.world), frame, hueToRgb)
  }

  /** Hovering a row of a reachable character and ticking highlights that
      row on a copy of the caller's table; a following tick without a hover
      writes the caller's table back exactly and leaves nothing active. */
  lemma HighlightThenRelease(s: PreviewState, w: World, index: MaterialValueIndex, o: ObjectIndex,
                             table: ColorTable, f1: int, f2: int, hueToRgb: real -> Color)
    requires Quiet(s)
    requires index.Valid() && o != AnyIndex && o in w.characters && TextureOf(index, o) in w.textures
    ensures var lit := HoverFrame(Scene(s, w), index, o, table, f1, hueToRgb);
            && Lit(lit, index, o, table)
            && lit.preview.originalColorTable == table
            && lit.world.characters == w.characters
            && lit.world.textures == w.textures[TextureOf(index, o) := Highlighted(table, index.rowIndex as nat, CalculateDiffuse(f1, hueToRgb))]
            && var off := Tick(lit, f2, hueToRgb);
            && Quiet(off.preview)
            && off.world == w.(textures := w.textures[TextureOf(index, o) := table])
  {
    var key := TextureOf(index, o);
    var lit := HoverFrame(Scene(s, w), index, o, table, f1, hueToRgb);
    TickAppliesWrites(Hover(s, index, o, table), w, f1, hueToRgb);
    assert lit.world.textures == w.textures[key := Highlighted(table, index.rowIndex as nat, CalculateDiffuse(f1, hueToRgb))];
    var off := Tick(lit, f2, hueToRgb);
    TickAppliesWrites(lit.preview, lit.world, f2, hueToRgb);
    assert off.world.textures == lit.world.textures[key := table];
  }

  /** Holding the hover on the lit row for any number of frames, each time
      passing whatever table the caller sees. */
  function Hold(sc: Scene, index: MaterialValueIndex, o: ObjectIndex, tables: seq<ColorTable>,
                frame: int, hueToRgb: real -> Color): Scene
    decreases |tables|
  {
    if tables == [] then sc
    else Hold(HoverFrame(sc, index, o, tables[0], frame, hueToRgb), index, o, tables[1..], frame + 1, hueToRgb)
  }

  /** While the same row stays hovered the previewer's state does not move:
      the snapshot is the one taken at the first hover, whatever the caller
      passes later, and only the lit texture is rewritten, from that
      snapshot. */
  lemma {:induction false} HoldKeepsSnapshot(sc: Scene, index: MaterialValueIndex, o: ObjectIndex, snapshot: ColorTable,
                                             tables: seq<ColorTable>, frame: int, hueToRgb: real -> Color)
    requires Lit(sc, index, o, snapshot)
    ensures var r := Hold(sc, index, o, tables, frame, hueToRgb);
            && r.preview == sc.preview
            && r.world.characters == sc.world.characters
            && r.world.textures.Keys == sc.world.textures.Keys
            && (forall k :: k in sc.world.textures && k != TextureOf(index, o) ==> r.world.textures[k] == sc.world.textures[k])
            && (tables != [] ==>
                  r.world.textures[TextureOf(index, o)] ==
                    Highlighted(snapshot, index.rowIndex as nat, CalculateDiffuse(frame + |tables| - 1, hueToRgb)))
    decreases |tables|
  {
    if tables != [] {
      var next := HoverFrame(sc, index, o, tables[0], frame, hueToRgb);
      assert next.preview == sc.preview;
      assert Lit(next, index, o, snapshot);
      HoldKeepsSnapshot(next, index, o, snapshot, tables[1..], frame + 1, hueToRgb);
    }
  }

  /** Moving the hover to another row of the same table keeps the snapshot
      from the first hover, whatever table the caller passes; releasing then
      writes that snapshot back and leaves every other texture as it was. */
  lemma SwitchRowThenRelease(sc: Scene, index: MaterialValueIndex, other: MaterialValueIndex, o: ObjectIndex,
                             snapshot: ColorTable, table: ColorTable, f1: int, f2: int, hueToRgb: real -> Color)
    requires Lit(sc, index, o, snapshot) && sc.preview.originalColorTable == snapshot
    requires other.Valid() && other.SameResource(index)
    ensures var moved := HoverFrame(sc, other, o, table, f1, hueToRgb);
            && Lit(moved, other, o, snapshot)
            && moved.world.textures[TextureOf(index, o)] == Highlighted(snapshot, other.rowIndex as nat, CalculateDiffuse(f1, hueToRgb))
            && var off := Tick(moved, f2, hueToRgb);
            && Quiet(off.preview)
            && off.world == sc.world.(textures := sc.world.textures[TextureOf(index, o) := snapshot])
  {
    var key := TextureOf(index, o);
    SameTextureIffSameResource(other, index, o);
    var hovered := Hover(sc.preview, other, o, table);
    assert hovered.originalColorTable == snapshot;
    var moved := HoverFrame(sc, other, o, table, f1, hueToRgb);
    TickAppliesWrites(hovered, sc.world, f1, hueToRgb);
    var off := Tick(moved, f2, hueToRgb);
    TickAppliesWrites(moved.preview, moved.world, f2, hueToRgb);
    assert off.world.textures == sc.world.textures[key := snapshot];
  }

  /** A hover session on one table: hover a row with the table's current
      contents, keep hovering it while the caller passes `tables`, move to
      another row passing `table`, and let go. */
  function Session(s: PreviewState, w: World, index: MaterialValueIndex, other: MaterialValueIndex,
                   o: ObjectIndex, tables: seq<ColorTable>, table: ColorTable,
                   frame: int, hueToRgb: real -> Color): Scene
    requires TextureOf(index, o) in w.textures
  {
    var first := HoverFrame(Scene(s, w), index, o, w.textures[TextureOf(index, o)], frame, hueToRgb);
    var held := Hold(first, index, o, tables, frame + 1, hueToRgb);
    Tick(HoverFrame(held, other, o, table, frame + 1 + |tables|, hueToRgb), frame + 2 + |tables|, hueToRgb)
  }

  /** Such a session leaves the game exactly as it found it and the
      previewer with nothing active. */
  lemma SessionRestoresTable(s: PreviewState, w: World, index: MaterialValueIndex, other: MaterialValueIndex,
                             o: ObjectIndex, tables: seq<ColorTable>, table: ColorTable,
                             frame: int, hueToRgb: real -> Color)
    requires Quiet(s)
    requires index.Valid() && other.Valid() && other.SameResource(index)
    requires o != AnyIndex && o in w.characters && TextureOf(index, o) in w.textures
    ensures var r := Session(s, w, index, other, o, tables, table, frame, hueToRgb);
            r.world == w && Quiet(r.preview)
  {
    var key := TextureOf(index, o);
    var original := w.textures[key];
    var first := HoverFrame(Scene(s, w), index, o, original, frame, hueToRgb);
    HighlightThenRelease(s, w, index, o, original, frame, frame, hueToRgb);
    HoldKeepsSnapshot(first, index, o, original, tables, frame + 1, hueToRgb);
    var held := Hold(first, index, o, tables, frame + 1, hueToRgb);
    HeldTableRestores(w, first, held, key, original);
    SwitchRowThenRelease(held, index, other, o, original, table, frame + 1 + |tables|, frame + 2 + |tables|, hueToRgb);
  }

  /** Map bookkeeping for the session: putting the original table back on
      the one texture the session touched gives back the original game. */
  lemma HeldTableRestores(w: World, first: Scene, held: Scene, key: TextureKey, original: ColorTable)
    requires key in w.textures && w.textures[key] == original
    requires first.world.characters == w.characters
    requires key in first.world.textures && first.world.textures == w.textures[key := first.world.textures[key]]
    requires held.world.characters == first.world.characters
    requires held.world.textures.Keys == first.world.textures.Keys
    requires forall k :: k in first.world.textures && k != key ==> held.world.textures[k] == first.world.textures[k]
    ensures held.world.(textures := held.world.textures[key := original]) == w
  {
    assert held.world.textures[key := original] == w.textures;
  }

  /** The lit object stops being a character: the next tick drops the
      request without writing anything, and a dispose afterwards writes
      nothing either but leaves nothing active. The highlighted table is
      left as it was. */
  lemma VanishedObject(sc: Scene, index: MaterialValueIndex, o: ObjectIndex, snapshot: ColorTable,
                       table: ColorTable, frame: int, hueToRgb: real -> Color)
    requires index.Valid() && o != AnyIndex && o !in sc.world.characters
    requires sc.preview.lastValueIndex == index && sc.preview.lastObjectIndex == o && !sc.preview.valueIndex.Valid()
    ensures var ticked := Tick(Scene(Hover(sc.preview, index, o, table), sc.world), frame, hueToRgb);
            && ticked.world == sc.world
            && ticked.preview.lastValueIndex == index && ticked.preview.lastObjectIndex == o
            && var disposed := Reset(ticked.preview, ticked.world);
            && disposed.world == sc.world
            && !disposed.preview.Active()
  {
  }
}
