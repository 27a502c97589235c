/** Two hover sequences after which the previewer, as written, writes a table
    back onto a texture that never held it, and the snapshot rule that
    avoids both. */
module PreviewerFindings {
  import opened MaterialTypes
  import opened PreviewerSpec
  import opened PreviewerProperties

  // ---------------------------------------------------------------------
  // As written

  /** Another object, same draw object, material and slot. The hover on the
      second object does not re-seed the snapshot, because the test only
      compares draw object, material and slot; the tick then adopts the first
      object's table as the second object's snapshot, and releasing writes
      it onto the second object. */
  lemma StaleSnapshotOnObjectSwitch(original: ColorTable, foreign: ColorTable, hueToRgb: real -> Color)
    requires NumRows > 0 && original != foreign
    ensures var index := MaterialValueIndex(Human, 0, 0, 0);
            var w := World({1, 2}, map[TextureOf(index, 1) := original, TextureOf(index, 2) := foreign]);
            var first := HoverFrame(Scene(Initial, w), index, 1, original, 0, hueToRgb);
            var second := HoverFrame(first, index, 2, foreign, 1, hueToRgb);
            var released := Tick(second, 2, hueToRgb);
            released.world.textures[TextureOf(index, 2)] == original
  {
    var index := MaterialValueIndex(Human, 0, 0, 0);
    var w := World({1, 2}, map[TextureOf(index, 1) := original, TextureOf(index, 2) := foreign]);
    HighlightThenRelease(Initial, w, index, 1, original, 0, 2, hueToRgb);
    var first := HoverFrame(Scene(Initial, w), index, 1, original, 0, hueToRgb);
    var hovered := Hover(first.preview, index, 2, foreign);
    assert hovered.originalColorTable == original;
    var second := HoverFrame(first, index, 2, foreign, 1, hueToRgb);
    assert second.preview.lastObjectIndex == 2 && second.preview.lastOriginalColorTable == original;
  }

  /** A request that is dropped because its object is not a character still
      leaves its table behind as the pending snapshot. Moving the hover back
      to another row of the lit table then adopts that foreign table as the
      snapshot, and releasing writes it onto the lit texture. */
  lemma StaleSnapshotAfterDroppedRequest(original: ColorTable, foreign: ColorTable, hueToRgb: real -> Color)
    requires NumRows > 1 && original != foreign
    ensures var index := MaterialValueIndex(Human, 0, 0, 0);
            var elsewhere := MaterialValueIndex(Human, 0, 1, 0);
            var nextRow := MaterialValueIndex(Human, 0, 0, 1);
            var w := World({1}, map[TextureOf(index, 1) := original]);
            var first := HoverFrame(Scene(Initial, w), index, 1, original, 0, hueToRgb);
            var dropped := HoverFrame(first, elsewhere, 2, foreign, 1, hueToRgb);
            var moved := HoverFrame(dropped, nextRow, 1, original, 2, hueToRgb);
            var released := Tick(moved, 3, hueToRgb);
            released.world.textures[TextureOf(index, 1)] == foreign
  {
    var index := MaterialValueIndex(Human, 0, 0, 0);
    var nextRow := MaterialValueIndex(Human, 0, 0, 1);
    var elsewhere := MaterialValueIndex(Human, 0, 1, 0);
    var w := World({1}, map[TextureOf(index, 1) := original]);
    HighlightThenRelease(Initial, w, index, 1, original, 0, 3, hueToRgb);
    var first := HoverFrame(Scene(Initial, w), index, 1, original, 0, hueToRgb);
    var dropped := HoverFrame(first, elsewhere, 2, foreign, 1, hueToRgb);
    assert dropped.preview.originalColorTable == foreign && dropped.world == first.world;
    var moved := HoverFrame(dropped, nextRow, 1, original, 2, hueToRgb);
    SameTextureIffSameResource(nextRow, index, 1);
    assert moved.preview.lastValueIndex == nextRow && moved.preview.lastOriginalColorTable == foreign;
  }

  // ---------------------------------------------------------------------
  // Corrected

  /** A snapshot rule under which the table Reset writes back is always a
      table of the lit texture: a request on the texture that is lit, on the
      same object, takes over the snapshot already held for that texture;
      any other request takes the caller's table. */
  function HoverIntended(s: PreviewState, index: MaterialValueIndex, objectIndex: ObjectIndex, table: ColorTable): (r: PreviewState)
    ensures s.valueIndex.Valid() ==> r == s
    ensures !s.valueIndex.Valid() ==> r.valueIndex == index && r.objectIndex == objectIndex
    ensures && r.lastValueIndex == s.lastValueIndex
            && r.lastObjectIndex == s.lastObjectIndex
            && r.lastOriginalColorTable == s.lastOriginalColorTable
    ensures !s.valueIndex.Valid() ==>
              r.originalColorTable ==
                (if s.Active() && s.ActiveTexture() == TextureOf(index, objectIndex) then s.lastOriginalColorTable else table)
  {
    if s.valueIndex.Valid() then s
    else
      var keep := s.Active() && s.lastObjectIndex == objectIndex && s.lastValueIndex.SameResource(index);
      s.(valueIndex := index, objectIndex := objectIndex,
         originalColorTable := if keep then s.lastOriginalColorTable else table)
  }

  /** With that rule, the snapshot a tick adopts for a texture is always a
      table that belongs to that texture: the one already saved for it, or
      the one the caller passed for it. */
  lemma IntendedAdoptsOwnSnapshot(s: PreviewState, w: World, index: MaterialValueIndex, o: ObjectIndex,
                                  table: ColorTable, frame: int, hueToRgb: real -> Color)
    requires !s.valueIndex.Valid()
    requires index.Valid() && o != AnyIndex && o in w.characters
    ensures var r := Tick(Scene(HoverIntended(s, index, o, table), w), frame, hueToRgb);
            && r.preview.lastValueIndex == index && r.preview.lastObjectIndex == o
            && r.preview.lastOriginalColorTable ==
                 (if s.Active() && s.ActiveTexture() == TextureOf(index, o) then s.lastOriginalColorTable else table)
  {
    var h := HoverIntended(s, index, o, table);
    if !h.TargetChanged() {
      assert s.Active() && s.ActiveTexture() == TextureOf(index, o);
    }
  }

  /** One frame with the corrected hover rule. */
  function HoverFrameIntended(sc: Scene, index: MaterialValueIndex, o: ObjectIndex, table: ColorTable,
                              frame: int, hueToRgb: real -> Color): Scene
  {
    Tick(Scene(HoverIntended(sc.preview, index, o, table), sc.world), frame, hueToRgb)
  }

  /** The first sequence again, with the corrected rule: the second object
      gets its own table back. */
  lemma IntendedObjectSwitchRestores(original: ColorTable, foreign: ColorTable, hueToRgb: real -> Color)
    requires NumRows > 0
    ensures var index := MaterialValueIndex(Human, 0, 0, 0);
            var w := World({1, 2}, map[TextureOf(index, 1) := original, TextureOf(index, 2) := foreign]);
            var first := HoverFrameIntended(Scene(Initial, w), index, 1, original, 0, hueToRgb);
            var second := HoverFrameIntended(first, index, 2, foreign, 1, hueToRgb);
            var released := Tick(second, 2, hueToRgb);
            released.world == w
  {
    var index := MaterialValueIndex(Human, 0, 0, 0);
    var w := World({1, 2}, map[TextureOf(index, 1) := original, TextureOf(index, 2) := foreign]);
    var first := HoverFrameIntended(Scene(Initial, w), index, 1, original, 0, hueToRgb);
    assert first.preview.lastOriginalColorTable == original;
    var second := HoverFrameIntended(first, index, 2, foreign, 1, hueToRgb);
    assert second.preview.lastOriginalColorTable == foreign;
    var released := Tick(second, 2, hueToRgb);
    assert released.world.textures == w.textures;
  }

  /** The second sequence with the corrected rule, from a given starting
      scene up to the move back to the lit table. */
  function DroppedThenMovedIntended(start: Scene, original: ColorTable, foreign: ColorTable, hueToRgb: real -> Color): Scene {
    HoverFrameIntended(
      HoverFrameIntended(
        HoverFrameIntended(start, MaterialValueIndex(Human, 0, 0, 0), 1, original, 0, hueToRgb),
        MaterialValueIndex(Human, 0, 1, 0), 2, foreign, 1, hueToRgb),
      MaterialValueIndex(Human, 0, 0, 1), 1, original, 2, hueToRgb)
  }

  /** From the idle state, after the dropped request and the move back the
      lit texture's own table is still the snapshot. */
  lemma DroppedThenMovedKeepsSnapshot(w: World, original: ColorTable, foreign: ColorTable, hueToRgb: real -> Color)
    requires NumRows > 1
    requires w == World({1}, map[TextureOf(MaterialValueIndex(Human, 0, 0, 0), 1) := original])
    ensures var moved := DroppedThenMovedIntended(Scene(Initial, w), original, foreign, hueToRgb);
            && moved.preview.Active()
            && moved.preview.lastOriginalColorTable == original
            && moved.preview.ActiveTexture() == TextureOf(MaterialValueIndex(Human, 0, 0, 0), 1)
            && !moved.preview.Pending()
            && moved.world.characters == w.characters
            && moved.world.textures.Keys == w.textures.Keys
  {
    var first := HoverFrameIntended(Scene(Initial, w), MaterialValueIndex(Human, 0, 0, 0), 1, original, 0, hueToRgb);
    assert first.preview.lastOriginalColorTable == original;
    var dropped := HoverFrameIntended(first, MaterialValueIndex(Human, 0, 1, 0), 2, foreign, 1, hueToRgb);
    assert dropped.world == first.world && dropped.preview.lastOriginalColorTable == original;
  }

  /** The second sequence again, with the corrected rule: the lit texture
      gets its own table back. */
  lemma IntendedDroppedRequestRestores(w: World, original: ColorTable, foreign: ColorTable, hueToRgb: real -> Color)
    requires NumRows > 1
    requires w == World({1}, map[TextureOf(MaterialValueIndex(Human, 0, 0, 0), 1) := original])
    ensures Tick(DroppedThenMovedIntended(Scene(Initial, w), original, foreign, hueToRgb), 3, hueToRgb).world == w
  {
    DroppedThenMovedKeepsSnapshot(w, original, foreign, hueToRgb);
    var moved := DroppedThenMovedIntended(Scene(Initial, w), original, foreign, hueToRgb);
    var released := Tick(moved, 3, hueToRgb);
    assert released.world.textures == w.textures;
  }
}
