/** The previewer as the object the game drives: hover requests from the
    color-table editor, one framework tick per frame, and a final dispose.
    Reset and Dispose are proved to make the transition PreviewerSpec.Reset,
    OnHover the transition PreviewerSpec.Hover and OnFramework the
    transition PreviewerSpec.Tick. */
module Previewer {
  import opened MaterialTypes
  import opened PreviewerSpec

  /** The game side the previewer touches: the object table (which slots
      hold a character) and the texture resources with their color tables. */
  class GameWorld {
    var characters: set<ObjectIndex>
    var textures: map<TextureKey, ColorTable>

    constructor (characters: set<ObjectIndex>, textures: map<TextureKey, ColorTable>)
      ensures this.characters == characters && this.textures == textures
    {
      this.characters := characters;
      this.textures := textures;
    }

    function Model(): World
      reads this
    {
      World(characters, textures)
    }

    /** Replaces the whole color table of a texture; the resource accepts
        nothing smaller than a full table. */
    method ReplaceColorTable(texture: TextureKey, table: ColorTable)
      requires texture in textures
      modifies this
      ensures textures == old(textures)[texture := table]
      ensures characters == old(characters)
    {
      textures := textures[texture := table];
    }
  }

  class LiveColorTablePreviewer {
    const world: GameWorld
    /** Whether OnFramework is registered with the framework's update event. */
    var subscribed: bool

    var lastValueIndex: MaterialValueIndex
    var lastOriginalColorTable: ColorTable
    var valueIndex: MaterialValueIndex
    var lastObjectIndex: ObjectIndex
    var objectIndex: ObjectIndex
    var originalColorTable: ColorTable

    function Model(): PreviewState
      reads this
    {
      PreviewState(lastValueIndex, lastObjectIndex, lastOriginalColorTable, valueIndex, objectIndex, originalColorTable)
    }

    /** The active index is valid exactly when the active object is set. */
    predicate Valid()
      reads this
    {
      Model().Inv()
    }

    constructor (world: GameWorld)
      ensures this.world == world && subscribed
      ensures Model() == Initial && Valid()
    {
      this.world := world;
      lastValueIndex := Invalid;
      lastOriginalColorTable := DefaultTable;
      valueIndex := Invalid;
      lastObjectIndex := AnyIndex;
      objectIndex := AnyIndex;
      originalColorTable := DefaultTable;
      subscribed := true;
    }

    /** Takes the active highlight down: writes the saved table back when
        the object is still a character and the texture resolves, and
        forgets the active target. */
    method Reset()
      requires Valid()
      modifies this, world
      ensures Valid() && subscribed == old(subscribed)
      ensures !lastValueIndex.Valid() && lastObjectIndex == AnyIndex
      ensures Scene(Model(), world.Model()) == PreviewerSpec.Reset(old(Model()), old(world.Model()))
    {
      if !lastValueIndex.Valid() || lastObjectIndex == AnyIndex {
        return;
      }
      var isCharacter := lastObjectIndex in world.characters;
      var texture := TextureOf(lastValueIndex, lastObjectIndex);
      if isCharacter && texture in world.textures {
        world.ReplaceColorTable(texture, lastOriginalColorTable);
      }
      lastValueIndex := Invalid;
      lastObjectIndex := AnyIndex;
    }

    /** The per-frame update. */
    method OnFramework(frame: int, hueToRgb: real -> Color)
      requires Valid()
      modifies this, world
      ensures Valid() && subscribed == old(subscribed)
      ensures valueIndex == Invalid && objectIndex == AnyIndex
      ensures Scene(Model(), world.Model()) == Tick(Scene(old(Model()), old(world.Model())), frame, hueToRgb)
    {
      ghost var before := Scene(Model(), world.Model());
      if !valueIndex.Valid() || objectIndex == AnyIndex {
        Reset();
        valueIndex := Invalid;
        objectIndex := AnyIndex;
        return;
      }

      var isCharacter := objectIndex in world.characters;
      if !isCharacter {
        valueIndex := Invalid;
        objectIndex := AnyIndex;
        return;
      }

      if valueIndex != lastValueIndex || lastObjectIndex != objectIndex {
        Reset();
        lastValueIndex := valueIndex;
        lastObjectIndex := objectIndex;
        lastOriginalColorTable := originalColorTable;
      }
      ghost var retargeted := Scene(Model(), world.Model());
      assert retargeted == if before.preview.TargetChanged() then Adopt(PreviewerSpec.Reset(before.preview, before.world)) else before;

      var texture := TextureOf(valueIndex, objectIndex);
      if texture in world.textures {
        var diffuse := CalculateDiffuse(frame, hueToRgb);
        var row := valueIndex.rowIndex as nat;
        var table := lastOriginalColorTable;
        table := table[row := table[row].(diffuse := diffuse)];
        table := table[row := table[row].(emissive := diffuse.Div(8.0))];
        assert table == Highlighted(lastOriginalColorTable, row, diffuse);
        world.ReplaceColorTable(texture, table);
      }
      assert Scene(Model(), world.Model()) == WriteHighlight(retargeted, frame, hueToRgb);

      valueIndex := Invalid;
      objectIndex := AnyIndex;
    }

    /** A hover request from the editor; only the first one with a valid
        index in a frame is kept. */
    method OnHover(index: MaterialValueIndex, objectIndex: ObjectIndex, table: ColorTable)
      requires Valid()
      modifies this
      ensures Valid() && subscribed == old(subscribed)
      ensures Model() == Hover(old(Model()), index, objectIndex, table)
    {
      if valueIndex.Valid() {
        return;
      }

      valueIndex := index;
      this.objectIndex := objectIndex;
      if || !lastValueIndex.Valid()
         || lastObjectIndex == AnyIndex
         || lastValueIndex.materialIndex != valueIndex.materialIndex
         || lastValueIndex.drawObject != valueIndex.drawObject
         || lastValueIndex.slotIndex != valueIndex.slotIndex
      {
        originalColorTable := table;
      }
    }

    /** Takes any highlight down and leaves the framework's update event. */
    method Dispose()
      requires Valid()
      modifies this, world
      ensures Valid() && !subscribed
      ensures !lastValueIndex.Valid() && lastObjectIndex == AnyIndex
      ensures Scene(Model(), world.Model()) == PreviewerSpec.Reset(old(Model()), old(world.Model()))
    {
      Reset();
      subscribed := false;
    }
  }
}
