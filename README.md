# Glamourer live color-table preview and application collections, in Dafny

This project models two parts of Glamourer, the appearance-editing plugin.

**The live color-table previewer.** While the color-table editor's pointer rests on a row of a material's color table, the previewer highlights that row in game. Every frame it writes a copy of the table whose row has an animated diffuse color (a hue that cycles every 64 frames) and an emissive color one eighth as bright. When the pointer leaves, it writes the table it saved before the first highlight back onto the texture.

The previewer has six fields:
- the active row, object and snapshot;
- the pending row, object and table of this frame's hover request.

It has four entry points:
- `OnHover`, called by the editor any number of times per frame;
- `OnFramework`, called once per frame;
- `Reset`;
- `Dispose`.

**The application collection.** This is the value that says which parts of a saved design get applied. It has six flag words: equipment, bonus items, customizations, crests, customize parameters and meta states. It comes with:
- the presets All, None, Equipment, Customizations and Default;
- `FromKeys`, which picks a preset from the modifier keys held;
- the in-place removals `RemoveEquip` and `RemoveCustomize`;
- the pure `Restrict` and `CloneSecure`.

Layout:

- `material_types.dfy` (module `MaterialTypes`) holds the values the previewer handles:
  - object indices with the `AnyIndex` sentinel;
  - material value indices with their `Valid` test;
  - color-table rows and tables;
  - texture keys;
  - the `World`: which object slots hold a character, and the color table of every texture that resolves.
- `previewer_spec.dfy` (module `PreviewerSpec`) holds the previewer as a state machine over values:
  - the integer hue step, using C#'s truncating `%` and `/`;
  - `Hover`, `Reset` and `Tick`, each a function from the fields and the world to the new fields and world.
- `previewer.dfy` (module `Previewer`) holds the previewer as an object whose methods update its fields in place:
  - a `GameWorld` object stands for the game;
  - `Reset` and `Dispose` are proved to make the transition `PreviewerSpec.Reset`, `OnHover` the transition `PreviewerSpec.Hover`, and `OnFramework` the transition `PreviewerSpec.Tick`;
  - `GameWorld.ReplaceColorTable` is the one write the game accepts, a whole-table replacement.
- `previewer_properties.dfy` (module `PreviewerProperties`) holds what follows over many frames:
  - the invariant under any interleaving of calls;
  - nothing pending after a tick;
  - writes that come only from the saved snapshot, never from the live tables;
  - the hover, hold, switch-row and release scenarios;
  - the vanished-object case.
- `previewer_findings.dfy` (module `PreviewerFindings`) holds two hover sequences after which the code as written restores the wrong table, and the snapshot rule that avoids them.
- `application_collection.dfy` (module `Designs`) holds the application collection. A flag word is modelled as the set of its set bits: `&` is intersection, `|` is union and `& ~` is difference.

The snapshot a hover leaves behind is the table that `Reset` writes back onto the lit texture (line 37 of `LiveColorTablePreviewer.cs`), so it has to be a table of that texture. The re-seed test at lines 91-95 compares the draw object, material and slot of the new request with the active one, but never its object, and a request that a tick drops (lines 55-59) keeps the table it brought. `PreviewerSpec.Hover` and `Previewer.LiveColorTablePreviewer.OnHover` model the test as written; the two findings below show the sequences in which it hands `Reset` a table of another texture.

## Model

| member | source | states |
|---|---|---|
| MaterialTypes.SameTextureIffSameResource | Glamourer/Interop/Material/LiveColorTablePreviewer.cs:91-95 | On one object, two row indices reach the same texture exactly when their material, draw object and slot agree, which are the fields the snapshot test compares |
| PreviewerSpec.CsRem | Glamourer/Interop/Material/LiveColorTablePreviewer.cs:104 | C#'s `%`: in [0, b) for a non-negative dividend and in (-b, 0] for a negative one |
| PreviewerSpec.CsDiv | Glamourer/Interop/Material/LiveColorTablePreviewer.cs:104 | C#'s truncating `/`: dividing by a frame length of 1 gives the dividend back |
| PreviewerSpec.CsDivRem | Glamourer/Interop/Material/LiveColorTablePreviewer.cs:104 | The truncating quotient times the divisor plus the remainder gives back the dividend for every dividend, so `CsRem` is C#'s remainder for negative frame counts too |
| PreviewerSpec.HueStep | Glamourer/Interop/Material/LiveColorTablePreviewer.cs:101-104 | The hue step lies in [0, 64) for every non-negative frame count, and strictly between -64 and 64 for any frame count |
| PreviewerSpec.Hue | Glamourer/Interop/Material/LiveColorTablePreviewer.cs:105 | The hue is a fraction of the circle, in [0, 1) for non-negative frame counts |
| PreviewerSpec.CalculateDiffuse | Glamourer/Interop/Material/LiveColorTablePreviewer.cs:99-108 | The diffuse color of a frame is the HSV to RGB conversion (`hueToRgb`, full saturation and value) of the frame's hue, and for non-negative frame counts that hue lies in [0, 1) |
| PreviewerSpec.HueCycle | Glamourer/Interop/Material/LiveColorTablePreviewer.cs:99-107 | For non-negative frames the step equals frame mod 64, and both the step and the diffuse color repeat every 64 frames |
| PreviewerSpec.Highlighted | Glamourer/Interop/Material/LiveColorTablePreviewer.cs:73-77 | The highlight table equals the snapshot on every other row. On the hovered row only the diffuse color (the new color) and the emissive color (an eighth of it) change, and the row's other fields are kept |
| PreviewerSpec.Hover | Glamourer/Interop/Material/LiveColorTablePreviewer.cs:84-97 | With a valid request already pending, nothing changes (the first caller wins). Otherwise the request is recorded. The active fields never change. The pending table changes only when the re-seed condition holds, and it becomes the caller's table whenever that condition holds |
| PreviewerSpec.HoverIdempotent | Glamourer/Interop/Material/LiveColorTablePreviewer.cs:86-87 | Two identical hover calls in one frame have the effect of one |
| PreviewerSpec.Reset | Glamourer/Interop/Material/LiveColorTablePreviewer.cs:30-42 | With nothing active, Reset changes nothing. Otherwise it writes the snapshot back verbatim exactly when the object is a character and the texture resolves, touches no other texture, and leaves nothing active. Under the invariant, both active fields are cleared |
| PreviewerSpec.ResetIdempotent | Glamourer/Interop/Material/LiveColorTablePreviewer.cs:110-114 | A second Reset (a second Dispose) changes nothing further |
| PreviewerSpec.Tick | Glamourer/Interop/Material/LiveColorTablePreviewer.cs:44-82 | Every path ends with nothing pending. With no request, the tick is a Reset. With a request on an object that is not a character, only the request is dropped. Otherwise the request becomes the active target, the snapshot is replaced by the pending table exactly when the target changed, the lit texture holds the snapshot with the row highlighted, and every other texture is as the reset of the old target left it. The invariant is preserved |
| PreviewerProperties.InitialIsQuiet | Glamourer/Interop/Material/LiveColorTablePreviewer.cs:15-20 | A fresh previewer satisfies the invariant, with nothing active and nothing pending |
| PreviewerProperties.StepKeepsInvariant | Glamourer/Interop/Material/LiveColorTablePreviewer.cs:30-97 | Hover, tick, dispose and any change of the game each keep "active index valid exactly when active object set" |
| PreviewerProperties.RunKeepsInvariant | Glamourer/Interop/Material/LiveColorTablePreviewer.cs:30-97 | The invariant holds after any sequence of those events, by induction on the sequence |
| PreviewerProperties.RunEndState | Glamourer/Interop/Material/LiveColorTablePreviewer.cs:44-82 | Whatever came before, a sequence ending in a tick leaves nothing pending, and one ending in a dispose leaves nothing active |
| PreviewerProperties.TickAppliesWrites | Glamourer/Interop/Material/LiveColorTablePreviewer.cs:44-82 | A tick changes the game's textures by exactly the writes of a reference definition computed from the fields, the set of characters and the set of resolvable textures, without reading any table |
| PreviewerProperties.TickIgnoresLiveTables | Glamourer/Interop/Material/LiveColorTablePreviewer.cs:74-77 | Two games that differ only in their table contents lead to the same new fields. Every texture is either left alone in both or written with the same table in both |
| PreviewerProperties.TickWritesOnlySnapshots | Glamourer/Interop/Material/LiveColorTablePreviewer.cs:37-77 | Every table a tick writes is the saved snapshot, either verbatim or with the hovered row highlighted |
| PreviewerProperties.HighlightThenRelease | Glamourer/Interop/Material/LiveColorTablePreviewer.cs:44-97 | Hovering a row of a reachable character and ticking lights that row on the caller's table. A tick without a hover then writes the caller's table back exactly and leaves nothing active |
| PreviewerProperties.HoldKeepsSnapshot | Glamourer/Interop/Material/LiveColorTablePreviewer.cs:62-96 | While the same row stays hovered for any number of frames, the fields do not move, whatever tables the caller passes. Only the lit texture is rewritten, always from the first snapshot |
| PreviewerProperties.SwitchRowThenRelease | Glamourer/Interop/Material/LiveColorTablePreviewer.cs:91-96 | Moving to another row of the same table keeps the first snapshot. Releasing writes it back and leaves every other texture alone |
| PreviewerProperties.SessionRestoresTable | Glamourer/Interop/Material/LiveColorTablePreviewer.cs:44-97 | Hover a row, hold it for any number of frames, move to another row of the same table, let go: the game ends exactly as it began, with nothing active |
| PreviewerProperties.VanishedObject | Glamourer/Interop/Material/LiveColorTablePreviewer.cs:54-60 | When the lit object stops being a character, the tick writes nothing and keeps the active target. A later dispose writes nothing and leaves nothing active |
| Previewer.GameWorld.ReplaceColorTable | Glamourer/Interop/Material/LiveColorTablePreviewer.cs:77 | A whole-table write replaces exactly one texture's table |
| Previewer.LiveColorTablePreviewer.constructor | Glamourer/Interop/Material/LiveColorTablePreviewer.cs:15-28 | A new previewer has no active or pending row, has the invariant, and is subscribed to the framework update |
| Previewer.LiveColorTablePreviewer.Reset | Glamourer/Interop/Material/LiveColorTablePreviewer.cs:30-42 | The method makes exactly the transition `PreviewerSpec.Reset`, keeps the invariant and leaves nothing active |
| Previewer.LiveColorTablePreviewer.OnFramework | Glamourer/Interop/Material/LiveColorTablePreviewer.cs:44-82 | The method, which copies the snapshot and changes one row in place before the write, makes exactly the transition `PreviewerSpec.Tick` and ends with nothing pending |
| Previewer.LiveColorTablePreviewer.OnHover | Glamourer/Interop/Material/LiveColorTablePreviewer.cs:84-97 | The method makes exactly the transition `PreviewerSpec.Hover` and keeps the invariant |
| Previewer.LiveColorTablePreviewer.Dispose | Glamourer/Interop/Material/LiveColorTablePreviewer.cs:110-114 | The method makes the `PreviewerSpec.Reset` transition, leaves nothing active and unsubscribes from the framework update |
| PreviewerFindings.StaleSnapshotOnObjectSwitch | Glamourer/Interop/Material/LiveColorTablePreviewer.cs:91-95 | As written: after a hover on one object and then on the same material slot of another object, releasing writes the first object's table onto the second object |
| PreviewerFindings.StaleSnapshotAfterDroppedRequest | Glamourer/Interop/Material/LiveColorTablePreviewer.cs:54-96 | As written: a request dropped because its object is not a character leaves its table as the pending snapshot. Moving back to another row of the lit table and releasing writes that foreign table onto the lit texture |
| PreviewerFindings.HoverIntended | Glamourer/Interop/Material/LiveColorTablePreviewer.cs:84-97 | Corrected hover: same first-caller-wins and recording, but the snapshot is carried over only for a request on the texture that is lit, on the same object; any other request takes the caller's table |
| PreviewerFindings.IntendedAdoptsOwnSnapshot | Glamourer/Interop/Material/LiveColorTablePreviewer.cs:62-68 | With the corrected hover, the snapshot a tick adopts for a texture is the one already saved for that texture or the one passed for it |
| PreviewerFindings.IntendedObjectSwitchRestores | Glamourer/Interop/Material/LiveColorTablePreviewer.cs:91-95 | With the corrected hover, the first sequence leaves the game exactly as it began |
| PreviewerFindings.DroppedThenMovedKeepsSnapshot | Glamourer/Interop/Material/LiveColorTablePreviewer.cs:54-68 | With the corrected hover, after the dropped request and the move back, the lit texture's own table is still the snapshot |
| PreviewerFindings.IntendedDroppedRequestRestores | Glamourer/Interop/Material/LiveColorTablePreviewer.cs:54-96 | With the corrected hover, the second sequence leaves the game exactly as it began |
| Designs.ApplicationCollection.Restrict | Glamourer/Designs/ApplicationCollection.cs:53-55 | The result lies within both collections, field by field, and every collection within both lies within the result: it is their meet |
| Designs.ApplicationCollection.CloneSecure | Glamourer/Designs/ApplicationCollection.cs:57-60 | The result is the collection restricted to All with the body type added to its customizations: every in-mask bit is kept and every other bit dropped, field by field. Hence the result lies within All (customizations within AllRelevant plus the body type), always applies the body type, and changes a collection already within All only by adding the body type |
| Designs.ApplicationCollection.WithoutEquip | Glamourer/Designs/ApplicationCollection.cs:38-44 | The state after RemoveEquip: no equipment, bonus items or crests. Customizations and parameters are unchanged. Exactly the hat, visor and weapon meta states are cleared and the other meta states are kept |
| Designs.ApplicationCollection.WithoutCustomize | Glamourer/Designs/ApplicationCollection.cs:46-51 | The state after RemoveCustomize: no customizations or parameters. Equipment, bonus items and crests are unchanged. The meta word keeps wetness if it was set and nothing else |
| Designs.ApplicationCollection.WithoutCustomizeIntended | Glamourer/Designs/ApplicationCollection.cs:46-51 | Corrected removal: no customizations or parameters; equipment, bonus items and crests unchanged; exactly wetness cleared from the meta states, the others kept |
| Designs.FromKeys | Glamourer/Designs/ApplicationCollection.cs:29-36 | Neither or both keys give All, control alone gives Equipment, shift alone gives Customizations: a total mapping |
| Designs.CollectionVariable.RemoveEquip | Glamourer/Designs/ApplicationCollection.cs:38-44 | The in-place update leaves the variable holding `WithoutEquip` of its old value |
| Designs.CollectionVariable.RemoveCustomize | Glamourer/Designs/ApplicationCollection.cs:46-51 | The in-place update leaves the variable holding `WithoutCustomize` of its old value |
| Designs.RestrictAlgebra | Glamourer/Designs/ApplicationCollection.cs:53-55 | `x.Restrict(x) == x`; restricting by None, on either side, gives None; Restrict is commutative |
| Designs.RestrictKeepsIffWithin | Glamourer/Designs/ApplicationCollection.cs:53-55 | A restriction leaves a collection unchanged exactly when the collection lies within the restricting one |
| Designs.CloneSecureIdempotent | Glamourer/Designs/ApplicationCollection.cs:57-60 | Securing twice is securing once |
| Designs.WithoutEquipIsRestrict | Glamourer/Designs/ApplicationCollection.cs:38-44 | RemoveEquip is a restriction by the mask that keeps everything but the equipment part |
| Designs.WithoutCustomizeIsRestrict | Glamourer/Designs/ApplicationCollection.cs:46-51 | RemoveCustomize, as written, is a restriction by the mask that keeps equipment, bonus items and crests, and of the meta states only wetness |
| Designs.RemovalsIdempotentAndCommute | Glamourer/Designs/ApplicationCollection.cs:38-51 | Each removal is idempotent, and the two removals commute |
| Designs.EquipmentWithoutEquipIsNone | Glamourer/Designs/ApplicationCollection.cs:20-21 | RemoveEquip on the Equipment preset gives None |
| Designs.CustomizationsWithoutCustomize | Glamourer/Designs/ApplicationCollection.cs:23-24 | RemoveCustomize on the Customizations preset leaves only the wetness state |
| Designs.DefaultIsAllButParameters | Glamourer/Designs/ApplicationCollection.cs:15-27 | Default is All without customize parameters and with exactly the equipment meta states. It lies within All exactly when those states lie within the meta All mask |
| Designs.PresetsDisjoint | Glamourer/Designs/ApplicationCollection.cs:20-24 | When wetness is a bit apart from the equipment meta states, the Equipment and Customizations presets share nothing |
| Designs.RemoveCustomizeClearsEquipmentStates | Glamourer/Designs/ApplicationCollection.cs:46-51 | As written: when the meta states split into wetness and the equipment states, RemoveCustomize on the Equipment preset (or on All) clears the hat, visor and weapon states, so the result is not the Equipment preset |
| Designs.IntendedRemovalsSplitPresets | Glamourer/Designs/ApplicationCollection.cs:15-51 | With the corrected removal and that split, All without equipment is Customizations, All without customizations is Equipment, and each preset survives the other part's removal |
| Designs.FromKeysRemovesParts | Glamourer/Designs/ApplicationCollection.cs:29-36 | When the meta states split into wetness and the equipment states: every key preset lies within All; with the corrected removal, control alone gives All without the customization part (`WithoutCustomizeIntended`), and shift alone gives All without the equipment part |

## Left out

- Object lookup (`IObjectTable.GetObjectAddress` and the `Actor` cast) becomes the set of object slots that hold a character in `World`.
- `MaterialValueIndex.TryGetTexture` and `MaterialService.ReplaceColorTable` become a map from texture key to color table, with whole-table replacement. How a texture is found from an object's draw objects is not modelled: the texture key is the object plus the index's draw object, material and slot.
- The validity check of material value indices covers the draw object and the row only. The material and slot bounds belong to the index type's own definition, which is outside this model.
- Subscribing to and leaving the framework update event is the `subscribed` flag. The framework's calls are explicit `OnFramework` calls.
- `ImGui.GetFrameCount` becomes the `frame` parameter. `ImGui.ColorConvertHSVtoRGB` becomes the injected function `hueToRgb`, applied at full saturation and value. Its output range is not modelled, so the highlight is not shown to be an RGB triple in [0, 1].
- Colors use real numbers. Single-precision rounding of the hue and of `diffuse / 8` is not modelled.
- The other fields of a color-table row are kept as an opaque sequence. Their byte layout is not modelled.
- Logging (`Glamourer.Log.Information`) has no effect on state and is left out.
- The number of rows of a color table is an abstract constant.
- The All and AllRelevant masks, the body-type flag and the single meta-state bits are abstract constants, because their values come from flag enumerations outside this model. Properties that need a relation between them, such as wetness being a bit apart from the equipment states, state it as a precondition.
- Every flag word is a set of positions 0 to 63. The narrower widths of some flag enumerations are not modelled. No operation here depends on the width, because `~` is only ever used to clear bits with `&`.
- The collection is a value type. `RemoveEquip` and `RemoveCustomize` work on one variable of that type, which is `Designs.CollectionVariable`. Copies made by assignment are separate datatype values, so aliasing between variables cannot arise.
- PreviewerSpec.CsDiv: states only the divisor-1 case, which is the only frame length the source uses; its relation to the remainder is stated by `PreviewerSpec.CsDivRem`.
- `Designs.CollectionVariable.RemoveCustomize` models the code as written (only wetness kept); the corrected removal is `WithoutCustomizeIntended`, used by the preset lemmas.
- The class `Previewer.LiveColorTablePreviewer` models the code as written, including both snapshot defects listed under Findings. The corrected rule is modelled and proved only in `PreviewerFindings`.

## Findings

| source | as written | input that shows it | evidently intended | confidence | as-written member | corrected member |
|---|---|---|---|---|---|---|
| Glamourer/Interop/Material/LiveColorTablePreviewer.cs:91-95 | The snapshot is re-seeded only when nothing is active or the draw object, material or slot differ; the object is never compared | Objects 1 and 2 are both characters, with the same material slot K holding tables T1 and T2, T1 != T2. Hover K on object 1 passing T1, then tick; hover K on object 2 passing T2, then tick; then tick with no hover. Object 2's texture ends up holding T1 | Re-seed also when the object differs, so the snapshot always belongs to the hovered texture | medium, not executed | PreviewerFindings.StaleSnapshotOnObjectSwitch | PreviewerFindings.HoverIntended, PreviewerFindings.IntendedObjectSwitchRestores |
| Glamourer/Interop/Material/LiveColorTablePreviewer.cs:54-60 | A hover on a non-character is dropped by the tick, but its table stays in the pending snapshot. The next hover on the lit resource does not re-seed it, and the tick adopts it because the row changed | Only object 1 is a character; its texture K holds T. Hover row 0 of K on object 1 passing T, then tick; hover another slot on object 2 passing F, F != T, then tick; hover row 1 of K on object 1, then tick; then tick with no hover. K ends up holding F | A dropped request leaves no snapshot behind: the snapshot adopted for a texture is always one saved or passed for that texture | medium, not executed | PreviewerFindings.StaleSnapshotAfterDroppedRequest | PreviewerFindings.HoverIntended, PreviewerFindings.IntendedDroppedRequestRestores |
| Glamourer/Designs/ApplicationCollection.cs:50 | `Meta &= MetaFlag.Wetness` keeps only the wetness state and clears every other meta state | Meta states split as the presets split them (Equipment holds hat, visor and weapon, Customizations holds wetness). RemoveCustomize on the Equipment preset gives an empty meta word instead of the hat, visor and weapon states | `Meta &= ~MetaFlag.Wetness`, mirroring RemoveEquip's `&= ~(HatState \| VisorState \| WeaponState)`: remove wetness, keep the equipment states | medium, not executed | Designs.RemoveCustomizeClearsEquipmentStates | Designs.ApplicationCollection.WithoutCustomizeIntended, Designs.IntendedRemovalsSplitPresets |
