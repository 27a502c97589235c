/** Which parts of a design are applied: one flag set per kind of data
    (equipment, bonus items, customizations, crests, customize parameters and
    meta states), the presets built from them, and the operations that
    narrow a collection. */
module Designs {

  /** A bit position of a 64-bit flag word. */
  newtype Bit = b: int | 0 <= b < 64

  /** A flag word, as the set of its set bits: `&` is intersection, `|`
      union, and `x & ~y` the difference `x - y`. */
  type Flags = set<Bit>

  /** The word with every bit set. */
  const AllBits: Flags := set b: int | 0 <= b < 64 :: b as Bit

  type EquipFlag = Flags
  type BonusItemFlag = Flags
  type CustomizeFlag = Flags
  type CrestFlag = Flags
  type CustomizeParameterFlag = Flags
  type MetaFlag = Flags

  /** The "everything" masks of each flag kind; their bit patterns are fixed
      by the flag enumerations, which are not part of this model. */
  const EquipAll: EquipFlag
  const BonusAll: BonusItemFlag
  const CustomizeAllRelevant: CustomizeFlag
  const CrestAllRelevant: CrestFlag
  const ParameterAll: CustomizeParameterFlag
  const MetaAll: MetaFlag

  /** The customization flag for the body type. */
  const BodyType: CustomizeFlag

  /** The single meta states. */
  const Wetness: MetaFlag
  const HatState: MetaFlag
  const VisorState: MetaFlag
  const WeaponState: MetaFlag

  /** The meta states that belong to the equipment. */
  const EquipMeta: MetaFlag := HatState + VisorState + WeaponState

  datatype ApplicationCollection = ApplicationCollection(
    equip: EquipFlag,
    bonusItem: BonusItemFlag,
    customize: CustomizeFlag,
    crest: CrestFlag,
    parameters: CustomizeParameterFlag,
    meta: MetaFlag)
  {
    /** Componentwise inclusion: everything this collection applies, `other`
        applies too. */
    predicate IsWithin(other: ApplicationCollection) {
      && equip <= other.equip
      && bonusItem <= other.bonusItem
      && customize <= other.customize
      && crest <= other.crest
      && parameters <= other.parameters
      && meta <= other.meta
    }

    /** What both collections apply: the largest collection within both. */
    function Restrict(other: ApplicationCollection): (r: ApplicationCollection)
      ensures r.IsWithin(this) && r.IsWithin(other)
      ensures forall c: ApplicationCollection :: c.IsWithin(this) && c.IsWithin(other) ==> c.IsWithin(r)
    {
      ApplicationCollection(other.equip * equip, other.bonusItem * bonusItem, other.customize * customize,
                            other.crest * crest, other.parameters * parameters, other.meta * meta)
    }

    /** A copy cut down to the flags that exist, with the body type always
        applied. */
    function CloneSecure(): (r: ApplicationCollection)
      ensures r.IsWithin(All.(customize := CustomizeAllRelevant + BodyType))
      ensures BodyType <= r.customize
      ensures r.IsWithin(this.(customize := customize + BodyType))
      ensures IsWithin(All) ==> r == this.(customize := customize + BodyType)
      ensures var m := Restrict(All); r == m.(customize := m.customize + BodyType)
    {
      ApplicationCollection(equip * EquipAll, bonusItem * BonusAll,
                            (customize * CustomizeAllRelevant) + BodyType, crest * CrestAllRelevant,
                            parameters * ParameterAll, meta * MetaAll)
    }

    /** The collection after its equipment part is dropped: no equipment,
        bonus items or crests, and exactly the equipment meta states
        cleared. */
    function WithoutEquip(): (r: ApplicationCollection)
      ensures r.equip == {} && r.bonusItem == {} && r.crest == {}
      ensures r.customize == customize && r.parameters == parameters
      ensures r.meta !! EquipMeta && r.meta + (meta * EquipMeta) == meta
    {
      this.(equip := {}, bonusItem := {}, crest := {}, meta := meta - EquipMeta)
    }

    /** The collection after its customization part is dropped: no
        customizations or parameters, and of the meta states at most
        wetness remains. */
    function WithoutCustomize(): (r: ApplicationCollection)
      ensures r.customize == {} && r.parameters == {}
      ensures r.equip == equip && r.bonusItem == bonusItem && r.crest == crest
      ensures r.meta <= Wetness && r.meta <= meta
      ensures forall b :: b in meta && b in Wetness ==> b in r.meta
    {
      this.(customize := {}, parameters := {}, meta := meta * Wetness)
    }

    /** Dropping the customization part as the presets split the meta
        states: no customizations or parameters, and exactly wetness cleared
        from the meta states. */
    function WithoutCustomizeIntended(): (r: ApplicationCollection)
      ensures r.customize == {} && r.parameters == {}
      ensures r.equip == equip && r.bonusItem == bonusItem && r.crest == crest
      ensures r.meta !! Wetness && r.meta + (meta * Wetness) == meta
    {
      this.(customize := {}, parameters := {}, meta := meta - Wetness)
    }
  }

  const All: ApplicationCollection :=
    ApplicationCollection(EquipAll, BonusAll, CustomizeAllRelevant, CrestAllRelevant, ParameterAll, MetaAll)

  const None: ApplicationCollection := ApplicationCollection({}, {}, {}, {}, {}, {})

  const Equipment: ApplicationCollection :=
    ApplicationCollection(EquipAll, BonusAll, {}, CrestAllRelevant, {}, HatState + WeaponState + VisorState)

  const Customizations: ApplicationCollection :=
    ApplicationCollection({}, {}, CustomizeAllRelevant, {}, ParameterAll, Wetness)

  const Default: ApplicationCollection :=
    ApplicationCollection(EquipAll, BonusAll, CustomizeAllRelevant, CrestAllRelevant, {}, HatState + VisorState + WeaponState)

  /** The preset chosen by the modifier keys held: control alone picks the
      equipment, shift alone the customizations, neither or both everything. */
  function FromKeys(ctrl: bool, shift: bool): (r: ApplicationCollection)
    ensures ctrl == shift ==> r == All
    ensures ctrl && !shift ==> r == Equipment
    ensures !ctrl && shift ==> r == Customizations
  {
    match (ctrl, shift)
    case (false, false) => All
    case (true, true) => All
    case (true, false) => Equipment
    case (false, true) => Customizations
  }

  /** A variable of the collection type: the two removals work on it in
      place. */
  class CollectionVariable {
    var equip: EquipFlag
    var bonusItem: BonusItemFlag
    var customize: CustomizeFlag
    var crest: CrestFlag
    var parameters: CustomizeParameterFlag
    var meta: MetaFlag

    function Value(): ApplicationCollection
      reads this
    {
      ApplicationCollection(equip, bonusItem, customize, crest, parameters, meta)
    }

    constructor (c: ApplicationCollection)
      ensures Value() == c
    {
      equip, bonusItem, customize, crest, parameters, meta :=
        c.equip, c.bonusItem, c.customize, c.crest, c.parameters, c.meta;
    }

    method RemoveEquip()
      modifies this
      ensures Value() == old(Value()).WithoutEquip()
    {
      equip := {};
      bonusItem := {};
      crest := {};
      meta := meta - (HatState + VisorState + WeaponState);
    }

    method RemoveCustomize()
      modifies this
      ensures Value() == old(Value()).WithoutCustomize()
    {
      customize := {};
      parameters := {};
      meta := meta * Wetness;
    }
  }

  // ---------------------------------------------------------------------
  // Properties

  /** Restricting by oneself changes nothing, nothing survives a
      restriction by the empty collection, and the order of the two
      collections does not matter. */
  lemma RestrictAlgebra(a: ApplicationCollection, b: ApplicationCollection)
    ensures a.Restrict(a) == a
    ensures a.Restrict(None) == None && None.Restrict(a) == None
    ensures a.Restrict(b) == b.Restrict(a)
  {
  }

  /** A restriction leaves a collection alone exactly when the collection
      lies within the restricting one. */
  lemma RestrictKeepsIffWithin(c: ApplicationCollection, m: ApplicationCollection)
    ensures c.Restrict(m) == c <==> c.IsWithin(m)
  {
  }

  /** Securing a secured collection changes nothing. */
  lemma CloneSecureIdempotent(c: ApplicationCollection)
    ensures c.CloneSecure().CloneSecure() == c.CloneSecure()
  {
  }

  /** The mask that keeps everything but the equipment part. */
  const KeepAllButEquip: ApplicationCollection :=
    ApplicationCollection({}, {}, AllBits, {}, AllBits, AllBits - EquipMeta)

  /** The mask that keeps equipment, bonus items and crests, and of the
      meta states only wetness. */
  const KeepAllButCustomize: ApplicationCollection :=
    ApplicationCollection(AllBits, AllBits, {}, AllBits, {}, Wetness)

  /** Dropping the equipment part is a restriction by the mask that keeps
      everything else. */
  lemma WithoutEquipIsRestrict(c: ApplicationCollection)
    ensures c.WithoutEquip() == c.Restrict(KeepAllButEquip)
  {
  }

  /** Dropping the customization part, as written, is a restriction by the
      mask that keeps equipment, bonus items and crests, and of the meta
      states only wetness. */
  lemma WithoutCustomizeIsRestrict(c: ApplicationCollection)
    ensures c.WithoutCustomize() == c.Restrict(KeepAllButCustomize)
  {
  }

  /** Dropping a part twice is dropping it once, and the two removals
      commute. */
  lemma RemovalsIdempotentAndCommute(c: ApplicationCollection)
    ensures c.WithoutEquip().WithoutEquip() == c.WithoutEquip()
    ensures c.WithoutCustomize().WithoutCustomize() == c.WithoutCustomize()
    ensures c.WithoutEquip().WithoutCustomize() == c.WithoutCustomize().WithoutEquip()
  {
  }

  /** The equipment preset holds nothing but equipment. */
  lemma EquipmentWithoutEquipIsNone()
    ensures Equipment.WithoutEquip() == None
  {
  }

  /** The customization preset without its customization part keeps only
      the wetness state. */
  lemma CustomizationsWithoutCustomize()
    ensures Customizations.WithoutCustomize() == None.(meta := Wetness)
  {
  }

  /** The default preset is everything but the customize parameters, with
      exactly the equipment meta states. */
  lemma DefaultIsAllButParameters()
    ensures Default == All.(parameters := {}, meta := EquipMeta)
    ensures Default.IsWithin(All) <==> EquipMeta <= MetaAll
  {
  }

  /** With wetness apart from the equipment states, the equipment and the
      customization presets share nothing. */
  lemma PresetsDisjoint()
    requires Wetness !! EquipMeta
    ensures Equipment.Restrict(Customizations) == None
  {
  }

  // ---------------------------------------------------------------------
  // The customization removal

  /** The meta states split into wetness, which belongs to the
      customizations, and the equipment states, as the two presets split
      them. */
  predicate MetaSplit() {
    MetaAll == Wetness + EquipMeta && Wetness !! EquipMeta
  }

  /** As written, dropping the customization part of the equipment preset
      also clears the hat, visor and weapon states, which belong to the
      equipment. */
  lemma RemoveCustomizeClearsEquipmentStates()
    requires MetaSplit() && EquipMeta != {}
    ensures Equipment.WithoutCustomize().meta == {}
    ensures Equipment.WithoutCustomize() != Equipment
    ensures All.WithoutCustomize() != Equipment
  {
    assert Equipment.WithoutCustomize().meta != Equipment.meta;
  }

  /** With the corrected removal, each removal takes away exactly the other
      preset: everything without the equipment part is the customization
      preset, everything without the customization part is the equipment
      preset, and each preset survives the other part's removal. */
  lemma IntendedRemovalsSplitPresets()
    requires MetaSplit()
    ensures All.WithoutEquip() == Customizations
    ensures All.WithoutCustomizeIntended() == Equipment
    ensures Equipment.WithoutCustomizeIntended() == Equipment
    ensures Customizations.WithoutEquip() == Customizations
  {
    assert All.WithoutEquip().meta == Wetness;
    assert All.WithoutCustomizeIntended().meta == EquipMeta;
  }

  /** The key presets lie within All and, with the corrected removal, are
      All with one part removed: control alone removes the customization
      part, shift alone the equipment part. */
  lemma FromKeysRemovesParts(ctrl: bool, shift: bool)
    requires MetaSplit()
    ensures FromKeys(ctrl, shift).IsWithin(All)
    ensures ctrl && !shift ==> FromKeys(ctrl, shift) == All.WithoutCustomizeIntended()
    ensures !ctrl && shift ==> FromKeys(ctrl, shift) == All.WithoutEquip()
  {
    IntendedRemovalsSplitPresets();
  }
}
