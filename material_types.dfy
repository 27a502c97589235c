/** Value types the live color-table previewer works with: object handles,
    material value indices, color-table rows and the external world
    (object table plus texture resources) the previewer reads and writes. */
module MaterialTypes {

  /** Slot of the game's object table, an unsigned 16-bit number. */
  newtype ObjectIndex = x: int | 0 <= x < 0x1_0000

  /** The sentinel that means "no object". */
  const AnyIndex: ObjectIndex := 0xFFFF

  newtype byte = x: int | 0 <= x < 0x100

  /** Number of rows of a material's color table (fixed by the table type). */
  const NumRows: nat

  /** Which draw object of a character a material belongs to. */
  datatype DrawObjectType = InvalidDrawObject | Human | Mainhand | Offhand

  /** Identifies one row of one color table: draw object, material,
      texture slot and row. */
  datatype MaterialValueIndex = MaterialValueIndex(
    drawObject: DrawObjectType,
    materialIndex: byte,
    slotIndex: byte,
    rowIndex: byte)
  {
    /** A real draw object and a row inside the table. */
    predicate Valid() {
      drawObject != InvalidDrawObject && (rowIndex as int) < NumRows
    }

    /** Same color table, possibly another row of it. */
    predicate SameResource(other: MaterialValueIndex) {
      && materialIndex == other.materialIndex
      && drawObject == other.drawObject
      && slotIndex == other.slotIndex
    }
  }

  /** The "no row" sentinel. */
  const Invalid: MaterialValueIndex := MaterialValueIndex(InvalidDrawObject, 0xFF, 0xFF, 0xFF)

  /** A three-component color vector. */
  datatype Color = Color(r: real, g: real, b: real) {
    function Div(d: real): Color
      requires d != 0.0
    {
      Color(r / d, g / d, b / d)
    }
  }

  /** One color-table row: the two colors the previewer touches and the
      remaining fields, kept as opaque half-precision words. */
  datatype Row = Row(diffuse: Color, emissive: Color, other: seq<bv16>)

  const ZeroRow: Row := Row(Color(0.0, 0.0, 0.0), Color(0.0, 0.0, 0.0), [])

  /** A color table has a fixed number of rows. */
  type ColorTable = t: seq<Row> | |t| == NumRows witness seq(NumRows, _ => ZeroRow)

  /** The all-zero table a fresh table field holds. */
  const DefaultTable: ColorTable := seq(NumRows, _ => ZeroRow)

  /** The texture resource a row index resolves to on one object. */
  datatype TextureKey = TextureKey(
    objectIndex: ObjectIndex,
    drawObject: DrawObjectType,
    materialIndex: byte,
    slotIndex: byte)

  function TextureOf(index: MaterialValueIndex, objectIndex: ObjectIndex): TextureKey {
    TextureKey(objectIndex, index.drawObject, index.materialIndex, index.slotIndex)
  }

  /** Two row indices on one object reach the same texture exactly when they
      name the same resource. */
  lemma SameTextureIffSameResource(a: MaterialValueIndex, b: MaterialValueIndex, o: ObjectIndex)
    ensures TextureOf(a, o) == TextureOf(b, o) <==> a.SameResource(b)
  {
  }

  /** What the previewer can observe of the game: which object-table slots
      currently hold a character, and the color table of every texture that
      resolves. */
  datatype World = World(characters: set<ObjectIndex>, textures: map<TextureKey, ColorTable>)
}
