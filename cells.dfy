/** Cells of the flat, row-major input of a data frame, and their kinds (src/lib.rs). */
module Cells {

  /** Integer payloads are 32-bit signed integers; they are only copied, never computed with. */
  newtype DataInteger = x: int | -0x8000_0000 <= x < 0x8000_0000

  /** Text payloads. */
  type DataText = string

  /** The kind of value a column holds; recorded per column before any data is stored. */
  datatype DataTypes = Integer | Text

  /** One typed datum: an integer cell or a text cell. */
  datatype DataCell = IntegerDataCell(intValue: DataInteger) | TextDataCell(textValue: DataText)
  {
    /** The kind of this cell: Integer exactly for integer cells, Text exactly for text cells. */
    function DataType(): (t: DataTypes)
      ensures t == Integer <==> IntegerDataCell?
      ensures t == Text <==> TextDataCell?
    {
      match this
      case IntegerDataCell(_) => Integer
      case TextDataCell(_) => Text
    }
  }
}
