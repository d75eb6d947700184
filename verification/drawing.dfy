/** Drawing entities read from the DXF modelspace. */
module Drawing {
  import opened Geometry

  /** A TEXT entity: its insertion point and its string. */
  datatype Text = Text(insert: Vec, content: string)
}
