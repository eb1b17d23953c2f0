/** The class-definition record produced by the decoder.  A datatype value is
    immutable, as the record's private setters make it in the source. */
module ClassDefs {
  import opened Utf8

  /** A class definition: its position in the class table, its name and its field
      names in stream order. */
  datatype ClassDef = ClassDef(refId: int, name: Str, fields: seq<Str>)
}
