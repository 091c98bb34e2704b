/** The record shapes the reader produces and the builder consumes. */
module Records {
  import opened Results
  import opened OrderedMaps

  /** A processed field: the name as written, the converted value, the raw
      value as it stood between its delimiters, and (for `author` only) the
      normalised author names. */
  datatype Field = Field(rawName: string, value: string, rawValue: string,
                         authors: Option<seq<string>>)

  /** An entry record: `entryType`, `entryKey`, then the fields under their
      lower-cased names, in the order they were first assigned. */
  datatype Entry = Entry(entryType: string, entryKey: string, fields: OMap<Field>)

  /** A value of the reader's `entries` object: an entry record, or the
      comment list that is published under `@comments` at the end. */
  datatype Slot = EntrySlot(entry: Entry) | CommentsSlot(comments: seq<string>)
}
