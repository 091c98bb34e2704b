/** The serialiser: an entry record back to BibTeX text, using the raw value
    of every field. */
module Builder {
  import opened OrderedMaps
  import opened Records

  /** `, <name> = {<raw value>}` on a new, tab-indented line. */
  function FieldLine(name: string, f: Field): string {
    ",\n\t" + name + " = {" + f.rawValue + "}"
  }

  /** The names the switch of `buildEntry` skips. */
  predicate Reserved(name: string) {
    name == "entryType" || name == "entryKey"
  }

  /** What the field called `name` adds to the text. */
  function Contribution(fields: map<string, Field>, name: string): string
    requires name in fields
  {
    if Reserved(name) then "" else FieldLine(name, fields[name])
  }

  /** The lines the fields named in `names` contribute, in that order. */
  function FieldLines(fields: map<string, Field>, names: seq<string>): string
    requires forall n :: n in names ==> n in fields
  {
    if names == [] then ""
    else FieldLines(fields, names[..|names| - 1]) + Contribution(fields, names[|names| - 1])
  }

  /** `@type{key`, where `buildEntry` starts. */
  function Header(e: Entry): string {
    "@" + e.entryType + "{" + e.entryKey
  }

  /** What `buildEntry` returns for a record. */
  function EntryText(e: Entry): string
    requires e.fields.Valid()
  {
    Header(e) + FieldLines(e.fields.vals, e.fields.keys) + "\n}"
  }

  /** `buildEntry(data)`: the header, one line per field in key order, and
      the closing brace. */
  method BuildEntry(data: Entry) returns (entry: string)
    requires data.fields.Valid()
    ensures entry == EntryText(data)
  {
    entry := Header(data);
    var keys, fields := data.fields.keys, data.fields.vals;
    assert forall m :: m in keys ==> m in fields;
    var i := 0;
    while i < |keys|
      invariant 0 <= i <= |keys|
      invariant entry == Header(data) + FieldLines(fields, keys[..i])
    {
      var item := keys[i];
      LinesStep(fields, keys, i);
      AppendAssoc(Header(data), FieldLines(fields, keys[..i]), Contribution(fields, item));
      if !Reserved(item) {
        entry := entry + FieldLine(item, fields[item]);
      }
      i := i + 1;
    }
    assert keys[..|keys|] == keys;
    entry := entry + "\n}";
  }

  /** Every record of a table can be serialised. */
  predicate Serialisable(entries: OMap<Entry>) {
    entries.Valid() && forall k :: k in entries.vals ==> entries.vals[k].fields.Valid()
  }

  /** `buildEntries(entries)`: one text per record, in the table's order. */
  method BuildEntries(entries: OMap<Entry>) returns (result: seq<string>)
    requires Serialisable(entries)
    ensures |result| == |entries.keys|
    ensures forall i :: 0 <= i < |result| ==> result[i] == EntryText(entries.vals[entries.keys[i]])
  {
    result := [];
    var i := 0;
    while i < |entries.keys|
      invariant 0 <= i <= |entries.keys|
      invariant |result| == i
      invariant forall j :: 0 <= j < i ==> result[j] == EntryText(entries.vals[entries.keys[j]])
    {
      var e := entries.vals[entries.keys[i]];
      var text := BuildEntry(e);
      ghost var before := result;
      result := result + [text];
      forall j | 0 <= j < i + 1
        ensures result[j] == EntryText(entries.vals[entries.keys[j]])
      {
        if j < i {
          assert result[j] == before[j];
        }
      }
      i := i + 1;
    }
  }

  lemma AppendAssoc(x: string, y: string, z: string)
    ensures (x + y) + z == x + (y + z)
  {
  }

  /** Appending one name appends its contribution. */
  lemma FieldLinesSnoc(fields: map<string, Field>, names: seq<string>, n: string)
    requires forall m :: m in names ==> m in fields
    requires n in fields
    ensures FieldLines(fields, names + [n]) == FieldLines(fields, names) + Contribution(fields, n)
  {
    assert (names + [n])[..|names|] == names;
  }

  /** The lines of the first `i + 1` names extend those of the first `i`. */
  lemma LinesStep(fields: map<string, Field>, names: seq<string>, i: nat)
    requires forall m :: m in names ==> m in fields
    requires i < |names|
    ensures FieldLines(fields, names[..i + 1]) == FieldLines(fields, names[..i]) + Contribution(fields, names[i])
  {
    assert names[..i + 1] == names[..i] + [names[i]];
    FieldLinesSnoc(fields, names[..i], names[i]);
  }

  /** Field lines concatenate: the lines of two runs of names are the lines
      of the first run followed by those of the second. */
  lemma {:induction false} FieldLinesAppend(fields: map<string, Field>, a: seq<string>, b: seq<string>)
    requires forall n :: n in a ==> n in fields
    requires forall n :: n in b ==> n in fields
    ensures FieldLines(fields, a + b) == FieldLines(fields, a) + FieldLines(fields, b)
    decreases |b|
  {
    if b == [] {
      assert a + b == a;
    } else {
      var front, last := b[..|b| - 1], b[|b| - 1];
      assert b == front + [last];
      assert a + b == (a + front) + [last];
      FieldLinesAppend(fields, a, front);
      FieldLinesSnoc(fields, a + front, last);
      FieldLinesSnoc(fields, front, last);
      AppendAssoc(FieldLines(fields, a), FieldLines(fields, front), Contribution(fields, last));
    }
  }

  /** Each key other than `entryType` and `entryKey` contributes exactly one
      line; the reserved names contribute nothing. */
  lemma FieldLinesSingle(fields: map<string, Field>, n: string)
    requires n in fields
    ensures FieldLines(fields, [n]) == if Reserved(n) then "" else FieldLine(n, fields[n])
  {
    assert [n][..0] == [];
  }

  /** The text starts with `@type{key` and ends with a newline and `}`. */
  lemma EntryTextFrame(e: Entry)
    requires e.fields.Valid()
    ensures var header := "@" + e.entryType + "{" + e.entryKey;
            var text := EntryText(e);
            |text| >= |header| + 2 && text[..|header|] == header && text[|text| - 2..] == "\n}"
  {
  }

  /** A record without fields of its own is just its header and `\n}`. */
  lemma {:induction false} EntryTextHeaderOnly(e: Entry)
    requires e.fields.Valid()
    requires forall n :: n in e.fields.vals ==> Reserved(n)
    ensures EntryText(e) == "@" + e.entryType + "{" + e.entryKey + "\n}"
  {
    NoLines(e.fields.vals, e.fields.keys);
  }

  lemma {:induction false} NoLines(fields: map<string, Field>, names: seq<string>)
    requires forall n :: n in names ==> n in fields && Reserved(n)
    ensures FieldLines(fields, names) == ""
    decreases |names|
  {
    if names != [] {
      NoLines(fields, names[..|names| - 1]);
    }
  }

  /** Only the raw values are written: two records that agree on type, key,
      key order and raw values serialise identically, whatever their
      converted values and author lists. */
  lemma {:induction false} EntryTextUsesRawValuesOnly(e1: Entry, e2: Entry)
    requires e1.fields.Valid() && e2.fields.Valid()
    requires e1.entryType == e2.entryType && e1.entryKey == e2.entryKey
    requires e1.fields.keys == e2.fields.keys
    requires forall n :: n in e1.fields.vals ==>
               n in e2.fields.vals && e1.fields.vals[n].rawValue == e2.fields.vals[n].rawValue
    ensures EntryText(e1) == EntryText(e2)
  {
    SameLines(e1.fields.vals, e2.fields.vals, e1.fields.keys);
  }

  lemma {:induction false} SameLines(f1: map<string, Field>, f2: map<string, Field>, names: seq<string>)
    requires forall n :: n in names ==> n in f1 && n in f2 && f1[n].rawValue == f2[n].rawValue
    ensures FieldLines(f1, names) == FieldLines(f2, names)
    decreases |names|
  {
    if names != [] {
      SameLines(f1, f2, names[..|names| - 1]);
    }
  }
}
