# bib-parser: a verified model of the BibTeX reader and writer

bib-parser reads BibTeX text into records and writes records back out as
BibTeX.

The reader is `BibTeXParser`, a hand-written recursive-descent parser. It keeps a
character cursor (`pos`) into its input and fills in four tables as it goes:

- the string macros (`strings`), pre-seeded with the month abbreviations `JAN` … `DEC`;
- the entries table, keyed by citation key in insertion order;
- the list of `@comment` texts;
- the key of the entry being read.

The reader understands these forms:

- `@string`, `@preamble` and `@comment` directives;
- any other `@name{key, field = value, …}` entry;
- values written in braces (nested, with `\` escapes), in quotes, as bare macro
  names or as digit strings;
- values joined with `#`.

Every field is stored under its lower-cased name. It records:

- the name as written;
- the raw value;
- the value after LaTeX-to-Unicode conversion;
- for `author` fields, the list of normalised names.

`parseString` runs the reader over a whole document, drops the comments slot and
returns either the entries object or the list of its records. The writer
`buildEntry` prints a record as `@type{key` followed by one
`,\n\t<name> = {<raw value>}` line per field and `\n}`. `buildEntries` does this
for every record of a table.

The model has these modules:

- `Results`: the error kinds of the reader, plus `Option`, `Result` and `Step` (a
  value and the cursor after it).
- `Text`: the reader's character classes and ASCII case mapping. It also defines
  `trim`, `indexOf`, and JavaScript's `split`/`join` for a non-empty separator.
- `OrderedMaps`: `OMap`, a string-keyed table that remembers insertion order the
  way a JavaScript object does. Overwriting a key keeps its place, and `delete`
  removes the key from the order.
- `Records`: the field, record and entries-table slot values.
- `Grammar`: one pure function per method of `BibTeXParser`. Each takes the
  input, the cursor and the tables, and returns what the method returns and where
  it leaves the cursor, or the error it throws.
- `GrammarFacts`: properties of the reader, proved about those functions.
- `Parser`: the class `BibTeXParser`, with the reader's fields and methods updating
  them in place. Its loops are written as in the source. Each method is proved to
  return and leave exactly what its `Grammar` function says (`Follows`, `Moved`,
  `Updated`), so everything proved about `Grammar` holds of the class.
- `Builder`: `EntryText`, which specifies the writer's output, and the methods
  `BuildEntry` and `BuildEntries`, which build it with the source's loops.
- `RoundTrip`: reading back what the writer writes.

Three outside collaborators are handled as follows:

- The LaTeX-to-Unicode converter is a parameter `convert: string -> Option<string>`.
  `None` stands for a conversion that throws, in which case the raw value is kept.
- A `throw` of the reader is an `Err` carrying the error kind.
- The reader's warning output is not modelled.

Macro references behave in a way one might not expect. Since the month table is
seeded under upper-case names, one might expect macro names to be
case-insensitive, so that a bare `jan` gives `January`. The code looks a
reference up under its upper-cased name, but returns the text stored under the
name as written. A macro stored under `JAN` and
referenced as `jan` therefore gives `undefined`, which the `#`-join prints as the
empty string. `GrammarFacts.MonthReferences` and
`GrammarFacts.LowerCaseReferenceIsEmpty` state this behaviour.

## Model

| member | source | states |
|---|---|---|
| Text.IsWhitespace | src/BibTeXParser.js:58-60 | the blanks are exactly space, CR, tab and LF; `Grammar.WsEnd` and `Grammar.SkipWs` stop at any other character |
| Grammar.WsEnd | src/BibTeXParser.js:82-84 | the blank run ends at the end of input or at a character that is not space, CR, tab or LF |
| Grammar.WsEndRun | src/BibTeXParser.js:82-84 | every character of the run is one of those four blanks |
| Grammar.FindChar | src/BibTeXParser.js:85-88 | a `%` comment runs to the end of input or to a newline, and passes over no newline, so it stops at the first one |
| Grammar.SkipWs | src/BibTeXParser.js:81-91 | skipping never moves back and stops at the end of input or at a character that is neither blank nor `%` |
| Grammar.SkipWsIdempotent | src/BibTeXParser.js:81-91 | skipping again from where skipping stopped stays put |
| GrammarFacts.SkipWsAtToken | src/BibTeXParser.js:81-91 | at a character that is neither blank nor `%`, nothing is skipped |
| GrammarFacts.SkipWsSkipsBlanks | src/BibTeXParser.js:81-91 | whenever the cursor moves, it started on a blank or on `%` |
| GrammarFacts.SkipWsSkipsOnlyBlanks | src/BibTeXParser.js:81-91 | everything skipped is a blank or lies in a `%` comment that runs up to a newline (after which skipping goes on) or to the end of input, so no token is ever skipped |
| Grammar.TryMatch | src/BibTeXParser.js:72-79 | defines `tryMatch(c)`: `c` stands at the cursor once blanks and comments are skipped; `Grammar.Match` succeeds exactly when it holds, and `Parser.BibTeXParser.TryMatch` is proved to answer it |
| Grammar.Match | src/BibTeXParser.js:62-70 | `match(c)` succeeds exactly when `tryMatch(c)` holds and then moves strictly forward; otherwise it throws a token mismatch |
| GrammarFacts.MatchConsumesToken | src/BibTeXParser.js:62-70 | after blanks the cursor is on `c`, and `match` ends after `c` and the blanks that follow it |
| Text.IsKeyChar | src/BibTeXParser.js:165 | the key characters are exactly `a-z`, `A-Z`, `0-9`, `_`, `:`, `.`, `/` and `-`; `Grammar.Key` reads a maximal run of them |
| Grammar.Key | src/BibTeXParser.js:158-171 | a key is the maximal run of `[a-zA-Z0-9_:./-]` characters, stopped by another character before the end; if the run reaches the end of input, it is a runaway key |
| Grammar.KeyEnd | src/BibTeXParser.js:163-169 | the key scan stops at the end of input or at a non-key character |
| Grammar.KeyEndRun | src/BibTeXParser.js:163-169 | every character the key scan passes is a key character |
| Grammar.Escaped | src/BibTeXParser.js:98-119 | a delimiter is escaped exactly when a backslash stands right before it; at the first character there is none, as `input[-1]` is `undefined` in the source. `Grammar.BraceClose` and `Grammar.QuoteClose` pass over escaped delimiters |
| Grammar.BraceClose | src/BibTeXParser.js:97-112 | the brace scan stops only on an unescaped `}` |
| GrammarFacts.BraceCloseMatches | src/BibTeXParser.js:93-113 | the brace scan stops at `c` if and only if `c` is the first unescaped `}` at which the unescaped `{` minus unescaped `}` read since the start is back to zero |
| Grammar.ValueBraces | src/BibTeXParser.js:93-113 | a braced value fails only by a missing `{` or by an unterminated value, and on success moves forward |
| GrammarFacts.ValueBracesExact | src/BibTeXParser.js:93-113 | a braced value is `s[o..c]`, the text from after `{` and its blanks up to `c`, if and only if `c` is the matching `}` |
| GrammarFacts.ValueBracesUnterminated | src/BibTeXParser.js:93-113 | without a matching `}`, the value is unterminated |
| Grammar.QuoteClose | src/BibTeXParser.js:117-126 | the quote scan stops only on an unescaped `"` |
| Grammar.QuoteCloseFirst | src/BibTeXParser.js:117-126 | the quote scan stops at the first unescaped `"`, or finds none when no such `"` exists |
| Grammar.ValueQuotes | src/BibTeXParser.js:115-128 | a quoted value fails only by a missing `"` or by an unterminated value, and on success moves forward |
| GrammarFacts.ValueQuotesExact | src/BibTeXParser.js:115-128 | a quoted value is the text up to the first unescaped `"`, which it does not contain |
| GrammarFacts.ValueQuotesUnterminated | src/BibTeXParser.js:115-128 | with no unescaped `"` after the opening one, the value is unterminated |
| GrammarFacts.ValueQuotesCloses | src/BibTeXParser.js:115-128 | with an unescaped `"` after the opening one, the quoted value is read (the converse of `ValueQuotesUnterminated`) |
| Grammar.Truthy | src/BibTeXParser.js:138 | JavaScript truthiness of a macro lookup: the name is in the table and its text is not empty; `Grammar.Resolve` and `GrammarFacts.EmptyMacroIsAbsent` state what follows from it |
| Grammar.Resolve | src/BibTeXParser.js:136-145 | a bare name resolves exactly when its upper-cased form names a non-empty macro or it is all digits; otherwise it is the "value expected" error. When the upper-cased form names a non-empty macro, the result is the table entry under the name as written (empty text when there is none); otherwise an all-digit name is its own value |
| GrammarFacts.LowerCaseReferenceIsEmpty | src/BibTeXParser.js:138-139 | a reference not written in upper case to a defined macro gives the empty text, because the table only holds upper-case names |
| GrammarFacts.UpperCaseReferenceExpands | src/BibTeXParser.js:138-139 | an upper-case reference to a defined macro gives the macro's text |
| GrammarFacts.MonthReferences | src/BibTeXParser.js:138-139 | with the seeded month table, `JAN` gives `January` and `jan` gives the empty text |
| GrammarFacts.EmptyMacroIsAbsent | src/BibTeXParser.js:138-145 | a macro defined as empty counts as undefined: a non-numeric reference to it is the "value expected" error |
| GrammarFacts.DigitsReadVerbatim | src/BibTeXParser.js:140-141 | a digit string that names no non-empty macro reads as itself |
| Grammar.SingleValue | src/BibTeXParser.js:130-146 | a single value never moves the cursor back |
| Grammar.ValueTail | src/BibTeXParser.js:150-154 | the `#` loop never moves the cursor back |
| Grammar.Value | src/BibTeXParser.js:148-156 | a value never moves the cursor back |
| GrammarFacts.JoinEmptyAppend | src/BibTeXParser.js:155 | joining with `""` after one more piece is the earlier join followed by that piece |
| GrammarFacts.ValueTailConcat | src/BibTeXParser.js:150-155 | the `#` loop, meeting `# v1 # v2 ... # vn` and then no `#`, returns the pieces read so far followed by `v1 ... vn`, joined, with the cursor after the last value and its blanks |
| GrammarFacts.ValueConcatenatesAll | src/BibTeXParser.js:148-156 | `a # v1 # ... # vn` (any number of pieces) reads as the concatenation of all the single values in order, and the cursor ends after the last one and its blanks |
| GrammarFacts.ValueConcatenates | src/BibTeXParser.js:148-156 | `a # b` reads as the concatenation of the two single values, and the cursor ends after `b` and its blanks; derived as the two-piece case of `ValueConcatenatesAll` |
| Text.JoinEmptyConcat | src/BibTeXParser.js:155 | joining pieces with `""` is their concatenation in order |
| Grammar.KeyEqualsValue | src/BibTeXParser.js:173-182 | a pair moves the cursor forward, and its name is a key string |
| GrammarFacts.KeyEqualsValueParts | src/BibTeXParser.js:173-182 | a pair that is read is the key read at the cursor, then a `=`, then exactly the value read after the `=`, and the cursor ends where that value ends |
| GrammarFacts.StringDefThenResolve | src/BibTeXParser.js:244-247 | after `@string{n = v}`, the upper-case reference `N` resolves to `v` when `v` is non-empty |
| Grammar.Authors | src/BibTeXParser.js:214-226 | one normalised name per `" and "` segment, in segment order |
| GrammarFacts.AuthorsSingle | src/BibTeXParser.js:214-226 | a text in which `" and "` does not occur is one author, its normalised self |
| GrammarFacts.AuthorsCons | src/BibTeXParser.js:214-226 | the text before the first `" and "` is the first author, followed by the authors of the text after it |
| GrammarFacts.NoAndWithoutD | src/BibTeXParser.js:215 | `" and "` does not occur in a text without the letter `d` |
| GrammarFacts.NoAndBeforeSeparator | src/BibTeXParser.js:215 | in `x + " and " + y` with no `d` in `x`, the first `" and "` is the one after `x` |
| GrammarFacts.AuthorsWithoutD | src/BibTeXParser.js:214-226 | a name without `d` is one author, and is the first author when `" and "` and more names follow |
| Grammar.NormalizeAuthor | src/BibTeXParser.js:216-224 | defines one author's normal form; `AuthorWithoutComma`, `AuthorLastFirst`, `AuthorExtraCommaDropped` and `NameSwapped` state what it gives |
| GrammarFacts.AuthorWithoutComma | src/BibTeXParser.js:217-218 | a name without a comma is normalised to its trimmed self |
| GrammarFacts.AuthorLastFirst | src/BibTeXParser.js:220-223 | `last,first` is normalised to trimmed `first`, a blank, then trimmed `last` |
| GrammarFacts.AuthorExtraCommaDropped | src/BibTeXParser.js:220-223 | in `last,first,rest` the text after the second comma is dropped |
| GrammarFacts.NameSwapped | src/BibTeXParser.js:220-223 | `Last, First` with untrimmable ends becomes `First Last` |
| GrammarFacts.AuthorsPairLastFirst | src/BibTeXParser.js:214-226 | two `Last, First` names joined by `and`, such as `Smith, John and Doe, Jane`, give the two `First Last` names in order |
| GrammarFacts.AuthorsPairPlain | src/BibTeXParser.js:214-226 | two plain names joined by `and`, such as `John Smith and Jane Doe`, give those two names unchanged, in order |
| Grammar.ProcessValue | src/BibTeXParser.js:198-230 | the field keeps the name and raw value as written; its value is the converted text, or the raw text when conversion fails; it has an author list exactly when the lower-cased name is `author`, and that list is `Authors` of the (converted) value |
| Text.Trim | src/BibTeXParser.js:218 | the trimmed text is a contiguous piece of the input, starts and ends with non-space, and only spaces were cut |
| Text.TrimKeepsCore | src/BibTeXParser.js:218 | a text whose ends are not trim space, surrounded by trim space on either side, trims to exactly itself |
| Text.TrimUntouched | src/BibTeXParser.js:218 | a text whose ends are not trim space is its own trim |
| Text.TrimOneBlank | src/BibTeXParser.js:222 | a leading blank before such a text is trimmed away |
| Text.IndexOf | src/BibTeXParser.js:217 | the result is the first occurrence from the start position, or none when there is no occurrence |
| Text.Split | src/BibTeXParser.js:215 | splitting gives at least one piece, and at least two when the separator occurs |
| Text.SplitJoin | src/BibTeXParser.js:215 | joining the pieces with the separator gives the input back |
| Text.SplitPiecesAvoidSeparator | src/BibTeXParser.js:215 | no piece contains the separator |
| Text.SplitAt | src/BibTeXParser.js:215 | when the separator first occurs right after `x`, splitting gives `x` followed by the pieces of the rest |
| Text.SplitWhole | src/BibTeXParser.js:215 | a text in which the separator does not occur splits into itself alone |
| Text.OccursChar | src/BibTeXParser.js:221 | a one-character separator occurs exactly where that character is |
| Text.SplitAtChar | src/BibTeXParser.js:221 | splitting `x,y` on `,` when `x` has no comma gives `x` and then the pieces of `y` |
| Text.SplitWholeChar | src/BibTeXParser.js:221 | a text without the separator character splits into itself alone |
| Text.LowerIdempotent | src/BibTeXParser.js:275 | lower-casing a lower-cased name changes nothing |
| Text.LowerKeepsKeyClass | src/BibTeXParser.js:275 | lower-casing a key keeps it a key |
| Grammar.StoreField | src/BibTeXParser.js:186 | storing a field under its lower-cased name keeps the field table well formed: distinct keys, lower-case key strings |
| GrammarFacts.StoreFieldLastWins | src/BibTeXParser.js:184-196 | a later field whose name lower-cases to the same key replaces the earlier one and keeps its place |
| GrammarFacts.LowerNeverReserved | src/BibTeXBuilder.js:4-6 | a lower-cased field name is never `entryType` or `entryKey` |
| Grammar.FieldTail | src/BibTeXParser.js:187-195 | the comma loop never moves back and keeps the field table well formed |
| Grammar.FieldTailTurn | src/BibTeXParser.js:187-195 | after a comma not followed by `}`, the loop reads one pair, stores it and carries on |
| Grammar.KeyValueList | src/BibTeXParser.js:184-196 | the field list moves forward and keeps the field table well formed |
| GrammarFacts.FieldListNeedsAField | src/BibTeXParser.js:184-185 | a `}` where the first field should start fails with "equals sign missing" |
| GrammarFacts.TrailingCommaAccepted | src/BibTeXParser.js:187-192 | a comma followed by `}` ends the field list, with the cursor on the `}` |
| Grammar.StringDef | src/BibTeXParser.js:244-247 | `@string` keeps the tables' invariant: every macro name is upper case, and every record sits under its own key with a lower-case type and lower-case field names |
| Grammar.Preamble | src/BibTeXParser.js:249-251 | `@preamble` reads a value and changes no table |
| Grammar.Comment | src/BibTeXParser.js:253-267 | `@comment` stops on the first `}`; it is a runaway comment exactly when no `}` follows |
| GrammarFacts.CommentAppends | src/BibTeXParser.js:253-267 | with a `}` ahead, the raw text up to it is appended to the comments and nothing else changes |
| Grammar.EntryBody | src/BibTeXParser.js:232-237 | an entry body moves the cursor forward |
| Grammar.EntryBodyRead | src/BibTeXParser.js:232-237 | once key, comma and field list are read, the entry body stores a fresh record with that type, key and fields under the key, and sets the current entry |
| Grammar.EntryBodyKeepsWellFormed | src/BibTeXParser.js:232-237 | an entry body with a lower-case key-string type keeps the tables well formed |
| Grammar.StoreEntryKeepsWellFormed | src/BibTeXParser.js:234 | storing a well-formed record keeps the tables well formed |
| GrammarFacts.EntryBodyStores | src/BibTeXParser.js:232-237 | a successful entry body stores a record whose type is the directive without `@` and whose key is the citation key, under that key, and makes it the current entry |
| GrammarFacts.EntryWithoutFieldsFails | src/BibTeXParser.js:232-237 | `@a{k,}` is rejected: an entry needs at least one field |
| GrammarFacts.NoFieldsDirective | src/BibTeXParser.js:239-242 | in `@a{k,}` the directive read is `@a` |
| GrammarFacts.NoFieldsKey | src/BibTeXParser.js:232-235 | in `@a{k,}` the `{`, the key `k` and the comma are read |
| GrammarFacts.EntryWithoutValueFails | src/BibTeXParser.js:232-237 | `@a{k,t=}` is rejected with "value expected": the value after `=` is an empty bare name, which is neither a macro nor a number |
| GrammarFacts.MissingValueHeader | src/BibTeXParser.js:232-242 | in `@a{k,t=}` the directive read is `@a`, and the `{`, the key `k` and the comma are read |
| GrammarFacts.MissingValueField | src/BibTeXParser.js:173-182 | in `@a{k,t=}` the field name `t` and the `=` are read, and the value after them, and so the pair, fail with "value expected" |
| Grammar.Directive | src/BibTeXParser.js:239-242 | a directive name is `@` followed by a key string |
| Grammar.DirectiveBody | src/BibTeXParser.js:277-285 | the dispatch on the lower-cased name keeps the tables well formed |
| Grammar.DirectiveStep | src/BibTeXParser.js:274-287 | one turn of the directive loop moves strictly forward and keeps the tables well formed |
| Grammar.DirectiveStepRead | src/BibTeXParser.js:275-286 | once the name and `{` are read, the turn is `BodyThenClose` for the lower-cased name |
| Grammar.BodyThenClose | src/BibTeXParser.js:277-286 | the dispatch followed by `match("}")`: it fails as the dispatch does, or succeeds with the dispatch's tables and the cursor strictly forward |
| Grammar.Directives | src/BibTeXParser.js:274-287 | the directive loop never moves back and keeps the tables well formed |
| GrammarFacts.LeftoverIgnored | src/BibTeXParser.js:274 | text that does not start with `@` ends the loop with the tables unchanged |
| Grammar.Initial | src/BibTeXParser.js:26-48 | defines a new reader's tables: the twelve month macros `JAN` to `DEC`, no entries, no comments, no current entry |
| Grammar.InitialWellFormed | src/BibTeXParser.js:26-48 | the fresh tables satisfy that invariant: the month macro names are upper case and there are no entries |
| Grammar.Publish | src/BibTeXParser.js:289 | `@comments` is set to the comment list and every other slot is kept; a new `@comments` goes at the end of the key order, an existing one keeps its place; macros, comments and current entry are unchanged |
| Grammar.PublishKeepsEntries | src/BibTeXParser.js:289 | after `@comments` is stored, every other slot of the entries table is a record |
| Grammar.Bibtex | src/BibTeXParser.js:273-290 | a successful read leaves a valid entries table whose slots other than `@comments` are records |
| GrammarFacts.CommentsKeyIsNoEntryKey | src/BibTeXParser.js:289 | `@comments` is not a key string, so no entry can have it as its key |
| Grammar.EntriesOf | src/BibTeXParser.js:297 | the records table has the same keys in the same order, and the record stored under each |
| Grammar.ParseString | src/BibTeXParser.js:293-298 | succeeds exactly when the read does; gives the object form exactly when `asObject` holds; the object has no `@comments` slot, and its key order is the read's order with `@comments` left out |
| GrammarFacts.ParseStringKeepsEntries | src/BibTeXParser.js:293-298 | `parseString` fails exactly when the directive loop does; otherwise it returns every record the loop stored, in the same key order and with nothing else |
| GrammarFacts.ParseStringForms | src/BibTeXParser.js:297 | the list form succeeds exactly when the object form does, and is the object's records in key order |
| OrderedMaps.Put | src/BibTeXParser.js:186 | assigning a key sets it, changes no other key, appends a new key at the end of the order and leaves an existing key in its place |
| OrderedMaps.PutPut | src/BibTeXParser.js:194 | assigning a key twice is assigning it once with the last value |
| OrderedMaps.Without | src/BibTeXParser.js:296 | dropping a key from the key order keeps all other keys and distinctness |
| OrderedMaps.WithoutConcat | src/BibTeXParser.js:296 | dropping a key from two runs of keys is dropping it from each, so every other key keeps its relative order |
| OrderedMaps.WithoutSingle | src/BibTeXParser.js:296 | on one key, the key is dropped when it is the one deleted and kept otherwise |
| OrderedMaps.Remove | src/BibTeXParser.js:296 | `delete` removes the key and keeps every other key and value, with the key order that of `Without` |
| OrderedMaps.Values | src/BibTeXParser.js:297 | the values in key order |
| Parser.BibTeXParser.constructor | src/BibTeXParser.js:26-48 | a fresh reader is at position 0 with the month table, no entries and no comments |
| Parser.BibTeXParser.SkipWhitespace | src/BibTeXParser.js:81-91 | the loop leaves the cursor where `Grammar.SkipWs` says |
| Parser.BibTeXParser.Match | src/BibTeXParser.js:62-70 | moves or fails exactly as `Grammar.Match` says |
| Parser.BibTeXParser.TryMatch | src/BibTeXParser.js:72-79 | answers `Grammar.TryMatch` and leaves the cursor after the blanks |
| Parser.BibTeXParser.ValueBraces | src/BibTeXParser.js:93-113 | the brace-counting loop returns the value and cursor, or the error, of `Grammar.ValueBraces` |
| Parser.BibTeXParser.ValueQuotes | src/BibTeXParser.js:115-128 | the quote loop returns the value and cursor, or the error, of `Grammar.ValueQuotes` |
| Parser.BibTeXParser.SingleValue | src/BibTeXParser.js:130-146 | returns what `Grammar.SingleValue` reads, under the current macro table |
| Parser.BibTeXParser.Value | src/BibTeXParser.js:148-156 | the `#` loop returns the joined value of `Grammar.Value` |
| Parser.BibTeXParser.Key | src/BibTeXParser.js:158-171 | the key loop returns the key and cursor, or the error, of `Grammar.Key` |
| Parser.BibTeXParser.KeyEqualsValue | src/BibTeXParser.js:173-182 | returns the pair of `Grammar.KeyEqualsValue`, or its "equals sign missing" error |
| Parser.BibTeXParser.ProcessValue | src/BibTeXParser.js:198-230 | the author loop builds the field of `Grammar.ProcessValue` |
| Parser.BibTeXParser.StoreField | src/BibTeXParser.js:186 | the current record gets the field under its lower-cased name, and no other slot changes |
| Parser.BibTeXParser.KeyValueList | src/BibTeXParser.js:184-196 | the comma loop stores into the current record exactly the fields of `Grammar.KeyValueList`, and the error when there is one |
| Parser.BibTeXParser.EntryBody | src/BibTeXParser.js:232-237 | tables and cursor end as `Grammar.EntryBody` says |
| Parser.BibTeXParser.Directive | src/BibTeXParser.js:239-242 | returns the directive name of `Grammar.Directive` |
| Parser.BibTeXParser.StringDef | src/BibTeXParser.js:244-247 | the macro table ends as `Grammar.StringDef` says |
| Parser.BibTeXParser.Preamble | src/BibTeXParser.js:249-251 | reads the value of `Grammar.Preamble` and changes no table |
| Parser.BibTeXParser.Comment | src/BibTeXParser.js:253-267 | the scanning loop appends the comment, or fails, as `Grammar.Comment` says |
| Parser.BibTeXParser.DirectiveBody | src/BibTeXParser.js:277-285 | dispatches as `Grammar.DirectiveBody` says |
| Parser.BibTeXParser.DirectiveStep | src/BibTeXParser.js:275-286 | one turn of the directive loop, as `Grammar.DirectiveStep` says |
| Parser.BibTeXParser.BodyThenClose | src/BibTeXParser.js:277-286 | the dispatch and `match("}")` end as `Grammar.BodyThenClose` says |
| Parser.BibTeXParser.Bibtex | src/BibTeXParser.js:273-290 | the directive loop runs `Grammar.Directives` and then stores the comments under `@comments` |
| Parser.ParseString | src/BibTeXParser.js:293-298 | returns exactly `Grammar.ParseString`, so `ParseStringKeepsEntries`, `ParseStringForms` and `RoundTrip.BuildThenParse` hold of it |
| Builder.EntryText | src/BibTeXBuilder.js:1-16 | defines what `buildEntry` returns; `EntryTextFrame`, `EntryTextHeaderOnly` and `FieldLinesSingle` state its shape, and `Builder.BuildEntry` is proved to return it |
| Builder.BuildEntry | src/BibTeXBuilder.js:1-16 | the loop over the record's keys builds `EntryText`: the header, one line per non-reserved field in key order, and the closing brace |
| Builder.BuildEntries | src/BibTeXBuilder.js:18-24 | one text per record, in key order, each the record's `EntryText` |
| Builder.FieldLinesAppend | src/BibTeXBuilder.js:3-13 | the lines of two runs of names are the lines of the first, then those of the second |
| Builder.FieldLinesSingle | src/BibTeXBuilder.js:4-10 | a reserved name contributes nothing, and any other name contributes `,\n\t<name> = {<raw value>}` |
| Builder.EntryTextFrame | src/BibTeXBuilder.js:2-14 | every written record starts with `@type{key` and ends with `\n}` |
| Builder.EntryTextHeaderOnly | src/BibTeXBuilder.js:3-14 | a record with only reserved names is written as its header and `\n}` |
| Builder.EntryTextUsesRawValuesOnly | src/BibTeXBuilder.js:10 | records that agree on type, key, key order and raw values are written alike |
| RoundTrip.FieldTailReads | src/BibTeXParser.js:187-195 | the written lines of a run of good fields, then `\n}`, are read by the comma loop as exactly those fields, and the loop ends on the `}` |
| RoundTrip.FieldsReadBack | src/BibTeXParser.js:186 | storing the written fields one after another into an empty record gives the record's fields, each processed afresh from its raw value |
| RoundTrip.EntryDirectiveReads | src/BibTeXParser.js:274-286 | a written record's text reads, as one directive, into its record stored under its key |
| RoundTrip.BibtexReadsEntry | src/BibTeXParser.js:273-290 | the whole written text of a record reads as that one entry followed by the comments slot |
| RoundTrip.BuildThenParse | src/BibTeXBuilder.js:1-16 | `parseString(buildEntry(e), true)` gives the table holding only `e`'s key, with `e`'s type, key, field order and each field processed afresh from its raw value |
| RoundTrip.RawValuesSurvive | src/BibTeXBuilder.js:10 | after writing and reading back, every field keeps its name and its raw value, in the same order |

## Left out

- Input that is `null` or `undefined`: the constructor turns these into `""`. The model takes a string.
- `setInput`, `getEntries`, the `entry` wrapper and the `index.js` and bundling files: they only forward or expose state that the model holds directly.
- Error message text: an error is its kind (token mismatch, unterminated, runaway key, runaway comment, value expected, equals sign missing). Parser state after a thrown error is not specified, because `parseString` discards the reader.
- The warning printed when LaTeX conversion fails: output only. The converter itself is the parameter `convert`, and `None` means it threw.
- Grammar.ValueBraces and Grammar.ValueQuotes: on some unterminated inputs the source scan never ends instead of throwing. Examples are a braced value whose last character is an unescaped `{` or an inner `}`, and a value whose opening delimiter and blanks end the input. The model reports these inputs as unterminated, like the other inputs without a closing delimiter.
- Grammar.SkipWs: a `%` comment on the last line with no newline makes the source's blank loop run forever. The model stops at the end of input.
- Grammar.Match: `match` and `tryMatch` take a one-character token, because every call in the reader passes a single character.
- Text.Lower: case mapping covers ASCII only. Every string the reader case-maps is a key or a field name, and both are ASCII.
- JavaScript key enumeration order: integer-like keys (such as a citation key `2020`) come first in numeric order. The model keeps plain insertion order for every key.
- Property names that reach the object prototype: `__proto__` as a citation key or field name, and inherited names such as `constructor` returned for a lower-case macro reference. The model treats every name as an ordinary key.
- RoundTrip.BuildThenParse: proved for round-trippable records only, which is a limit of the proof and not a claim about other records. A round-trippable record has a lower-case key-string type (the empty type included) other than `string`, `preamble` and `comment`, a key-string citation key (the empty key included) and at least one field. Every field name is a lower-case key string (the empty name included). Every raw value has balanced braces, no leading blank or `%` and no trailing backslash. The proof says nothing about other records: some of them the reader rejects or changes (a record without fields fails, as `GrammarFacts.EntryWithoutFieldsFails` shows for `@a{k,}`), and others are simply not covered.
- GrammarFacts.AuthorsPairLastFirst: stated for names without the letter `d`, a simple condition under which `" and "` cannot occur inside a name. `GrammarFacts.AuthorsCons` states the general step, for any text before the first `" and "`.
- GrammarFacts.AuthorsPairPlain: same condition on the names, for the same reason.
- RoundTrip.RawValuesSurvive: holds under the same conditions as `RoundTrip.BuildThenParse`, for the same reason.
