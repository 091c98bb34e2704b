/** The reader as pure functions over the input `s` and a cursor `p`: one
    function per method of `BibTeXParser`, each returning the value the method
    returns together with the cursor it leaves behind (a `Step`), or the error
    it throws. The class in module Parser is proved to compute exactly these. */
module Grammar {
  import opened Results
  import opened Text
  import opened OrderedMaps
  import opened Records

  // ------------------------------------------------------------------
  // Lexing

  /** The end of the run of reader whitespace that starts at `p`. */
  function WsEnd(s: string, p: nat): (r: nat)
    requires p <= |s|
    ensures p <= r <= |s|
    ensures r == |s| || !IsWhitespace(s[r])
    decreases |s| - p
  {
    if p < |s| && IsWhitespace(s[p]) then WsEnd(s, p + 1) else p
  }

  /** Everything `WsEnd` skips is whitespace. */
  lemma WsEndRun(s: string, p: nat)
    requires p <= |s|
    ensures forall i :: p <= i < WsEnd(s, p) ==> IsWhitespace(s[i])
    decreases |s| - p
  {
    if p < |s| && IsWhitespace(s[p]) {
      WsEndRun(s, p + 1);
    }
  }

  /** The end of the run of key characters that starts at `p`. */
  function KeyEnd(s: string, p: nat): (r: nat)
    requires p <= |s|
    ensures p <= r <= |s|
    ensures r == |s| || !IsKeyChar(s[r])
    decreases |s| - p
  {
    if p < |s| && IsKeyChar(s[p]) then KeyEnd(s, p + 1) else p
  }

  /** Everything `KeyEnd` passes over is a key character. */
  lemma KeyEndRun(s: string, p: nat)
    requires p <= |s|
    ensures forall i :: p <= i < KeyEnd(s, p) ==> IsKeyChar(s[i])
    decreases |s| - p
  {
    if p < |s| && IsKeyChar(s[p]) {
      KeyEndRun(s, p + 1);
    }
  }

  /** The first index at or after `p` holding `c`, or `|s|` if there is none. */
  function FindChar(s: string, p: nat, c: char): (r: nat)
    requires p <= |s|
    ensures p <= r <= |s|
    ensures r == |s| || s[r] == c
    ensures forall i :: p <= i < r ==> s[i] != c
    decreases |s| - p
  {
    if p < |s| && s[p] != c then FindChar(s, p + 1, c) else p
  }

  /** `skipWhitespace`: skip whitespace; at a `%`, skip to the next newline
      and start again. */
  function SkipWs(s: string, p: nat): (r: nat)
    requires p <= |s|
    ensures p <= r <= |s|
    ensures r == |s| || (!IsWhitespace(s[r]) && s[r] != '%')
    decreases |s| - p
  {
    var q := WsEnd(s, p);
    if q < |s| && s[q] == '%' then SkipWs(s, FindChar(s, q, '\n')) else q
  }

  /** Skipping twice skips no more than skipping once. */
  lemma SkipWsIdempotent(s: string, p: nat)
    requires p <= |s|
    ensures SkipWs(s, SkipWs(s, p)) == SkipWs(s, p)
  {
  }

  /** The character `c` stands at index `q`. */
  predicate At(s: string, q: nat, c: char) {
    q < |s| && s[q] == c
  }

  /** `tryMatch(c)`: after skipping, `c` is next. The reader's cursor moves to
      `SkipWs(s, p)` whatever the answer. */
  predicate TryMatch(s: string, p: nat, c: char)
    requires p <= |s|
  {
    At(s, SkipWs(s, p), c)
  }

  /** `match(c)`: skip, consume `c`, skip again. */
  function Match(s: string, p: nat, c: char): (r: Result<nat>)
    requires p <= |s|
    ensures r.Ok? <==> TryMatch(s, p, c)
    ensures r.Ok? ==> p < r.value <= |s|
    ensures r.Err? ==> r.error == TokenMismatch
  {
    var q := SkipWs(s, p);
    if At(s, q, c) then Ok(SkipWs(s, q + 1)) else Err(TokenMismatch)
  }

  /** `key()`: the run of key characters at the cursor, which must not reach
      the end of the input. */
  function Key(s: string, p: nat): (r: Result<Step<string>>)
    requires p <= |s|
    ensures r.Ok? ==> p <= r.value.next < |s| && r.value.val == s[p..r.value.next] &&
                      IsKeyString(r.value.val) && !IsKeyChar(s[r.value.next])
    ensures r.Err? ==> r.error == RunawayKey && IsKeyString(s[p..])
  {
    var e := KeyEnd(s, p);
    KeyEndRun(s, p);
    if e == |s| then Err(RunawayKey) else Ok(Step(s[p..e], e))
  }

  // ------------------------------------------------------------------
  // Values

  /** The character at `i` is preceded by a backslash. */
  predicate Escaped(s: string, i: nat) {
    0 < i <= |s| && s[i - 1] == '\\'
  }

  /** The scan loop of `value_braces` from index `i` at nesting depth `d`:
      the index of the closing brace, or `None` at the end of the input. */
  function BraceClose(s: string, i: nat, d: nat): (r: Option<nat>)
    requires i <= |s|
    ensures r.Some? ==> i <= r.value < |s| && s[r.value] == '}' && !Escaped(s, r.value)
    decreases |s| - i
  {
    if i == |s| then None
    else if s[i] == '}' && !Escaped(s, i) then
      (if d > 0 then BraceClose(s, i + 1, d - 1) else Some(i))
    else if s[i] == '{' && !Escaped(s, i) then BraceClose(s, i + 1, d + 1)
    else BraceClose(s, i + 1, d)
  }

  /** The scan loop of `value_quotes`: the first unescaped `"` at or after `i`. */
  function QuoteClose(s: string, i: nat): (r: Option<nat>)
    requires i <= |s|
    ensures r.Some? ==> i <= r.value < |s| && s[r.value] == '"' && !Escaped(s, r.value)
    decreases |s| - i
  {
    if i == |s| then None
    else if s[i] == '"' && !Escaped(s, i) then Some(i)
    else QuoteClose(s, i + 1)
  }

  /** The quote `QuoteClose` finds is the first unescaped one; with none,
      there is no unescaped quote left. */
  lemma QuoteCloseFirst(s: string, i: nat)
    requires i <= |s|
    ensures QuoteClose(s, i).Some? ==> forall j :: i <= j < QuoteClose(s, i).value ==> !(s[j] == '"' && !Escaped(s, j))
    ensures QuoteClose(s, i).None? ==> forall j :: i <= j < |s| ==> !(s[j] == '"' && !Escaped(s, j))
    decreases |s| - i
  {
    if i < |s| && !(s[i] == '"' && !Escaped(s, i)) { QuoteCloseFirst(s, i + 1); }
  }

  /** `value_braces()`. */
  function ValueBraces(s: string, p: nat): (r: Result<Step<string>>)
    requires p <= |s|
    ensures r.Ok? ==> p < r.value.next <= |s|
    ensures r.Err? ==> r.error == TokenMismatch || r.error == Unterminated
  {
    var o :- Match(s, p, '{');
    match BraceClose(s, o, 0)
    case None => Err(Unterminated)
    case Some(c) =>
      var e :- Match(s, c, '}');
      Ok(Step(s[o..c], e))
  }

  /** `value_quotes()`. */
  function ValueQuotes(s: string, p: nat): (r: Result<Step<string>>)
    requires p <= |s|
    ensures r.Ok? ==> p < r.value.next <= |s|
    ensures r.Err? ==> r.error == TokenMismatch || r.error == Unterminated
  {
    var o :- Match(s, p, '"');
    match QuoteClose(s, o)
    case None => Err(Unterminated)
    case Some(c) =>
      var e :- Match(s, c, '"');
      Ok(Step(s[o..c], e))
  }

  /** The macro table every reader starts with. */
  const Months: map<string, string> :=
    map["JAN" := "January", "FEB" := "February", "MAR" := "March",
        "APR" := "April", "MAY" := "May", "JUN" := "June",
        "JUL" := "July", "AUG" := "August", "SEP" := "September",
        "OCT" := "October", "NOV" := "November", "DEC" := "December"]

  /** JavaScript truthiness of `strings[name]`: present and not empty. */
  predicate Truthy(strings: map<string, string>, name: string) {
    name in strings && strings[name] != ""
  }

  /** The bare-key branch of `single_value`: the test reads the upper-cased
      name, the result reads the name as spelled, and a missing entry
      (`undefined`) later joins as empty text. */
  function Resolve(k: string, strings: map<string, string>): (r: Result<string>)
    ensures r.Ok? <==> Truthy(strings, Upper(k)) || AllDigits(k)
    ensures r.Err? ==> r.error == ValueExpected
    ensures Truthy(strings, Upper(k)) ==> r == Ok(if k in strings then strings[k] else "")
    ensures !Truthy(strings, Upper(k)) && AllDigits(k) ==> r == Ok(k)
  {
    if Truthy(strings, Upper(k)) then Ok(if k in strings then strings[k] else "")
    else if AllDigits(k) then Ok(k)
    else Err(ValueExpected)
  }

  /** `single_value()`. */
  function SingleValue(s: string, p: nat, strings: map<string, string>): (r: Result<Step<string>>)
    requires p <= |s|
    ensures r.Ok? ==> p <= r.value.next <= |s|
  {
    var q := SkipWs(s, p);
    if At(s, q, '{') then ValueBraces(s, q)
    else if At(s, q, '"') then ValueQuotes(s, q)
    else
      var k :- Key(s, q);
      var v :- Resolve(k.val, strings);
      Ok(Step(v, k.next))
  }

  /** The `#` loop of `value()`, with the pieces read so far. */
  function ValueTail(s: string, p: nat, strings: map<string, string>, pieces: seq<string>)
    : (r: Result<Step<string>>)
    requires p <= |s|
    ensures r.Ok? ==> p <= r.value.next <= |s|
    decreases |s| - p
  {
    if TryMatch(s, p, '#') then
      var h :- Match(s, SkipWs(s, p), '#');
      var v :- SingleValue(s, h, strings);
      ValueTail(s, v.next, strings, pieces + [v.val])
    else Ok(Step(Join(pieces, ""), SkipWs(s, p)))
  }

  /** `value()`: one or more single values joined by `#`, concatenated. */
  function Value(s: string, p: nat, strings: map<string, string>): (r: Result<Step<string>>)
    requires p <= |s|
    ensures r.Ok? ==> p <= r.value.next <= |s|
  {
    var v :- SingleValue(s, p, strings);
    ValueTail(s, v.next, strings, [v.val])
  }

  /** `key_equals_value()`. */
  function KeyEqualsValue(s: string, p: nat, strings: map<string, string>)
    : (r: Result<Step<(string, string)>>)
    requires p <= |s|
    ensures r.Ok? ==> p < r.value.next <= |s| && IsKeyString(r.value.val.0)
  {
    var k :- Key(s, p);
    if TryMatch(s, k.next, '=') then
      var e :- Match(s, SkipWs(s, k.next), '=');
      var v :- Value(s, e, strings);
      Ok(Step((k.val, v.val), v.next))
    else Err(EqualsMissing)
  }

  // ------------------------------------------------------------------
  // Fields

  /** One author segment: trimmed as it is without a comma; with one,
      "Last, First" becomes "First Last" and text after a second comma is
      dropped. */
  function NormalizeAuthor(seg: string): string {
    if IndexOf(seg, ",", 0).None? then Trim(seg)
    else
      var parts := Split(seg, ",");
      Trim(parts[1]) + " " + Trim(parts[0])
  }

  /** The `authors` list of an `author` field. */
  function Authors(value: string): (r: seq<string>)
    ensures |r| == |Split(value, " and ")|
    ensures forall i :: 0 <= i < |r| ==> r[i] == NormalizeAuthor(Split(value, " and ")[i])
  {
    var segs := Split(value, " and ");
    seq(|segs|, i requires 0 <= i < |segs| => NormalizeAuthor(segs[i]))
  }

  /** The first `i + 1` names are the first `i` and the `i`-th segment normalised. */
  lemma AuthorsStep(value: string, i: nat)
    requires i < |Split(value, " and ")|
    ensures Authors(value)[..i + 1] == Authors(value)[..i] + [NormalizeAuthor(Split(value, " and ")[i])]
  {
    PrefixStep(Authors(value), i);
  }

  /** A prefix one longer is the prefix and the next element. */
  lemma PrefixStep<T>(r: seq<T>, i: nat)
    requires i < |r|
    ensures r[..i + 1] == r[..i] + [r[i]]
  {
  }

  /** `process_value(kv)`, with the LaTeX converter as a parameter that may
      fail (`None`). */
  function ProcessValue(convert: string -> Option<string>, name: string, raw: string): (f: Field)
    ensures f.rawName == name && f.rawValue == raw
    ensures f.value == (if convert(raw).Some? then convert(raw).value else raw)
    ensures f.authors.Some? <==> Lower(name) == "author"
    ensures f.authors.Some? ==> f.authors.value == Authors(f.value)
  {
    var value := match convert(raw) case Some(x) => x case None => raw;
    Field(name, value, raw, if Lower(name) == "author" then Some(Authors(value)) else None)
  }

  /** Fields sit under lower-cased key names. */
  predicate FieldsWellFormed(fields: OMap<Field>) {
    fields.Valid() &&
    forall n :: n in fields.vals ==> IsKeyString(n) && Lower(n) == n
  }

  /** Stores one parsed pair the way `key_value_list` does. */
  function StoreField(convert: string -> Option<string>, fields: OMap<Field>, kv: (string, string))
    : (r: OMap<Field>)
    requires IsKeyString(kv.0)
    ensures FieldsWellFormed(fields) ==> FieldsWellFormed(r)
  {
    LowerIdempotent(kv.0);
    LowerKeepsKeyClass(kv.0);
    Put(fields, Lower(kv.0), ProcessValue(convert, kv.0, kv.1))
  }

  /** The `,` loop of `key_value_list()`. */
  function FieldTail(s: string, p: nat, strings: map<string, string>,
                     convert: string -> Option<string>, fields: OMap<Field>)
    : (r: Result<Step<OMap<Field>>>)
    requires p <= |s|
    ensures r.Ok? ==> p <= r.value.next <= |s|
    ensures r.Ok? && FieldsWellFormed(fields) ==> FieldsWellFormed(r.value.val)
    decreases |s| - p
  {
    if TryMatch(s, p, ',') then
      var c :- Match(s, SkipWs(s, p), ',');
      if TryMatch(s, c, '}') then Ok(Step(fields, SkipWs(s, c)))
      else
        var kv :- KeyEqualsValue(s, SkipWs(s, c), strings);
        FieldTail(s, kv.next, strings, convert, StoreField(convert, fields, kv.val))
    else Ok(Step(fields, SkipWs(s, p)))
  }

  /** One turn of the field loop: a comma, no `}` after it, and a pair. */
  lemma FieldTailTurn(s: string, p: nat, c: nat, strings: map<string, string>,
                      convert: string -> Option<string>, fields: OMap<Field>, kv: Step<(string, string)>)
    requires p <= |s| && TryMatch(s, p, ',') && Match(s, SkipWs(s, p), ',') == Ok(c)
    requires !TryMatch(s, c, '}') && KeyEqualsValue(s, SkipWs(s, c), strings) == Ok(kv)
    ensures FieldTail(s, p, strings, convert, fields) ==
            FieldTail(s, kv.next, strings, convert, StoreField(convert, fields, kv.val))
  {
  }

  /** `key_value_list()`, adding to the fields of the current entry. */
  function KeyValueList(s: string, p: nat, strings: map<string, string>,
                        convert: string -> Option<string>, fields: OMap<Field>)
    : (r: Result<Step<OMap<Field>>>)
    requires p <= |s|
    ensures r.Ok? ==> p < r.value.next <= |s|
    ensures r.Ok? && FieldsWellFormed(fields) ==> FieldsWellFormed(r.value.val)
  {
    var kv :- KeyEqualsValue(s, p, strings);
    FieldTail(s, kv.next, strings, convert, StoreField(convert, fields, kv.val))
  }

  // ------------------------------------------------------------------
  // Directives

  /** The reader's tables: macros, entries, comments, and the key of the
      entry being read. */
  datatype Tables = Tables(strings: map<string, string>, entries: OMap<Slot>,
                           comments: seq<string>, current: string)

  function Initial(): Tables {
    Tables(Months, Empty(), [], "")
  }

  /** An entry slot as the reader stores it: the record sits under its own
      citation key, a key-class string, with a lower-case key-class type and
      well-formed fields. */
  predicate SlotWellFormed(k: string, slot: Slot) {
    IsKeyString(k) && slot.EntrySlot? && slot.entry.entryKey == k &&
    IsKeyString(slot.entry.entryType) && Lower(slot.entry.entryType) == slot.entry.entryType &&
    FieldsWellFormed(slot.entry.fields)
  }

  /** Every macro name is upper case. */
  predicate MacrosUpper(strings: map<string, string>) {
    forall m :: m in strings ==> Upper(m) == m
  }

  /** The invariant of the reader's tables between directives. */
  predicate WellFormed(t: Tables) {
    t.entries.Valid() &&
    (forall k :: k in t.entries.vals ==> SlotWellFormed(k, t.entries.vals[k])) &&
    MacrosUpper(t.strings)
  }

  /** Storing a well-formed record keeps the tables well formed. */
  lemma StoreEntryKeepsWellFormed(t: Tables, k: string, e: Entry, cur: string)
    ensures WellFormed(t) && SlotWellFormed(k, EntrySlot(e)) ==>
            WellFormed(t.(entries := Put(t.entries, k, EntrySlot(e)), current := cur))
  {
  }

  /** `string()`: define a macro under the upper-cased name. */
  function StringDef(s: string, p: nat, t: Tables): (r: Result<Step<Tables>>)
    requires p <= |s|
    ensures r.Ok? ==> p < r.value.next <= |s|
    ensures r.Ok? && WellFormed(t) ==> WellFormed(r.value.val)
  {
    var kv :- KeyEqualsValue(s, p, t.strings);
    UpperIdempotent(kv.val.0);
    Ok(Step(t.(strings := t.strings[Upper(kv.val.0) := kv.val.1]), kv.next))
  }

  /** `preamble()`: read a value and drop it. */
  function Preamble(s: string, p: nat, t: Tables): (r: Result<Step<Tables>>)
    requires p <= |s|
    ensures r.Ok? ==> p <= r.value.next <= |s| && r.value.val == t
  {
    var v :- Value(s, p, t.strings);
    Ok(Step(t, v.next))
  }

  /** `comment()`: the raw text up to the first `}`, which is left unread. */
  function Comment(s: string, p: nat, t: Tables): (r: Result<Step<Tables>>)
    requires p <= |s|
    ensures r.Ok? ==> p <= r.value.next < |s| && s[r.value.next] == '}'
    ensures r.Err? ==> r.error == RunawayComment && '}' !in s[p..]
  {
    var c := FindChar(s, p, '}');
    if c == |s| then Err(RunawayComment)
    else Ok(Step(t.(comments := t.comments + [s[p..c]]), c))
  }

  /** `entry_body(d)`: the citation key, a comma, and the field list, stored as
      a fresh record under the key. */
  function EntryBody(s: string, p: nat, convert: string -> Option<string>, t: Tables, d: string)
    : (r: Result<Step<Tables>>)
    requires p <= |s| && |d| >= 1
    ensures r.Ok? ==> p < r.value.next <= |s|
  {
    var k :- Key(s, p);
    var c :- Match(s, k.next, ',');
    var f :- KeyValueList(s, c, t.strings, convert, Empty());
    Ok(Step(t.(entries := Put(t.entries, k.val, EntrySlot(Entry(d[1..], k.val, f.val))),
               current := k.val), f.next))
  }

  /** `entry_body` once its three parts have been read. */
  lemma EntryBodyRead(s: string, p: nat, convert: string -> Option<string>, t: Tables, d: string,
                      k: Step<string>, c: nat, f: Step<OMap<Field>>)
    requires p <= |s| && |d| >= 1
    requires Key(s, p) == Ok(k) && Match(s, k.next, ',') == Ok(c)
    requires KeyValueList(s, c, t.strings, convert, Empty()) == Ok(f)
    ensures EntryBody(s, p, convert, t, d) ==
            Ok(Step(t.(entries := Put(t.entries, k.val, EntrySlot(Entry(d[1..], k.val, f.val))),
                       current := k.val), f.next))
  {
  }

  /** A record stored by `entry_body` keeps the tables well formed when the
      entry type is a lower-case key. */
  lemma EntryBodyKeepsWellFormed(s: string, p: nat, convert: string -> Option<string>, t: Tables, d: string)
    requires p <= |s| && |d| >= 1
    ensures (WellFormed(t) && IsKeyString(d[1..]) && Lower(d[1..]) == d[1..] &&
             EntryBody(s, p, convert, t, d).Ok?) ==>
            WellFormed(EntryBody(s, p, convert, t, d).value.val)
  {
    match Key(s, p)
    case Err(_) =>
    case Ok(k) =>
      match Match(s, k.next, ',')
      case Err(_) =>
      case Ok(c) =>
        match KeyValueList(s, c, t.strings, convert, Empty())
        case Err(_) =>
        case Ok(f) =>
          assert FieldsWellFormed(Empty<Field>());
          var e := Entry(d[1..], k.val, f.val);
          StoreEntryKeepsWellFormed(t, k.val, e, k.val);
  }

  /** `directive()`: `@` and the directive name. */
  function Directive(s: string, p: nat): (r: Result<Step<string>>)
    requires p <= |s|
    ensures r.Ok? ==> p < r.value.next <= |s| && |r.value.val| >= 1 && r.value.val[0] == '@' &&
                      IsKeyString(r.value.val[1..])
  {
    var a :- Match(s, p, '@');
    var k :- Key(s, a);
    Ok(Step("@" + k.val, k.next))
  }

  /** The handler `bibtex()` dispatches to for a lower-cased directive name. */
  function DirectiveBody(s: string, p: nat, convert: string -> Option<string>, t: Tables, name: string)
    : (r: Result<Step<Tables>>)
    requires p <= |s| && |name| >= 1
    ensures r.Ok? ==> p <= r.value.next <= |s|
    ensures r.Ok? && WellFormed(t) && IsKeyString(name[1..]) && Lower(name[1..]) == name[1..] ==>
            WellFormed(r.value.val)
  {
    EntryBodyKeepsWellFormed(s, p, convert, t, name);
    if name == "@string" then StringDef(s, p, t)
    else if name == "@preamble" then Preamble(s, p, t)
    else if name == "@comment" then Comment(s, p, t)
    else EntryBody(s, p, convert, t, name)
  }

  /** The body of the loop in `bibtex()`: one directive, dispatched on its
      lower-cased name, then the closing brace. */
  function DirectiveStep(s: string, p: nat, convert: string -> Option<string>, t: Tables)
    : (r: Result<Step<Tables>>)
    requires p <= |s|
    ensures r.Ok? ==> p < r.value.next <= |s|
    ensures r.Ok? && WellFormed(t) ==> WellFormed(r.value.val)
  {
    var d :- Directive(s, p);
    var name := Lower(d.val);
    LowerAt(d.val[1..]);
    assert d.val == "@" + d.val[1..];
    LowerIdempotent(d.val[1..]);
    LowerKeepsKeyClass(d.val[1..]);
    var b :- Match(s, d.next, '{');
    var body :- DirectiveBody(s, b, convert, t, name);
    var e :- Match(s, body.next, '}');
    Ok(Step(body.val, e))
  }

  /** One directive whose name cannot be read fails as `directive()` does. */
  lemma DirectiveStepNoName(s: string, p: nat, convert: string -> Option<string>, t: Tables)
    requires p <= |s| && Directive(s, p).Err?
    ensures DirectiveStep(s, p, convert, t) == Err(Directive(s, p).error)
  {
  }

  /** One directive without its opening brace fails as `match("{")` does. */
  lemma DirectiveStepNoBrace(s: string, p: nat, convert: string -> Option<string>, t: Tables, d: Step<string>)
    requires p <= |s| && Directive(s, p) == Ok(d) && d.next <= |s| && Match(s, d.next, '{').Err?
    ensures DirectiveStep(s, p, convert, t) == Err(Match(s, d.next, '{').error)
  {
  }

  /** The rest of a directive after its opening brace: the body, then `}`. */
  function BodyThenClose(s: string, b: nat, convert: string -> Option<string>, t: Tables, name: string)
    : (r: Result<Step<Tables>>)
    requires b <= |s| && |name| >= 1
    ensures r.Ok? ==> b < r.value.next <= |s|
    ensures r.Ok? ==> DirectiveBody(s, b, convert, t, name).Ok? &&
                      r.value.val == DirectiveBody(s, b, convert, t, name).value.val
    ensures DirectiveBody(s, b, convert, t, name).Err? ==> r == DirectiveBody(s, b, convert, t, name)
  {
    var body :- DirectiveBody(s, b, convert, t, name);
    var e :- Match(s, body.next, '}');
    Ok(Step(body.val, e))
  }

  /** One directive once its name and opening brace have been read. */
  lemma DirectiveStepRead(s: string, p: nat, convert: string -> Option<string>, t: Tables,
                          d: Step<string>, b: nat)
    requires p <= |s| && Directive(s, p) == Ok(d) && Match(s, d.next, '{') == Ok(b)
    ensures |Lower(d.val)| >= 1
    ensures DirectiveStep(s, p, convert, t) == BodyThenClose(s, b, convert, t, Lower(d.val))
  {
  }

  /** The loop of `bibtex()`: directives while the next token is `@`. */
  function Directives(s: string, p: nat, convert: string -> Option<string>, t: Tables)
    : (r: Result<Step<Tables>>)
    requires p <= |s|
    ensures r.Ok? ==> p <= r.value.next <= |s|
    ensures r.Ok? && WellFormed(t) ==> WellFormed(r.value.val)
    decreases |s| - p
  {
    if TryMatch(s, p, '@') then
      var st :- DirectiveStep(s, SkipWs(s, p), convert, t);
      Directives(s, st.next, convert, st.val)
    else Ok(Step(t, SkipWs(s, p)))
  }

  /** The last statement of `bibtex()`: `entries['@comments'] = comments`. */
  function Publish(t: Tables): (r: Tables)
    ensures r.strings == t.strings && r.comments == t.comments && r.current == t.current
    ensures "@comments" in r.entries.vals && r.entries.vals["@comments"] == CommentsSlot(t.comments)
    ensures forall k :: k != "@comments" ==> (k in r.entries.vals <==> k in t.entries.vals)
    ensures forall k :: k != "@comments" && k in t.entries.vals ==> r.entries.vals[k] == t.entries.vals[k]
    ensures r.entries.keys == if "@comments" in t.entries.vals then t.entries.keys
                              else t.entries.keys + ["@comments"]
  {
    t.(entries := Put(t.entries, "@comments", CommentsSlot(t.comments)))
  }

  /** A fresh reader's tables are well formed: the month names are upper case. */
  lemma InitialWellFormed()
    ensures WellFormed(Initial())
  {
    forall m | m in Months ensures Upper(m) == m {
      assert |m| == 3 && forall i :: 0 <= i < 3 ==> 'A' <= m[i] <= 'Z';
      assert forall i :: 0 <= i < |m| ==> Upper(m)[i] == m[i];
    }
  }

  /** Publishing the comments adds one key and leaves every entry in place. */
  lemma PublishKeepsEntries(t: Tables)
    requires WellFormed(t)
    ensures Publish(t).entries.Valid()
    ensures forall k :: k in Publish(t).entries.vals && k != "@comments" ==>
                        k in t.entries.vals && Publish(t).entries.vals[k] == t.entries.vals[k] &&
                        Publish(t).entries.vals[k].EntrySlot?
  {
  }

  /** `bibtex()` on a fresh reader. */
  function Bibtex(s: string, convert: string -> Option<string>): (r: Result<Step<Tables>>)
    ensures r.Ok? ==> r.value.next <= |s|
    ensures r.Ok? ==> r.value.val.entries.Valid() &&
                      forall k :: k in r.value.val.entries.vals && k != "@comments" ==>
                                  r.value.val.entries.vals[k].EntrySlot?
  {
    var d :- Directives(s, 0, convert, Initial());
    InitialWellFormed();
    PublishKeepsEntries(d.val);
    Ok(Step(Publish(d.val), d.next))
  }

  /** The entry records of an entries table that holds nothing else. */
  function EntriesOf(m: OMap<Slot>): (r: OMap<Entry>)
    requires forall k :: k in m.vals ==> m.vals[k].EntrySlot?
    ensures r.keys == m.keys
    ensures m.Valid() ==> r.Valid()
    ensures forall k :: k in r.vals <==> k in m.vals
    ensures forall k :: k in r.vals ==> r.vals[k] == m.vals[k].entry
  {
    OMap(m.keys, map k | k in m.vals :: m.vals[k].entry)
  }

  /** What `parseString` returns: the list of records, or the object itself. */
  datatype Parsed = AsList(records: seq<Entry>) | AsObject(table: OMap<Entry>)

  /** `parseString(s, asObject)`: read, drop `@comments`, return. */
  function ParseString(s: string, convert: string -> Option<string>, asObject: bool): (r: Result<Parsed>)
    ensures r.Ok? <==> Bibtex(s, convert).Ok?
    ensures r.Ok? ==> (r.value.AsObject? <==> asObject)
    ensures r.Ok? && asObject ==>
              "@comments" !in r.value.table.vals &&
              r.value.table.keys == Without(Bibtex(s, convert).value.val.entries.keys, "@comments")
  {
    var b :- Bibtex(s, convert);
    var table := Remove(b.val.entries, "@comments");
    var records := EntriesOf(table);
    Ok(if asObject then AsObject(records) else AsList(Values(records)))
  }
}
