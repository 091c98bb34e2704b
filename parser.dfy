/** The reader itself: a cursor over the input and the tables it fills in,
    updated in place. Every method is proved to do exactly what the function
    of the same name in module Grammar says, so the properties proved about
    those functions hold of the reader. */
module Parser {
  import opened Results
  import opened Text
  import opened OrderedMaps
  import opened Records
  import G = Grammar

  /** A method returned what `spec` reads and left the cursor where it says. */
  predicate Follows<T(==)>(r: Result<T>, pos: nat, spec: Result<Step<T>>) {
    match spec
    case Ok(st) => r == Ok(st.val) && pos == st.next
    case Err(e) => r == Err(e)
  }

  /** A method that only moves the cursor did what `spec` says. */
  predicate Moved(r: Result<()>, pos: nat, spec: Result<nat>) {
    match spec
    case Ok(q) => r == Ok(()) && pos == q
    case Err(e) => r == Err(e)
  }

  /** A method that changes the tables left them and the cursor as `spec` says. */
  predicate Updated(r: Result<()>, pos: nat, tables: G.Tables, spec: Result<Step<G.Tables>>) {
    match spec
    case Ok(st) => r == Ok(()) && pos == st.next && tables == st.val
    case Err(e) => r == Err(e)
  }

  class BibTeXParser {
    const input: string
    /** The LaTeX-to-Unicode converter; `None` stands for a thrown error. */
    const convert: string -> Option<string>
    var pos: nat
    var strings: map<string, string>
    var entries: OMap<Slot>
    var comments: seq<string>
    var currentEntry: string

    /** The tables as one value. */
    function Snapshot(): G.Tables
      reads this
    {
      G.Tables(strings, entries, comments, currentEntry)
    }

    constructor (input: string, convert: string -> Option<string>)
      ensures this.input == input && this.convert == convert
      ensures pos == 0 && Snapshot() == G.Initial()
    {
      this.input := input;
      this.convert := convert;
      pos := 0;
      entries := Empty();
      comments := [];
      strings := G.Months;
      currentEntry := "";
    }

    method SkipWhitespace()
      requires pos <= |input|
      modifies this`pos
      ensures pos == G.SkipWs(input, old(pos))
      decreases |input| - pos
    {
      while pos < |input| && IsWhitespace(input[pos])
        invariant old(pos) <= pos <= |input|
        invariant G.WsEnd(input, pos) == G.WsEnd(input, old(pos))
        decreases |input| - pos
      {
        pos := pos + 1;
      }
      if pos < |input| && input[pos] == '%' {
        ghost var percent := pos;
        while pos < |input| && input[pos] != '\n'
          invariant percent <= pos <= |input|
          invariant G.FindChar(input, pos, '\n') == G.FindChar(input, percent, '\n')
          decreases |input| - pos
        {
          pos := pos + 1;
        }
        SkipWhitespace();
      }
    }

    method Match(c: char) returns (r: Result<()>)
      requires pos <= |input|
      modifies this`pos
      ensures old(pos) <= pos <= |input|
      ensures Moved(r, pos, G.Match(input, old(pos), c))
    {
      SkipWhitespace();
      if pos < |input| && input[pos] == c {
        pos := pos + 1;
      } else {
        return Err(TokenMismatch);
      }
      SkipWhitespace();
      return Ok(());
    }

    method TryMatch(c: char) returns (b: bool)
      requires pos <= |input|
      modifies this`pos
      ensures pos == G.SkipWs(input, old(pos))
      ensures b == G.TryMatch(input, old(pos), c)
    {
      SkipWhitespace();
      b := pos < |input| && input[pos] == c;
    }

    method ValueBraces() returns (r: Result<string>)
      requires pos <= |input|
      modifies this`pos
      ensures old(pos) <= pos <= |input|
      ensures Follows(r, pos, G.ValueBraces(input, old(pos)))
    {
      var braceCount: nat := 0;
      var opening := Match('{');
      if opening.Err? {
        return Err(opening.error);
      }
      var start := pos;
      while pos < |input|
        invariant start <= pos <= |input|
        invariant G.BraceClose(input, pos, braceCount) == G.BraceClose(input, start, 0)
        decreases |input| - pos
      {
        if input[pos] == '}' && !G.Escaped(input, pos) {
          if braceCount > 0 {
            braceCount := braceCount - 1;
          } else {
            var end := pos;
            var closed := Match('}');
            assert closed.Ok?;
            return Ok(input[start..end]);
          }
        } else if input[pos] == '{' && !G.Escaped(input, pos) {
          braceCount := braceCount + 1;
        } else if pos == |input| - 1 {
          return Err(Unterminated);
        }
        pos := pos + 1;
      }
      // the source keeps scanning past the end here and never returns
      return Err(Unterminated);
    }

    method ValueQuotes() returns (r: Result<string>)
      requires pos <= |input|
      modifies this`pos
      ensures old(pos) <= pos <= |input|
      ensures Follows(r, pos, G.ValueQuotes(input, old(pos)))
    {
      var opening := Match('"');
      if opening.Err? {
        return Err(opening.error);
      }
      var start := pos;
      while pos < |input|
        invariant start <= pos <= |input|
        invariant G.QuoteClose(input, pos) == G.QuoteClose(input, start)
        decreases |input| - pos
      {
        if input[pos] == '"' && !G.Escaped(input, pos) {
          var end := pos;
          var closed := Match('"');
          assert closed.Ok?;
          return Ok(input[start..end]);
        } else if pos == |input| - 1 {
          return Err(Unterminated);
        }
        pos := pos + 1;
      }
      // the source keeps scanning past the end here and never returns
      return Err(Unterminated);
    }

    method SingleValue() returns (r: Result<string>)
      requires pos <= |input|
      modifies this`pos
      ensures old(pos) <= pos <= |input|
      ensures Follows(r, pos, G.SingleValue(input, old(pos), strings))
    {
      var isBrace := TryMatch('{');
      if isBrace {
        r := ValueBraces();
        return;
      }
      G.SkipWsIdempotent(input, old(pos));
      var isQuote := TryMatch('"');
      if isQuote {
        r := ValueQuotes();
        return;
      }
      var k := Key();
      if k.Err? {
        return Err(k.error);
      }
      var name := k.value;
      if Upper(name) in strings && strings[Upper(name)] != "" {
        return Ok(if name in strings then strings[name] else "");
      } else if AllDigits(name) {
        return Ok(name);
      } else {
        return Err(ValueExpected);
      }
    }

    method Value() returns (r: Result<string>)
      requires pos <= |input|
      modifies this`pos
      ensures old(pos) <= pos <= |input|
      ensures Follows(r, pos, G.Value(input, old(pos), strings))
    {
      var first := SingleValue();
      if first.Err? {
        return Err(first.error);
      }
      var values := [first.value];
      ghost var before := pos;
      var more := TryMatch('#');
      while more
        invariant old(pos) <= before <= pos <= |input|
        invariant pos == G.SkipWs(input, before)
        invariant more == G.TryMatch(input, before, '#')
        invariant G.Value(input, old(pos), strings) == G.ValueTail(input, before, strings, values)
        decreases |input| - pos
      {
        var hash := Match('#');
        assert hash.Ok?;
        var next := SingleValue();
        if next.Err? {
          return Err(next.error);
        }
        values := values + [next.value];
        before := pos;
        more := TryMatch('#');
      }
      return Ok(Join(values, ""));
    }

    method Key() returns (r: Result<string>)
      requires pos <= |input|
      modifies this`pos
      ensures old(pos) <= pos <= |input|
      ensures Follows(r, pos, G.Key(input, old(pos)))
    {
      var start := pos;
      while true
        invariant start <= pos <= |input|
        invariant G.KeyEnd(input, pos) == G.KeyEnd(input, start)
        decreases |input| - pos
      {
        if pos == |input| {
          return Err(RunawayKey);
        }
        if IsKeyChar(input[pos]) {
          pos := pos + 1;
        } else {
          return Ok(input[start..pos]);
        }
      }
    }

    method KeyEqualsValue() returns (r: Result<(string, string)>)
      requires pos <= |input|
      modifies this`pos
      ensures old(pos) <= pos <= |input|
      ensures Follows(r, pos, G.KeyEqualsValue(input, old(pos), strings))
    {
      var k := Key();
      if k.Err? {
        return Err(k.error);
      }
      var equals := TryMatch('=');
      if equals {
        var m := Match('=');
        assert m.Ok?;
        var v := Value();
        if v.Err? {
          return Err(v.error);
        }
        return Ok((k.value, v.value));
      } else {
        return Err(EqualsMissing);
      }
    }

    /** `process_value(kv)`: the converted value, the raw value, and for an
        `author` field the normalised names, collected one segment at a time. */
    method ProcessValue(kv: (string, string)) returns (f: Field)
      ensures f == G.ProcessValue(convert, kv.0, kv.1)
    {
      var processed := match convert(kv.1) case Some(x) => x case None => kv.1;
      var authors: Option<seq<string>> := None;
      if Lower(kv.0) == "author" {
        var segments := Split(processed, " and ");
        var authorList: seq<string> := [];
        var i := 0;
        while i < |segments|
          invariant 0 <= i <= |segments|
          invariant authorList == G.Authors(processed)[..i]
        {
          G.AuthorsStep(processed, i);
          authorList := authorList + [G.NormalizeAuthor(segments[i])];
          i := i + 1;
        }
        assert authorList == G.Authors(processed);
        authors := Some(authorList);
      }
      f := Field(kv.0, processed, kv.1, authors);
    }

    /** `entries[currentEntry][name.toLowerCase()] = process_value(kv)`. */
    method StoreField(kv: (string, string))
      requires IsKeyString(kv.0)
      requires currentEntry in entries.vals && entries.vals[currentEntry].EntrySlot?
      modifies this`entries
      ensures var rec := old(entries).vals[currentEntry].entry;
              entries == Put(old(entries), currentEntry,
                             EntrySlot(rec.(fields := G.StoreField(convert, rec.fields, kv))))
    {
      var field := ProcessValue(kv);
      var rec := entries.vals[currentEntry].entry;
      entries := Put(entries, currentEntry,
                     EntrySlot(rec.(fields := Put(rec.fields, Lower(kv.0), field))));
    }

    method KeyValueList() returns (r: Result<()>)
      requires pos <= |input|
      requires currentEntry in entries.vals && entries.vals[currentEntry].EntrySlot?
      modifies this`pos, this`entries
      ensures old(pos) <= pos <= |input|
      ensures var rec := old(entries).vals[currentEntry].entry;
              match G.KeyValueList(input, old(pos), strings, convert, rec.fields)
              case Ok(st) => r == Ok(()) && pos == st.next &&
                             entries == Put(old(entries), currentEntry, EntrySlot(rec.(fields := st.val)))
              case Err(e) => r == Err(e)
    {
      ghost var rec := entries.vals[currentEntry].entry;
      var kv := KeyEqualsValue();
      if kv.Err? {
        return Err(kv.error);
      }
      ghost var fields := G.StoreField(convert, rec.fields, kv.value);
      StoreField(kv.value);
      PutPut(old(entries), currentEntry, EntrySlot(rec), EntrySlot(rec.(fields := fields)));
      ghost var before := pos;
      var more := TryMatch(',');
      while more
        invariant old(pos) <= before <= pos <= |input|
        invariant pos == G.SkipWs(input, before)
        invariant more == G.TryMatch(input, before, ',')
        invariant entries == Put(old(entries), currentEntry, EntrySlot(rec.(fields := fields)))
        invariant G.KeyValueList(input, old(pos), strings, convert, rec.fields) ==
                  G.FieldTail(input, before, strings, convert, fields)
        decreases |input| - pos
      {
        var comma := Match(',');
        assert comma.Ok?;
        ghost var c := pos;
        var closing := TryMatch('}');
        if closing {
          // a trailing comma: the source breaks out of the loop and returns
          return Ok(());
        }
        kv := KeyEqualsValue();
        if kv.Err? {
          return Err(kv.error);
        }
        ghost var stored := G.StoreField(convert, fields, kv.value);
        G.FieldTailTurn(input, before, c, strings, convert, fields, Step(kv.value, pos));
        Chain(G.KeyValueList(input, old(pos), strings, convert, rec.fields),
              G.FieldTail(input, before, strings, convert, fields),
              G.FieldTail(input, pos, strings, convert, stored));
        StoreField(kv.value);
        PutPut(old(entries), currentEntry, EntrySlot(rec.(fields := fields)), EntrySlot(rec.(fields := stored)));
        fields := stored;
        before := pos;
        more := TryMatch(',');
      }
      return Ok(());
    }

    method EntryBody(d: string) returns (r: Result<()>)
      requires pos <= |input| && |d| >= 1
      modifies this`pos, this`entries, this`currentEntry
      ensures old(pos) <= pos <= |input|
      ensures Updated(r, pos, Snapshot(), G.EntryBody(input, old(pos), convert, old(Snapshot()), d))
    {
      ghost var spec := G.EntryBody(input, pos, convert, Snapshot(), d);
      ghost var tables := Snapshot();
      var k := Key();
      assert comments == tables.comments;
      if k.Err? {
        assert spec == Err(k.error);
        return Err(k.error);
      }
      ghost var keyStep := Step(k.value, pos);
      currentEntry := k.value;
      var blank := EntrySlot(Entry(d[1..], currentEntry, Empty()));
      entries := Put(entries, currentEntry, blank);
      var comma := Match(',');
      assert comments == tables.comments;
      if comma.Err? {
        assert spec == Err(comma.error);
        return Err(comma.error);
      }
      ghost var afterComma := pos;
      ghost var fieldsSpec := G.KeyValueList(input, pos, strings, convert, Empty());
      r := KeyValueList();
      assert comments == tables.comments;
      if r.Ok? {
        G.EntryBodyRead(input, old(pos), convert, tables, d, keyStep, afterComma, fieldsSpec.value);
        PutPut(old(entries), currentEntry, blank, entries.vals[currentEntry]);
      } else {
        assert spec == Err(r.error);
      }
    }

    method Directive() returns (r: Result<string>)
      requires pos <= |input|
      modifies this`pos
      ensures old(pos) <= pos <= |input|
      ensures Follows(r, pos, G.Directive(input, old(pos)))
    {
      var at := Match('@');
      if at.Err? {
        return Err(at.error);
      }
      var k := Key();
      if k.Err? {
        return Err(k.error);
      }
      return Ok("@" + k.value);
    }

    /** `string()`. */
    method StringDef() returns (r: Result<()>)
      requires pos <= |input|
      modifies this`pos, this`strings
      ensures old(pos) <= pos <= |input|
      ensures Updated(r, pos, Snapshot(), G.StringDef(input, old(pos), old(Snapshot())))
    {
      var kv := KeyEqualsValue();
      if kv.Err? {
        return Err(kv.error);
      }
      strings := strings[Upper(kv.value.0) := kv.value.1];
      return Ok(());
    }

    method Preamble() returns (r: Result<()>)
      requires pos <= |input|
      modifies this`pos
      ensures old(pos) <= pos <= |input|
      ensures Updated(r, pos, Snapshot(), G.Preamble(input, old(pos), old(Snapshot())))
    {
      var v := Value();
      if v.Err? {
        return Err(v.error);
      }
      return Ok(());
    }

    method Comment() returns (r: Result<()>)
      requires pos <= |input|
      modifies this`pos, this`comments
      ensures old(pos) <= pos <= |input|
      ensures Updated(r, pos, Snapshot(), G.Comment(input, old(pos), old(Snapshot())))
    {
      var start := pos;
      while true
        invariant start <= pos <= |input|
        invariant G.FindChar(input, pos, '}') == G.FindChar(input, start, '}')
        invariant comments == old(comments)
        decreases |input| - pos
      {
        if pos == |input| {
          return Err(RunawayComment);
        }
        if input[pos] != '}' {
          pos := pos + 1;
        } else {
          assert G.FindChar(input, start, '}') == pos;
          comments := comments + [input[start..pos]];
          return Ok(());
        }
      }
    }

    /** The handler `bibtex()` calls for the lower-cased directive name. */
    method DirectiveBody(name: string) returns (r: Result<()>)
      requires pos <= |input| && |name| >= 1
      modifies this`pos, this`strings, this`entries, this`comments, this`currentEntry
      ensures old(pos) <= pos <= |input|
      ensures Updated(r, pos, Snapshot(), G.DirectiveBody(input, old(pos), convert, old(Snapshot()), name))
    {
      if name == "@string" {
        r := StringDef();
      } else if name == "@preamble" {
        r := Preamble();
      } else if name == "@comment" {
        r := Comment();
      } else {
        r := EntryBody(name);
      }
    }

    /** One pass of the loop in `bibtex()`: a directive, `{`, its body, `}`. */
    method DirectiveStep() returns (r: Result<()>)
      requires pos <= |input|
      modifies this`pos, this`strings, this`entries, this`comments, this`currentEntry
      ensures old(pos) <= pos <= |input|
      ensures Updated(r, pos, Snapshot(), G.DirectiveStep(input, old(pos), convert, old(Snapshot())))
    {
      ghost var p0, t0 := pos, Snapshot();
      ghost var spec := G.DirectiveStep(input, p0, convert, t0);
      var d := Directive();
      if d.Err? {
        G.DirectiveStepNoName(input, p0, convert, t0);
        return Err(d.error);
      }
      ghost var nameStep := Step(d.value, pos);
      var name := Lower(d.value);
      var brace := Match('{');
      if brace.Err? {
        G.DirectiveStepNoBrace(input, p0, convert, t0, nameStep);
        return Err(brace.error);
      }
      G.DirectiveStepRead(input, p0, convert, t0, nameStep, pos);
      assert Snapshot() == t0;
      ghost var rest := G.BodyThenClose(input, pos, convert, t0, name);
      assert spec == rest;
      r := BodyThenClose(name);
      assert Updated(r, pos, Snapshot(), rest);
    }

    /** The body of a directive and its closing `}`. */
    method BodyThenClose(name: string) returns (r: Result<()>)
      requires pos <= |input| && |name| >= 1
      modifies this`pos, this`strings, this`entries, this`comments, this`currentEntry
      ensures old(pos) <= pos <= |input|
      ensures Updated(r, pos, Snapshot(), G.BodyThenClose(input, old(pos), convert, old(Snapshot()), name))
    {
      ghost var spec := G.BodyThenClose(input, pos, convert, Snapshot(), name);
      ghost var body := G.DirectiveBody(input, pos, convert, Snapshot(), name);
      r := DirectiveBody(name);
      if r.Err? {
        assert spec == Err(r.error);
        return;
      }
      var close := Match('}');
      if close.Err? {
        assert spec == Err(close.error);
        return Err(close.error);
      }
      assert spec == Ok(Step(body.value.val, pos));
    }

    method Bibtex() returns (r: Result<()>)
      requires pos <= |input|
      modifies this`pos, this`strings, this`entries, this`comments, this`currentEntry
      ensures old(pos) <= pos <= |input|
      ensures match G.Directives(input, old(pos), convert, old(Snapshot()))
              case Ok(st) => r == Ok(()) && pos == st.next && Snapshot() == G.Publish(st.val)
              case Err(e) => r == Err(e)
    {
      ghost var before := pos;
      var more := TryMatch('@');
      while more
        invariant old(pos) <= before <= pos <= |input|
        invariant pos == G.SkipWs(input, before)
        invariant more == G.TryMatch(input, before, '@')
        invariant G.Directives(input, old(pos), convert, old(Snapshot())) ==
                  G.Directives(input, before, convert, Snapshot())
        decreases |input| - pos
      {
        r := DirectiveStep();
        if r.Err? {
          return;
        }
        before := pos;
        more := TryMatch('@');
      }
      entries := Put(entries, "@comments", CommentsSlot(comments));
      return Ok(());
    }
  }

  /** `parseString(string, asObject)`: read the whole input with a fresh
      reader, delete `@comments`, and return the records or the object. */
  method ParseString(input: string, convert: string -> Option<string>, asObject: bool)
    returns (r: Result<G.Parsed>)
    ensures r == G.ParseString(input, convert, asObject)
  {
    var parser := new BibTeXParser(input, convert);
    var outcome := parser.Bibtex();
    ghost var spec := G.Bibtex(input, convert);
    if outcome.Err? {
      assert spec.Err? && spec.error == outcome.error;
      return Err(outcome.error);
    }
    assert spec.Ok? && parser.entries == spec.value.val.entries;
    parser.entries := Remove(parser.entries, "@comments");
    var records := G.EntriesOf(parser.entries);
    if asObject {
      return Ok(G.AsObject(records));
    }
    return Ok(G.AsList(Values(records)));
  }
}
