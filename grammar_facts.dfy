/** Properties of the reader, stated and proved about the functions of module
    Grammar (and so, through the class's contracts, about the reader). */
module GrammarFacts {
  import opened Results
  import opened Text
  import opened OrderedMaps
  import opened Records
  import opened Grammar

  // ------------------------------------------------------------------
  // Lexing

  /** At a character that is neither whitespace nor `%`, nothing is skipped. */
  lemma SkipWsAtToken(s: string, p: nat)
    requires p < |s| && !IsWhitespace(s[p]) && s[p] != '%'
    ensures SkipWs(s, p) == p
  {
  }

  /** When the cursor moves, the first character skipped is whitespace or `%`. */
  lemma SkipWsSkipsBlanks(s: string, p: nat)
    requires p < |s| && SkipWs(s, p) > p
    ensures IsWhitespace(s[p]) || s[p] == '%'
  {
  }

  /** `s[p..r]` is whitespace and `%` comments, each comment running up to a
      newline, or up to the end of the input when `r` is that end. */
  predicate Blanks(s: string, p: nat, r: nat)
    decreases r - p
  {
    p <= r <= |s| &&
    (p == r ||
     (IsWhitespace(s[p]) && Blanks(s, p + 1, r)) ||
     (s[p] == '%' && InComment(s, p + 1, r)))
  }

  /** `s[i..r]` is the rest of a `%` comment and then `Blanks`. */
  predicate InComment(s: string, i: nat, r: nat)
    decreases r - i
  {
    i <= r <= |s| &&
    ((i == r && r == |s|) ||
     (i < r && s[i] == '\n' && Blanks(s, i + 1, r)) ||
     (i < r && s[i] != '\n' && InComment(s, i + 1, r)))
  }

  /** Everything `SkipWs` passes over is whitespace or lies in a `%` comment,
      so with its own contract it stops at the first character that is
      neither, outside a comment: no token is ever skipped. */
  lemma {:induction false} SkipWsSkipsOnlyBlanks(s: string, p: nat)
    requires p <= |s|
    ensures Blanks(s, p, SkipWs(s, p))
    decreases |s| - p
  {
    var q := WsEnd(s, p);
    WsEndRun(s, p);
    var r := SkipWs(s, p);
    if q < |s| && s[q] == '%' {
      var c := FindChar(s, q, '\n');
      assert r == SkipWs(s, c);
      SkipWsSkipsOnlyBlanks(s, c);
      if c < |s| {
        assert InComment(s, c, r);
      }
      CommentRunsTo(s, q + 1, c, r);
      assert Blanks(s, q, r);
    }
    BlanksAfterSpaces(s, p, q, r);
  }

  /** Whitespace before `Blanks` is part of them. */
  lemma {:induction false} BlanksAfterSpaces(s: string, p: nat, q: nat, r: nat)
    requires p <= q <= |s| && (forall i :: p <= i < q ==> IsWhitespace(s[i])) && Blanks(s, q, r)
    ensures Blanks(s, p, r)
    decreases q - p
  {
    if p < q {
      BlanksAfterSpaces(s, p + 1, q, r);
    }
  }

  /** Non-newline characters before the rest of a comment belong to it. */
  lemma {:induction false} CommentRunsTo(s: string, i: nat, c: nat, r: nat)
    requires i <= c <= |s| && (forall k :: i <= k < c ==> s[k] != '\n')
    requires c == r == |s| || InComment(s, c, r)
    ensures InComment(s, i, r)
    decreases c - i
  {
    if i < c {
      CommentRunsTo(s, i + 1, c, r);
    }
  }

  /** `match(c)` moves the cursor past exactly one `c` and the blanks around it. */
  lemma MatchConsumesToken(s: string, p: nat, c: char)
    requires p <= |s| && Match(s, p, c).Ok?
    ensures var q := SkipWs(s, p);
            q < |s| && s[q] == c && Match(s, p, c).value == SkipWs(s, q + 1)
  {
  }

  // ------------------------------------------------------------------
  // Braced values

  /** How the brace scan's depth changes at index `k`. */
  function Delta(s: string, k: nat): int
    requires k < |s|
  {
    if s[k] == '{' && !Escaped(s, k) then 1
    else if s[k] == '}' && !Escaped(s, k) then -1
    else 0
  }

  /** Net change of depth over `s[i..j]`: unescaped `{` minus unescaped `}`. */
  function Net(s: string, i: nat, j: nat): int
    requires i <= j <= |s|
    decreases j - i
  {
    if j == i then 0 else Net(s, i, j - 1) + Delta(s, j - 1)
  }

  /** An unescaped `}` stands at `k`. */
  predicate Closes(s: string, k: nat) {
    k < |s| && s[k] == '}' && !Escaped(s, k)
  }

  /** `c` is the brace that closes a scan started at `i` with depth `d`: the
      first unescaped `}` at which the depth is back to zero. */
  predicate MatchingClose(s: string, i: nat, d: nat, c: nat) {
    i <= c < |s| && Closes(s, c) && d + Net(s, i, c) == 0 &&
    forall j :: i <= j < c && Closes(s, j) ==> d + Net(s, i, j) > 0
  }

  lemma {:induction false} NetShift(s: string, i: nat, j: nat)
    requires i < j <= |s|
    ensures Net(s, i, j) == Delta(s, i) + Net(s, i + 1, j)
    decreases j - i
  {
    if j > i + 1 {
      NetShift(s, i, j - 1);
    }
  }

  /** The brace scan finds exactly the matching closing brace. */
  lemma {:induction false} BraceCloseMatches(s: string, i: nat, d: nat, c: nat)
    requires i <= |s|
    ensures BraceClose(s, i, d) == Some(c) <==> MatchingClose(s, i, d, c)
    decreases |s| - i
  {
    if i < |s| {
      if i < c <= |s| {
        NetShift(s, i, c);
        forall j | i < j < c
          ensures Net(s, i, j) == Delta(s, i) + Net(s, i + 1, j)
        {
          NetShift(s, i, j);
        }
      }
      if s[i] == '}' && !Escaped(s, i) {
        if d > 0 {
          BraceCloseMatches(s, i + 1, d - 1, c);
        } else if c > i {
          assert !MatchingClose(s, i, d, c) by {
            assert Closes(s, i) && d + Net(s, i, i) == 0;
          }
        }
      } else if s[i] == '{' && !Escaped(s, i) {
        BraceCloseMatches(s, i + 1, d + 1, c);
      } else {
        BraceCloseMatches(s, i + 1, d, c);
      }
    }
  }

  /** `value_braces` returns exactly the text between the opening brace and
      its matching closing brace, and fails "Unterminated" exactly when there
      is no matching brace. */
  lemma ValueBracesExact(s: string, p: nat, c: nat)
    requires p <= |s| && Match(s, p, '{').Ok?
    ensures var o := Match(s, p, '{').value;
            MatchingClose(s, o, 0, c) <==>
            (ValueBraces(s, p).Ok? && o + |ValueBraces(s, p).value.val| == c &&
             ValueBraces(s, p).value.val == s[o..c])
  {
    var o := Match(s, p, '{').value;
    BraceCloseMatches(s, o, 0, c);
    match BraceClose(s, o, 0)
    case None =>
    case Some(c') =>
      SkipWsAtToken(s, c');
  }

  lemma ValueBracesUnterminated(s: string, p: nat)
    requires p <= |s| && Match(s, p, '{').Ok?
    ensures var o := Match(s, p, '{').value;
            ValueBraces(s, p) == Err(Unterminated) <==> forall c :: !MatchingClose(s, o, 0, c)
  {
    var o := Match(s, p, '{').value;
    match BraceClose(s, o, 0)
    case None =>
      forall c ensures !MatchingClose(s, o, 0, c) {
        BraceCloseMatches(s, o, 0, c);
      }
    case Some(c') =>
      BraceCloseMatches(s, o, 0, c');
      SkipWsAtToken(s, c');
  }

  // ------------------------------------------------------------------
  // Quoted values

  /** `value_quotes` returns the text up to the first unescaped `"`, with no
      nesting. */
  lemma ValueQuotesExact(s: string, p: nat)
    requires p <= |s| && ValueQuotes(s, p).Ok?
    ensures var o := Match(s, p, '"').value;
            var v := ValueQuotes(s, p).value.val;
            o + |v| < |s| && v == s[o..o + |v|] && s[o + |v|] == '"' && !Escaped(s, o + |v|) &&
            forall j :: o <= j < o + |v| ==> !(s[j] == '"' && !Escaped(s, j))
  {
    QuoteCloseFirst(s, Match(s, p, '"').value);
  }

  /** With no unescaped `"` after the opening one, the value is unterminated. */
  lemma ValueQuotesUnterminated(s: string, p: nat)
    requires p <= |s| && Match(s, p, '"').Ok?
    requires forall j :: Match(s, p, '"').value <= j < |s| ==> !(s[j] == '"' && !Escaped(s, j))
    ensures ValueQuotes(s, p) == Err(Unterminated)
  {
    QuoteCloseFirst(s, Match(s, p, '"').value);
    assert QuoteClose(s, Match(s, p, '"').value).None?;
  }

  /** With an unescaped `"` after the opening one, the quoted value is read. */
  lemma ValueQuotesCloses(s: string, p: nat, j: nat)
    requires p <= |s| && Match(s, p, '"').Ok?
    requires Match(s, p, '"').value <= j < |s| && s[j] == '"' && !Escaped(s, j)
    ensures ValueQuotes(s, p).Ok?
  {
    var o := Match(s, p, '"').value;
    QuoteCloseFirst(s, o);
    SkipWsAtToken(s, QuoteClose(s, o).value);
  }

  // ------------------------------------------------------------------
  // Macros and concatenation

  lemma UpperOfUpper(k: string)
    requires forall i :: 0 <= i < |k| ==> !('a' <= k[i] <= 'z')
    ensures Upper(k) == k
  {
  }

  /** Only the spelling the table uses expands: when every macro name is
      upper case, a reference containing a lower-case letter whose upper-case
      form is defined resolves to the empty text. */
  lemma LowerCaseReferenceIsEmpty(k: string, strings: map<string, string>)
    requires MacrosUpper(strings) && Upper(k) != k && Truthy(strings, Upper(k))
    ensures Resolve(k, strings) == Ok("")
  {
  }

  /** An upper-case reference to a defined macro expands to its text. */
  lemma UpperCaseReferenceExpands(k: string, strings: map<string, string>)
    requires Upper(k) == k && Truthy(strings, k)
    ensures Resolve(k, strings) == Ok(strings[k])
  {
  }

  /** The month abbreviations: `JAN` expands, `jan` gives the empty text. */
  lemma MonthReferences()
    ensures Resolve("JAN", Months) == Ok("January")
    ensures Resolve("jan", Months) == Ok("")
  {
    UpperOfUpper("JAN");
    assert Upper("jan") == "JAN";
  }

  /** An empty macro counts as undefined: a reference to it that is not all
      digits fails "Value expected". */
  lemma EmptyMacroIsAbsent(k: string, strings: map<string, string>)
    requires Upper(k) in strings && strings[Upper(k)] == "" && !AllDigits(k)
    ensures Resolve(k, strings) == Err(ValueExpected)
  {
  }

  /** `@string` stores the value under the upper-cased name, so a later
      upper-case reference to a non-empty definition expands to it. */
  lemma StringDefThenResolve(s: string, p: nat, t: Tables)
    requires p <= |s| && StringDef(s, p, t).Ok?
    ensures var kv := KeyEqualsValue(s, p, t.strings).value.val;
            var u := StringDef(s, p, t).value.val;
            u.strings == t.strings[Upper(kv.0) := kv.1] &&
            u.entries == t.entries && u.comments == t.comments &&
            (kv.1 != "" ==> Resolve(Upper(kv.0), u.strings) == Ok(kv.1))
  {
    var kv := KeyEqualsValue(s, p, t.strings).value.val;
    UpperIdempotent(kv.0);
  }

  /** Joining with the empty separator is plain concatenation. */
  lemma JoinEmptyAppend(pieces: seq<string>, v: string)
    requires |pieces| >= 1
    ensures Join(pieces + [v], "") == Join(pieces, "") + v
    decreases |pieces|
  {
    if |pieces| == 1 {
      assert (pieces + [v])[1..] == [v];
    } else {
      assert (pieces + [v])[1..] == pieces[1..] + [v];
      JoinEmptyAppend(pieces[1..], v);
    }
  }

  /** From `p`, the `#` loop meets the single values `vals`, each after a
      `#`, and the last of them ends at `q`. */
  predicate HashRun(s: string, p: nat, strings: map<string, string>, vals: seq<string>, q: nat)
    decreases |vals|
  {
    p <= |s| &&
    if vals == [] then q == p
    else
      TryMatch(s, p, '#') && Match(s, SkipWs(s, p), '#').Ok? &&
      var v := SingleValue(s, Match(s, SkipWs(s, p), '#').value, strings);
      v.Ok? && v.value.val == vals[0] && HashRun(s, v.value.next, strings, vals[1..], q)
  }

  /** The `#` loop adds every single value it meets to the pieces read so
      far, and stops after the last one with the pieces joined. */
  lemma {:induction false} ValueTailConcat(s: string, p: nat, strings: map<string, string>,
                                           pieces: seq<string>, vals: seq<string>, q: nat)
    requires HashRun(s, p, strings, vals, q) && q <= |s| && !TryMatch(s, q, '#')
    ensures ValueTail(s, p, strings, pieces) == Ok(Step(Join(pieces + vals, ""), SkipWs(s, q)))
    decreases |vals|
  {
    if vals == [] {
      assert pieces + vals == pieces;
    } else {
      var h := Match(s, SkipWs(s, p), '#').value;
      var v := SingleValue(s, h, strings).value;
      assert pieces + vals == (pieces + [vals[0]]) + vals[1..];
      ValueTailConcat(s, v.next, strings, pieces + [vals[0]], vals[1..], q);
    }
  }

  /** `a # b # ...`: a value is the concatenation of all its single values,
      and the cursor ends after the last one and its blanks. */
  lemma ValueConcatenatesAll(s: string, p: nat, strings: map<string, string>,
                             a: Step<string>, vals: seq<string>, q: nat)
    requires p <= |s| && SingleValue(s, p, strings) == Ok(a)
    requires HashRun(s, a.next, strings, vals, q) && q <= |s| && !TryMatch(s, q, '#')
    ensures Value(s, p, strings) == Ok(Step(Concat([a.val] + vals), SkipWs(s, q)))
  {
    ValueTailConcat(s, a.next, strings, [a.val], vals, q);
    JoinEmptyConcat([a.val] + vals);
  }

  /** `a # b`: two single values joined by `#` give their concatenation,
      the two-piece case of `ValueConcatenatesAll`. */
  lemma ValueConcatenates(s: string, p: nat, strings: map<string, string>,
                          a: Step<string>, h: nat, b: Step<string>)
    requires p <= |s|
    requires SingleValue(s, p, strings) == Ok(a) && TryMatch(s, a.next, '#')
    requires Match(s, SkipWs(s, a.next), '#') == Ok(h) && SingleValue(s, h, strings) == Ok(b)
    requires !TryMatch(s, b.next, '#')
    ensures Value(s, p, strings) == Ok(Step(a.val + b.val, SkipWs(s, b.next)))
  {
    assert [b.val][1..] == [];
    assert HashRun(s, b.next, strings, [], b.next);
    assert HashRun(s, a.next, strings, [b.val], b.next);
    ValueConcatenatesAll(s, p, strings, a, [b.val], b.next);
    assert Concat([b.val]) == b.val + "" == b.val;
    assert [a.val] + [b.val] == [a.val, b.val] && [a.val, b.val][1..] == [b.val];
    assert Concat([a.val, b.val]) == a.val + b.val;
  }

  /** A bare digit string that names no macro is its own value. */
  lemma DigitsReadVerbatim(k: string, strings: map<string, string>)
    requires AllDigits(k) && !Truthy(strings, k)
    ensures Resolve(k, strings) == Ok(k)
  {
    UpperOfUpper(k);
  }

  // ------------------------------------------------------------------
  // Fields and entries

  /** A pair read by `key_equals_value` is the key, then `=`, then the value
      read after it. */
  lemma KeyEqualsValueParts(s: string, p: nat, strings: map<string, string>)
    requires p <= |s| && KeyEqualsValue(s, p, strings).Ok?
    ensures Key(s, p).Ok? && TryMatch(s, Key(s, p).value.next, '=')
    ensures var k := Key(s, p).value;
            var e := Match(s, SkipWs(s, k.next), '=');
            var kv := KeyEqualsValue(s, p, strings).value;
            kv.val.0 == k.val && e.Ok? &&
            Value(s, e.value, strings) == Ok(Step(kv.val.1, kv.next))
  {
  }

  /** An author without a comma is the segment trimmed. */
  lemma AuthorWithoutComma(seg: string)
    requires ',' !in seg
    ensures NormalizeAuthor(seg) == Trim(seg)
  {
    SplitWholeChar(seg, ',');
  }

  /** `Last, First` becomes `First Last`, each part trimmed. */
  lemma AuthorLastFirst(last: string, first: string)
    requires ',' !in last && ',' !in first
    ensures NormalizeAuthor(last + "," + first) == Trim(first) + " " + Trim(last)
  {
    var seg := last + "," + first;
    assert seg == last + [','] + first;
    OccursChar(seg, ',', |last|);
    assert IndexOf(seg, ",", 0).Some?;
    SplitAtChar(last, ',', first);
    SplitWholeChar(first, ',');
  }

  /** Text after a second comma is dropped. */
  lemma AuthorExtraCommaDropped(last: string, first: string, rest: string)
    requires ',' !in last && ',' !in first
    ensures NormalizeAuthor(last + "," + first + "," + rest) == Trim(first) + " " + Trim(last)
  {
    var seg := last + "," + first + "," + rest;
    assert seg == last + [','] + (first + [','] + rest);
    OccursChar(seg, ',', |last|);
    assert IndexOf(seg, ",", 0).Some?;
    SplitAtChar(last, ',', first + [','] + rest);
    SplitAtChar(first, ',', rest);
  }

  /** A text without `" and "` is one author. */
  lemma AuthorsSingle(x: string)
    requires forall j :: !Occurs(x, j, " and ")
    ensures Authors(x) == [NormalizeAuthor(x)]
  {
    SplitWhole(x, " and ");
  }

  /** The text before the first `" and "` is the first author, and the
      authors after it follow in order. */
  lemma AuthorsCons(x: string, y: string)
    requires forall j :: 0 <= j < |x| ==> !Occurs(x + " and " + y, j, " and ")
    ensures Authors(x + " and " + y) == [NormalizeAuthor(x)] + Authors(y)
  {
    SplitAt(x, " and ", y);
  }

  /** `" and "` holds a `d`, so it does not occur in a text without one. */
  lemma NoAndWithoutD(x: string, j: nat)
    requires 'd' !in x
    ensures !Occurs(x, j, " and ")
  {
    if j + 5 <= |x| {
      assert x[j..j + 5][3] == x[j + 3];
    }
  }

  /** Nor does it start inside such a text when `" and "` follows it. */
  lemma NoAndBeforeSeparator(x: string, y: string, j: nat)
    requires 'd' !in x && j < |x|
    ensures !Occurs(x + " and " + y, j, " and ")
  {
    var s := x + " and " + y;
    if j + 5 <= |s| {
      if j + 3 < |x| {
        assert s[j..j + 5][3] == s[j + 3] == x[j + 3];
      } else {
        assert s[j..j + 5][|x| - j] == s[|x|] == ' ';
      }
    }
  }

  /** A text without `d` is one author, and it is the first author when
      `" and "` and more authors follow. */
  lemma AuthorsWithoutD(x: string, y: string)
    requires 'd' !in x
    ensures Authors(x) == [NormalizeAuthor(x)]
    ensures Authors(x + " and " + y) == [NormalizeAuthor(x)] + Authors(y)
  {
    forall j ensures !Occurs(x, j, " and ") {
      NoAndWithoutD(x, j);
    }
    AuthorsSingle(x);
    forall j | 0 <= j < |x| ensures !Occurs(x + " and " + y, j, " and ") {
      NoAndBeforeSeparator(x, y, j);
    }
    AuthorsCons(x, y);
  }

  /** `Last, First` with a single blank after the comma becomes
      `First Last`. */
  lemma NameSwapped(last: string, first: string)
    requires ',' !in last && ',' !in first && Trimmed(last) && Trimmed(first)
    ensures NormalizeAuthor(last + ", " + first) == first + " " + last
  {
    AuthorLastFirst(last, " " + first);
    TrimUntouched(last);
    TrimOneBlank(first);
    CommaBlank(last, first);
  }

  /** `", "` is a comma followed by a blank. */
  lemma CommaBlank(last: string, first: string)
    ensures last + ", " + first == last + "," + (" " + first)
  {
  }

  /** Two `Last, First` names joined by `and` (such as
      `Smith, John and Doe, Jane`) become two `First Last` names
      (`John Smith`, `Jane Doe`). */
  lemma AuthorsPairLastFirst(l1: string, f1: string, l2: string, f2: string)
    requires ',' !in l1 && ',' !in f1 && ',' !in l2 && ',' !in f2
    requires 'd' !in l1 && 'd' !in f1 && 'd' !in l2 && 'd' !in f2
    requires Trimmed(l1) && Trimmed(f1) && Trimmed(l2) && Trimmed(f2)
    ensures Authors((l1 + ", " + f1) + " and " + (l2 + ", " + f2)) == [f1 + " " + l1, f2 + " " + l2]
  {
    var x, y := l1 + ", " + f1, l2 + ", " + f2;
    AuthorsWithoutD(x, y);
    AuthorsWithoutD(y, "");
    NameSwapped(l1, f1);
    NameSwapped(l2, f2);
  }

  /** Two plain names joined by `and` (such as `John Smith and Jane Doe`)
      are two authors, unchanged. */
  lemma AuthorsPairPlain(a: string, b: string)
    requires ',' !in a && ',' !in b && 'd' !in a && 'd' !in b && Trimmed(a) && Trimmed(b)
    ensures Authors(a + " and " + b) == [a, b]
  {
    AuthorsWithoutD(a, b);
    AuthorsWithoutD(b, "");
    AuthorWithoutComma(a);
    AuthorWithoutComma(b);
    TrimUntouched(a);
    TrimUntouched(b);
  }

  /** A field name is stored lower-cased, and a later assignment to a name
      with the same lower-case form replaces the earlier one in place. */
  lemma StoreFieldLastWins(convert: string -> Option<string>, fields: OMap<Field>,
                           kv1: (string, string), kv2: (string, string))
    requires IsKeyString(kv1.0) && IsKeyString(kv2.0) && Lower(kv1.0) == Lower(kv2.0)
    ensures StoreField(convert, StoreField(convert, fields, kv1), kv2) == StoreField(convert, fields, kv2)
  {
    PutPut(fields, Lower(kv1.0), ProcessValue(convert, kv1.0, kv1.1), ProcessValue(convert, kv2.0, kv2.1));
  }

  /** A lower-cased name is never `entryType` or `entryKey`, so no field can
      overwrite the record's type or key. */
  lemma LowerNeverReserved(n: string)
    ensures Lower(n) != "entryType" && Lower(n) != "entryKey"
  {
    if |n| == 9 {
      assert Lower(n)[5] != 'T';
    }
    if |n| == 8 {
      assert Lower(n)[5] != 'K';
    }
  }

  /** The field list needs a first field: a `}` where its key should start
      fails "equals sign missing". */
  lemma FieldListNeedsAField(s: string, p: nat, strings: map<string, string>,
                             convert: string -> Option<string>, fields: OMap<Field>)
    requires p < |s| && s[p] == '}'
    ensures KeyValueList(s, p, strings, convert, fields) == Err(EqualsMissing)
  {
    assert Key(s, p) == Ok(Step([], p));
  }

  /** `@a{k,}` is rejected: an entry must have at least one field. */
  lemma EntryWithoutFieldsFails(convert: string -> Option<string>)
    ensures ParseString("@a{k,}", convert, true) == Err(EqualsMissing)
  {
    var s := "@a{k,}";
    NoFieldsDirective(s);
    NoFieldsKey(s);
    assert Lower("@a") == "@a";
    FieldListNeedsAField(s, 5, Initial().strings, convert, Empty());
    assert EntryBody(s, 3, convert, Initial(), "@a") == Err(EqualsMissing);
    assert DirectiveBody(s, 3, convert, Initial(), "@a") == Err(EqualsMissing);
    assert DirectiveStep(s, 0, convert, Initial()) == Err(EqualsMissing);
  }

  /** In `@a{k,}`, `directive()` reads `@a`. */
  lemma NoFieldsDirective(s: string)
    requires s == "@a{k,}"
    ensures Directive(s, 0) == Ok(Step("@a", 2))
  {
    assert SkipWs(s, 0) == 0;
    assert Match(s, 0, '@') == Ok(1);
    assert IsKeyChar(s[1]) && !IsKeyChar(s[2]);
    assert KeyEnd(s, 1) == 2;
    assert s[1..2] == "a";
    assert Key(s, 1) == Ok(Step("a", 2));
    assert "@" + "a" == "@a";
  }

  /** In `@a{k,}`, the `{`, the key `k` and the comma are read. */
  lemma NoFieldsKey(s: string)
    requires s == "@a{k,}"
    ensures Match(s, 2, '{') == Ok(3) && Key(s, 3) == Ok(Step("k", 4)) && Match(s, 4, ',') == Ok(5)
  {
    assert Match(s, 2, '{') == Ok(3);
    assert IsKeyChar(s[3]) && !IsKeyChar(s[4]);
    assert KeyEnd(s, 3) == 4;
    assert s[3..4] == "k";
  }

  /** `@a{k,t=}` is rejected: a field needs a value after its `=`. The
      record, its key and the field name are read; the value is an empty
      bare name, which is neither a macro nor a number. */
  lemma EntryWithoutValueFails(convert: string -> Option<string>)
    ensures ParseString("@a{k,t=}", convert, true) == Err(ValueExpected)
  {
    var s := "@a{k,t=}";
    MissingValueHeader(s);
    MissingValueField(s, Initial().strings);
    assert Lower("@a") == "@a";
    assert KeyValueList(s, 5, Initial().strings, convert, Empty()) == Err(ValueExpected);
    assert EntryBody(s, 3, convert, Initial(), "@a") == Err(ValueExpected);
    assert DirectiveBody(s, 3, convert, Initial(), "@a") == Err(ValueExpected);
    assert DirectiveStep(s, 0, convert, Initial()) == Err(ValueExpected);
  }

  /** In `@a{k,t=}`, the directive `@a`, the `{`, the key `k` and the comma
      are read. */
  lemma MissingValueHeader(s: string)
    requires s == "@a{k,t=}"
    ensures Directive(s, 0) == Ok(Step("@a", 2))
    ensures Match(s, 2, '{') == Ok(3) && Key(s, 3) == Ok(Step("k", 4)) && Match(s, 4, ',') == Ok(5)
  {
    assert SkipWs(s, 0) == 0;
    assert Match(s, 0, '@') == Ok(1);
    assert IsKeyChar(s[1]) && !IsKeyChar(s[2]);
    assert KeyEnd(s, 1) == 2;
    assert s[1..2] == "a";
    assert Key(s, 1) == Ok(Step("a", 2));
    assert "@" + "a" == "@a";
    assert Match(s, 2, '{') == Ok(3);
    assert IsKeyChar(s[3]) && !IsKeyChar(s[4]);
    assert KeyEnd(s, 3) == 4;
    assert s[3..4] == "k";
  }

  /** In `@a{k,t=}`, the field name `t` and the `=` are read, and the value
      after it fails. */
  lemma MissingValueField(s: string, strings: map<string, string>)
    requires s == "@a{k,t=}" && "" !in strings
    ensures Key(s, 5) == Ok(Step("t", 6)) && TryMatch(s, 6, '=') && Match(s, 6, '=') == Ok(7)
    ensures Value(s, 7, strings) == Err(ValueExpected)
    ensures KeyEqualsValue(s, 5, strings) == Err(ValueExpected)
  {
    assert IsKeyChar(s[5]) && !IsKeyChar(s[6]);
    assert KeyEnd(s, 5) == 6;
    assert s[5..6] == "t";
    assert SkipWs(s, 6) == 6;
    assert s[7] == '}';
    FieldListNeedsAField(s, 7, strings, id => None, Empty());
    assert Key(s, 7) == Ok(Step([], 7));
    assert Upper([]) == [];
    assert SingleValue(s, 7, strings) == Err(ValueExpected);
  }

  /** A trailing comma before the closing brace ends the field list. */
  lemma TrailingCommaAccepted(s: string, p: nat, strings: map<string, string>,
                              convert: string -> Option<string>, fields: OMap<Field>)
    requires p <= |s| && TryMatch(s, p, ',')
    requires TryMatch(s, Match(s, SkipWs(s, p), ',').value, '}')
    ensures var c := Match(s, SkipWs(s, p), ',').value;
            FieldTail(s, p, strings, convert, fields) == Ok(Step(fields, c))
  {
    var c := Match(s, SkipWs(s, p), ',').value;
    SkipWsIdempotent(s, SkipWs(s, p) + 1);
  }

  /** An entry directive stores a fresh record under its citation key, with
      the type taken from the directive name; a key seen before keeps its
      place and gets the new record. */
  lemma EntryBodyStores(s: string, p: nat, convert: string -> Option<string>, t: Tables, d: string)
    requires p <= |s| && |d| >= 1 && EntryBody(s, p, convert, t, d).Ok?
    ensures var k := Key(s, p).value;
            var c := Match(s, k.next, ',').value;
            var f := KeyValueList(s, c, t.strings, convert, Empty()).value;
            var u := EntryBody(s, p, convert, t, d).value.val;
            u.current == k.val &&
            u.entries.vals[k.val] == EntrySlot(Entry(d[1..], k.val, f.val)) &&
            (forall j :: j != k.val ==> (j in u.entries.vals <==> j in t.entries.vals)) &&
            (forall j :: j != k.val && j in t.entries.vals ==> u.entries.vals[j] == t.entries.vals[j]) &&
            (k.val in t.entries.vals ==> u.entries.keys == t.entries.keys) &&
            u.strings == t.strings && u.comments == t.comments
  {
  }

  // ------------------------------------------------------------------
  // Comments and the top level

  /** `@comment` appends the raw text up to the first `}`, whatever it
      holds, and leaves the cursor on that brace. */
  lemma CommentAppends(s: string, p: nat, t: Tables)
    requires p <= |s| && '}' in s[p..]
    ensures Comment(s, p, t).Ok?
    ensures var u := Comment(s, p, t).value;
            s[u.next] == '}' && '}' !in s[p..u.next] &&
            u.val == t.(comments := t.comments + [s[p..u.next]])
  {
    var i :| 0 <= i < |s[p..]| && s[p..][i] == '}';
    assert s[p + i] == '}';
    assert FindChar(s, p, '}') <= p + i;
  }

  /** Text that does not start with `@` ends the directive loop and is
      ignored: the tables stay as they are. */
  lemma LeftoverIgnored(s: string, p: nat, convert: string -> Option<string>, t: Tables)
    requires p <= |s| && !TryMatch(s, p, '@')
    ensures Directives(s, p, convert, t) == Ok(Step(t, SkipWs(s, p)))
  {
  }

  /** No entry key contains `@`, so `@comments` is never an entry. */
  lemma CommentsKeyIsNoEntryKey()
    ensures !IsKeyString("@comments")
  {
    assert !IsKeyChar("@comments"[0]);
  }

  /** Deleting `@comments` never removes an entry: `parseString` returns
      every record the directives stored, in the order they were first
      stored, and fails exactly when the directives fail. */
  lemma ParseStringKeepsEntries(s: string, convert: string -> Option<string>)
    ensures Directives(s, 0, convert, Initial()).Err? <==> ParseString(s, convert, true).Err?
    ensures Directives(s, 0, convert, Initial()).Ok? ==>
            var tables := Directives(s, 0, convert, Initial()).value.val;
            var table := ParseString(s, convert, true).value.table;
            table.keys == tables.entries.keys &&
            (forall k :: k in table.vals <==> k in tables.entries.vals) &&
            (forall k :: k in tables.entries.vals ==>
                         EntrySlot(table.vals[k]) == tables.entries.vals[k])
  {
    InitialWellFormed();
    if Directives(s, 0, convert, Initial()).Ok? {
      var tables := Directives(s, 0, convert, Initial()).value.val;
      CommentsKeyIsNoEntryKey();
      assert "@comments" !in tables.entries.vals;
      var published := Publish(tables).entries;
      assert published.keys == tables.entries.keys + ["@comments"];
      assert "@comments" !in tables.entries.keys;
      WithoutAppended(tables.entries.keys, "@comments");
    }
  }

  lemma {:induction false} WithoutAppended(ks: seq<string>, k: string)
    requires k !in ks
    ensures Without(ks + [k], k) == ks
    decreases |ks|
  {
    if ks != [] {
      assert (ks + [k])[1..] == ks[1..] + [k];
      WithoutAppended(ks[1..], k);
    } else {
      assert Without([k][1..], k) == [];
    }
  }

  /** The list form is the object form's records in key order. */
  lemma ParseStringForms(s: string, convert: string -> Option<string>)
    ensures ParseString(s, convert, true).Ok? <==> ParseString(s, convert, false).Ok?
    ensures ParseString(s, convert, true).Ok? ==>
            var table := ParseString(s, convert, true).value.table;
            var records := ParseString(s, convert, false).value.records;
            table.Valid() && |records| == |table.keys| &&
            forall i :: 0 <= i < |records| ==> records[i] == table.vals[table.keys[i]]
  {
  }
}
