/** Reading back what the serialiser writes: `parseString(buildEntry(r), true)`
    gives back `r`'s type, key, field order and raw values, for every record
    the serialiser can write unambiguously. */
module RoundTrip {
  import opened Results
  import opened Text
  import opened OrderedMaps
  import opened Records
  import opened Grammar
  import opened GrammarFacts
  import opened Builder

  // ------------------------------------------------------------------
  // Which records come back unchanged

  /** A raw value that survives `{...}`: braces balanced under the backslash
      rule, no leading blank or `%` (the reader skips those after `{`), and
      no trailing backslash (it would escape the closing brace). */
  predicate GoodValue(v: string) {
    Net(v, 0, |v|) == 0 &&
    (forall j :: 0 <= j < |v| && Closes(v, j) ==> Net(v, 0, j) > 0) &&
    (|v| > 0 ==> !IsWhitespace(v[0]) && v[0] != '%' && v[|v| - 1] != '\\')
  }

  /** A field the reader can store back under the same name: a lower-case
      key string (the empty name included) and a good value. */
  predicate GoodField(n: string, f: Field) {
    IsKeyString(n) && Lower(n) == n && GoodValue(f.rawValue)
  }

  /** A record the serialiser writes so that the reader gets it back. */
  predicate RoundTrippable(e: Entry) {
    e.fields.Valid() && |e.fields.keys| >= 1 &&
    IsKeyString(e.entryType) && Lower(e.entryType) == e.entryType &&
    RecordType(e.entryType) &&
    IsKeyString(e.entryKey) &&
    forall n :: n in e.fields.vals ==> GoodField(n, e.fields.vals[n])
  }

  /** A directive name the reader treats as a record type rather than one
      of its three special directives. */
  predicate RecordType(t: string) {
    t != "string" && t != "preamble" && t != "comment"
  }

  /** The fields the reader builds from the raw values of `fields`. */
  function Reread(convert: string -> Option<string>, fields: OMap<Field>): OMap<Field> {
    OMap(fields.keys, map n | n in fields.vals :: ProcessValue(convert, n, fields.vals[n].rawValue))
  }

  // ------------------------------------------------------------------
  // Reading pieces of text at a known position

  // ------------------------------------------------------------------
  // One step of the reader, once the parts it reads are known

  /** `match(c)` at a position holding the token `c`. */
  lemma MatchAt(s: string, q: nat, c: char)
    requires q < |s| && s[q] == c && !IsWhitespace(c) && c != '%'
    ensures SkipWs(s, q) == q && TryMatch(s, q, c) && Match(s, q, c) == Ok(SkipWs(s, q + 1))
  {
    SkipWsAtToken(s, q);
  }

  /** `key()` reads a known key that is followed by a non-key character. */
  lemma KeyReads(s: string, p: nat, e: nat, w: string)
    requires e == p + |w| && e < |s| && s[p..e] == w && IsKeyString(w) && !IsKeyChar(s[e])
    ensures Key(s, p) == Ok(Step(w, e))
  {
    assert forall k :: p <= k < e ==> s[k] == w[k - p];
  }

  /** Skipping over known whitespace stops at the next token. */
  lemma SkipWsReads(s: string, p: nat, q: nat)
    requires p <= q < |s| && !IsWhitespace(s[q]) && s[q] != '%'
    requires forall k :: p <= k < q ==> IsWhitespace(s[k])
    ensures SkipWs(s, p) == q
  {
    var e := WsEnd(s, p);
    WsEndRun(s, p);
    assert e == q;
  }

  /** `directive()` once `@` and the name have been read. */
  lemma DirectiveRead(s: string, p: nat, a: nat, k: Step<string>)
    requires p <= |s| && Match(s, p, '@') == Ok(a) && a <= |s| && Key(s, a) == Ok(k)
    ensures Directive(s, p) == Ok(Step("@" + k.val, k.next))
  {
  }

  /** The value loop once one braced value has been read and no `#` follows. */
  lemma ValueRead(s: string, b: nat, strings: map<string, string>, v: string, e: nat)
    requires b <= |s| && SkipWs(s, b) == b && At(s, b, '{') && ValueBraces(s, b) == Ok(Step(v, e))
    requires e <= |s| && SkipWs(s, e) == e && !At(s, e, '#')
    ensures Value(s, b, strings) == Ok(Step(v, e))
  {
    assert SingleValue(s, b, strings) == Ok(Step(v, e));
    assert ValueTail(s, e, strings, [v]) == Ok(Step(Join([v], ""), e));
  }

  /** `key_equals_value()` once its key, `=` and value have been read. */
  lemma KeyEqualsValueRead(s: string, p: nat, strings: map<string, string>,
                           n: string, a: nat, m: nat, e: nat, v: Step<string>)
    requires p <= |s| && Key(s, p) == Ok(Step(n, a)) && a <= |s|
    requires SkipWs(s, a) == m && m < |s| && s[m] == '='
    requires m < e <= |s| && SkipWs(s, m + 1) == e && Value(s, e, strings) == Ok(v)
    ensures KeyEqualsValue(s, p, strings) == Ok(Step((n, v.val), v.next))
  {
    MatchAt(s, m, '=');
  }

  /** One turn of the field loop: a comma, no `}`, and a pair. */
  lemma FieldTailStep(s: string, p: nat, strings: map<string, string>,
                      convert: string -> Option<string>, acc: OMap<Field>,
                      c: nat, kv: Step<(string, string)>)
    requires p < c < |s| && s[p] == ',' && SkipWs(s, p + 1) == c
    requires SkipWs(s, c) == c && s[c] != '}'
    requires KeyEqualsValue(s, c, strings) == Ok(kv)
    ensures IsKeyString(kv.val.0)
    ensures FieldTail(s, p, strings, convert, acc) ==
            FieldTail(s, kv.next, strings, convert, StoreField(convert, acc, kv.val))
  {
    MatchAt(s, p, ',');
  }

  /** The field loop stops at a `}`. */
  lemma FieldTailEnd(s: string, p: nat, strings: map<string, string>,
                     convert: string -> Option<string>, acc: OMap<Field>)
    requires p < |s| && s[p] == '}'
    ensures FieldTail(s, p, strings, convert, acc) == Ok(Step(acc, p))
  {
    SkipWsAtToken(s, p);
  }

  /** `key_value_list()` once its first pair has been read. */
  lemma KeyValueListRead(s: string, p: nat, strings: map<string, string>,
                         convert: string -> Option<string>, acc: OMap<Field>, kv: Step<(string, string)>)
    requires p <= |s| && KeyEqualsValue(s, p, strings) == Ok(kv)
    ensures IsKeyString(kv.val.0)
    ensures KeyValueList(s, p, strings, convert, acc) ==
            FieldTail(s, kv.next, strings, convert, StoreField(convert, acc, kv.val))
  {
  }

  /** The directive loop: one directive, then the end of the input. */
  lemma DirectivesRead(s: string, convert: string -> Option<string>, t: Tables, t2: Tables)
    requires |s| > 0 && s[0] == '@' && DirectiveStep(s, 0, convert, t) == Ok(Step(t2, |s|))
    ensures Directives(s, 0, convert, t) == Ok(Step(t2, |s|))
  {
    SkipWsAtToken(s, 0);
    assert Directives(s, |s|, convert, t2) == Ok(Step(t2, |s|));
  }

  // ------------------------------------------------------------------
  // Braced values

  /** Depth counts inside a value are the same in the value alone and in a
      text where it follows an unescaped character. */
  lemma {:induction false} NetTransfer(s: string, o: nat, v: string, j: nat)
    requires 1 <= o && o + |v| <= |s| && s[o..o + |v|] == v && s[o - 1] != '\\'
    requires j <= |v|
    ensures Net(s, o, o + j) == Net(v, 0, j)
    ensures j < |v| ==> (Closes(s, o + j) <==> Closes(v, j))
    decreases j
  {
    if j > 0 {
      NetTransfer(s, o, v, j - 1);
      assert s[o + j - 1] == v[j - 1];
      if j >= 2 {
        assert s[o + j - 2] == v[j - 2];
      }
    }
    if j < |v| {
      assert s[o + j] == v[j];
      if j >= 1 {
        assert s[o + j - 1] == v[j - 1];
      }
    }
  }

  /** A good value between `{` and `}` is closed by exactly that `}`. */
  lemma GoodValueCloses(s: string, b: nat, o: nat, c: nat, v: string)
    requires GoodValue(v) && o == b + 1 && c == o + |v|
    requires c < |s| && s[o..c] == v && s[b] == '{' && s[c] == '}'
    ensures BraceClose(s, o, 0) == Some(c)
  {
    NetTransfer(s, o, v, |v|);
    forall j | o <= j < c && Closes(s, j)
      ensures 0 + Net(s, o, j) > 0
    {
      NetTransfer(s, o, v, j - o);
    }
    if |v| > 0 {
      assert s[c - 1] == v[|v| - 1];
    }
    assert MatchingClose(s, o, 0, c);
    BraceCloseMatches(s, o, 0, c);
  }

  /** `value_braces()` once the scan has found the closing brace `c`. */
  lemma BracesRead(s: string, b: nat, o: nat, c: nat, d: nat)
    requires o == b + 1 && d == c + 1
    requires b < |s| && s[b] == '{' && SkipWs(s, o) == o && BraceClose(s, o, 0) == Some(c)
    ensures ValueBraces(s, b) == Ok(Step(s[o..c], SkipWs(s, d)))
  {
    MatchAt(s, b, '{');
    MatchAt(s, c, '}');
  }

  /** `value()` over a single braced value closed at `c` and followed by
      the token at `z`, which is not `#`. */
  lemma BracedValueRead(s: string, b: nat, o: nat, c: nat, d: nat, z: nat, strings: map<string, string>)
    requires o == b + 1 && d == c + 1
    requires b < c < z < |s| && s[b] == '{' && SkipWs(s, o) == o
    requires BraceClose(s, o, 0) == Some(c)
    requires SkipWs(s, d) == z && SkipWs(s, z) == z && s[z] != '#'
    ensures Value(s, b, strings) == Ok(Step(s[o..c], z))
  {
    BracesRead(s, b, o, c, d);
    SkipWsAtToken(s, b);
    ValueRead(s, b, strings, s[o..c], z);
  }

  // ------------------------------------------------------------------
  // Field lines

  /** A field line up to its `=`. */
  function KeyHalf(n: string): string {
    ",\n\t" + n + " ="
  }

  /** A field line after its `=`. */
  function ValueHalf(v: string): string {
    " {" + v + "}"
  }

  /** The positions in a field line `,\n\t<n> = {<v>}` that starts with its
      comma at `i`: the name from `q` to `e`, the `=` at `eq`, the `{` at `b`,
      the value from `o` up to its `}` at `c`, and the end of the line at `d`. */
  datatype Marks = Marks(i: nat, q: nat, e: nat, eq: nat, b: nat, o: nat, c: nat, d: nat)

  /** Where the reader starts the name `n` of a field line whose comma is
      at `i`: after `,\n\t`, or at the `=` when the name is empty. */
  function KeyStart(i: nat, n: string): nat {
    if n == [] then i + 4 else i + 3
  }

  /** `m` marks the line of name `n` and value `v`: the comma at `m.i`, the
      name from `m.q` to `m.e` (an empty name is read at the `=`), the `=`
      at `m.eq`, the `{` at `m.b`, the value from `m.o` to `m.c` and the end
      of the line at `m.d`. */
  predicate LineMarks(m: Marks, n: string, v: string) {
    m.q == KeyStart(m.i, n) && m.e == m.q + |n| &&
    m.eq == m.i + 4 + |n| && m.b == m.eq + 2 &&
    m.o == m.b + 1 && m.c == m.o + |v| && m.d == m.c + 1
  }

  /** The marks of the line of name `n` and value `v` at `i`. */
  function MarksAt(i: nat, n: string, v: string): (m: Marks)
    ensures LineMarks(m, n, v) && m.i == i
  {
    var q := KeyStart(i, n);
    Marks(i, q, q + |n|, i + 4 + |n|, i + 6 + |n|, i + 7 + |n|, i + 7 + |n| + |v|, i + 8 + |n| + |v|)
  }

  /** A field line is its two halves. */
  lemma LineHalves(s: string, m: Marks, n: string, f: Field)
    requires LineMarks(m, n, f.rawValue)
    requires m.d <= |s| && s[m.i..m.d] == FieldLine(n, f)
    ensures s[m.i..m.eq + 1] == KeyHalf(n) && s[m.eq + 1..m.d] == ValueHalf(f.rawValue)
  {
    assert FieldLine(n, f) == KeyHalf(n) + ValueHalf(f.rawValue);
    InnerSplit(s, m.i, m.eq + 1, m.d, KeyHalf(n), ValueHalf(f.rawValue));
  }

  /** Splitting a slice of `s` that is known to be `a + b`. */
  lemma InnerSplit(s: string, i: nat, j: nat, d: nat, a: string, b: string)
    requires j == i + |a| && d == j + |b| && d <= |s| && s[i..d] == a + b
    ensures s[i..j] == a && s[j..d] == b
  {
    assert s[i..j] == s[i..d][..|a|];
    assert s[j..d] == s[i..d][|a|..];
  }

  /** Where the parts of a name half sit in a text holding it at `m.i`. */
  lemma KeyHalfAt(s: string, m: Marks, n: string)
    requires m.eq == m.i + 4 + |n|
    requires m.eq < |s| && s[m.i..m.eq + 1] == KeyHalf(n)
    ensures s[m.i] == ',' && s[m.i + 1] == '\n' && s[m.i + 2] == '\t' &&
            s[m.i + 3..m.i + 3 + |n|] == n && s[m.i + 3 + |n|] == ' ' && s[m.eq] == '='
  {
    var h := KeyHalf(n);
    assert forall k :: 0 <= k < |h| ==> s[m.i + k] == h[k] by {
      forall k | 0 <= k < |h| ensures s[m.i + k] == h[k] {
        assert s[m.i..m.eq + 1][k] == s[m.i + k];
      }
    }
    assert forall k :: 0 <= k < |n| ==> h[3 + k] == n[k];
    assert s[m.i + 3..m.i + 3 + |n|] == n;
  }

  /** Where the parts of a value half sit in a text holding it right after
      the `=` at `m.eq`. */
  lemma ValueHalfAt(s: string, m: Marks, v: string)
    requires m.b == m.eq + 2 && m.o == m.b + 1 && m.c == m.o + |v| && m.d == m.c + 1
    requires m.d <= |s| && s[m.eq + 1..m.d] == ValueHalf(v)
    ensures s[m.eq + 1] == ' ' && s[m.b] == '{' && s[m.o..m.c] == v && s[m.c] == '}'
  {
    var h := ValueHalf(v);
    assert forall k :: 0 <= k < |h| ==> s[m.eq + 1 + k] == h[k] by {
      forall k | 0 <= k < |h| ensures s[m.eq + 1 + k] == h[k] {
        assert s[m.eq + 1..m.d][k] == s[m.eq + 1 + k];
      }
    }
    assert forall k :: 0 <= k < |v| ==> h[2 + k] == v[k];
    assert s[m.o..m.c] == v;
  }

  /** What the reader meets from the comma of a field line at `m.i` up to
      the `=`: the name `n`, read from `m.q` to `m.e`. */
  predicate KeyTokens(s: string, m: Marks, n: string) {
    m.i < m.q <= m.e <= m.eq < |s| &&
    s[m.i] == ',' && SkipWs(s, m.i + 1) == m.q && SkipWs(s, m.q) == m.q && s[m.q] != '}' &&
    Key(s, m.q) == Ok(Step(n, m.e)) && SkipWs(s, m.e) == m.eq && s[m.eq] == '='
  }

  /** What the reader meets after the `=`: the braced value `v` opened at
      `m.b` and closed by the brace scan at `m.c`, and then the token at `z`,
      which is not `#`. */
  predicate ValueTokens(s: string, m: Marks, v: string, z: nat) {
    m.eq < m.b < m.o <= m.c < m.d <= z < |s| &&
    SkipWs(s, m.eq + 1) == m.b && s[m.b] == '{' && SkipWs(s, m.o) == m.o &&
    s[m.o..m.c] == v && BraceClose(s, m.o, 0) == Some(m.c) &&
    SkipWs(s, m.d) == z && SkipWs(s, z) == z && s[z] != '#'
  }

  /** The tokens of a field line `,\n\t<n> = {<v>}` marked by `m` that is
      followed by the token at `z`. */
  predicate LineTokens(s: string, m: Marks, n: string, v: string, z: nat) {
    LineMarks(m, n, v) && KeyTokens(s, m, n) && ValueTokens(s, m, v, z)
  }

  /** The name of a serialised good field line is read back. */
  lemma LineKeyLayout(s: string, m: Marks, n: string, f: Field)
    requires GoodField(n, f) && LineMarks(m, n, f.rawValue)
    requires m.d <= |s| && s[m.i..m.d] == FieldLine(n, f)
    ensures KeyTokens(s, m, n)
  {
    LineHalves(s, m, n, f);
    KeyHalfAt(s, m, n);
    if n == [] {
      EmptyKeyTokens(s, m, n);
    } else {
      NamedKeyTokens(s, m, n);
    }
  }

  /** The tokens of an empty name: white space up to the `=`, where the
      empty name is read. */
  lemma EmptyKeyTokens(s: string, m: Marks, n: string)
    requires n == [] && m.q == m.e == m.eq == m.i + 4 < |s|
    requires s[m.i] == ',' && s[m.i + 1] == '\n' && s[m.i + 2] == '\t' && s[m.i + 3] == ' ' && s[m.eq] == '='
    ensures KeyTokens(s, m, n)
  {
    SkipWsReads(s, m.i + 1, m.eq);
    SkipWsAtToken(s, m.eq);
    KeyReads(s, m.eq, m.eq, n);
  }

  /** The tokens of a non-empty name: it starts right after `,\n\t` and
      one blank separates it from the `=`. */
  lemma NamedKeyTokens(s: string, m: Marks, n: string)
    requires n != [] && IsKeyString(n) && m.q == m.i + 3 && m.e == m.q + |n| && m.eq == m.e + 1 < |s|
    requires s[m.i] == ',' && s[m.i + 1] == '\n' && s[m.i + 2] == '\t'
    requires s[m.q..m.e] == n && s[m.e] == ' ' && s[m.eq] == '='
    ensures KeyTokens(s, m, n)
  {
    assert s[m.q] == s[m.q..m.e][0] == n[0];
    SkipWsReads(s, m.i + 1, m.q);
    SkipWsAtToken(s, m.q);
    KeyReads(s, m.q, m.e, n);
    SkipWsReads(s, m.e, m.eq);
  }

  /** The opening of the value of a serialised good field line: the `{`
      after the `=`, and the value itself up to its `}`. */
  lemma LineValueOpen(s: string, m: Marks, n: string, f: Field)
    requires GoodField(n, f) && LineMarks(m, n, f.rawValue)
    requires m.d <= |s| && s[m.i..m.d] == FieldLine(n, f)
    ensures s[m.o..m.c] == f.rawValue && s[m.c] == '}'
    ensures SkipWs(s, m.eq + 1) == m.b && s[m.b] == '{' && SkipWs(s, m.o) == m.o
  {
    var v := f.rawValue;
    LineHalves(s, m, n, f);
    ValueHalfAt(s, m, v);
    BraceAfterBlank(s, m.eq + 1, m.b, m.o, m.c, v);
  }

  /** Skipping from a blank before a `{` that opens the value `v` reaches the
      `{`, and skipping at the start of `v` stays put. */
  lemma BraceAfterBlank(s: string, p: nat, b: nat, o: nat, c: nat, v: string)
    requires b == p + 1 && o == b + 1 && c == o + |v| && c < |s|
    requires s[p] == ' ' && s[b] == '{' && s[o..c] == v && s[c] == '}'
    requires |v| > 0 ==> !IsWhitespace(v[0]) && v[0] != '%'
    ensures SkipWs(s, p) == b && SkipWs(s, o) == o
  {
    SkipWsReads(s, p, b);
    if |v| > 0 {
      assert s[o] == s[o..c][0] == v[0];
    }
    SkipWsAtToken(s, o);
  }

  /** The value of a serialised good field line is read back, up to the
      token `z` after the line. */
  lemma LineValueLayout(s: string, m: Marks, n: string, f: Field, z: nat)
    requires GoodField(n, f) && LineMarks(m, n, f.rawValue)
    requires m.d < |s| && s[m.i..m.d] == FieldLine(n, f)
    requires z == SkipWs(s, m.d) && z < |s| && (s[z] == ',' || s[z] == '}')
    ensures ValueTokens(s, m, f.rawValue, z)
  {
    LineValueOpen(s, m, n, f);
    GoodValueCloses(s, m.b, m.o, m.c, f.rawValue);
    SkipWsAtToken(s, z);
  }

  /** The token positions of a serialised good field line. */
  lemma LineLayout(s: string, m: Marks, n: string, f: Field, z: nat)
    requires GoodField(n, f) && LineMarks(m, n, f.rawValue)
    requires m.d < |s| && s[m.i..m.d] == FieldLine(n, f)
    requires z == SkipWs(s, m.d) && z < |s| && (s[z] == ',' || s[z] == '}')
    ensures LineTokens(s, m, n, f.rawValue, z)
  {
    LineKeyLayout(s, m, n, f);
    LineValueLayout(s, m, n, f, z);
  }

  /** The braced value after the `=` is read back. */
  lemma ValueTokensRead(s: string, m: Marks, v: string, z: nat, strings: map<string, string>)
    requires ValueTokens(s, m, v, z) && m.o == m.b + 1 && m.d == m.c + 1
    ensures Value(s, m.b, strings) == Ok(Step(v, z))
  {
    BracedValueRead(s, m.b, m.o, m.c, m.d, z, strings);
  }

  /** What the reader gets from a field line marked by `m`: its name
      tokens, then the `{` at `m.b` from which `value()` reads `v` and
      stops at `z`. */
  predicate LineRead(s: string, m: Marks, n: string, v: string, z: nat, strings: map<string, string>) {
    KeyTokens(s, m, n) && m.eq < m.b <= |s| && SkipWs(s, m.eq + 1) == m.b &&
    Value(s, m.b, strings) == Ok(Step(v, z))
  }

  /** The tokens of a field line are read as a name and a value. */
  lemma LineTokensRead(s: string, m: Marks, n: string, v: string, z: nat, strings: map<string, string>)
    requires LineTokens(s, m, n, v, z)
    ensures LineRead(s, m, n, v, z, strings)
  {
    ValueTokensRead(s, m, v, z, strings);
  }

  /** A comma at `m.i`, no `}` after it, and then `key_equals_value`
      reading the pair `(n, v)` up to `z`. */
  predicate CommaPair(s: string, m: Marks, n: string, v: string, z: nat, strings: map<string, string>) {
    m.i < m.q < |s| && s[m.i] == ',' && SkipWs(s, m.i + 1) == m.q && SkipWs(s, m.q) == m.q &&
    s[m.q] != '}' && KeyEqualsValue(s, m.q, strings) == Ok(Step((n, v), z))
  }

  /** The pair of a field line read back: `key_equals_value` returns the
      name and the value and stops at the next token `z`. */
  lemma LinePair(s: string, m: Marks, n: string, v: string, z: nat, strings: map<string, string>)
    requires LineRead(s, m, n, v, z, strings)
    ensures CommaPair(s, m, n, v, z, strings)
  {
    KeyEqualsValueRead(s, m.q, strings, n, m.e, m.eq, m.b, Step(v, z));
  }

  /** One turn of the field loop over a field line: the comma is matched,
      no `}` follows it, and the pair is stored. */
  lemma LineStep(s: string, m: Marks, n: string, v: string, z: nat, strings: map<string, string>,
                 convert: string -> Option<string>, acc: OMap<Field>)
    requires CommaPair(s, m, n, v, z, strings)
    ensures IsKeyString(n)
    ensures FieldTail(s, m.i, strings, convert, acc) ==
            FieldTail(s, z, strings, convert, StoreField(convert, acc, (n, v)))
  {
    FieldTailStep(s, m.i, strings, convert, acc, m.q, Step((n, v), z));
  }

  // ------------------------------------------------------------------
  // The field list

  /** Splitting a suffix of `s` that is known to be `a + b`. */
  lemma SliceSplit(s: string, i: nat, a: string, b: string)
    requires i <= |s| && s[i..] == a + b
    ensures i + |a| <= |s| && s[i..i + |a|] == a && s[i + |a|..] == b
  {
    assert s[i..i + |a|] == s[i..][..|a|];
    assert s[i + |a|..] == s[i..][|a|..];
  }

  /** Every name of a run is a good field of `vals`. */
  predicate GoodRun(vals: map<string, Field>, names: seq<string>) {
    forall n :: n in names ==> n in vals && GoodField(n, vals[n])
  }

  /** The first serialised line of a run of good fields. */
  lemma FirstLine(vals: map<string, Field>, names: seq<string>)
    requires GoodRun(vals, names) && names != []
    ensures FieldLines(vals, names) == FieldLine(names[0], vals[names[0]]) + FieldLines(vals, names[1..])
  {
    assert names == [names[0]] + names[1..];
    FieldLinesAppend(vals, [names[0]], names[1..]);
    FieldLinesSingle(vals, names[0]);
    LowerNeverReserved(names[0]);
  }

  /** What follows the lines of a field run: the next line's comma, or the
      closing `\n}` that ends the text. */
  lemma LinesFollow(s: string, j: nat, vals: map<string, Field>, rest: seq<string>, last: int)
    requires GoodRun(vals, rest)
    requires j <= |s| && s[j..] == FieldLines(vals, rest) + "\n}" && last + 1 == |s|
    ensures j < |s| && SkipWs(s, j) < |s| && (s[SkipWs(s, j)] == ',' || s[SkipWs(s, j)] == '}')
    ensures rest == [] ==> SkipWs(s, j) == last && s[last] == '}'
    ensures rest != [] ==> SkipWs(s, j) == j
  {
    if rest == [] {
      assert s[j..] == "\n}";
      assert s[j] == s[j..][0] && s[j + 1] == s[j..][1];
      SkipWsReads(s, j, j + 1);
    } else {
      FirstLine(vals, rest);
      var line := FieldLine(rest[0], vals[rest[0]]);
      assert s[j] == s[j..][0] == line[0] == ',';
      SkipWsAtToken(s, j);
    }
  }

  /** Storing the named fields one after another, as the reader does. */
  function StoreAll(convert: string -> Option<string>, acc: OMap<Field>,
                    vals: map<string, Field>, names: seq<string>): OMap<Field>
    requires forall n :: n in names ==> n in vals && IsKeyString(n)
    decreases |names|
  {
    if names == [] then acc
    else StoreAll(convert, StoreField(convert, acc, (names[0], vals[names[0]].rawValue)), vals, names[1..])
  }

  /** The serialised lines of a non-empty run of good fields, followed by
      `\n}`, are read by the field loop into exactly those fields. */
  lemma {:induction false} FieldTailReads(s: string, i: nat, vals: map<string, Field>, names: seq<string>,
                                          strings: map<string, string>, convert: string -> Option<string>,
                                          acc: OMap<Field>, last: int)
    requires GoodRun(vals, names) && names != []
    requires i <= |s| && s[i..] == FieldLines(vals, names) + "\n}" && last + 1 == |s|
    ensures FieldTail(s, i, strings, convert, acc) == Ok(Step(StoreAll(convert, acc, vals, names), last))
    decreases |names|
  {
    var n, rest := names[0], names[1..];
    var j, z := FirstLineStep(s, i, vals, names, strings, convert, acc, last);
    var stored := StoreField(convert, acc, (n, vals[n].rawValue));
    StoreAllCons(convert, acc, vals, names);
    if rest == [] {
      FieldTailEnd(s, z, strings, convert, stored);
      assert StoreAll(convert, stored, vals, rest) == stored;
    } else {
      assert GoodRun(vals, rest);
      FieldTailReads(s, z, vals, rest, strings, convert, stored, last);
    }
    Chain(FieldTail(s, i, strings, convert, acc), FieldTail(s, z, strings, convert, stored),
          Ok(Step(StoreAll(convert, acc, vals, names), last)));
  }

  /** Storing a run stores its first name, then the rest. */
  lemma StoreAllCons(convert: string -> Option<string>, acc: OMap<Field>,
                     vals: map<string, Field>, names: seq<string>)
    requires GoodRun(vals, names) && names != []
    ensures StoreAll(convert, acc, vals, names) ==
            StoreAll(convert, StoreField(convert, acc, (names[0], vals[names[0]].rawValue)), vals, names[1..])
  {
  }

  /** Distinct lower-case key names of `vals`, none of them yet in `acc`. */
  predicate FreshRun(acc: OMap<Field>, vals: map<string, Field>, names: seq<string>) {
    Distinct(names) &&
    forall n :: n in names ==> n in vals && IsKeyString(n) && Lower(n) == n && n !in acc.vals
  }

  /** Storing the first name of a fresh run leaves the rest of it fresh. */
  lemma FreshRunTail(convert: string -> Option<string>, acc: OMap<Field>,
                     vals: map<string, Field>, names: seq<string>)
    requires FreshRun(acc, vals, names) && names != []
    ensures StoreField(convert, acc, (names[0], vals[names[0]].rawValue)) ==
            OMap(acc.keys + [names[0]], acc.vals[names[0] := ProcessValue(convert, names[0], vals[names[0]].rawValue)])
    ensures FreshRun(StoreField(convert, acc, (names[0], vals[names[0]].rawValue)), vals, names[1..])
  {
    assert names[0] in names;
  }

  /** Putting a run's first name after `a`, then the rest, is putting the run. */
  lemma ConsAfter(a: seq<string>, names: seq<string>)
    requires names != []
    ensures (a + [names[0]]) + names[1..] == a + names
  {
    assert names == [names[0]] + names[1..];
  }

  /** Storing a fresh run appends its names to the key order. */
  lemma {:induction false} StoreAllKeys(convert: string -> Option<string>, acc: OMap<Field>,
                                        vals: map<string, Field>, names: seq<string>)
    requires FreshRun(acc, vals, names)
    ensures StoreAll(convert, acc, vals, names).keys == acc.keys + names
    decreases |names|
  {
    if names == [] {
      assert acc.keys + names == acc.keys;
    } else {
      FreshRunTail(convert, acc, vals, names);
      StoreAllKeys(convert, StoreField(convert, acc, (names[0], vals[names[0]].rawValue)), vals, names[1..]);
      ConsAfter(acc.keys, names);
    }
  }

  /** Storing a fresh run adds exactly its names, each with its processed
      raw value, and keeps what was there. */
  lemma {:induction false} StoreAllVals(convert: string -> Option<string>, acc: OMap<Field>,
                                        vals: map<string, Field>, names: seq<string>)
    requires FreshRun(acc, vals, names)
    ensures var r := StoreAll(convert, acc, vals, names);
            (forall k :: k in r.vals <==> k in acc.vals || k in names) &&
            (forall k :: k in acc.vals ==> r.vals[k] == acc.vals[k]) &&
            (forall k :: k in names ==> r.vals[k] == ProcessValue(convert, k, vals[k].rawValue))
    decreases |names|
  {
    if names != [] {
      var n, rest := names[0], names[1..];
      FreshRunTail(convert, acc, vals, names);
      StoreAllVals(convert, StoreField(convert, acc, (n, vals[n].rawValue)), vals, rest);
      assert forall k :: k in names <==> k == n || k in rest;
    }
  }

  /** Read back from a fresh field table, the serialised fields become the
      reread fields of the record. */
  lemma FieldsReadBack(convert: string -> Option<string>, fields: OMap<Field>)
    requires fields.Valid() && GoodRun(fields.vals, fields.keys)
    ensures StoreAll(convert, Empty(), fields.vals, fields.keys) == Reread(convert, fields)
  {
    var vals, keys := fields.vals, fields.keys;
    GoodRunFresh(fields);
    StoreAllKeys(convert, Empty(), vals, keys);
    StoreAllVals(convert, Empty(), vals, keys);
    ReadBackVals(convert, StoreAll(convert, Empty(), vals, keys), fields);
  }

  /** The fields of a record form a fresh run over an empty table. */
  lemma GoodRunFresh(fields: OMap<Field>)
    requires fields.Valid() && GoodRun(fields.vals, fields.keys)
    ensures FreshRun(Empty(), fields.vals, fields.keys)
  {
  }

  /** A table holding exactly the names of `fields`, each with its processed
      raw value, has the values of the reread fields. */
  lemma ReadBackVals(convert: string -> Option<string>, r: OMap<Field>, fields: OMap<Field>)
    requires fields.Valid()
    requires forall k :: k in r.vals <==> k in fields.keys
    requires forall k :: k in fields.keys ==> r.vals[k] == ProcessValue(convert, k, fields.vals[k].rawValue)
    ensures r.vals == Reread(convert, fields).vals
  {
    var back := Reread(convert, fields);
    assert forall n :: n in r.vals <==> n in back.vals;
  }

  // ------------------------------------------------------------------
  // The whole record

  /** The text of a round-trippable record: its header, then its field
      lines with the closing `\n}`. */
  lemma EntryTextParts(e: Entry)
    requires RoundTrippable(e)
    ensures GoodRun(e.fields.vals, e.fields.keys)
    ensures var s := EntryText(e);
            |Header(e)| <= |s| && s[..|Header(e)|] == Header(e) &&
            s[|Header(e)|..] == FieldLines(e.fields.vals, e.fields.keys) + "\n}"
  {
    var rest := FieldLines(e.fields.vals, e.fields.keys) + "\n}";
    AppendAssoc(Header(e), FieldLines(e.fields.vals, e.fields.keys), "\n}");
    SliceSplit(EntryText(e), 0, Header(e), rest);
    assert EntryText(e)[..|Header(e)|] == EntryText(e)[0..|Header(e)|];
  }

  /** A text whose tail after `i` ends in `\n}` ends in `}`. */
  lemma ClosingBrace(s: string, i: nat, x: string)
    requires i <= |s| && s[i..] == x + "\n}"
    ensures |s| >= i + 2 && s[|s| - 1] == '}'
  {
    assert s[|s| - 1] == s[i..][|s| - 1 - i];
  }

  /** Where the parts of the header `@type{key` sit at the start of `s`. */
  lemma HeaderAt(s: string, e: Entry)
    requires |Header(e)| <= |s| && s[..|Header(e)|] == Header(e)
    ensures var t, k := e.entryType, e.entryKey;
            |Header(e)| == 2 + |t| + |k| &&
            s[0] == '@' && s[1..1 + |t|] == t && s[1 + |t|] == '{' && s[2 + |t|..2 + |t| + |k|] == k
  {
    var t, k, h := e.entryType, e.entryKey, Header(e);
    assert h == "@" + t + "{" + k;
    assert forall j :: 0 <= j < |h| ==> s[j] == h[j] by {
      forall j | 0 <= j < |h| ensures s[j] == h[j] {
        assert s[..|h|][j] == s[j];
      }
    }
    assert forall j :: 0 <= j < |t| ==> h[1 + j] == t[j];
    assert forall j :: 0 <= j < |k| ==> h[2 + |t| + j] == k[j];
    assert s[1..1 + |t|] == t;
    assert s[2 + |t|..2 + |t| + |k|] == k;
  }

  /** A key at `p`, followed by a character that ends it, is read without
      skipping anything; an empty key needs that character not to be
      skipped as white space or a comment. */
  lemma KeyTokenRead(s: string, p: nat, w: string)
    requires p + |w| < |s| && s[p..p + |w|] == w && IsKeyString(w) && !IsKeyChar(s[p + |w|])
    requires |w| > 0 || (!IsWhitespace(s[p]) && s[p] != '%')
    ensures SkipWs(s, p) == p && Key(s, p) == Ok(Step(w, p + |w|))
  {
    if |w| > 0 {
      assert s[p] == w[0];
    }
    SkipWsAtToken(s, p);
    KeyReads(s, p, p + |w|, w);
  }

  /** The header `@type{key` read back: the directive name, the opening
      brace and the citation key. */
  lemma HeaderReads(s: string, e: Entry)
    requires RoundTrippable(e)
    requires |Header(e)| < |s| && s[..|Header(e)|] == Header(e) && s[|Header(e)|] == ','
    ensures var t := e.entryType;
            Directive(s, 0) == Ok(Step("@" + t, 1 + |t|)) &&
            Match(s, 1 + |t|, '{') == Ok(2 + |t|) &&
            Key(s, 2 + |t|) == Ok(Step(e.entryKey, |Header(e)|))
  {
    var t, k := e.entryType, e.entryKey;
    HeaderAt(s, e);
    MatchAt(s, 0, '@');
    KeyTokenRead(s, 1, t);
    DirectiveRead(s, 0, 1, Step(t, 1 + |t|));
    MatchAt(s, 1 + |t|, '{');
    KeyTokenRead(s, 2 + |t|, k);
  }

  /** `key_value_list()` reads the first line of a field line run and then
      leaves the rest to the field loop, as if the loop had met the comma. */
  lemma FirstPairRead(s: string, m: Marks, n: string, v: string, z: nat, strings: map<string, string>,
                      convert: string -> Option<string>, acc: OMap<Field>)
    requires CommaPair(s, m, n, v, z, strings)
    ensures Match(s, m.i, ',') == Ok(m.q) && m.q <= |s|
    ensures KeyValueList(s, m.q, strings, convert, acc) == FieldTail(s, m.i, strings, convert, acc)
  {
    MatchAt(s, m.i, ',');
    LineStep(s, m, n, v, z, strings, convert, acc);
    KeyValueListRead(s, m.q, strings, convert, acc, Step((n, v), z));
    var stored := StoreField(convert, acc, (n, v));
    Chain(KeyValueList(s, m.q, strings, convert, acc), FieldTail(s, z, strings, convert, stored),
          FieldTail(s, m.i, strings, convert, acc));
  }

  /** The text of a non-empty run of good fields starts with its first
      line, which ends at `j`. */
  lemma FirstLineSplit(s: string, i: nat, vals: map<string, Field>, names: seq<string>) returns (j: nat)
    requires GoodRun(vals, names) && names != []
    requires i <= |s| && s[i..] == FieldLines(vals, names) + "\n}"
    ensures var line := FieldLine(names[0], vals[names[0]]);
            j == i + |line| && j <= |s| && s[i..j] == line &&
            s[j..] == FieldLines(vals, names[1..]) + "\n}"
  {
    var line, rest := FieldLine(names[0], vals[names[0]]), names[1..];
    FirstLineThenRest(vals, names);
    SliceSplit(s, i, line, FieldLines(vals, rest) + "\n}");
    j := i + |line|;
  }

  /** The text of a non-empty run of good fields closed by `\n}` is its
      first line followed by the closed text of the rest of the run. */
  lemma FirstLineThenRest(vals: map<string, Field>, names: seq<string>)
    requires GoodRun(vals, names) && names != []
    ensures FieldLines(vals, names) + "\n}" ==
            FieldLine(names[0], vals[names[0]]) + (FieldLines(vals, names[1..]) + "\n}")
  {
    var line, rest := FieldLine(names[0], vals[names[0]]), names[1..];
    FirstLine(vals, names);
    AppendAssoc(line, FieldLines(vals, rest), "\n}");
  }

  /** The first line of a non-empty run of good fields lays out the tokens
      of its name and value, followed by the token at `z`. */
  lemma FirstLineTokens(s: string, i: nat, vals: map<string, Field>, names: seq<string>, last: int)
    returns (m: Marks, j: nat, z: nat)
    requires GoodRun(vals, names) && names != []
    requires i <= |s| && s[i..] == FieldLines(vals, names) + "\n}" && last + 1 == |s|
    ensures m.i == i && LineTokens(s, m, names[0], vals[names[0]].rawValue, z)
    ensures j <= |s| && s[j..] == FieldLines(vals, names[1..]) + "\n}" && z == SkipWs(s, j)
    ensures names[1..] == [] ==> z == last && s[last] == '}'
    ensures names[1..] != [] ==> z == j
  {
    var n := names[0];
    j := FirstLineSplit(s, i, vals, names);
    LinesFollow(s, j, vals, names[1..], last);
    z := SkipWs(s, j);
    m := MarksAt(i, n, vals[n].rawValue);
    assert m.d == j;
    LineLayout(s, m, n, vals[n], z);
  }

  /** The field loop steps over the first line of a non-empty run of good
      fields, storing that field, to the token at `z`. */
  lemma FirstLineStep(s: string, i: nat, vals: map<string, Field>, names: seq<string>,
                      strings: map<string, string>, convert: string -> Option<string>,
                      acc: OMap<Field>, last: int) returns (j: nat, z: nat)
    requires GoodRun(vals, names) && names != []
    requires i <= |s| && s[i..] == FieldLines(vals, names) + "\n}" && last + 1 == |s|
    ensures j <= |s| && s[j..] == FieldLines(vals, names[1..]) + "\n}" && z == SkipWs(s, j)
    ensures names[1..] == [] ==> z == last && s[last] == '}'
    ensures names[1..] != [] ==> z == j
    ensures FieldTail(s, i, strings, convert, acc) ==
            FieldTail(s, z, strings, convert, StoreField(convert, acc, (names[0], vals[names[0]].rawValue)))
  {
    var m;
    m, j, z := FirstLineTokens(s, i, vals, names, last);
    LineTokensRead(s, m, names[0], vals[names[0]].rawValue, z, strings);
    LinePair(s, m, names[0], vals[names[0]].rawValue, z, strings);
    LineStep(s, m, names[0], vals[names[0]].rawValue, z, strings, convert, acc);
  }

  /** The serialised lines of a non-empty run of good fields, followed by
      `\n}`, are read by `key_value_list()` after the first comma. */
  lemma FieldListReads(s: string, i: nat, c: nat, last: int, vals: map<string, Field>, names: seq<string>,
                       strings: map<string, string>, convert: string -> Option<string>)
    requires GoodRun(vals, names) && names != []
    requires i <= |s| && s[i..] == FieldLines(vals, names) + "\n}" && c == KeyStart(i, names[0]) && last + 1 == |s|
    ensures i < |s| && s[i] == ','
    ensures Match(s, i, ',') == Ok(c) && c <= |s|
    ensures KeyValueList(s, c, strings, convert, Empty()) ==
            Ok(Step(StoreAll(convert, Empty(), vals, names), last))
  {
    var m, j, z := FirstLineTokens(s, i, vals, names, last);
    LineTokensRead(s, m, names[0], vals[names[0]].rawValue, z, strings);
    LinePair(s, m, names[0], vals[names[0]].rawValue, z, strings);
    FirstPairRead(s, m, names[0], vals[names[0]].rawValue, z, strings, convert, Empty());
    FieldTailReads(s, i, vals, names, strings, convert, Empty(), last);
  }

  /** The field list of a round-trippable record's text is read back into
      the reread fields, stopping at the final `}`. */
  lemma BodyReads(s: string, i: nat, c: nat, last: int, e: Entry, strings: map<string, string>,
                  convert: string -> Option<string>)
    requires RoundTrippable(e)
    requires i <= |s| && s[i..] == FieldLines(e.fields.vals, e.fields.keys) + "\n}"
    requires c == KeyStart(i, e.fields.keys[0]) && last + 1 == |s|
    ensures i < |s| && s[i] == ','
    ensures Match(s, i, ',') == Ok(c) && c <= |s| &&
            KeyValueList(s, c, strings, convert, Empty()) == Ok(Step(Reread(convert, e.fields), last))
  {
    FieldListReads(s, i, c, last, e.fields.vals, e.fields.keys, strings, convert);
    FieldsReadBack(convert, e.fields);
  }

  /** A directive whose name is none of `string`, `preamble` and `comment`
      is read as a record. */
  lemma EntryDispatch(s: string, p: nat, convert: string -> Option<string>, tb: Tables, t: string)
    requires p <= |s| && RecordType(t)
    ensures DirectiveBody(s, p, convert, tb, "@" + t) == EntryBody(s, p, convert, tb, "@" + t)
  {
    var name := "@" + t;
    assert name[1..] == t;
    assert "@string"[1..] == "string" && "@preamble"[1..] == "preamble" && "@comment"[1..] == "comment";
  }

  /** The record part of an entry directive: citation key, comma and field
      list, read up to position `n`. (Positions are `int`s here so that
      callers may pass arithmetic on positions directly.) */
  lemma EntryBodyStep(s: string, p: int, convert: string -> Option<string>, tb: Tables, t: string, k: string,
                      h: int, c: int, fields: OMap<Field>, n: int)
    requires 0 <= p <= |s| && 0 <= h && 0 <= c <= |s| && 0 <= n
    requires RecordType(t)
    requires Key(s, p) == Ok(Step(k, h)) && Match(s, h, ',') == Ok(c)
    requires KeyValueList(s, c, tb.strings, convert, Empty()) == Ok(Step(fields, n))
    ensures DirectiveBody(s, p, convert, tb, "@" + t) ==
            Ok(Step(tb.(entries := Put(tb.entries, k, EntrySlot(Entry(t, k, fields))), current := k), n))
  {
    var name := "@" + t;
    assert name[1..] == t;
    EntryBodyRead(s, p, convert, tb, name, Step(k, h), c, Step(fields, n));
    EntryDispatch(s, p, convert, tb, t);
  }

  /** A directive `@name{` whose body is read up to the final `}` of the
      text is one loop step ending at the end of the text. */
  lemma ClosedDirectiveStep(s: string, convert: string -> Option<string>, tb: Tables, t: string, b: int,
                            n: int, out: Tables)
    requires Lower("@" + t) == "@" + t
    requires 0 <= b <= |s| && 0 <= n && n + 1 == |s| && s[n] == '}'
    requires Directive(s, 0) == Ok(Step("@" + t, 1 + |t|)) && Match(s, 1 + |t|, '{') == Ok(b)
    requires DirectiveBody(s, b, convert, tb, "@" + t) == Ok(Step(out, n))
    ensures DirectiveStep(s, 0, convert, tb) == Ok(Step(out, |s|))
  {
    MatchAt(s, n, '}');
    DirectiveStepRead(s, 0, convert, tb, Step("@" + t, 1 + |t|), b);
  }

  /** An entry directive once its parts are known: the name `@t`, the
      opening brace, the citation key ending at `h`, the comma, and a field
      list read up to the final `}` of the text. */
  lemma EntryFromParts(s: string, convert: string -> Option<string>, tb: Tables, t: string, k: string,
                       b: int, h: int, c: int, n: int, fields: OMap<Field>)
    requires RecordType(t) && Lower("@" + t) == "@" + t
    requires b == 2 + |t| && 0 <= h <= c <= |s| && n + 1 == |s| && 0 <= n && s[n] == '}'
    requires Directive(s, 0) == Ok(Step("@" + t, 1 + |t|)) && Match(s, 1 + |t|, '{') == Ok(b)
    requires Key(s, b) == Ok(Step(k, h)) && Match(s, h, ',') == Ok(c)
    requires KeyValueList(s, c, tb.strings, convert, Empty()) == Ok(Step(fields, n))
    ensures DirectiveStep(s, 0, convert, tb) ==
            Ok(Step(tb.(entries := Put(tb.entries, k, EntrySlot(Entry(t, k, fields))), current := k), |s|))
  {
    var out := tb.(entries := Put(tb.entries, k, EntrySlot(Entry(t, k, fields))), current := k);
    EntryBodyStep(s, b, convert, tb, t, k, h, c, fields, n);
    ClosedDirectiveStep(s, convert, tb, t, b, n, out);
  }

  /** The entry directive of a text that holds a round-trippable record's
      header and field lines reads the record back into the tables. */
  lemma EntryDirectiveReads(s: string, e: Entry, convert: string -> Option<string>, tb: Tables)
    requires RoundTrippable(e)
    requires |Header(e)| <= |s| && s[..|Header(e)|] == Header(e)
    requires s[|Header(e)|..] == FieldLines(e.fields.vals, e.fields.keys) + "\n}"
    ensures DirectiveStep(s, 0, convert, tb) ==
            Ok(Step(tb.(entries := Put(tb.entries, e.entryKey,
                                       EntrySlot(Entry(e.entryType, e.entryKey, Reread(convert, e.fields)))),
                        current := e.entryKey), |s|))
  {
    var t, h, fields := e.entryType, |Header(e)|, Reread(convert, e.fields);
    var b, c, n := 2 + |t|, KeyStart(h, e.fields.keys[0]), |s| - 1;
    ClosingBrace(s, h, FieldLines(e.fields.vals, e.fields.keys));
    BodyReads(s, h, c, n, e, tb.strings, convert);
    HeaderReads(s, e);
    LowerAt(e.entryType);
    EntryFromParts(s, convert, tb, t, e.entryKey, b, h, c, n, fields);
  }

  /** The entry directive that opens the text reads the record back. */
  lemma DirectiveReadsEntry(e: Entry, convert: string -> Option<string>)
    requires RoundTrippable(e)
    ensures var s := EntryText(e);
            DirectiveStep(s, 0, convert, Initial()) ==
            Ok(Step(Initial().(entries := Put(Empty(), e.entryKey,
                                              EntrySlot(Entry(e.entryType, e.entryKey, Reread(convert, e.fields)))),
                               current := e.entryKey), |s|))
  {
    EntryTextParts(e);
    EntryDirectiveReads(EntryText(e), e, convert, Initial());
  }

  /** The whole text of a round-trippable record reads as its one entry,
      followed by the published comments. */
  lemma BibtexReadsEntry(e: Entry, convert: string -> Option<string>)
    requires RoundTrippable(e)
    ensures var s := EntryText(e);
            Bibtex(s, convert) ==
            Ok(Step(Publish(Initial().(entries := Put(Empty(), e.entryKey,
                                                      EntrySlot(Entry(e.entryType, e.entryKey, Reread(convert, e.fields)))),
                                       current := e.entryKey)), |s|))
  {
    var s := EntryText(e);
    var tables := Initial().(entries := Put(Empty(), e.entryKey,
                                            EntrySlot(Entry(e.entryType, e.entryKey, Reread(convert, e.fields)))),
                             current := e.entryKey);
    DirectiveReadsEntry(e, convert);
    EntryTextFrame(e);
    DirectivesRead(s, convert, Initial(), tables);
  }

  /** Publishing the comments of a one-record table and removing them again
      leaves exactly that record. */
  lemma PublishThenRemove(tables: Tables, k: string, record: Entry)
    requires k != "@comments" && tables.entries == Put(Empty(), k, EntrySlot(record))
    ensures var table := Remove(Publish(tables).entries, "@comments");
            (forall j :: j in table.vals ==> table.vals[j].EntrySlot?) &&
            EntriesOf(table) == OMap([k], map[k := record])
  {
    var x, y := EntrySlot(record), CommentsSlot(tables.comments);
    PublishedPair(tables, k, x);
    RemoveSecond(k, "@comments", x, y);
    var single := OMap([k], map[k := x]);
    assert EntriesOf(single) == OMap([k], map[k := record]);
  }

  /** Publishing the tables of one record appends the comments slot. */
  lemma PublishedPair(tables: Tables, k: string, x: Slot)
    requires k != "@comments" && tables.entries == Put(Empty(), k, x)
    ensures Publish(tables).entries ==
            OMap([k, "@comments"], map[k := x, "@comments" := CommentsSlot(tables.comments)])
  {
  }

  /** Removing the second of two keys leaves the first. */
  lemma RemoveSecond<V>(k: string, c: string, x: V, y: V)
    requires k != c
    ensures Remove(OMap([k, c], map[k := x, c := y]), c) == OMap([k], map[k := x])
  {
    assert Without([k, c], c) == [k] by {
      assert [k, c][1..] == [c];
      assert [c][1..] == [];
    }
  }

  /** Round trip: reading the text `buildEntry` writes for a round-trippable
      record gives a table holding just that record, with its type, key,
      field order and raw values, each field processed afresh. */
  lemma BuildThenParse(e: Entry, convert: string -> Option<string>)
    requires RoundTrippable(e)
    ensures ParseString(EntryText(e), convert, true) ==
            Ok(AsObject(OMap([e.entryKey],
                             map[e.entryKey := Entry(e.entryType, e.entryKey, Reread(convert, e.fields))])))
  {
    var k := e.entryKey;
    var record := Entry(e.entryType, k, Reread(convert, e.fields));
    var tables := Initial().(entries := Put(Empty(), k, EntrySlot(record)), current := k);
    BibtexReadsEntry(e, convert);
    assert k != "@comments" by {
      CommentsKeyIsNoEntryKey();
    }
    PublishThenRemove(tables, k, record);
  }

  /** The raw text of every field survives the round trip unchanged, under
      the same name and in the same order. */
  lemma RawValuesSurvive(e: Entry, convert: string -> Option<string>)
    requires RoundTrippable(e)
    ensures ParseString(EntryText(e), convert, true).Ok?
    ensures var table := ParseString(EntryText(e), convert, true).value.table;
            table.keys == [e.entryKey] && e.entryKey in table.vals &&
            var back := table.vals[e.entryKey];
            back.entryType == e.entryType && back.entryKey == e.entryKey &&
            back.fields.keys == e.fields.keys &&
            forall n :: n in e.fields.vals ==>
              n in back.fields.vals &&
              back.fields.vals[n].rawName == n &&
              back.fields.vals[n].rawValue == e.fields.vals[n].rawValue
  {
    BuildThenParse(e, convert);
  }
}
