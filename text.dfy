/** Character classes and string operations the reader relies on: its
    whitespace and key classes, ASCII case mapping, `trim`, and `split`/`join`
    as JavaScript defines them for a non-empty separator. */
module Text {
  import opened Results

  /** The reader's own whitespace test: space, CR, tab, LF. */
  predicate IsWhitespace(c: char) {
    c == ' ' || c == '\r' || c == '\t' || c == '\n'
  }

  /** The key character class `[a-zA-Z0-9_:./-]`. */
  predicate IsKeyChar(c: char) {
    ('a' <= c <= 'z') || ('A' <= c <= 'Z') || ('0' <= c <= '9') ||
    c == '_' || c == ':' || c == '.' || c == '/' || c == '-'
  }

  predicate IsKeyString(s: string) {
    forall i :: 0 <= i < |s| ==> IsKeyChar(s[i])
  }

  /** `^[0-9]+$`: a non-empty run of decimal digits. */
  predicate AllDigits(s: string) {
    |s| > 0 && forall i :: 0 <= i < |s| ==> '0' <= s[i] <= '9'
  }

  /** Case mapping of ASCII letters; every string the reader case-maps is a
      key, and keys are ASCII, so this agrees with `toLowerCase`/`toUpperCase`. */
  function LowerChar(c: char): char {
    if 'A' <= c <= 'Z' then (c as int + 32) as char else c
  }

  function UpperChar(c: char): char {
    if 'a' <= c <= 'z' then (c as int - 32) as char else c
  }

  function Lower(s: string): string {
    seq(|s|, i requires 0 <= i < |s| => LowerChar(s[i]))
  }

  function Upper(s: string): string {
    seq(|s|, i requires 0 <= i < |s| => UpperChar(s[i]))
  }

  lemma LowerIdempotent(s: string)
    ensures Lower(Lower(s)) == Lower(s)
  {
    assert forall i :: 0 <= i < |s| ==> Lower(Lower(s))[i] == Lower(s)[i];
  }

  lemma UpperIdempotent(s: string)
    ensures Upper(Upper(s)) == Upper(s)
  {
    assert forall i :: 0 <= i < |s| ==> Upper(Upper(s))[i] == Upper(s)[i];
  }

  lemma LowerKeepsKeyClass(s: string)
    requires IsKeyString(s)
    ensures IsKeyString(Lower(s))
  {
  }

  /** Lower-casing `"@" + k` leaves the `@` alone. */
  lemma LowerAt(k: string)
    ensures Lower("@" + k) == "@" + Lower(k)
  {
    assert forall i :: 0 <= i < |k| + 1 ==> Lower("@" + k)[i] == ("@" + Lower(k))[i];
  }

  /** The white space removed by JavaScript's `trim`: the WhiteSpace and
      LineTerminator characters of the language (tab, VT, FF, space, NBSP,
      BOM, the Zs separators, LF, CR, LS, PS). */
  predicate IsTrimSpace(c: char) {
    c == '\t' || c == '\U{000B}' || c == '\U{000C}' || c == ' ' || c == '\U{00A0}' ||
    c == '\U{FEFF}' || c == '\U{1680}' || ('\U{2000}' <= c <= '\U{200A}') ||
    c == '\U{202F}' || c == '\U{205F}' || c == '\U{3000}' ||
    c == '\n' || c == '\r' || c == '\U{2028}' || c == '\U{2029}'
  }

  predicate AllTrimSpace(s: string) {
    forall i :: 0 <= i < |s| ==> IsTrimSpace(s[i])
  }

  /** The first index at or after `i` that does not hold trim space. */
  function TrimStart(s: string, i: nat): (r: nat)
    requires i <= |s|
    ensures i <= r <= |s|
    ensures forall k :: i <= k < r ==> IsTrimSpace(s[k])
    ensures r == |s| || !IsTrimSpace(s[r])
    decreases |s| - i
  {
    if i < |s| && IsTrimSpace(s[i]) then TrimStart(s, i + 1) else i
  }

  /** The end of `s[lo..j]` once trailing trim space is removed. */
  function TrimEnd(s: string, lo: nat, j: nat): (r: nat)
    requires lo <= j <= |s|
    ensures lo <= r <= j
    ensures forall k :: r <= k < j ==> IsTrimSpace(s[k])
    ensures r == lo || !IsTrimSpace(s[r - 1])
    decreases j
  {
    if j > lo && IsTrimSpace(s[j - 1]) then TrimEnd(s, lo, j - 1) else j
  }

  /** `s.trim()`: `s` with its leading and trailing trim space removed. */
  function Trim(s: string): (r: string)
    ensures r == [] || (!IsTrimSpace(r[0]) && !IsTrimSpace(r[|r| - 1]))
    ensures exists a: nat :: a + |r| <= |s| && s[a..a + |r|] == r &&
                        AllTrimSpace(s[..a]) && AllTrimSpace(s[a + |r|..])
  {
    var a := TrimStart(s, 0);
    var b := TrimEnd(s, a, |s|);
    assert AllTrimSpace(s[..a]) && AllTrimSpace(s[b..]);
    assert s[a..a + |s[a..b]|] == s[a..b];
    s[a..b]
  }

  /** `s` neither starts nor ends with trim space. */
  predicate Trimmed(s: string) {
    s == [] || (!IsTrimSpace(s[0]) && !IsTrimSpace(s[|s| - 1]))
  }

  /** Trimming removes exactly the surrounding trim space: a text whose
      ends are not trim space comes back from `Trim` unchanged, whatever
      trim space surrounds it. */
  lemma TrimKeepsCore(pre: string, core: string, post: string)
    requires AllTrimSpace(pre) && AllTrimSpace(post) && Trimmed(core)
    ensures Trim(pre + core + post) == core
  {
    var s := pre + core + post;
    if core == [] {
      assert AllTrimSpace(s);
      assert Trim(s) == [];
    } else {
      assert s[|pre|] == core[0];
      assert TrimStart(s, 0) == |pre|;
      assert s[|pre| + |core| - 1] == core[|core| - 1];
      assert TrimEnd(s, |pre|, |s|) == |pre| + |core|;
      assert s[|pre|..|pre| + |core|] == core;
    }
  }

  /** A text whose ends are not trim space is its own trim. */
  lemma TrimUntouched(s: string)
    requires Trimmed(s)
    ensures Trim(s) == s
  {
    TrimKeepsCore("", s, "");
    assert "" + s + "" == s;
  }

  /** One leading blank is trimmed away. */
  lemma TrimOneBlank(s: string)
    requires Trimmed(s)
    ensures Trim(" " + s) == s
  {
    TrimKeepsCore(" ", s, "");
    assert " " + s + "" == " " + s;
  }

  /** `sep` occurs in `s` starting at index `j`. */
  predicate Occurs(s: string, j: nat, sep: string) {
    j + |sep| <= |s| && s[j..j + |sep|] == sep
  }

  /** `s.indexOf(sep, from)`: the leftmost occurrence at or after `from`. */
  function IndexOf(s: string, sep: string, from: nat): (r: Option<nat>)
    ensures r.Some? ==> from <= r.value && Occurs(s, r.value, sep) &&
                        forall j :: from <= j < r.value ==> !Occurs(s, j, sep)
    ensures r.None? ==> forall j :: from <= j ==> !Occurs(s, j, sep)
    decreases |s| - from
  {
    if from + |sep| > |s| then None
    else if s[from..from + |sep|] == sep then Some(from)
    else IndexOf(s, sep, from + 1)
  }

  /** `s.split(sep)` for a non-empty separator: the pieces between the
      leftmost non-overlapping occurrences of `sep`. */
  function Split(s: string, sep: string): (r: seq<string>)
    requires |sep| > 0
    ensures |r| >= 1
    ensures IndexOf(s, sep, 0).Some? ==> |r| >= 2
    decreases |s|
  {
    match IndexOf(s, sep, 0)
    case None => [s]
    case Some(i) => [s[..i]] + Split(s[i + |sep|..], sep)
  }

  /** `parts.join(sep)`. */
  function Join(parts: seq<string>, sep: string): string {
    if |parts| == 0 then ""
    else if |parts| == 1 then parts[0]
    else parts[0] + sep + Join(parts[1..], sep)
  }

  /** The pieces concatenated in order. */
  function Concat(parts: seq<string>): string
    decreases |parts|
  {
    if parts == [] then "" else parts[0] + Concat(parts[1..])
  }

  /** Joining with the empty separator is concatenation. */
  lemma {:induction false} JoinEmptyConcat(parts: seq<string>)
    ensures Join(parts, "") == Concat(parts)
    decreases |parts|
  {
    if |parts| == 1 {
      assert parts[1..] == [];
    } else if |parts| > 1 {
      JoinEmptyConcat(parts[1..]);
    }
  }

  /** Splitting at an occurrence of `sep` that is the leftmost one: the
      text before it is the first piece, and the text after it is split on. */
  lemma SplitAt(x: string, sep: string, y: string)
    requires |sep| > 0
    requires forall j :: 0 <= j < |x| ==> !Occurs(x + sep + y, j, sep)
    ensures Split(x + sep + y, sep) == [x] + Split(y, sep)
  {
    var s := x + sep + y;
    assert s[|x|..|x| + |sep|] == sep;
    assert Occurs(s, |x|, sep);
    assert IndexOf(s, sep, 0) == Some(|x|);
    assert s[..|x|] == x;
    assert s[|x| + |sep|..] == y;
  }

  /** A text in which `sep` does not occur is a single piece. */
  lemma SplitWhole(x: string, sep: string)
    requires |sep| > 0
    requires forall j :: !Occurs(x, j, sep)
    ensures Split(x, sep) == [x]
  {
    assert IndexOf(x, sep, 0).None?;
  }

  /** A single-character separator occurs exactly where that character is. */
  lemma OccursChar(x: string, c: char, j: nat)
    ensures Occurs(x, j, [c]) <==> j < |x| && x[j] == c
  {
    if j < |x| {
      assert x[j..j + 1] == [x[j]];
    }
  }

  /** Splitting on a character at its first occurrence. */
  lemma SplitAtChar(x: string, c: char, y: string)
    requires c !in x
    ensures Split(x + [c] + y, [c]) == [x] + Split(y, [c])
  {
    forall j | 0 <= j < |x| ensures !Occurs(x + [c] + y, j, [c]) {
      OccursChar(x + [c] + y, c, j);
      assert (x + [c] + y)[j] == x[j];
    }
    SplitAt(x, [c], y);
  }

  /** A text without the character is a single piece. */
  lemma SplitWholeChar(x: string, c: char)
    requires c !in x
    ensures Split(x, [c]) == [x]
  {
    forall j ensures !Occurs(x, j, [c]) {
      OccursChar(x, c, j);
    }
    SplitWhole(x, [c]);
  }

  /** Splitting loses nothing: joining the pieces back gives the string. */
  lemma {:induction false} SplitJoin(s: string, sep: string)
    requires |sep| > 0
    ensures Join(Split(s, sep), sep) == s
    decreases |s|
  {
    match IndexOf(s, sep, 0)
    case None =>
    case Some(i) =>
      var rest := s[i + |sep|..];
      SplitJoin(rest, sep);
      var parts := Split(s, sep);
      assert parts == [s[..i]] + Split(rest, sep);
      assert parts[1..] == Split(rest, sep);
      assert s == s[..i] + sep + rest by {
        assert s[i..i + |sep|] == sep;
      }
  }

  /** No piece of a split contains the separator. */
  lemma {:induction false} SplitPiecesAvoidSeparator(s: string, sep: string, k: nat, j: nat)
    requires |sep| > 0 && k < |Split(s, sep)|
    ensures !Occurs(Split(s, sep)[k], j, sep)
    decreases |s|
  {
    match IndexOf(s, sep, 0)
    case None =>
    case Some(i) =>
      var rest := s[i + |sep|..];
      if k == 0 {
        if Occurs(s[..i], j, sep) {
          assert s[..i][j..j + |sep|] == s[j..j + |sep|];
          assert Occurs(s, j, sep);
        }
      } else {
        SplitPiecesAvoidSeparator(rest, sep, k - 1, j);
      }
  }
}
