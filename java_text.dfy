/** The few `java.lang.String` operations the services rely on, with Java's
    own edge cases: `trim` strips every character up to U+0020, `split(",")`
    drops trailing empty parts, string concatenation prints null as "null",
    and SQL `UPPER`/`LOWER` are modelled as ASCII case folding. */
module JavaText {
  import opened Wrappers

  // ---------------------------------------------------------------- trim

  /** `String.trim` removes the characters whose code is at most U+0020. */
  predicate IsTrimmed(c: char) {
    c <= ' '
  }

  /** A string that is empty after `trim()`. */
  predicate IsBlank(s: string) {
    forall i :: 0 <= i < |s| ==> IsTrimmed(s[i])
  }

  function TrimStart(s: string): (r: string)
    ensures |r| <= |s| && r == s[|s| - |r|..]
    ensures r == [] || !IsTrimmed(r[0])
    ensures IsBlank(s[..|s| - |r|])
  {
    if s == [] || !IsTrimmed(s[0]) then s
    else
      var r := TrimStart(s[1..]);
      assert s[1..][..|s[1..]| - |r|] == s[1..|s| - |r|];
      r
  }

  function TrimEnd(s: string): (r: string)
    ensures |r| <= |s| && r == s[..|r|]
    ensures r == [] || !IsTrimmed(r[|r| - 1])
    ensures IsBlank(s[|r|..])
  {
    if s == [] || !IsTrimmed(s[|s| - 1]) then s
    else
      var r := TrimEnd(s[..|s| - 1]);
      assert s[..|s| - 1][|r|..] == s[|r|..|s| - 1];
      r
  }

  /** `String.trim()`. */
  function Trim(s: string): string {
    TrimEnd(TrimStart(s))
  }

  /** `s.trim().isEmpty()` holds exactly for the blank strings. */
  lemma TrimEmptyIffBlank(s: string)
    ensures Trim(s) == [] <==> IsBlank(s)
  {
    var t := TrimStart(s);
    if Trim(s) == [] {
      assert t[0..] == t;
      assert t == [];
      assert s[..|s|] == s;
    } else {
      assert t != [];
      assert !IsTrimmed(t[0]);
      assert s[|s| - |t|] == t[0];
    }
  }

  /** `Character.isWhitespace`: the ASCII controls tab to carriage return
      and U+001C to U+001F, the space, and the Unicode space, line and
      paragraph separators other than the no-break spaces U+00A0, U+2007 and
      U+202F. */
  predicate IsJavaWhitespace(c: char) {
    || '\t' <= c <= '\r'
    || '\U{1C}' <= c <= ' '
    || c == '\U{1680}'
    || '\U{2000}' <= c <= '\U{2006}'
    || '\U{2008}' <= c <= '\U{200A}'
    || c == '\U{2028}' || c == '\U{2029}' || c == '\U{205F}' || c == '\U{3000}'
  }

  /** Spring's `StringUtils.hasText`: some character is not whitespace. */
  predicate HasText(s: string) {
    s != [] && (!IsJavaWhitespace(s[0]) || HasText(s[1..]))
  }

  /** `hasText` holds exactly when some character is not whitespace. */
  lemma {:induction false} HasTextIff(s: string)
    ensures HasText(s) <==> exists i :: 0 <= i < |s| && !IsJavaWhitespace(s[i])
  {
    if s != [] {
      HasTextIff(s[1..]);
      if !IsJavaWhitespace(s[0]) {
        assert 0 < |s| && !IsJavaWhitespace(s[0]);
      }
      if exists i :: 0 <= i < |s| && !IsJavaWhitespace(s[i]) {
        var i :| 0 <= i < |s| && !IsJavaWhitespace(s[i]);
        if i > 0 {
          assert s[1..][i - 1] == s[i];
        }
      }
    }
  }

  /** `trim` never changes a string without leading or trailing blanks. */
  lemma TrimKeepsInner(s: string)
    requires s != [] && !IsTrimmed(s[0]) && !IsTrimmed(s[|s| - 1])
    ensures Trim(s) == s
  {
  }

  // ---------------------------------------------------------- case folding

  function LowerChar(c: char): char {
    if 'A' <= c <= 'Z' then (c as int + 32) as char else c
  }

  function UpperChar(c: char): char {
    if 'a' <= c <= 'z' then (c as int - 32) as char else c
  }

  /** `toLowerCase()` and SQL `LOWER`, folded on ASCII letters only. */
  function Lower(s: string): (r: string)
    ensures |r| == |s|
    ensures forall i :: 0 <= i < |s| ==> r[i] == LowerChar(s[i])
  {
    seq(|s|, i requires 0 <= i < |s| => LowerChar(s[i]))
  }

  /** SQL `UPPER`, folded on ASCII letters only. */
  function Upper(s: string): (r: string)
    ensures |r| == |s|
    ensures forall i :: 0 <= i < |s| ==> r[i] == UpperChar(s[i])
  {
    seq(|s|, i requires 0 <= i < |s| => UpperChar(s[i]))
  }

  // ------------------------------------------------------------- substring

  predicate OccursAt(s: string, t: string, i: int) {
    0 <= i && i + |t| <= |s| && s[i..i + |t|] == t
  }

  /** `t` is a substring of `s`: SQL `s LIKE CONCAT('%', t, '%')` for a
      term without wildcard characters. */
  predicate Contains(s: string, t: string) {
    exists i :: 0 <= i <= |s| - |t| && OccursAt(s, t, i)
  }

  lemma EmptyIsContained(s: string)
    ensures Contains(s, [])
  {
    assert OccursAt(s, [], 0);
  }

  /** Case-insensitive substring test against a nullable column: SQL
      `UPPER(col) LIKE UPPER(CONCAT('%', t, '%'))` is never true of NULL. */
  predicate ContainsIgnoringCase(column: Option<string>, t: string) {
    column.Some? && Contains(Upper(column.value), Upper(t))
  }

  /** The same test written with `LOWER`, as the `example` queries do. */
  predicate ContainsIgnoringCaseLower(column: Option<string>, t: string) {
    column.Some? && Contains(Lower(column.value), Lower(t))
  }

  // ---------------------------------------------------------- concatenation

  /** What Java's `+` prints for a nullable string. */
  function Printed(s: Option<string>): string {
    if s.Some? then s.value else "null"
  }

  // ------------------------------------------------------------------ split

  /** Every comma-separated part of `s`, empty ones included. */
  function CommaParts(s: string): (parts: seq<string>)
    ensures |parts| >= 1
    ensures |parts| == 1 <==> ',' !in s
    ensures ',' !in parts[0]
    ensures ',' !in s ==> parts == [s]
  {
    if s == [] then [[]]
    else if s[0] == ',' then [[]] + CommaParts(s[1..])
    else
      var rest := CommaParts(s[1..]);
      assert [s[0]] + s[1..] == s;
      [[s[0]] + rest[0]] + rest[1..]
  }

  /** The first part is the text before the first comma. */
  lemma FirstPartIsPrefix(s: string)
    ensures var p := CommaParts(s)[0]; |p| <= |s| && p == s[..|p|]
    ensures var p := CommaParts(s)[0]; |p| < |s| ==> s[|p|] == ','
  {
    if s != [] && s[0] != ',' {
      FirstPartIsPrefix(s[1..]);
    }
  }

  function DropTrailingEmpty(parts: seq<string>): (r: seq<string>)
    ensures |r| <= |parts| && r == parts[..|r|]
    ensures r == [] || r[|r| - 1] != []
    ensures forall i :: |r| <= i < |parts| ==> parts[i] == []
  {
    if parts == [] || parts[|parts| - 1] != [] then parts
    else DropTrailingEmpty(parts[..|parts| - 1])
  }

  /** Java's `s.split(",")`: the comma parts without the trailing empty
      ones, except that a string with no comma at all splits into itself. */
  function JavaSplitComma(s: string): (r: seq<string>)
    ensures s == [] ==> r == [[]]
    ensures s != [] ==> |r| <= |CommaParts(s)| && r == CommaParts(s)[..|r|]
  {
    if ',' !in s then [s] else DropTrailingEmpty(CommaParts(s))
  }

  /** The parts a comma-only string splits into are all empty. */
  lemma OnlyCommasSplitIntoEmpties(s: string)
    requires forall i :: 0 <= i < |s| ==> s[i] == ','
    ensures forall j :: 0 <= j < |CommaParts(s)| ==> CommaParts(s)[j] == []
  {
    if s != [] {
      OnlyCommasSplitIntoEmpties(s[1..]);
    }
  }

  /** `split(",")` yields an empty array exactly for a non-empty string made
      only of commas (so `parts[0]` then throws). */
  lemma SplitEmptyIffOnlyCommas(s: string)
    ensures JavaSplitComma(s) == [] <==> (s != [] && forall i :: 0 <= i < |s| ==> s[i] == ',')
  {
    if s != [] && forall i :: 0 <= i < |s| ==> s[i] == ',' {
      assert s[0] == ',';
      OnlyCommasSplitIntoEmpties(s);
    } else if ',' in s && JavaSplitComma(s) == [] {
      var i :| 0 <= i < |s| && s[i] != ',';
      CommaPartsCoverChar(s, i);
    }
  }

  /** A character other than a comma lands in some non-empty part. */
  lemma CommaPartsCoverChar(s: string, i: int)
    requires 0 <= i < |s| && s[i] != ','
    ensures exists j :: 0 <= j < |CommaParts(s)| && CommaParts(s)[j] != []
  {
    if i == 0 {
      assert CommaParts(s)[0] != [];
    } else {
      CommaPartsCoverChar(s[1..], i - 1);
      var j :| 0 <= j < |CommaParts(s[1..])| && CommaParts(s[1..])[j] != [];
      if s[0] == ',' {
        assert CommaParts(s)[j + 1] == CommaParts(s[1..])[j];
      } else if j == 0 {
        assert CommaParts(s)[0] != [];
      } else {
        assert CommaParts(s)[j] == CommaParts(s[1..])[j];
      }
    }
  }
}
