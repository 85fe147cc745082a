/** Whitespace handling of Python's `str.strip()` and the blank-row test of
    the CSV loaders. */
module Text {

  /** The characters `str.isspace()` accepts, which `str.strip()` with no
      argument removes: ASCII tab, line feed, vertical tab, form feed,
      carriage return, the four information separators, space, and the
      Unicode space characters. */
  predicate IsSpace(c: char) {
    || c == ' '
    || ('\t' <= c <= '\r')
    || ('\U{1C}' <= c <= '\U{1F}')
    || c == '\U{85}'
    || c == '\U{A0}'
    || c == '\U{1680}'
    || ('\U{2000}' <= c <= '\U{200A}')
    || c == '\U{2028}'
    || c == '\U{2029}'
    || c == '\U{202F}'
    || c == '\U{205F}'
    || c == '\U{3000}'
  }

  predicate AllSpace(s: string) {
    forall i :: 0 <= i < |s| ==> IsSpace(s[i])
  }

  /** The number of whitespace characters `s` starts with. */
  function LeadingSpace(s: string): (k: nat)
    ensures k <= |s|
    ensures forall i :: 0 <= i < k ==> IsSpace(s[i])
    ensures k < |s| ==> !IsSpace(s[k])
  {
    if |s| == 0 || !IsSpace(s[0]) then 0
    else
      assert forall i :: 1 <= i < |s| ==> s[i] == s[1..][i - 1];
      1 + LeadingSpace(s[1..])
  }

  /** The number of whitespace characters `s` ends with. */
  function TrailingSpace(s: string): (k: nat)
    ensures k <= |s|
    ensures forall i :: |s| - k <= i < |s| ==> IsSpace(s[i])
    ensures k < |s| ==> !IsSpace(s[|s| - k - 1])
  {
    if |s| == 0 || !IsSpace(s[|s| - 1]) then 0
    else
      assert forall i :: 0 <= i < |s| - 1 ==> s[i] == s[..|s| - 1][i];
      1 + TrailingSpace(s[..|s| - 1])
  }

  /** `s.lstrip()`: `s` without its leading whitespace. */
  function StripLeft(s: string): (r: string)
    ensures r == [] || !IsSpace(r[0])
  {
    s[LeadingSpace(s)..]
  }

  /** `s.rstrip()`: `s` without its trailing whitespace. */
  function StripRight(s: string): (r: string)
    ensures r == [] || !IsSpace(r[|r| - 1])
  {
    s[..|s| - TrailingSpace(s)]
  }

  /** Python's `s.strip()`: neither end of the result is whitespace. */
  function Strip(s: string): (r: string)
    ensures r == [] || (!IsSpace(r[0]) && !IsSpace(r[|r| - 1]))
  {
    var left := StripLeft(s);
    var r := StripRight(left);
    assert r != [] ==> r[0] == left[0];
    r
  }

  /** What `strip` removes: the result is the part of `s` left after
      dropping whitespace at both ends. */
  lemma StripInfix(s: string)
    ensures var r, k := Strip(s), LeadingSpace(s);
            && k + |r| <= |s| && r == s[k..k + |r|]
            && (forall i :: 0 <= i < k ==> IsSpace(s[i]))
            && (forall i :: k + |r| <= i < |s| ==> IsSpace(s[i]))
  {
    StripSlice(s);
    StripTrailing(s);
  }

  /** The stripped text sits in `s` right after the leading whitespace. */
  lemma StripSlice(s: string)
    ensures var r, k := Strip(s), LeadingSpace(s);
            k + |r| <= |s| && r == s[k..k + |r|]
  {
    var k := LeadingSpace(s);
    var left := s[k..];
    var r := left[..|left| - TrailingSpace(left)];
    assert Strip(s) == r;
  }

  /** Everything in `s` after the stripped text is whitespace. */
  lemma StripTrailing(s: string)
    ensures var r, k := Strip(s), LeadingSpace(s);
            k + |r| <= |s| && forall i :: k + |r| <= i < |s| ==> IsSpace(s[i])
  {
    var k := LeadingSpace(s);
    var left := s[k..];
    var r := left[..|left| - TrailingSpace(left)];
    assert Strip(s) == r;
    forall i | k + |r| <= i < |s|
      ensures IsSpace(s[i])
    {
      assert s[i] == left[i - k];
    }
  }

  /** Text with no whitespace at either end is its own strip. */
  lemma StripUnchanged(t: string)
    requires t == [] || (!IsSpace(t[0]) && !IsSpace(t[|t| - 1]))
    ensures Strip(t) == t
  {
    assert StripLeft(t) == t;
    assert StripRight(t) == t;
  }

  /** A cell is blank when it is all whitespace, which is when
      `cell.strip() == ""` (lemma BlankIffStripsToEmpty). */
  predicate IsBlank(s: string) {
    AllSpace(s)
  }

  /** A CSV row, as `csv.reader` yields it: its cells as text. */
  type Row = seq<string>

  /** A CSV row is blank when it has no cells or every cell is blank:
      `not row or all(cell.strip() == "" for cell in row)`. */
  predicate IsBlankRow(row: Row) {
    forall i :: 0 <= i < |row| ==> IsBlank(row[i])
  }

  /** Stripping leaves nothing exactly when the text is all whitespace. */
  lemma BlankIffStripsToEmpty(s: string)
    ensures IsBlank(s) <==> Strip(s) == []
  {
    StripInfix(s);
    var k := LeadingSpace(s);
    if Strip(s) != [] {
      assert !IsSpace(s[k]);
    }
  }

  /** Stripping twice is stripping once. */
  lemma StripIdempotent(s: string)
    ensures Strip(Strip(s)) == Strip(s)
  {
    StripUnchanged(Strip(s));
  }
}
