/** The two whitespace trims the source uses. */
module Text {

  /** The characters of the Unicode White_Space property, which Go's strings.TrimSpace strips. */
  predicate IsSpace(c: char) {
    || '\t' <= c <= '\r' || c == ' ' || c == '\U{85}' || c == '\U{A0}' || c == '\U{1680}'
    || '\U{2000}' <= c <= '\U{200A}' || c == '\U{2028}' || c == '\U{2029}' || c == '\U{202F}' || c == '\U{205F}'
        || c == '\U{3000}'
  }

  function TrimLeft(s: string, space: char -> bool): string {
    if s != [] && space(s[0]) then TrimLeft(s[1..], space) else s
  }

  function TrimRight(s: string, space: char -> bool): string {
    if s != [] && space(s[|s| - 1]) then TrimRight(s[..|s| - 1], space) else s
  }

  function TrimSpace(s: string): string {
    TrimRight(TrimLeft(s, IsSpace), IsSpace)
  }

  predicate IsTrimmed(s: string) {
    s == [] || (!IsSpace(s[0]) && !IsSpace(s[|s| - 1]))
  }

  lemma TrimmedIsFixed(s: string)
    requires IsTrimmed(s)
    ensures TrimSpace(s) == s
  {}

  lemma {:induction false} TrimLeftStarts(s: string)
    ensures var r := TrimLeft(s, IsSpace); r == [] || !IsSpace(r[0])
  {
    if s != [] && IsSpace(s[0]) {
      TrimLeftStarts(s[1..]);
    }
  }

  lemma {:induction false} TrimRightEnds(s: string)
    ensures var r := TrimRight(s, IsSpace); r <= s && (r == [] || !IsSpace(r[|r| - 1]))
  {
    if s != [] && IsSpace(s[|s| - 1]) {
      TrimRightEnds(s[..|s| - 1]);
    }
  }

  /** A string that does not begin with a blank keeps its first character. */
  lemma TrimKeepsStart(s: string)
    requires s != [] && !IsSpace(s[0])
    ensures TrimSpace(s) != "" && TrimSpace(s)[0] == s[0]
  {
    TrimRightKeepsStart(s);
  }

  lemma {:induction false} TrimRightKeepsStart(s: string)
    requires s != [] && !IsSpace(s[0])
    ensures TrimRight(s, IsSpace) != "" && TrimRight(s, IsSpace)[0] == s[0]
  {
    if IsSpace(s[|s| - 1]) {
      TrimRightKeepsStart(s[..|s| - 1]);
    }
  }

  /** Trimming leaves a trimmed string. */
  lemma TrimmedAfterTrim(s: string)
    ensures IsTrimmed(TrimSpace(s))
  {
    TrimLeftStarts(s);
    TrimRightEnds(TrimLeft(s, IsSpace));
  }
}
