/**
 * Trimming of user input, as the add and save-edit handlers apply it
 * (`String.prototype.trim`) before a text is stored.
 */
module Text {

  /**
   * The whitespace this model trims: space, tab, line feed, vertical tab,
   * form feed, carriage return, no-break space and the byte-order mark.
   */
  predicate IsSpace(c: char) {
    c == ' ' || c == '\t' || c == '\n' || c == '\r'
    || c == '\U{000B}' || c == '\U{000C}' || c == '\U{00A0}' || c == '\U{FEFF}'
  }

  ghost predicate AllSpace(s: string) {
    forall k | 0 <= k < |s| :: IsSpace(s[k])
  }

  /** Number of whitespace characters at the front of `s`. */
  function LeadingSpaces(s: string): (n: nat)
    ensures n <= |s|
    ensures forall k | 0 <= k < n :: IsSpace(s[k])
    ensures n < |s| ==> !IsSpace(s[n])
  {
    if s == [] || !IsSpace(s[0]) then 0 else 1 + LeadingSpaces(s[1..])
  }

  /** Index just past the last non-whitespace character of `s` (0 when there is none). */
  function TextEnd(s: string): (e: nat)
    ensures e <= |s|
    ensures forall k | e <= k < |s| :: IsSpace(s[k])
    ensures 0 < e ==> !IsSpace(s[e - 1])
  {
    if s == [] || !IsSpace(s[|s| - 1]) then |s| else TextEnd(s[..|s| - 1])
  }

  /**
   * `s` without its leading and trailing whitespace. The result is empty
   * exactly when `s` is all whitespace, and otherwise neither starts nor
   * ends with whitespace.
   */
  function Trim(s: string): (r: string)
    ensures |r| <= |s|
    ensures r == [] <==> AllSpace(s)
    ensures r != [] ==> !IsSpace(r[0]) && !IsSpace(r[|r| - 1])
  {
    var start := LeadingSpaces(s);
    var end := TextEnd(s);
    if start < end then s[start..end] else []
  }

  /** Trimming only cuts whitespace off the two ends: `s` is that whitespace around `Trim(s)`. */
  lemma TrimCutsOnlyEnds(s: string) returns (front: string, back: string)
    ensures s == front + Trim(s) + back
    ensures AllSpace(front) && AllSpace(back)
  {
    var start := LeadingSpaces(s);
    var end := TextEnd(s);
    if start < end {
      front, back := s[..start], s[end..];
      assert s == s[..start] + s[start..end] + s[end..];
    } else {
      front, back := s, [];
    }
  }

  /** Trimming twice is trimming once. */
  lemma TrimIdempotent(s: string)
    ensures Trim(Trim(s)) == Trim(s)
  {
    var r := Trim(s);
    if r != [] {
      assert LeadingSpaces(r) == 0;
      assert TextEnd(r) == |r|;
      assert r[0..|r|] == r;
    }
  }

  /**
   * The decomposition of `TrimCutsOnlyEnds` is unique: whitespace around a
   * text that neither starts nor ends with whitespace trims back to that text.
   */
  lemma TrimSurrounded(front: string, core: string, back: string)
    requires AllSpace(front) && AllSpace(back)
    requires core != [] && !IsSpace(core[0]) && !IsSpace(core[|core| - 1])
    ensures Trim(front + core + back) == core
  {
    var s := front + core + back;
    var start, end := LeadingSpaces(s), TextEnd(s);
    assert s[|front|] == core[0];
    assert s[|front| + |core| - 1] == core[|core| - 1];
    assert start == |front| && end == |front| + |core|;
    assert s[start..end] == core;
  }
}
