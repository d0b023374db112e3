/** Text helpers: Python's `str.strip()` and the notes preview of the list view. */
module Text {

  /** Python's `str.isspace()` for one code point. */
  predicate IsSpace(c: char): (r: bool)
    ensures c == ' ' || c == '\t' || c == '\n' || c == '\r' || c == '\U{000B}' || c == '\U{000C}' ==> r
    ensures '0' <= c <= '9' || 'A' <= c <= 'Z' || 'a' <= c <= 'z' || c == '_' ==> !r
    ensures r ==> c as int <= 0x3000
  {
    var k := c as int;
    k == 0x20 || 0x09 <= k <= 0x0D || 0x1C <= k <= 0x1F || k == 0x85 || k == 0xA0 ||
    k == 0x1680 || 0x2000 <= k <= 0x200A || k == 0x2028 || k == 0x2029 ||
    k == 0x202F || k == 0x205F || k == 0x3000
  }

  predicate AllSpace(s: string) {
    forall k :: 0 <= k < |s| ==> IsSpace(s[k])
  }

  /** The index of the first non-space character of `s` (|s| when there is none). */
  function LeadingSpaces(s: string): (i: nat)
    ensures i <= |s|
    ensures AllSpace(s[..i])
    ensures i < |s| ==> !IsSpace(s[i])
  {
    if s == [] || !IsSpace(s[0]) then 0
    else
      var i := 1 + LeadingSpaces(s[1..]);
      assert s[..i] == [s[0]] + s[1..][..i - 1];
      i
  }

  /** The length of `s` once its trailing spaces are cut off. */
  function TrailingEnd(s: string): (j: nat)
    ensures j <= |s|
    ensures AllSpace(s[j..])
    ensures j > 0 ==> !IsSpace(s[j - 1])
  {
    if s == [] || !IsSpace(s[|s| - 1]) then |s|
    else
      var j := TrailingEnd(s[..|s| - 1]);
      assert s[j..] == s[..|s| - 1][j..] + [s[|s| - 1]];
      j
  }

  /**
   * `s.strip()`: the longest middle part of `s` that neither starts nor ends
   * with whitespace, cut out of `s` with only whitespace on either side.
   */
  function Strip(s: string): (r: string)
    ensures r == [] || (!IsSpace(r[0]) && !IsSpace(r[|r| - 1]))
    ensures r == [] <==> AllSpace(s)
    ensures exists i, j :: 0 <= i <= j <= |s| && r == s[i..j] && AllSpace(s[..i]) && AllSpace(s[j..])
  {
    var i := LeadingSpaces(s);
    var t := s[i..];
    var j := TrailingEnd(t);
    assert t[..j] == s[i..i + j];
    assert t[j..] == s[i + j..];
    assert i == |s| ==> s[..i] == s;
    s[i..i + j]
  }

  /** Stripping a stripped string changes nothing. */
  lemma StripIdempotent(s: string)
    ensures Strip(Strip(s)) == Strip(s)
  {
    var r := Strip(s);
    assert LeadingSpaces(r) == 0;
    assert TrailingEnd(r[0..]) == |r| by { assert r[0..] == r; }
  }

  /** Whitespace around a word that neither starts nor ends with whitespace is exactly what strip removes. */
  lemma StripPadded(pre: string, w: string, post: string)
    requires AllSpace(pre) && AllSpace(post)
    requires w != [] && !IsSpace(w[0]) && !IsSpace(w[|w| - 1])
    ensures Strip(pre + w + post) == w
  {
    var s := pre + w + post;
    var i := LeadingSpaces(s);
    assert s[|pre|] == w[0];
    assert i == |pre|;
    var t := s[i..];
    assert t == w + post;
    assert t[|w| - 1] == w[|w| - 1];
    var j := TrailingEnd(t);
    assert j == |w|;
    assert s[i..i + j] == w;
  }

  const NOTES_PREVIEW: nat := 50

  /**
   * The notes column of the list view: notes longer than NOTES_PREVIEW code
   * points keep their first NOTES_PREVIEW and get "..." appended.
   */
  function TruncateNotes(notes: string): (r: string)
    ensures |notes| <= NOTES_PREVIEW ==> r == notes
    ensures |notes| > NOTES_PREVIEW ==> |r| == NOTES_PREVIEW + 3 && r[NOTES_PREVIEW..] == "..."
    ensures r[..if |notes| < NOTES_PREVIEW then |notes| else NOTES_PREVIEW] == notes[..if |notes| < NOTES_PREVIEW then |notes| else NOTES_PREVIEW]
  {
    if |notes| > NOTES_PREVIEW then notes[..NOTES_PREVIEW] + "..." else notes
  }
}
