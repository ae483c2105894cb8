/** Case-insensitive substring matching, the meaning the catalogue search
    gives to a `$regex` with option `i` whose pattern has no metacharacters. */
module Text {

  /** ASCII lower-casing of one character; other characters are unchanged. */
  function Lower(c: char): (d: char)
    ensures 'A' <= c <= 'Z' ==> d as int == c as int + 32
    ensures !('A' <= c <= 'Z') ==> d == c
    ensures !('A' <= d <= 'Z')
  {
    if 'A' <= c <= 'Z' then (c as int + 32) as char else c
  }

  function LowerAll(s: string): (r: string)
    ensures |r| == |s|
    ensures forall i :: 0 <= i < |s| ==> r[i] == Lower(s[i])
  {
    if s == [] then [] else [Lower(s[0])] + LowerAll(s[1..])
  }

  /** `t` occurs in `s` starting at position `i`. */
  predicate OccursAt(s: string, t: string, i: int) {
    0 <= i && i + |t| <= |s| && s[i..i + |t|] == t
  }

  /** Substring search: whether `t` occurs somewhere in `s`. */
  function Contains(s: string, t: string): (b: bool)
    ensures b <==> exists i :: OccursAt(s, t, i)
    decreases |s|
  {
    if |t| > |s| then
      false
    else if s[..|t|] == t then
      assert OccursAt(s, t, 0);
      true
    else
      ShiftOccurrences(s, t);
      Contains(s[1..], t)
  }

  /** When `t` is not a prefix of `s`, its occurrences in `s` are those in
      `s[1..]`, one position further on. */
  lemma ShiftOccurrences(s: string, t: string)
    requires |t| <= |s| && s[..|t|] != t
    ensures (exists i :: OccursAt(s, t, i)) <==> (exists i :: OccursAt(s[1..], t, i))
  {
    forall i | OccursAt(s[1..], t, i) ensures OccursAt(s, t, i + 1) {
      assert s[1..][i..i + |t|] == s[i + 1..i + 1 + |t|];
    }
    forall i | OccursAt(s, t, i) ensures OccursAt(s[1..], t, i - 1) {
      assert i != 0;
      assert s[1..][i - 1..i - 1 + |t|] == s[i..i + |t|];
    }
  }

  /** `needle` occurs in `hay` when both are read without regard to ASCII case. */
  function ContainsIgnoringCase(hay: string, needle: string): (found: bool)
    ensures found <==> exists i :: OccursAt(LowerAll(hay), LowerAll(needle), i)
  {
    var h, n := LowerAll(hay), LowerAll(needle);
    var found := Contains(h, n);
    assert found ==> exists i :: OccursAt(h, n, i);
    assert found ==> exists i :: OccursAt(LowerAll(hay), LowerAll(needle), i);
    assert !found ==> forall i :: !OccursAt(h, n, i);
    found
  }

  /** Matching ignores the case of the text: a text matches exactly when its
      lower-cased form does. */
  lemma {:induction false} CaseOfTextIgnored(hay: string, needle: string)
    ensures ContainsIgnoringCase(hay, needle) == ContainsIgnoringCase(LowerAll(hay), needle)
  {
    assert LowerAll(LowerAll(hay)) == LowerAll(hay);
  }

  /** A text that contains the pattern verbatim matches it. */
  lemma VerbatimMatches(hay: string, needle: string, i: int)
    requires OccursAt(hay, needle, i)
    ensures ContainsIgnoringCase(hay, needle)
  {
    assert LowerAll(hay)[i..i + |needle|] == LowerAll(needle);
    assert OccursAt(LowerAll(hay), LowerAll(needle), i);
  }
}
