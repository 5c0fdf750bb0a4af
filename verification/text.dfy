/**
 * String operations the formatter applies itself: the first-occurrence search of
 * `NSString.range(of:)` and `replacingOccurrences(of: "\n", with: " ")`.
 * Positions count `char`s of a `seq<char>`.
 */
module Text {
  import opened Wrappers

  /** `pattern` occurs in `s` starting at index `i`. */
  predicate OccursAt(s: string, pattern: string, i: int) {
    0 <= i && i + |pattern| <= |s| && s[i..i + |pattern|] == pattern
  }

  predicate Contains(s: string, pattern: string) {
    exists i | 0 <= i <= |s| :: OccursAt(s, pattern, i)
  }

  /** `i` is the location of the first occurrence of `pattern` in `s`. */
  predicate FirstOccurrence(s: string, pattern: string, i: int) {
    OccursAt(s, pattern, i) && forall j | 0 <= j < i :: !OccursAt(s, pattern, j)
  }

  /** The `{name}` placeholder, shared by the game-score and payment templates. */
  const NamePlaceholder: string := "{name}"

  /**
   * The location of the first occurrence of `pattern` in `s`, or `None` (the Swift
   * code's `NSNotFound`). Like `range(of:)`, an empty pattern is never found.
   */
  function FindFirst(s: string, pattern: string): (r: Option<nat>)
    ensures r.Some? ==> OccursAt(s, pattern, r.value) && |pattern| > 0
    ensures r.Some? ==> forall j :: 0 <= j < r.value ==> !OccursAt(s, pattern, j)
    ensures r.None? <==> |pattern| == 0 || !Contains(s, pattern)
  {
    if |pattern| == 0 then None else FindFrom(s, pattern, 0)
  }

  function FindFrom(s: string, pattern: string, from: nat): (r: Option<nat>)
    requires |pattern| > 0
    requires forall j :: 0 <= j < from ==> !OccursAt(s, pattern, j)
    ensures r.Some? ==> from <= r.value && OccursAt(s, pattern, r.value)
    ensures r.Some? ==> forall j :: 0 <= j < r.value ==> !OccursAt(s, pattern, j)
    ensures r.None? ==> forall j :: !OccursAt(s, pattern, j)
    decreases |s| - from
  {
    if from + |pattern| > |s| then None
    else if s[from..from + |pattern|] == pattern then Some(from)
    else FindFrom(s, pattern, from + 1)
  }

  /** Every line feed of `s` replaced by a space. */
  function NewlinesToSpaces(s: string): (r: string)
    ensures |r| == |s|
    ensures forall i :: 0 <= i < |s| ==> r[i] == (if s[i] == '\n' then ' ' else s[i])
    ensures '\n' !in r
  {
    if |s| == 0 then ""
    else [if s[0] == '\n' then ' ' else s[0]] + NewlinesToSpaces(s[1..])
  }

  /** Replacing line feeds changes nothing in a string that has none. */
  lemma {:induction false} NewlinesToSpacesIdempotent(s: string)
    ensures NewlinesToSpaces(NewlinesToSpaces(s)) == NewlinesToSpaces(s)
  {
    var once := NewlinesToSpaces(s);
    assert '\n' !in once;
    var twice := NewlinesToSpaces(once);
    assert forall i :: 0 <= i < |once| ==> twice[i] == once[i];
  }
}
