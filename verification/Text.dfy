/** Byte strings and their occurrences, shared by the three string matchers. */
module Text {

  type Byte = b: int | 0 <= b < 256

  type Bytes = seq<Byte>

  /** `pat` occurs in `text` at index `k`. */
  predicate OccursAt(text: Bytes, pat: Bytes, k: int) {
    0 <= k && k + |pat| <= |text| && text[k..k + |pat|] == pat
  }

  ghost predicate Occurs(text: Bytes, pat: Bytes) {
    exists k :: OccursAt(text, pat, k)
  }

  /** `k` is where `pat` occurs first. */
  ghost predicate Leftmost(text: Bytes, pat: Bytes, k: int) {
    OccursAt(text, pat, k) && forall j :: OccursAt(text, pat, j) ==> k <= j
  }
}
