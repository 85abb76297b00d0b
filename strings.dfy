/** The two string tests the script relies on: JavaScript's
    `String.prototype.includes`, and a case-insensitive prefix test as a
    regular expression with the `i` flag performs it. */
module Strings {

  /** ASCII upper case to lower case; every other character is left alone.
      Without the `u` flag, a JavaScript regular expression folds case only
      between ASCII letters when the pattern itself is ASCII. */
  function Lower(c: char): char
  {
    if 'A' <= c <= 'Z' then (c as int + 32) as char else c
  }

  /** `needle` occurs in `hay` starting at position `i`. */
  predicate OccursAt(needle: string, hay: string, i: int)
  {
    0 <= i && i + |needle| <= |hay| &&
    forall k :: 0 <= k < |needle| ==> hay[i + k] == needle[k]
  }

  /** `hay.includes(needle)`: scan the start positions left to right. */
  predicate Contains(needle: string, hay: string)
    decreases |hay|
  {
    OccursAt(needle, hay, 0) || (|hay| > 0 && Contains(needle, hay[1..]))
  }

  /** The scan finds an occurrence exactly when there is one. */
  lemma {:induction false} ContainsIffOccurs(needle: string, hay: string)
    ensures Contains(needle, hay) <==> exists i :: OccursAt(needle, hay, i)
    decreases |hay|
  {
    if |hay| > 0 {
      ContainsIffOccurs(needle, hay[1..]);
      if exists i :: OccursAt(needle, hay, i) {
        var i :| OccursAt(needle, hay, i);
        if i > 0 {
          assert OccursAt(needle, hay[1..], i - 1);
        }
      }
      if Contains(needle, hay[1..]) {
        var i :| OccursAt(needle, hay[1..], i);
        assert OccursAt(needle, hay, i + 1);
      }
    } else if exists i :: OccursAt(needle, hay, i) {
      var i :| OccursAt(needle, hay, i);
      assert i == 0;
    }
  }

  /** Every string includes itself, and every string includes "". */
  lemma ContainsItself(s: string)
    ensures Contains(s, s)
    ensures Contains([], s)
  {
    assert OccursAt(s, s, 0);
    assert OccursAt([], s, 0);
  }

  /** `s` begins with `pattern` when case is ignored; `pattern` is written in
      lower case, as the script's own patterns are. */
  predicate StartsWithFolded(pattern: string, s: string)
  {
    |pattern| <= |s| && forall k :: 0 <= k < |pattern| ==> Lower(s[k]) == pattern[k]
  }
}
