/**
 * Text helpers shared by the service layer: ASCII lower-casing and
 * substring containment, the two ingredients of the case-insensitive,
 * unanchored search the document service performs.
 */
module Strings {

  /** Lower-cases one ASCII letter; every other character is left alone. */
  function LowerChar(c: char): char
  {
    if 'A' <= c <= 'Z' then (c as int + 32) as char else c
  }

  /** Lower-cases every ASCII letter of `s`, position by position. */
  function Lower(s: string): string
  {
    seq(|s|, i requires 0 <= i < |s| => LowerChar(s[i]))
  }

  /** `needle` occurs in `hay` starting at position `i`. */
  predicate OccursAt(hay: string, needle: string, i: nat)
  {
    i + |needle| <= |hay| && hay[i..i + |needle|] == needle
  }

  /** `needle` occurs somewhere in `hay` (an unanchored match). */
  predicate Contains(hay: string, needle: string)
  {
    exists i: nat | i <= |hay| :: OccursAt(hay, needle, i)
  }

  /** Case-insensitive containment, ASCII letters folded to lower case. */
  predicate ContainsIgnoreCase(hay: string, needle: string)
  {
    Contains(Lower(hay), Lower(needle))
  }

  /** A string always contains what is spliced into its middle. */
  lemma {:induction false} ContainsMiddle(a: string, b: string, c: string)
    ensures Contains(a + b + c, b)
  {
    assert (a + b + c)[|a|..|a| + |b|] == b;
    assert OccursAt(a + b + c, b, |a|);
  }

  /** The empty needle occurs in every string. */
  lemma {:induction false} ContainsEmpty(hay: string)
    ensures Contains(hay, "")
  {
    assert OccursAt(hay, "", 0);
  }
}
