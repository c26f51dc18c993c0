/**
 * Case-insensitive substring matching, the `icontains` lookup, with case
 * folded over ASCII letters only.
 */
module Text {

  /** An ASCII upper-case letter lowered; any other character unchanged. */
  function LowerChar(c: char): (r: char)
    ensures 'A' <= c <= 'Z' ==> 'a' <= r <= 'z' && r as int - c as int == 32
    ensures !('A' <= c <= 'Z') ==> r == c
  {
    if 'A' <= c <= 'Z' then (c as int + 32) as char else c
  }

  /** s with every ASCII upper-case letter lowered. */
  function Lower(s: string): (r: string)
    ensures |r| == |s|
    ensures forall i :: 0 <= i < |s| ==> r[i] == LowerChar(s[i])
  {
    seq(|s|, i requires 0 <= i < |s| => LowerChar(s[i]))
  }

  /** needle occurs in hay starting at position i. */
  ghost predicate OccursAt(hay: string, needle: string, i: int)
  {
    0 <= i && i + |needle| <= |hay| && hay[i..i + |needle|] == needle
  }

  /** Whether needle occurs somewhere in hay, searched from the front. */
  function Contains(hay: string, needle: string): (b: bool)
    ensures b <==> exists i :: OccursAt(hay, needle, i)
    decreases |hay|
  {
    if |needle| > |hay| then
      assert forall i :: !OccursAt(hay, needle, i);
      false
    else if needle <= hay then
      assert hay[..|needle|] == needle;
      assert OccursAt(hay, needle, 0);
      true
    else
      var b := Contains(hay[1..], needle);
      assert !OccursAt(hay, needle, 0);
      assert forall i :: 1 <= i ==> (OccursAt(hay, needle, i) <==> OccursAt(hay[1..], needle, i - 1)) by {
        forall i | 1 <= i
          ensures OccursAt(hay, needle, i) <==> OccursAt(hay[1..], needle, i - 1)
        {
          if i + |needle| <= |hay| {
            var tail := hay[1..];
            var w, w' := hay[i..i + |needle|], tail[i - 1..i - 1 + |needle|];
            assert forall k :: 0 <= k < |w| ==> w[k] == w'[k];
            assert w == w';
          }
        }
      }
      assert b ==> exists i :: OccursAt(hay, needle, i) by {
        if b {
          var j :| OccursAt(hay[1..], needle, j);
          assert OccursAt(hay, needle, j + 1);
        }
      }
      b
  }

  /** `hay icontains needle`: needle occurs in hay once both are lowered. */
  predicate IContains(hay: string, needle: string)
    ensures IContains(hay, needle) <==> exists i :: OccursAt(Lower(hay), Lower(needle), i)
  {
    Contains(Lower(hay), Lower(needle))
  }
}
