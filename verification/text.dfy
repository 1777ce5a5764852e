/** Python's `needle in hay` on `str`: substring containment over code points. */
module Text {

  /** `needle` occurs in `hay` starting at index `i`. */
  predicate OccursAt(hay: string, needle: string, i: nat) {
    i + |needle| <= |hay| && hay[i..i + |needle|] == needle
  }

  /** Reference meaning of containment: there is a position where `needle` occurs. */
  ghost predicate Occurs(hay: string, needle: string) {
    exists i: nat :: OccursAt(hay, needle, i)
  }

  /** An occurrence in `hay[1..]` is an occurrence in `hay` one place further right, and back. */
  lemma OccursInTail(hay: string, needle: string)
    requires |hay| > 0
    ensures Occurs(hay[1..], needle) <==> exists i: nat :: i >= 1 && OccursAt(hay, needle, i)
  {
    var tail := hay[1..];
    if Occurs(tail, needle) {
      var i: nat :| OccursAt(tail, needle, i);
      assert hay[i + 1..i + 1 + |needle|] == tail[i..i + |needle|];
      assert OccursAt(hay, needle, i + 1);
    }
    if exists i: nat :: i >= 1 && OccursAt(hay, needle, i) {
      var i: nat :| i >= 1 && OccursAt(hay, needle, i);
      assert tail[i - 1..i - 1 + |needle|] == hay[i..i + |needle|];
      assert OccursAt(tail, needle, i - 1);
    }
  }

  /** Python's `needle in hay`, trying each start position from the left. */
  function Contains(hay: string, needle: string): (r: bool)
    ensures r <==> Occurs(hay, needle)
    decreases |hay|
  {
    if |hay| < |needle| then
      assert forall i: nat :: !OccursAt(hay, needle, i);
      false
    else if hay[..|needle|] == needle then
      assert OccursAt(hay, needle, 0);
      true
    else
      OccursInTail(hay, needle);
      assert !OccursAt(hay, needle, 0);
      Contains(hay[1..], needle)
  }

  /** Nothing non-empty is in the empty string. */
  lemma NothingInEmpty(needle: string)
    requires needle != ""
    ensures !Contains("", needle)
  {
  }
}
