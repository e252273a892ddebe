/** Python's substring test `needle in hay` on strings (sequences of code points). */
module Substring {

  /** `needle` appears in `hay` starting at index `i`. */
  ghost predicate OccursAt(needle: string, hay: string, i: nat) {
    i + |needle| <= |hay| && hay[i..i + |needle|] == needle
  }

  /** The meaning of `needle in hay`: some window of `hay` equals `needle`. */
  ghost predicate Occurs(needle: string, hay: string) {
    exists i: nat :: OccursAt(needle, hay, i)
  }

  /** A left-to-right scan that tries every start position of `hay` in turn. */
  function Contains(hay: string, needle: string): bool
    decreases |hay|
  {
    if |hay| < |needle| then false
    else hay[..|needle|] == needle || Contains(hay[1..], needle)
  }

  /** The scan answers exactly the substring question. */
  lemma {:induction false} ContainsIffOccurs(hay: string, needle: string)
    ensures Contains(hay, needle) <==> Occurs(needle, hay)
    decreases |hay|
  {
    if |hay| < |needle| {
      forall i: nat ensures !OccursAt(needle, hay, i) { }
    } else if hay[..|needle|] == needle {
      assert OccursAt(needle, hay, 0);
    } else {
      var tail := hay[1..];
      ContainsIffOccurs(tail, needle);
      if Occurs(needle, tail) {
        var i: nat :| OccursAt(needle, tail, i);
        assert hay[i + 1..i + 1 + |needle|] == tail[i..i + |needle|];
        assert OccursAt(needle, hay, i + 1);
      }
      if Occurs(needle, hay) {
        var i: nat :| OccursAt(needle, hay, i);
        assert i != 0;
        assert tail[i - 1..i - 1 + |needle|] == hay[i..i + |needle|];
        assert OccursAt(needle, tail, i - 1);
      }
    }
  }
}
