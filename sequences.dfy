/** General facts about sequences: one sequence as an order-preserving selection from another. */
module Sequences {

  /** `pos` lists, in increasing order, the positions of `s` whose elements make up `r`. */
  ghost predicate Embeds<T>(r: seq<T>, s: seq<T>, pos: seq<int>)
  {
    && |pos| == |r|
    && (forall i :: 0 <= i < |pos| ==> 0 <= pos[i] < |s| && r[i] == s[pos[i]])
    && (forall i, j :: 0 <= i < j < |pos| ==> pos[i] < pos[j])
  }

  /** `r` is `s` with some elements left out and the others in their order. */
  ghost predicate Subsequence<T>(r: seq<T>, s: seq<T>)
  {
    exists pos :: Embeds(r, s, pos)
  }

  /** Dropping or keeping one more element of `s` keeps a subsequence. */
  lemma SubsequenceStep<T>(r: seq<T>, s: seq<T>, x: T)
    requires Subsequence(r, s)
    ensures Subsequence(r, s + [x]) && Subsequence(r + [x], s + [x])
  {
    var pos :| Embeds(r, s, pos);
    assert Embeds(r, s + [x], pos);
    assert Embeds(r + [x], s + [x], pos + [|s|]);
  }

  lemma SubsequenceEmpty<T>()
    ensures Subsequence<T>([], [])
  {
    assert Embeds<T>([], [], []);
  }
}
