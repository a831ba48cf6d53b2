/**
 * The two vocabulary tables of the Tokenizer (word -> index and index -> word)
 * together with the insertion order of the word -> index dictionary.
 *
 * The invariant `Indexed` says that the i-th inserted word has index i + 1 in
 * both tables and that the tables hold nothing else, so the words are
 * distinct, the index set is the dense range 1..|keys| and dictionary order
 * coincides with index order.
 */
module Vocabulary {

  predicate Distinct(s: seq<string>)
  {
    forall i, j :: 0 <= i < j < |s| ==> s[i] != s[j]
  }

  ghost predicate Indexed(vocab: map<string, int>, reverse: map<int, string>, keys: seq<string>)
  {
    && (forall k :: 0 <= k < |keys| ==>
          && keys[k] in vocab && vocab[keys[k]] == k + 1
          && k + 1 in reverse && reverse[k + 1] == keys[k])
    && (forall w :: w in vocab ==> w in keys)
    && (forall i :: i in reverse ==> 1 <= i <= |keys|)
  }

  /** The integers 1..n. */
  function Range(n: nat): (r: set<int>)
    ensures forall i :: i in r <==> 1 <= i <= n
    ensures |r| == n
  {
    if n == 0 then {} else Range(n - 1) + {n}
  }

  function Elements(s: seq<string>): set<string>
  {
    set w | w in s
  }

  lemma {:induction false} DistinctCardinality(s: seq<string>)
    requires Distinct(s)
    ensures |Elements(s)| == |s|
  {
    if s != [] {
      var t := s[..|s| - 1];
      assert Distinct(t);
      DistinctCardinality(t);
      assert Elements(s) == Elements(t) + {s[|s| - 1]};
      assert s[|s| - 1] !in Elements(t);
    }
  }

  /** A word is in the forward table exactly when it was inserted. */
  lemma IndexedMember(vocab: map<string, int>, reverse: map<int, string>, keys: seq<string>, w: string)
    requires Indexed(vocab, reverse, keys)
    ensures w in vocab <==> w in keys
  {
    if w in keys {
      var k :| 0 <= k < |keys| && keys[k] == w;
    }
  }

  /**
   * The two tables are mutual inverses, and the forward table gives every
   * word its insertion position plus one.
   */
  lemma IndexedInverse(vocab: map<string, int>, reverse: map<int, string>, keys: seq<string>)
    requires Indexed(vocab, reverse, keys)
    ensures Distinct(keys)
    ensures forall w :: w in vocab <==> w in keys
    ensures forall w :: w in vocab ==> 1 <= vocab[w] <= |keys| && keys[vocab[w] - 1] == w
    ensures forall w :: w in vocab ==> vocab[w] in reverse && reverse[vocab[w]] == w
    ensures forall i :: i in reverse ==> reverse[i] in vocab && vocab[reverse[i]] == i
  {
    forall i, j | 0 <= i < j < |keys| ensures keys[i] != keys[j] {
      assert vocab[keys[i]] != vocab[keys[j]];
    }
    forall w | w in keys ensures w in vocab {
      var k :| 0 <= k < |keys| && keys[k] == w;
    }
    forall w | w in vocab ensures 1 <= vocab[w] <= |keys| && keys[vocab[w] - 1] == w {
      var k :| 0 <= k < |keys| && keys[k] == w;
    }
    forall i | i in reverse ensures reverse[i] in vocab && vocab[reverse[i]] == i {
      assert keys[i - 1] in vocab;
    }
  }

  /** The index set is exactly 1..|keys| and both tables have |keys| entries. */
  lemma IndexedSize(vocab: map<string, int>, reverse: map<int, string>, keys: seq<string>)
    requires Indexed(vocab, reverse, keys)
    ensures reverse.Keys == Range(|keys|)
    ensures |vocab| == |keys| && |reverse| == |keys|
  {
    IndexedInverse(vocab, reverse, keys);
    assert vocab.Keys == Elements(keys);
    DistinctCardinality(keys);
    forall i | 1 <= i <= |keys| ensures i in reverse {
      assert keys[i - 1] in vocab;
    }
  }

  /** The insertion order alone determines both tables. */
  lemma IndexedDetermined(vocab: map<string, int>, reverse: map<int, string>,
                          vocab': map<string, int>, reverse': map<int, string>, keys: seq<string>)
    requires Indexed(vocab, reverse, keys) && Indexed(vocab', reverse', keys)
    ensures vocab == vocab' && reverse == reverse'
  {
    forall w | w in vocab || w in vocab' ensures w in vocab && w in vocab' && vocab[w] == vocab'[w] {
      var k :| 0 <= k < |keys| && keys[k] == w;
    }
    forall i | i in reverse || i in reverse' ensures i in reverse && i in reverse' && reverse[i] == reverse'[i] {
      assert 1 <= i <= |keys|;
      assert keys[i - 1] in vocab;
    }
  }

  /** Registering a word not yet known gives it the next index, |keys| + 1. */
  lemma IndexedAdd(vocab: map<string, int>, reverse: map<int, string>, keys: seq<string>, w: string)
    requires Indexed(vocab, reverse, keys)
    requires w !in vocab
    ensures Indexed(vocab[w := |keys| + 1], reverse[|keys| + 1 := w], keys + [w])
  {
    var n := |keys|;
    var vocab', reverse', keys' := vocab[w := n + 1], reverse[n + 1 := w], keys + [w];
    IndexedMember(vocab, reverse, keys, w);
    assert n + 1 !in reverse;
    forall k | 0 <= k < |keys'|
      ensures keys'[k] in vocab' && vocab'[keys'[k]] == k + 1
      ensures k + 1 in reverse' && reverse'[k + 1] == keys'[k]
    {
      if k < n {
        assert keys'[k] == keys[k] && keys[k] in vocab;
        assert keys[k] != w && k + 1 != n + 1;
      }
    }
    forall u | u in vocab' ensures u in keys' {
      if u != w {
        assert u in keys;
      }
    }
    forall i | i in reverse' ensures 1 <= i <= |keys'| {
      if i != n + 1 {
        assert i in reverse;
      }
    }
  }

  /** The indices of a smaller valid table survive unchanged in a larger one. */
  lemma IndexedExtends(vocab: map<string, int>, reverse: map<int, string>, keys: seq<string>,
                       vocab': map<string, int>, reverse': map<int, string>, keys': seq<string>)
    requires Indexed(vocab, reverse, keys) && Indexed(vocab', reverse', keys')
    requires keys <= keys'
    ensures forall w :: w in vocab ==> w in vocab' && vocab'[w] == vocab[w]
    ensures forall i :: i in reverse ==> i in reverse' && reverse'[i] == reverse[i]
  {
    forall w | w in vocab ensures w in vocab' && vocab'[w] == vocab[w] {
      var k :| 0 <= k < |keys| && keys[k] == w;
      assert keys'[k] == w;
    }
    forall i | i in reverse ensures i in reverse' && reverse'[i] == reverse[i] {
      assert keys'[i - 1] == keys[i - 1];
    }
  }

  /**
   * The insertion order of the word dictionary after the words `ws` are met
   * one after the other: a word is appended the first time it is seen.
   */
  function Extend(keys: seq<string>, ws: seq<string>): seq<string>
  {
    if ws == [] then keys
    else
      var before := Extend(keys, ws[..|ws| - 1]);
      var w := ws[|ws| - 1];
      if w in before then before else before + [w]
  }

  /** Meeting one word appends it exactly when it is new. */
  lemma ExtendOne(keys: seq<string>, w: string)
    ensures Extend(keys, [w]) == if w in keys then keys else keys + [w]
  {
    assert [w][..0] == [];
  }

  /** Meeting two word lists one after the other is meeting their concatenation. */
  lemma {:induction false} ExtendAppend(keys: seq<string>, ws: seq<string>, vs: seq<string>)
    ensures Extend(Extend(keys, ws), vs) == Extend(keys, ws + vs)
  {
    if vs != [] {
      ExtendAppend(keys, ws, vs[..|vs| - 1]);
      assert (ws + vs)[..|ws + vs| - 1] == ws + vs[..|vs| - 1];
    } else {
      assert ws + vs == ws;
    }
  }

  /** Words already inserted keep their positions, hence their indices. */
  lemma {:induction false} ExtendGrows(keys: seq<string>, ws: seq<string>)
    ensures keys <= Extend(keys, ws)
  {
    if ws != [] {
      ExtendGrows(keys, ws[..|ws| - 1]);
    }
  }

  /** The words in the table afterwards are those before plus those met. */
  lemma {:induction false} ExtendElements(keys: seq<string>, ws: seq<string>)
    ensures forall w :: w in Extend(keys, ws) <==> w in keys || w in ws
  {
    if ws != [] {
      var init := ws[..|ws| - 1];
      ExtendElements(keys, init);
      assert ws == init + [ws[|ws| - 1]];
    }
  }

  /** No word is ever inserted twice. */
  lemma {:induction false} ExtendDistinct(keys: seq<string>, ws: seq<string>)
    requires Distinct(keys)
    ensures Distinct(Extend(keys, ws))
  {
    if ws != [] {
      ExtendDistinct(keys, ws[..|ws| - 1]);
    }
  }

  /** Meeting only words already present changes nothing. */
  lemma {:induction false} ExtendKnown(keys: seq<string>, ws: seq<string>)
    requires forall w :: w in ws ==> w in keys
    ensures Extend(keys, ws) == keys
  {
    if ws != [] {
      var init := ws[..|ws| - 1];
      assert forall w :: w in init ==> w in ws;
      ExtendKnown(keys, init);
    }
  }

  /** Fitting the same words a second time adds nothing. */
  lemma ExtendIdempotent(keys: seq<string>, ws: seq<string>)
    ensures Extend(Extend(keys, ws), ws) == Extend(keys, ws)
  {
    ExtendElements(keys, ws);
    ExtendKnown(Extend(keys, ws), ws);
  }

  /**
   * The table grows by exactly the number of distinct words met that it did
   * not hold before.
   */
  lemma ExtendCount(keys: seq<string>, ws: seq<string>)
    requires Distinct(keys)
    ensures |Extend(keys, ws)| == |keys| + |Elements(ws) - Elements(keys)|
  {
    var r := Extend(keys, ws);
    ExtendGrows(keys, ws);
    ExtendElements(keys, ws);
    ExtendDistinct(keys, ws);
    var added := r[|keys|..];
    assert r == keys + added;
    assert Distinct(added) by {
      forall i, j | 0 <= i < j < |added| ensures added[i] != added[j] {
        assert added[i] == r[|keys| + i] && added[j] == r[|keys| + j];
      }
    }
    assert Elements(added) == Elements(ws) - Elements(keys) by {
      forall w | w in added ensures w in ws && w !in keys {
        var j :| 0 <= j < |added| && added[j] == w;
        assert r[|keys| + j] == w;
        forall i | 0 <= i < |keys| ensures keys[i] != w {
          assert r[i] == keys[i];
        }
      }
      forall w | w in ws && w !in keys ensures w in added {
        var j :| 0 <= j < |r| && r[j] == w;
        assert j >= |keys|;
        assert added[j - |keys|] == w;
      }
    }
    DistinctCardinality(added);
  }
}
