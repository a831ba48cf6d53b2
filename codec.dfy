/**
 * What `texts_to_sequences` and `sequences_to_texts` compute, as functions of
 * the vocabulary tables and the optional out-of-vocabulary (OOV) token.
 */
module SequenceCodec {
  import opened Wrappers
  import opened Errors
  import opened Text
  import opened Vocabulary
  import opened Sequences

  /**
   * The index sequence of one tokenised text. A known lowercased token gives
   * its index; an unknown one gives the OOV token's index when an OOV token is
   * configured and nothing otherwise. Looking up an OOV token that is not in
   * the vocabulary raises KeyError.
   */
  function EncodeText(vocab: map<string, int>, oov: Option<string>, tokens: seq<string>): (r: Result<seq<int>, Error>)
    ensures r.Failure? <==>
      oov.Some? && oov.value !in vocab && exists k :: 0 <= k < |tokens| && Lower(tokens[k]) !in vocab
    ensures r.Failure? ==> oov.Some? && r.error == MissingKey(oov.value)
    ensures r.Success? ==> |r.value| <= |tokens|
    ensures r.Success? && oov.Some? ==>
      && |r.value| == |tokens|
      && forall k :: 0 <= k < |tokens| ==>
           r.value[k] == if Lower(tokens[k]) in vocab then vocab[Lower(tokens[k])] else vocab[oov.value]
    ensures r.Success? && oov.None? ==>
      (|r.value| == |tokens| <==> forall k :: 0 <= k < |tokens| ==> Lower(tokens[k]) in vocab)
    ensures oov.None? && (forall k :: 0 <= k < |tokens| ==> Lower(tokens[k]) in vocab) ==>
      && r.Success? && |r.value| == |tokens|
      && forall k :: 0 <= k < |tokens| ==> r.value[k] == vocab[Lower(tokens[k])]
  {
    if tokens == [] then Success([])
    else
      var init := tokens[..|tokens| - 1];
      var w := Lower(tokens[|tokens| - 1]);
      match EncodeText(vocab, oov, init)
      case Failure(e) => Failure(e)
      case Success(s) =>
        if w in vocab then Success(s + [vocab[w]])
        else if oov.None? then Success(s)
        else if oov.value in vocab then Success(s + [vocab[oov.value]])
        else Failure(MissingKey(oov.value))
  }

  /**
   * The words of one index sequence: an index in the reverse table gives its
   * word; any other index gives the OOV token when one is configured and is
   * dropped otherwise.
   */
  function DecodeWords(reverse: map<int, string>, oov: Option<string>, s: seq<int>): (r: seq<string>)
    ensures |r| <= |s|
    ensures oov.Some? ==>
      && |r| == |s|
      && forall k :: 0 <= k < |s| ==> r[k] == if s[k] in reverse then reverse[s[k]] else oov.value
    ensures oov.None? ==> (|r| == |s| <==> forall k :: 0 <= k < |s| ==> s[k] in reverse)
    ensures oov.None? && (forall k :: 0 <= k < |s| ==> s[k] in reverse) ==>
      forall k :: 0 <= k < |s| ==> r[k] == reverse[s[k]]
  {
    if s == [] then []
    else
      var init := DecodeWords(reverse, oov, s[..|s| - 1]);
      var i := s[|s| - 1];
      if i in reverse then init + [reverse[i]]
      else if oov.Some? then init + [oov.value]
      else init
  }

  /** The tokens of a text whose lowercase form is in the vocabulary, in order. */
  function KnownTokens(vocab: map<string, int>, tokens: seq<string>): (r: seq<string>)
    ensures forall k :: 0 <= k < |r| ==> Lower(r[k]) in vocab
    ensures forall t :: t in r <==> t in tokens && Lower(t) in vocab
    ensures (forall k :: 0 <= k < |tokens| ==> Lower(tokens[k]) in vocab) ==> r == tokens
  {
    if tokens == [] then []
    else
      var init := tokens[..|tokens| - 1];
      var t := tokens[|tokens| - 1];
      assert tokens == init + [t];
      assert forall u :: u in tokens <==> u in init || u == t;
      if Lower(t) in vocab then KnownTokens(vocab, init) + [t] else KnownTokens(vocab, init)
  }

  /** Every occurrence of a known token is kept: each has the multiplicity it has in the text. */
  lemma {:induction false} KnownTokensCount(vocab: map<string, int>, tokens: seq<string>)
    ensures forall t :: multiset(KnownTokens(vocab, tokens))[t] == if Lower(t) in vocab then multiset(tokens)[t] else 0
  {
    if tokens != [] {
      var init := tokens[..|tokens| - 1];
      KnownTokensCount(vocab, init);
      assert tokens == init + [tokens[|tokens| - 1]];
    }
  }

  /** The known tokens keep their order. */
  lemma {:induction false} KnownTokensOrdered(vocab: map<string, int>, tokens: seq<string>)
    ensures Subsequence(KnownTokens(vocab, tokens), tokens)
  {
    if tokens == [] {
      SubsequenceEmpty<string>();
    } else {
      var init := tokens[..|tokens| - 1];
      KnownTokensOrdered(vocab, init);
      SubsequenceStep(KnownTokens(vocab, init), init, tokens[|tokens| - 1]);
      assert tokens == init + [tokens[|tokens| - 1]];
    }
  }

  /**
   * Without an OOV token, encoding never fails and gives the indices of the
   * known tokens, in order: unknown tokens are dropped and nothing else changes.
   */
  lemma {:induction false} EncodeWithoutOov(vocab: map<string, int>, tokens: seq<string>)
    ensures EncodeText(vocab, None, tokens) == EncodeText(vocab, None, KnownTokens(vocab, tokens))
    ensures
      var r, known := EncodeText(vocab, None, tokens).value, KnownTokens(vocab, tokens);
      && |r| == |known|
      && forall k :: 0 <= k < |known| ==> r[k] == vocab[Lower(known[k])]
  {
    if tokens != [] {
      var init := tokens[..|tokens| - 1];
      var t := tokens[|tokens| - 1];
      EncodeWithoutOov(vocab, init);
      var known := KnownTokens(vocab, init);
      if Lower(t) in vocab {
        assert (known + [t])[..|known + [t]| - 1] == known;
      }
    }
  }

  /** The indices of a sequence that the reverse table holds, in order. */
  function KnownIndices(reverse: map<int, string>, s: seq<int>): (r: seq<int>)
    ensures forall k :: 0 <= k < |r| ==> r[k] in reverse
    ensures forall i :: i in r <==> i in s && i in reverse
    ensures (forall k :: 0 <= k < |s| ==> s[k] in reverse) ==> r == s
  {
    if s == [] then []
    else
      var init := s[..|s| - 1];
      var i := s[|s| - 1];
      assert s == init + [i];
      assert forall j :: j in s <==> j in init || j == i;
      if i in reverse then KnownIndices(reverse, init) + [i] else KnownIndices(reverse, init)
  }

  /** Every occurrence of a known index is kept: each has the multiplicity it has in the sequence. */
  lemma {:induction false} KnownIndicesCount(reverse: map<int, string>, s: seq<int>)
    ensures forall i :: multiset(KnownIndices(reverse, s))[i] == if i in reverse then multiset(s)[i] else 0
  {
    if s != [] {
      var init := s[..|s| - 1];
      KnownIndicesCount(reverse, init);
      assert s == init + [s[|s| - 1]];
    }
  }

  /** The known indices keep their order. */
  lemma {:induction false} KnownIndicesOrdered(reverse: map<int, string>, s: seq<int>)
    ensures Subsequence(KnownIndices(reverse, s), s)
  {
    if s == [] {
      SubsequenceEmpty<int>();
    } else {
      var init := s[..|s| - 1];
      KnownIndicesOrdered(reverse, init);
      SubsequenceStep(KnownIndices(reverse, init), init, s[|s| - 1]);
      assert s == init + [s[|s| - 1]];
    }
  }

  /**
   * Without an OOV token, decoding gives the words of the indices the reverse
   * table holds, in order: other indices are dropped and nothing else changes.
   */
  lemma {:induction false} DecodeWithoutOov(reverse: map<int, string>, s: seq<int>)
    ensures DecodeWords(reverse, None, s) == DecodeWords(reverse, None, KnownIndices(reverse, s))
    ensures
      var r, known := DecodeWords(reverse, None, s), KnownIndices(reverse, s);
      && |r| == |known|
      && forall k :: 0 <= k < |known| ==> r[k] == reverse[known[k]]
  {
    if s != [] {
      var init := s[..|s| - 1];
      var i := s[|s| - 1];
      DecodeWithoutOov(reverse, init);
      var known := KnownIndices(reverse, init);
      if i in reverse {
        assert (known + [i])[..|known + [i]| - 1] == known;
      }
    }
  }

  /** The text `sequences_to_texts` produces for one index sequence. */
  function DecodeText(reverse: map<int, string>, oov: Option<string>, s: seq<int>): string
  {
    Join(DecodeWords(reverse, oov, s))
  }

  /**
   * What a text looks like after encoding and decoding: known tokens
   * lowercased, unknown ones replaced by the OOV token or dropped.
   */
  function Surface(vocab: map<string, int>, oov: Option<string>, tokens: seq<string>): seq<string>
  {
    if tokens == [] then []
    else
      var init := Surface(vocab, oov, tokens[..|tokens| - 1]);
      var w := Lower(tokens[|tokens| - 1]);
      if w in vocab then init + [w]
      else if oov.Some? then init + [oov.value]
      else init
  }

  /** Decoding an encoded text gives its surface form. */
  lemma {:induction false} DecodeEncode(vocab: map<string, int>, reverse: map<int, string>, keys: seq<string>,
                                        oov: Option<string>, tokens: seq<string>)
    requires Indexed(vocab, reverse, keys)
    requires EncodeText(vocab, oov, tokens).Success?
    ensures DecodeWords(reverse, oov, EncodeText(vocab, oov, tokens).value) == Surface(vocab, oov, tokens)
  {
    if tokens != [] {
      var init := tokens[..|tokens| - 1];
      var w := Lower(tokens[|tokens| - 1]);
      assert EncodeText(vocab, oov, init).Success?;
      DecodeEncode(vocab, reverse, keys, oov, init);
      IndexedInverse(vocab, reverse, keys);
      var s := EncodeText(vocab, oov, init).value;
      var e := EncodeText(vocab, oov, tokens).value;
      if w in vocab {
        assert e == s + [vocab[w]];
        assert e[..|e| - 1] == s;
      } else if oov.Some? {
        assert e == s + [vocab[oov.value]];
        assert e[..|e| - 1] == s;
      } else {
        assert e == s;
      }
    }
  }

  /** Every index an encoding emits is in the reverse table, so decoding drops none of them. */
  lemma EncodedIndicesKnown(vocab: map<string, int>, reverse: map<int, string>, keys: seq<string>,
                            oov: Option<string>, tokens: seq<string>)
    requires Indexed(vocab, reverse, keys)
    requires EncodeText(vocab, oov, tokens).Success?
    ensures forall k :: 0 <= k < |EncodeText(vocab, oov, tokens).value| ==> EncodeText(vocab, oov, tokens).value[k] in reverse
    ensures |DecodeWords(reverse, oov, EncodeText(vocab, oov, tokens).value)| == |EncodeText(vocab, oov, tokens).value|
  {
    IndexedInverse(vocab, reverse, keys);
    var e := EncodeText(vocab, oov, tokens).value;
    if oov.None? {
      EncodeWithoutOov(vocab, tokens);
    }
    assert forall k :: 0 <= k < |e| ==> e[k] in reverse;
  }

  /**
   * A text whose tokens are all in the vocabulary encodes without error and
   * decodes to its lowercased tokens joined by single spaces.
   */
  lemma FittedRoundTrip(vocab: map<string, int>, reverse: map<int, string>, keys: seq<string>,
                        oov: Option<string>, tokens: seq<string>)
    requires Indexed(vocab, reverse, keys)
    requires forall k :: 0 <= k < |tokens| ==> Lower(tokens[k]) in vocab
    ensures EncodeText(vocab, oov, tokens).Success?
    ensures DecodeWords(reverse, oov, EncodeText(vocab, oov, tokens).value) == LowerAll(tokens)
    ensures DecodeText(reverse, oov, EncodeText(vocab, oov, tokens).value) == Join(LowerAll(tokens))
  {
    DecodeEncode(vocab, reverse, keys, oov, tokens);
    SurfaceKnown(vocab, oov, tokens);
  }

  lemma {:induction false} SurfaceKnown(vocab: map<string, int>, oov: Option<string>, tokens: seq<string>)
    requires forall k :: 0 <= k < |tokens| ==> Lower(tokens[k]) in vocab
    ensures Surface(vocab, oov, tokens) == LowerAll(tokens)
  {
    if tokens != [] {
      var init := tokens[..|tokens| - 1];
      assert forall k :: 0 <= k < |init| ==> init[k] == tokens[k];
      SurfaceKnown(vocab, oov, init);
      assert LowerAll(tokens) == LowerAll(init) + [Lower(tokens[|tokens| - 1])];
    }
  }
}
