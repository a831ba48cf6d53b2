/**
 * The `Tokenizer` of preprocessing/preprocessing.py: a word vocabulary built
 * in place by `Fit`, the codec between tokenised texts and index sequences,
 * and the weight matrix aligned with a `WordEmbedding`.
 */
module Preprocessing {
  import opened Wrappers
  import opened Errors
  import opened Text
  import opened Vocabulary
  import opened Sequences
  import opened WordCounts
  import opened SequenceCodec
  import opened Embedding

  /** The insertion order once `fit` has put the OOV token (if any) in the empty vocabulary. */
  function WithOov(oov: Option<string>, keys: seq<string>): (r: seq<string>)
    ensures keys <= r
  {
    if oov.Some? && keys == [] then [oov.value] else keys
  }

  /**
   * The vocabulary tables are numbered by insertion order 1..|keys| and
   * `nWords` counts them. With an OOV token, the vocabulary is empty and
   * `nWords` is 1 until the first `fit`, which puts the OOV token at index 1.
   */
  ghost predicate VocabularyState(oov: Option<string>, nWords: nat, vocab: map<string, int>,
                                  reverse: map<int, string>, keys: seq<string>)
  {
    && Indexed(vocab, reverse, keys)
    && nWords == (if oov.Some? && keys == [] then 1 else |keys|)
    && (oov.Some? && keys != [] ==> keys[0] == oov.value)
  }

  /** A word not yet known takes index nWords + 1 and keeps the state consistent. */
  lemma AddWord(oov: Option<string>, vocab: map<string, int>, reverse: map<int, string>, keys: seq<string>, w: string)
    requires VocabularyState(oov, |keys|, vocab, reverse, keys) && w !in vocab
    ensures VocabularyState(oov, |keys| + 1, vocab[w := |keys| + 1], reverse[|keys| + 1 := w], keys + [w])
  {
    IndexedAdd(vocab, reverse, keys, w);
  }

  /** What `create_weight_matrix` returns. */
  datatype WeightMatrix =
    /** `return_not_in_wordembedding` true: the matrix and the words without a vector. */
    | MatrixWithMissing(matrix: array<seq<real>>, missing: seq<string>)
    /** `return_not_in_wordembedding` false: the WordEmbedding argument itself. */
    | EmbeddingObject(embedding: WordEmbedding)

  /** The words of `keys` that `known` lacks, in order. */
  function NotIn(keys: seq<string>, known: map<string, nat>): (r: seq<string>)
    ensures |r| <= |keys|
    ensures forall w :: w in r <==> w in keys && w !in known
    ensures Distinct(keys) ==> Distinct(r)
  {
    if keys == [] then []
    else
      var init := NotIn(keys[..|keys| - 1], known);
      var w := keys[|keys| - 1];
      assert forall v :: v in keys <==> v in keys[..|keys| - 1] || v == w;
      if w !in known then init + [w] else init
  }

  /** The missing words keep their order in `keys`. */
  lemma {:induction false} NotInOrdered(keys: seq<string>, known: map<string, nat>)
    ensures Subsequence(NotIn(keys, known), keys)
  {
    if keys == [] {
      SubsequenceEmpty<string>();
    } else {
      var init := keys[..|keys| - 1];
      NotInOrdered(init, known);
      SubsequenceStep(NotIn(init, known), init, keys[|keys| - 1]);
      assert keys == init + [keys[|keys| - 1]];
    }
  }

  /** Scanning one more word adds it to the missing words exactly when `known` lacks it. */
  lemma NotInStep(keys: seq<string>, k: nat, known: map<string, nat>)
    requires k < |keys|
    ensures NotIn(keys[..k + 1], known) == NotIn(keys[..k], known) + (if keys[k] in known then [] else [keys[k]])
  {
    assert keys[..k + 1][..k] == keys[..k];
  }

  /**
   * A freshly allocated weight matrix of width d: row 0 zero; under the
   * 'zero' policy every other row zero, under 'rand' a draw.
   */
  ghost predicate Allocated(ms: seq<seq<real>>, oovInit: OovInit, d: nat)
  {
    && |ms| > 0 && ms[0] == Zeros(d)
    && (forall i :: 0 <= i < |ms| ==> |ms[i]| == d)
    && (forall i :: 0 < i < |ms| ==> if oovInit == Zero then ms[i] == Zeros(d) else IsDraw(ms[i], d))
  }

  /**
   * The weight matrix of a vocabulary numbered 1..n: row 0 zero, every row of
   * width d, the row of each vocabulary word a vector a lookup of that word
   * may return (table `wv` over `rows`), and the rows past n as allocated.
   */
  ghost predicate Layout(ms: seq<seq<real>>, vocab: map<string, int>, n: nat, wv: map<string, nat>,
                         rows: seq<seq<real>>, oovInit: OovInit, d: nat)
  {
    && |ms| > n && ms[0] == Zeros(d)
    && (forall i :: 0 <= i < |ms| ==> |ms[i]| == d)
    && (forall w :: w in vocab ==> 0 < vocab[w] < |ms| && LookupYields(wv, rows, oovInit, d, w, true, ms[vocab[w]]))
    && (forall i :: n < i < |ms| ==> if oovInit == Zero then ms[i] == Zeros(d) else IsDraw(ms[i], d))
  }

  /**
   * The weight matrix `ms` after the vocabulary loop has filled the rows of
   * its first k words: row j + 1 holds what a lookup of `keys[j]` may return
   * from the table `wv` over `rows`, and row 0 and the rows after k are as
   * allocated (`m0`).
   */
  ghost predicate FilledUpTo(ms: seq<seq<real>>, m0: seq<seq<real>>, keys: seq<string>, wv: map<string, nat>,
                             rows: seq<seq<real>>, oovInit: OovInit, d: nat, k: nat)
  {
    && |ms| == |m0| && k < |ms| && k <= |keys|
    && (forall i :: 0 <= i < |ms| ==> |ms[i]| == d)
    && ms[0] == m0[0]
    && (forall i :: k < i < |ms| ==> ms[i] == m0[i])
    && (forall j :: 0 <= j < k ==> LookupYields(wv, rows, oovInit, d, keys[j], true, ms[j + 1]))
  }

  /** Storing the vector of word k in row k + 1 extends the filled prefix by one word. */
  lemma FilledStep(ms: seq<seq<real>>, m0: seq<seq<real>>, keys: seq<string>, wv: map<string, nat>,
                   rows: seq<seq<real>>, oovInit: OovInit, d: nat, k: nat, row: seq<real>)
    requires FilledUpTo(ms, m0, keys, wv, rows, oovInit, d, k)
    requires k < |keys| && k + 1 < |ms|
    requires |row| == d && LookupYields(wv, rows, oovInit, d, keys[k], true, row)
    ensures FilledUpTo(ms[k + 1 := row], m0, keys, wv, rows, oovInit, d, k + 1)
  {
    var ms' := ms[k + 1 := row];
    forall j | 0 <= j < k + 1 ensures LookupYields(wv, rows, oovInit, d, keys[j], true, ms'[j + 1]) {
      if j < k {
        assert ms'[j + 1] == ms[j + 1];
      }
    }
  }

  /** Once every word of the vocabulary has its row, the matrix has the `Layout`. */
  lemma FilledLayout(ms: seq<seq<real>>, m0: seq<seq<real>>, keys: seq<string>, vocab: map<string, int>,
                     reverse: map<int, string>, wv: map<string, nat>, rows: seq<seq<real>>, oovInit: OovInit, d: nat)
    requires Indexed(vocab, reverse, keys)
    requires Allocated(m0, oovInit, d)
    requires FilledUpTo(ms, m0, keys, wv, rows, oovInit, d, |keys|)
    ensures Layout(ms, vocab, |keys|, wv, rows, oovInit, d)
  {
    forall w | w in vocab ensures 0 < vocab[w] < |ms| && LookupYields(wv, rows, oovInit, d, w, true, ms[vocab[w]]) {
      var k :| 0 <= k < |keys| && keys[k] == w;
    }
  }

  /**
   * The allocation step of `create_weight_matrix` as written: under 'rand' it
   * calls `random_state.default_rng()`, an AttributeError for a seeded or
   * given RandomState, before any row is written.
   */
  function AllocationAsWritten(oovInit: OovInit, source: RandomSource): Outcome<Error>
  {
    if oovInit == Rand && !HasDefaultRng(source) then Fail(NoDefaultRng) else Pass
  }

  /**
   * With a seeded or given generator, the 'rand' allocation fails as written
   * whatever the vocabulary, although a matrix of n rows as `Allocated`
   * intends exists for every n > 0.
   */
  lemma SeededAllocationFails(source: RandomSource, n: nat, d: nat)
    requires !source.GlobalState? && n > 0
    ensures AllocationAsWritten(Rand, source) == Fail(NoDefaultRng)
    ensures exists ms :: |ms| == n && Allocated(ms, Rand, d)
  {
    var ms := seq(n, _ => Zeros(d));
    assert IsDraw(Zeros(d), d);
    assert Allocated(ms, Rand, d);
  }

  class Tokenizer {
    /** The out-of-vocabulary token, stored as given (not lowercased). */
    const oovToken: Option<string>
    var nWords: nat
    /** word -> index */
    var vocab: map<string, int>
    /** index -> word */
    var reverseVocab: map<int, string>
    /** The insertion order of `vocab` (the order `vocab.items()` walks). */
    var keys: seq<string>
    /** `words_count`: the frequency table in its dictionary order. */
    var wordsCount: seq<WordCount>

    /**
     * The tables are indexed by insertion order 1..|keys| and `nWords` counts
     * them. With an OOV token, the vocabulary is empty and `nWords` is 1 until
     * the first `Fit`, which puts the OOV token at index 1.
     */
    ghost predicate Valid()
      reads this
    {
      && VocabularyState(oovToken, nWords, vocab, reverseVocab, keys)
      && UniqueWords(wordsCount)
    }

    constructor (oovToken: Option<string>)
      ensures Valid()
      ensures this.oovToken == oovToken
      ensures nWords == (if oovToken.Some? then 1 else 0)
      ensures vocab == map[] && reverseVocab == map[] && keys == [] && wordsCount == []
    {
      this.oovToken := oovToken;
      nWords := if oovToken.Some? then 1 else 0;
      vocab := map[];
      reverseVocab := map[];
      keys := [];
      wordsCount := [];
    }

    /**
     * In every valid state the two tables are mutual inverses over the index
     * set 1..|keys|, which is 1..nWords once `Fit` has put the OOV token (if
     * any) in; the OOV token then has index 1.
     */
    lemma TablesInverse()
      requires Valid()
      ensures forall w :: w in vocab ==> vocab[w] in reverseVocab && reverseVocab[vocab[w]] == w
      ensures forall i :: i in reverseVocab ==> reverseVocab[i] in vocab && vocab[reverseVocab[i]] == i
      ensures reverseVocab.Keys == Range(|keys|) && |vocab| == |keys|
      ensures oovToken.None? || keys != [] ==> reverseVocab.Keys == Range(nWords)
      ensures oovToken.Some? && keys != [] ==> oovToken.value in vocab && vocab[oovToken.value] == 1
    {
      IndexedInverse(vocab, reverseVocab, keys);
      IndexedSize(vocab, reverseVocab, keys);
    }

    /** `fit` first puts the OOV token, if any, at index 1 (a no-op after the first `fit`). */
    method AddOovToken()
      requires Valid()
      modifies this
      ensures Valid() && nWords == |keys|
      ensures keys == WithOov(oovToken, old(keys))
      ensures oovToken.Some? ==> keys[0] == oovToken.value
      ensures wordsCount == old(wordsCount)
    {
      if oovToken.Some? {
        var oov := oovToken.value;
        IndexedMember(vocab, reverseVocab, keys, oov);
        if oov !in vocab {
          assert keys == [];
          IndexedAdd(vocab, reverseVocab, keys, oov);
          keys := keys + [oov];
        } else {
          assert keys[0] == oov;
          assert vocab[oov := 1] == vocab;
          assert reverseVocab[1 := oov] == reverseVocab;
        }
        vocab := vocab[oov := 1];
        reverseVocab := reverseVocab[1 := oov];
      }
    }

    /**
     * One token of `fit`, already lowercased, meets the vocabulary: a word not
     * yet known is appended to the insertion order, so (`Valid` and
     * `IndexedDetermined`) it gets index nWords + 1 in both tables and nWords
     * grows by one; a known word changes nothing.
     */
    method RegisterToken(w: string)
      requires Valid() && nWords == |keys|
      modifies this
      ensures Valid() && nWords == |keys|
      ensures keys == Extend(old(keys), [w])
      ensures old(w !in vocab) ==>
        nWords == old(nWords) + 1 && w in vocab && vocab[w] == nWords && reverseVocab[nWords] == w
      ensures old(w in vocab) ==> nWords == old(nWords)
      ensures forall u :: u in old(vocab) ==> u in vocab && vocab[u] == old(vocab)[u]
      ensures wordsCount == old(wordsCount)
    {
      IndexedMember(vocab, reverseVocab, keys, w);
      ExtendOne(keys, w);
      if w !in vocab {
        AddWord(oovToken, vocab, reverseVocab, keys, w);
        vocab := vocab[w := nWords + 1];
        reverseVocab := reverseVocab[nWords + 1 := w];
        keys := keys + [w];
        nWords := nWords + 1;
      }
    }

    /** One token of `fit`, already lowercased, is counted: its count grows by one. */
    method CountWord(w: string)
      requires Valid()
      modifies this
      ensures Valid()
      ensures wordsCount == Bump(old(wordsCount), w)
      ensures nWords == old(nWords) && keys == old(keys)
      ensures vocab == old(vocab) && reverseVocab == old(reverseVocab)
    {
      wordsCount := Bump(wordsCount, w);
    }

    /** The inner loop of `fit`: every token of one text, lowercased, in order. */
    method FitText(tokens: seq<string>)
      requires Valid() && nWords == |keys|
      modifies this
      ensures Valid() && nWords == |keys|
      ensures keys == Extend(old(keys), LowerAll(tokens))
      ensures wordsCount == Tally(old(wordsCount), LowerAll(tokens))
    {
      ghost var keys0, counts0 := keys, wordsCount;
      for j := 0 to |tokens|
        invariant Valid() && nWords == |keys|
        invariant keys == Extend(keys0, LowerAll(tokens[..j]))
        invariant wordsCount == Tally(counts0, LowerAll(tokens[..j]))
      {
        var w := Lower(tokens[j]);
        ghost var before := LowerAll(tokens[..j]);
        RegisterToken(w);
        CountWord(w);
        LowerAllPrefix(tokens, j);
        ExtendAppend(keys0, before, [w]);
        TallyAppend(counts0, before, [w]);
        assert [w][..0] == [];
      }
      assert tokens[..|tokens|] == tokens;
    }

    /**
     * Builds the vocabulary from tokenised texts. Each lowercased token not
     * yet known gets the next index; every token is counted; the counts are
     * then sorted, largest first, ties in their previous order.
     */
    method Fit(texts: seq<seq<string>>)
      requires Valid()
      modifies this
      ensures Valid() && nWords == |keys|
      ensures keys == Extend(WithOov(oovToken, old(keys)), Tokens(texts))
      ensures nWords == |WithOov(oovToken, old(keys))| +
                        |Elements(Tokens(texts)) - Elements(WithOov(oovToken, old(keys)))|
      ensures oovToken.Some? ==> keys[0] == oovToken.value && vocab[oovToken.value] == 1
      ensures forall w :: w in old(vocab) ==> w in vocab && vocab[w] == old(vocab)[w]
      ensures forall i :: i in old(reverseVocab) ==> i in reverseVocab && reverseVocab[i] == old(reverseVocab)[i]
      ensures forall i, k :: 0 <= i < |texts| && 0 <= k < |texts[i]| ==> Lower(texts[i][k]) in vocab
      ensures wordsCount == SortByCount(Tally(old(wordsCount), Tokens(texts)))
      ensures Descending(wordsCount)
      ensures Sum(wordsCount) == old(Sum(wordsCount)) + |Tokens(texts)|
      ensures forall w :: CountOf(wordsCount, w) == old(CountOf(wordsCount, w)) + multiset(Tokens(texts))[w]
    {
      AddOovToken();
      ghost var keys0, counts0 := keys, wordsCount;
      for i := 0 to |texts|
        invariant Valid() && nWords == |keys|
        invariant keys == Extend(keys0, Tokens(texts[..i]))
        invariant wordsCount == Tally(counts0, Tokens(texts[..i]))
      {
        ghost var before := Tokens(texts[..i]);
        FitText(texts[i]);
        TokensPrefix(texts, i);
        ExtendAppend(keys0, before, LowerAll(texts[i]));
        TallyAppend(counts0, before, LowerAll(texts[i]));
      }
      assert texts[..|texts|] == texts;
      FitGrowth(keys0, Tokens(texts));
      FitCounts(counts0, Tokens(texts));
      FitVocabulary(texts, keys0, old(vocab), old(reverseVocab), old(keys));
      wordsCount := SortByCount(wordsCount);
    }

    /** The vocabulary grew by the distinct words met that it did not hold before. */
    lemma FitGrowth(keys0: seq<string>, seen: seq<string>)
      requires Valid() && nWords == |keys| && keys == Extend(keys0, seen)
      ensures nWords == |keys0| + |Elements(seen) - Elements(keys0)|
    {
      IndexedInverse(vocab, reverseVocab, keys);
      ExtendGrows(keys0, seen);
      assert Distinct(keys0) by {
        forall i, j | 0 <= i < j < |keys0| ensures keys0[i] != keys0[j] {
          assert keys0[i] == keys[i] && keys0[j] == keys[j];
        }
      }
      ExtendCount(keys0, seen);
    }

    /** The frequency facts `Fit` promises, from the table before sorting. */
    lemma FitCounts(counts0: seq<WordCount>, seen: seq<string>)
      requires UniqueWords(counts0) && wordsCount == Tally(counts0, seen)
      ensures UniqueWords(SortByCount(wordsCount)) && Descending(SortByCount(wordsCount))
      ensures Sum(SortByCount(wordsCount)) == Sum(counts0) + |seen|
      ensures forall w :: CountOf(SortByCount(wordsCount), w) == CountOf(counts0, w) + multiset(seen)[w]
    {
      TallyCounts(counts0, seen);
      TallyWords(counts0, seen);
      SortPermutes(wordsCount);
      SortCounts(wordsCount);
      SortDescending(wordsCount);
    }

    /** The vocabulary facts `Fit` promises, from its final `keys`. */
    lemma FitVocabulary(texts: seq<seq<string>>, keys0: seq<string>,
                        vocab0: map<string, int>, reverse0: map<int, string>, oldKeys: seq<string>)
      requires Valid()
      requires Indexed(vocab0, reverse0, oldKeys) && oldKeys <= keys0
      requires keys == Extend(keys0, Tokens(texts))
      ensures forall w :: w in vocab0 ==> w in vocab && vocab[w] == vocab0[w]
      ensures forall i :: i in reverse0 ==> i in reverseVocab && reverseVocab[i] == reverse0[i]
      ensures forall i, k :: 0 <= i < |texts| && 0 <= k < |texts[i]| ==> Lower(texts[i][k]) in vocab
    {
      ExtendGrows(keys0, Tokens(texts));
      IndexedExtends(vocab0, reverse0, oldKeys, vocab, reverseVocab, keys);
      ExtendElements(keys0, Tokens(texts));
      IndexedInverse(vocab, reverseVocab, keys);
      forall i, k | 0 <= i < |texts| && 0 <= k < |texts[i]| ensures Lower(texts[i][k]) in vocab {
        TokensContain(texts, i, k);
      }
    }

    /**
     * One index sequence per text, in order, as `EncodeText` gives it; a
     * KeyError when an unknown token needs the OOV token's index before any
     * `Fit` has put that token in the vocabulary. Changes no field.
     */
    method TextsToSequences(texts: seq<seq<string>>) returns (r: Result<seq<seq<int>>, Error>)
      ensures r.Failure? <==> exists i :: 0 <= i < |texts| && EncodeText(vocab, oovToken, texts[i]).Failure?
      ensures r.Failure? ==> oovToken.Some? && r.error == MissingKey(oovToken.value)
      ensures r.Success? ==>
        && |r.value| == |texts|
        && forall i :: 0 <= i < |texts| ==> EncodeText(vocab, oovToken, texts[i]) == Success(r.value[i])
    {
      var sequences: seq<seq<int>> := [];
      for i := 0 to |texts|
        invariant |sequences| == i
        invariant forall i' :: 0 <= i' < i ==> EncodeText(vocab, oovToken, texts[i']) == Success(sequences[i'])
      {
        var tokens := texts[i];
        var sequence: seq<int> := [];
        for j := 0 to |tokens|
          invariant EncodeText(vocab, oovToken, tokens[..j]) == Success(sequence)
        {
          assert tokens[..j + 1][..j] == tokens[..j];
          var w := Lower(tokens[j]);
          if w in vocab {
            sequence := sequence + [vocab[w]];
          } else if oovToken.Some? {
            if oovToken.value !in vocab {
              assert Lower(tokens[j]) !in vocab;
              assert EncodeText(vocab, oovToken, tokens).Failure?;
              return Failure(MissingKey(oovToken.value));
            }
            sequence := sequence + [vocab[oovToken.value]];
          }
        }
        assert tokens[..|tokens|] == tokens;
        sequences := sequences + [sequence];
      }
      return Success(sequences);
    }

    /** One text per index sequence, in order, as `DecodeText` gives it. Changes no field. */
    method SequencesToTexts(sequences: seq<seq<int>>) returns (texts: seq<string>)
      ensures |texts| == |sequences|
      ensures forall i :: 0 <= i < |sequences| ==> texts[i] == DecodeText(reverseVocab, oovToken, sequences[i])
    {
      texts := [];
      for i := 0 to |sequences|
        invariant |texts| == i
        invariant forall i' :: 0 <= i' < i ==> texts[i'] == DecodeText(reverseVocab, oovToken, sequences[i'])
      {
        var sequence := sequences[i];
        var words: seq<string> := [];
        for j := 0 to |sequence|
          invariant words == DecodeWords(reverseVocab, oovToken, sequence[..j])
        {
          assert sequence[..j + 1][..j] == sequence[..j];
          var element := sequence[j];
          if element in reverseVocab {
            words := words + [reverseVocab[element]];
          } else if oovToken.Some? {
            words := words + [oovToken.value];
          }
        }
        assert sequence[..|sequence|] == sequence;
        texts := texts + [Join(words)];
      }
    }

    /** The weight matrix `m` has the `Layout` of this vocabulary and `we`'s lookups. */
    ghost predicate MatrixLayout(m: array<seq<real>>, we: WordEmbedding)
      reads this, m, we, we.embedding
    {
      && m.Length == nWords + 1
      && Layout(m[..], vocab, |keys|, we.vocab, if we.Loaded() then we.embedding[..] else [],
                we.oovInit, we.dimensions)
    }

    /**
     * The matrix before the vocabulary loop: nWords + 1 rows as `Allocated`
     * says, zero or drawn from `uniform(-0.5, 0.5)` by the policy of `we`.
     */
    method InitialMatrix(we: WordEmbedding) returns (m: array<seq<real>>)
      ensures fresh(m) && m.Length == nWords + 1
      ensures Allocated(m[..], we.oovInit, we.dimensions)
    {
      var d := we.dimensions;
      if we.oovInit == Rand {
        m := UniformRows(nWords + 1, d);
        m[0] := Zeros(d);
      } else {
        m := new seq<real>[nWords + 1](_ => Zeros(d));
      }
    }

    /**
     * The loop over `vocab.items()`: row `vocab[w]` gets `we.get(w)` for every
     * word in insertion order, and the words `we` has no vector for are
     * collected. The first lookup fails with TypeError when `we` was never
     * loaded (its vocab is None).
     */
    method FillRows(m: array<seq<real>>, we: WordEmbedding) returns (r: Result<seq<string>, Error>)
      requires Indexed(vocab, reverseVocab, keys) && we.Valid() && m != we.embedding
      requires |keys| < m.Length
      requires forall i :: 0 <= i < m.Length ==> |m[i]| == we.dimensions
      modifies m
      ensures r.Failure? <==> !we.Loaded() && keys != []
      ensures r.Failure? ==> r.error == VocabIsNone
      ensures r.Success? ==>
        && r.value == NotIn(keys, we.vocab)
        && (keys != [] ==> we.Loaded())
        && FilledUpTo(m[..], old(m[..]), keys, we.vocab, if we.Loaded() then we.embedding[..] else [],
                      we.oovInit, we.dimensions, |keys|)
    {
      var d := we.dimensions;
      var missing: seq<string> := [];
      ghost var m0 := m[..];
      ghost var rows := if we.Loaded() then we.embedding[..] else [];
      for k := 0 to |keys|
        invariant k > 0 ==> we.Loaded()
        invariant FilledUpTo(m[..], m0, keys, we.vocab, rows, we.oovInit, d, k)
        invariant missing == NotIn(keys[..k], we.vocab)
      {
        var word := keys[k];
        var index := vocab[word];
        assert index == k + 1;
        if !we.Loaded() {
          return Failure(VocabIsNone);
        }
        NotInStep(keys, k, we.vocab);
        if word !in we.vocab {
          missing := missing + [word];
        }
        var row := we.Get(word, true);
        FilledStep(m[..], m0, keys, we.vocab, rows, we.oovInit, d, k, row.value);
        m[index] := row.value;
      }
      assert keys[..|keys|] == keys;
      return Success(missing);
    }

    /**
     * The weight matrix for `we`: TypeError when `we` is not a WordEmbedding
     * (null here), TypeError when the vocabulary is not empty and `we` was
     * never loaded (its vocab is None), else the layout `MatrixLayout` states
     * and the vocabulary words `we` has no vector for, in vocabulary order.
     * With `returnNotInWordEmbedding` false the result is `we` itself.
     */
    method CreateWeightMatrix(we: WordEmbedding?, returnNotInWordEmbedding: bool) returns (r: Result<WeightMatrix, Error>)
      requires Valid()
      requires we != null ==> we.Valid()
      ensures we == null ==> r == Failure(NotAWordEmbedding)
      ensures we != null && !we.Loaded() && keys != [] ==> r == Failure(VocabIsNone)
      ensures we != null && (we.Loaded() || keys == []) ==> r.Success?
      ensures r.Success? && !returnNotInWordEmbedding ==> we != null && r.value == EmbeddingObject(we)
      ensures r.Success? && returnNotInWordEmbedding ==>
        && we != null && r.value.MatrixWithMissing? && fresh(r.value.matrix)
        && MatrixLayout(r.value.matrix, we)
        && r.value.missing == NotIn(keys, we.vocab)
    {
      if we == null {
        return Failure(NotAWordEmbedding);
      }
      var m := InitialMatrix(we);
      ghost var m0 := m[..];
      var filled := FillRows(m, we);
      if filled.Failure? {
        return Failure(filled.error);
      }
      FilledLayout(m[..], m0, keys, vocab, reverseVocab, we.vocab, if we.Loaded() then we.embedding[..] else [],
                   we.oovInit, we.dimensions);
      if returnNotInWordEmbedding {
        return Success(MatrixWithMissing(m, filled.value));
      }
      return Success(EmbeddingObject(we));
    }
  }
}
