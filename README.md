# Word vocabulary and embedding preprocessing, modelled in Dafny

This project models the core of `preprocessing/preprocessing.py`, a text
preprocessing module for neural models. It has two parts.

- **`Tokenizer`** builds a word vocabulary in place:
  - the forward table `vocab` (word to index) and the inverse table `reverse_vocab`;
  - the counter `n_words`;
  - the insertion-ordered frequency table `words_count`.

  `fit` lowercases every token of every text. It gives each new word the next dense index and counts every occurrence. At the end it re-sorts the frequency table by count, largest first.

  `texts_to_sequences` and `sequences_to_texts` translate between tokenised texts and index sequences. An optional out-of-vocabulary (OOV) token either replaces unknown items or, if absent, lets them be dropped.

  `create_weight_matrix` lays out one embedding row per vocabulary index.
- **`WordEmbedding`**:
  - its constructor validates `dimensions`, `oov_init` and `random_state`;
  - `load` fills a row matrix and both word/row tables from the lines of an embedding file;
  - `get` returns a word's row or, for an unknown word, a random or zero vector under the OOV policy.

Modules:

- `Wrappers`, `Errors`: the `Option`/`Result`/`Outcome` carriers and the exceptions the code raises.
- `Sequences`: one sequence as an order-preserving selection from another (`Subsequence`).
- `Text`: ASCII lowercasing, Python's `' '.join`, and the stream of lowercased tokens of a corpus. Tokenisation is an input: a text is the sequence of its tokens.
- `Vocabulary`: the invariant `Indexed`. The i-th inserted word has index i + 1 in both tables, and the tables hold nothing else. `Extend` is the dictionary insertion order after meeting a list of words.
- `WordCounts`: the frequency table as a sequence of entries, with counting (`Bump`, `Tally`) and the stable descending sort (`SortByCount`).
- `SequenceCodec`: the pure functions `EncodeText` and `DecodeWords`/`DecodeText` that the codec methods compute, and their round trip.
- `Embedding`: configuration checking, the line-reading bookkeeping and the class `WordEmbedding`.
- `Preprocessing`: the class `Tokenizer` with `Fit`, the codec methods and `CreateWeightMatrix`.

The class `Tokenizer` keeps a field `keys`, the insertion order of `vocab`, which is the order `vocab.items()` walks. Its invariant `Valid` makes the two tables numbered by that order, from 1 up.

With an OOV token and no `fit` yet, the tables are empty and `nWords` is 1. The OOV token enters the tables at index 1 only when `fit` runs. Until then, `texts_to_sequences` on a text with an unknown token fails with KeyError. The OOV token is stored as given and is never lowercased. The OOV step of `fit` does not count it; a corpus token whose lowercase form equals it is counted like any other token.

Vector elements are `real`. Nothing numeric is computed on them. A random draw (`uniform(-0.5, 0.5)`) is any vector of the right width with elements in [-0.5, 0.5), chosen nondeterministically.

## Model

| member | source | states |
|---|---|---|
| Preprocessing.Tokenizer.constructor | preprocessing/preprocessing.py:52-61 | the OOV token is stored as given; `nWords` is 1 with an OOV token and 0 without; all tables are empty; the invariant holds |
| Preprocessing.Tokenizer.TablesInverse | preprocessing/preprocessing.py:54-77 | in every valid state, `vocab` and `reverseVocab` are mutual inverses, and the index set is exactly 1..n for the n inserted words, which is 1..nWords once the OOV token (if any) is in; the OOV token then has index 1 |
| Preprocessing.Tokenizer.AddOovToken | preprocessing/preprocessing.py:66-68 | `fit` puts the OOV token at index 1 of both tables on its first call and changes nothing on later calls; counts untouched |
| Preprocessing.Tokenizer.RegisterToken | preprocessing/preprocessing.py:74-77 | a new word gets index nWords + 1 in both tables and nWords grows by exactly one; a known word changes nothing; indices already assigned never change; the invariant is kept |
| Preprocessing.Tokenizer.CountWord | preprocessing/preprocessing.py:80-83 | the word's count grows by one (new entry with count 1 at the end); the vocabulary is untouched |
| Preprocessing.Tokenizer.FitText | preprocessing/preprocessing.py:72-83 | after one text, the insertion order is `Extend` of the old one by the text's lowercased tokens, and the counts are the old ones tallied with those tokens |
| Preprocessing.Tokenizer.Fit | preprocessing/preprocessing.py:64-86 | the invariant is kept; the order is the old one (with the OOV token first) extended by the corpus tokens; nWords grows by the number of new distinct words; old indices are unchanged; every lowercased token is in `vocab`; the counts are descending, stably sorted, each word's count grows by its occurrences, and the total grows by the token count |
| Preprocessing.Tokenizer.FitGrowth | preprocessing/preprocessing.py:74-77 | nWords equals the old size plus the distinct words met that were not yet known |
| Preprocessing.Tokenizer.FitCounts | preprocessing/preprocessing.py:80-86 | after counting and sorting, words are unique, counts are non-increasing, per-word counts grow by occurrences, and the sum grows by the number of tokens |
| Preprocessing.Tokenizer.FitVocabulary | preprocessing/preprocessing.py:70-77 | indices of both tables from before the fit survive, and every token of every text is in `vocab` |
| Preprocessing.Tokenizer.TextsToSequences | preprocessing/preprocessing.py:90-106 | one sequence per text, in order, each equal to `EncodeText`; KeyError on the OOV token exactly when some text needs the OOV index before the token is in `vocab`; no field changes |
| Preprocessing.Tokenizer.SequencesToTexts | preprocessing/preprocessing.py:109-124 | one text per sequence, in order, each equal to `DecodeText`; no field changes |
| Preprocessing.Tokenizer.InitialMatrix | preprocessing/preprocessing.py:132-140 | a fresh matrix of nWords + 1 rows of width `dimensions`; row 0 is zero; other rows are zero under 'zero' and draws in [-0.5, 0.5) from the configured generator under 'rand' (the corrected behaviour of the second Findings row) |
| Preprocessing.Tokenizer.FillRows | preprocessing/preprocessing.py:142-147 | in insertion order, row `vocab[w]` gets a vector `get(w)` may return; the missing list is exactly the words the embedding lacks, in order; TypeError exactly when the embedding was never loaded and the vocabulary is not empty; other rows untouched |
| Preprocessing.Tokenizer.CreateWeightMatrix | preprocessing/preprocessing.py:127-153 | TypeError for a non-WordEmbedding, or for an unloaded one with a non-empty vocabulary; otherwise success with the corrected generator (as written, a seeded or given generator under 'rand' raises AttributeError; see the second Findings row), and with the flag a fresh matrix with nWords + 1 rows, row 0 zero, each word's row a possible `get` of that word, and the missing words in vocabulary order; without the flag the WordEmbedding itself |
| Preprocessing.FilledLayout | preprocessing/preprocessing.py:142-147 | once every inserted word's row is filled, each word of `vocab` has its row at index `vocab[w]` and the rest keep their allocation |
| Preprocessing.AddWord | preprocessing/preprocessing.py:74-77 | adding an unknown word at the index after the last keeps the vocabulary state (dense numbering, OOV token first) |
| Preprocessing.NotIn | preprocessing/preprocessing.py:142-145 | a word is listed iff it is in the vocabulary and not in the embedding; no repeats when the vocabulary has none |
| Preprocessing.NotInOrdered | preprocessing/preprocessing.py:142-145 | the listed words keep their vocabulary insertion order (an order-preserving subsequence of it) |
| Preprocessing.SeededAllocationFails | preprocessing/preprocessing.py:133-137 | with a seeded or given generator the as-written allocation fails, although a matrix of the intended shape exists |
| Vocabulary.IndexedMember | preprocessing/preprocessing.py:74 | a word is in `vocab` exactly when it was inserted |
| Vocabulary.IndexedInverse | preprocessing/preprocessing.py:74-77 | inserted words are distinct, each word's index is its insertion position plus one, and the two tables are mutual inverses |
| Vocabulary.IndexedSize | preprocessing/preprocessing.py:74-77 | the index set is exactly 1..n for the n inserted words, and both tables have n entries |
| Vocabulary.IndexedDetermined | preprocessing/preprocessing.py:74-77 | the insertion order alone determines both tables |
| Vocabulary.IndexedAdd | preprocessing/preprocessing.py:74-77 | inserting an unknown word at the index after the last in both tables keeps the invariant |
| Vocabulary.IndexedExtends | preprocessing/preprocessing.py:74-77 | a table whose order extends another's keeps all of that one's indices in both directions |
| Vocabulary.ExtendOne | preprocessing/preprocessing.py:74-77 | meeting one word appends it exactly when it is new |
| Vocabulary.ExtendAppend | preprocessing/preprocessing.py:70-77 | meeting two word lists in turn equals meeting their concatenation |
| Vocabulary.ExtendGrows | preprocessing/preprocessing.py:74-77 | the old insertion order is a prefix of the new one |
| Vocabulary.ExtendElements | preprocessing/preprocessing.py:70-77 | the words afterwards are exactly those before plus those met |
| Vocabulary.ExtendDistinct | preprocessing/preprocessing.py:74 | no word is inserted twice |
| Vocabulary.ExtendKnown | preprocessing/preprocessing.py:74 | meeting only known words changes nothing |
| Vocabulary.ExtendIdempotent | preprocessing/preprocessing.py:64-77 | fitting the same tokens a second time adds nothing |
| Vocabulary.ExtendCount | preprocessing/preprocessing.py:74-77 | the order grows by exactly the number of distinct new words |
| WordCounts.Bump | preprocessing/preprocessing.py:80-83 | a word's count grows by one, others stay, a new word is appended with count 1, the order of existing entries is kept, the sum grows by one, and words stay unique |
| WordCounts.TallyAppend | preprocessing/preprocessing.py:70-83 | counting two word lists in turn equals counting their concatenation |
| WordCounts.TallyCounts | preprocessing/preprocessing.py:80-83 | each word's count grows by its number of occurrences, and the sum by the number of words counted |
| WordCounts.TallyWords | preprocessing/preprocessing.py:80-83 | the table holds exactly the old words plus the words counted, each once |
| WordCounts.SortDescending | preprocessing/preprocessing.py:86 | after sorting, counts are non-increasing |
| WordCounts.SortPermutes | preprocessing/preprocessing.py:86 | sorting is a permutation of the entries and keeps words unique |
| WordCounts.SortCounts | preprocessing/preprocessing.py:86 | sorting keeps every word's count and the total |
| WordCounts.SortStable | preprocessing/preprocessing.py:86 | entries with equal counts keep their relative order (Python's stable sort) |
| Text.TokensContain | preprocessing/preprocessing.py:70-74 | every lowercased token of every text occurs in the corpus token stream |
| Text.TokensLength | preprocessing/preprocessing.py:70-72 | the stream holds one entry per token |
| SequenceCodec.EncodeText | preprocessing/preprocessing.py:98-102 | with an OOV token, each token gives its index if known and the OOV index otherwise; without one, a text of known tokens gives their indices in order; the length is at most the token count, with equality when an OOV token is configured or every token is known; KeyError exactly when the OOV token is needed but not in `vocab` |
| SequenceCodec.KnownTokens | preprocessing/preprocessing.py:99 | the tokens kept are exactly those whose lowercase form is in `vocab` (all of them when all are known) |
| SequenceCodec.KnownTokensCount | preprocessing/preprocessing.py:98-100 | every occurrence of a known token is kept: each token has the multiplicity it has in the text, unknown ones none |
| SequenceCodec.KnownTokensOrdered | preprocessing/preprocessing.py:98-101 | the kept tokens are in their order in the text |
| SequenceCodec.EncodeWithoutOov | preprocessing/preprocessing.py:98-102 | without an OOV token, encoding never fails, drops exactly the unknown tokens, and gives the indices of the known tokens in order |
| SequenceCodec.DecodeWords | preprocessing/preprocessing.py:114-119 | with an OOV token, each index gives its word if in the reverse table and the OOV token otherwise; without one, a sequence of known indices gives their words in order; the length is preserved exactly when nothing is dropped |
| SequenceCodec.KnownIndices | preprocessing/preprocessing.py:116 | the indices kept are exactly those in the reverse table (all of them when all are known) |
| SequenceCodec.KnownIndicesCount | preprocessing/preprocessing.py:114-117 | every occurrence of a known index is kept: each index has the multiplicity it has in the sequence, unknown ones none |
| SequenceCodec.KnownIndicesOrdered | preprocessing/preprocessing.py:114-117 | the kept indices are in their order in the sequence |
| SequenceCodec.DecodeWithoutOov | preprocessing/preprocessing.py:114-119 | without an OOV token, decoding drops exactly the indices outside the reverse table and gives the words of the others in order |
| SequenceCodec.EncodedIndicesKnown | preprocessing/preprocessing.py:98-119 | every index an encoding emits is in the reverse table, so decoding it drops nothing |
| SequenceCodec.DecodeEncode | preprocessing/preprocessing.py:90-124 | decoding an encoding gives the surface form: known tokens lowercased, unknown ones replaced by the OOV token or dropped |
| SequenceCodec.FittedRoundTrip | preprocessing/preprocessing.py:109-124 | a text whose tokens are all known encodes without error and decodes to its lowercased tokens joined by single spaces |
| SequenceCodec.SurfaceKnown | preprocessing/preprocessing.py:98-100 | with every token known, the surface form is the lowercased tokens |
| Embedding.CheckConfig | preprocessing/preprocessing.py:163-182 | success iff `oov_init` is 'zero' or 'rand', `random_state` is an int seed in 0..2^32 - 1 (the range `RandomState(seed)` accepts), a RandomState or None, and `dimensions` is in 50..300; otherwise the first failing check's ValueError, in source order; the stored generator follows the argument kind |
| Embedding.NewWordEmbedding | preprocessing/preprocessing.py:158-182 | raises exactly what `CheckConfig` rejects; otherwise a fresh, unloaded store holding the checked arguments |
| Embedding.WordEmbedding.constructor | preprocessing/preprocessing.py:158-182 | stores the configuration; nothing is loaded (tables None) |
| Embedding.Broadcast | preprocessing/preprocessing.py:200 | a row gets d values: the vector itself when it has d values, otherwise its single value repeated |
| Embedding.FirstMismatch | preprocessing/preprocessing.py:194-200 | the first line whose values cannot fill a row, or None exactly when every line fits |
| Embedding.FirstMismatchAt | preprocessing/preprocessing.py:194-200 | a line that does not fit, preceded only by lines that fit, is the first mismatch |
| Embedding.LineIndexLast | preprocessing/preprocessing.py:201 | a word is in the line table iff some line starts with it, and then it maps to the last such line |
| Embedding.LinesReadStep | preprocessing/preprocessing.py:200-203 | storing one more fitting line at row i, `vocab[word] = i`, `reverse_vocab[i] = word` extends the read prefix by one |
| Embedding.LinesReadWellFormed | preprocessing/preprocessing.py:187-203 | whatever prefix was read, table entries point inside the rows |
| Embedding.WordEmbedding.Load | preprocessing/preprocessing.py:185-204 | a fresh matrix of one row per line; row i holds line i's values, `reverse_vocab[i]` is line i's word, and each word maps to its last line; on the first line that does not fit, ValueError, with the lines before it kept |
| Embedding.WordEmbedding.Get | preprocessing/preprocessing.py:207-220 | RuntimeError exactly when nothing is loaded; otherwise a vector of width `dimensions`: the word's row if known, a draw in [-0.5, 0.5) from the configured generator under 'rand' with `include_oov` (the corrected behaviour of the first Findings row), else zeros |
| Embedding.Uniform | preprocessing/preprocessing.py:216-217 | a draw is a vector of the requested width with every element in [-0.5, 0.5) |
| Embedding.UniformRows | preprocessing/preprocessing.py:133-136 | a fresh array of the requested row count, every row such a draw |
| Embedding.LookupAsWritten | preprocessing/preprocessing.py:212-219 | as written, the 'rand' branch for an unknown word fails with AttributeError exactly when the generator is a RandomState (seeded or given); otherwise the intended lookup |
| Embedding.SeededLookupFails | preprocessing/preprocessing.py:215-217 | with a seeded or given generator, the as-written 'rand' lookup of an unknown word fails, although an intended result exists |

## Findings

| source | as written | input that shows it | evidently intended | confidence | as-written member | corrected member |
|---|---|---|---|---|---|---|
| preprocessing/preprocessing.py:215-217 | `get` draws an OOV vector with `self.random_state.default_rng().uniform(...)`; for an int `random_state` the stored object is a `numpy.random.RandomState`, which has no `default_rng` method | `WordEmbedding(50, 'rand', random_state=0)`, loaded, then `get('unknown')`: AttributeError | draw `uniform(-0.5, 0.5, dimensions)` from the configured generator, which also honours the seed | high, not executed | Embedding.SeededLookupFails | Embedding.WordEmbedding.Get |
| preprocessing/preprocessing.py:133-137 | `create_weight_matrix` under 'rand' allocates with `word_embedding.random_state.default_rng().uniform(...)`; the same call fails for a seeded or given RandomState, whatever the vocabulary | `WordEmbedding(50, 'rand', random_state=0)` passed to `create_weight_matrix`: AttributeError | draw the (n_words + 1) x dimensions matrix from the configured generator, then zero row 0 | high, not executed | Preprocessing.SeededAllocationFails | Preprocessing.Tokenizer.InitialMatrix |

## Left out

- The spaCy pipeline (`create_language`, `self.nlp(text)`) and the type check on `nlp`: the model takes each text as the sequence of its tokens' surface strings.
- Unicode lowercasing: `Text.Lower` maps only ASCII A-Z, where Python's `str.lower` covers all of Unicode.
- The type checks against numpy's `RandomState` and against `WordEmbedding` keep only their outcome. `RandomStateArg` names the argument's kind, and a null `WordEmbedding?` stands for any other object. Python's `bool` passing as an `int`, and a float `dimensions` such as `50.0`, are not modelled.
- File reading in `load` and `__count_lines`: `Load` takes the file's lines already split into a word and its values, and the row count is the number of lines. Encodings, blank lines (an IndexError in the source) and `float` parsing errors are outside the model.
- Floating point: vector elements are `real` and carry no arithmetic.
- Embedding.WordEmbedding.Get: a draw is any vector in [-0.5, 0.5) of the right width. The distribution, independence between calls and seeding are not modelled.
- Preprocessing.Tokenizer.InitialMatrix: the same holds for the 'rand' rows of the weight matrix.
- Embedding.WordEmbedding.Load: the unread rows of `np.empty` hold an arbitrary vector of the right width, not arbitrary memory.
- The unused `pad_sequences` import.
- Where the code and its documented design differ, the model follows the code, except for the two `default_rng()` calls under "## Findings", where `Get` and `InitialMatrix` (and so `FillRows` and `CreateWeightMatrix`) take the corrected behaviour and the as-written failure is modelled beside them:
  - A failed `load` keeps the rows and tables of the lines read before the bad line, rather than discarding all state.
  - A line with a single value is broadcast over the whole row rather than rejected.
  - `create_weight_matrix` returns the `WordEmbedding` itself when `return_not_in_wordembedding` is false.
  - The indices of an OOV-configured vocabulary start with the OOV token at 1.
