/** The exceptions raised by preprocessing/preprocessing.py that the model keeps. */
module Errors {

  datatype Error =
    /** ValueError: `oov_init` is neither 'zero' nor 'rand'. */
    | UnknownOovInit
    /** ValueError: `random_state` is not an int, a RandomState or None. */
    | BadRandomState
    /** ValueError from `RandomState(seed)`: an int seed outside 0..2^32 - 1. */
    | SeedOutOfRange
    /** ValueError: `dimensions` lies outside 50..300. */
    | DimensionsOutOfRange
    /** RuntimeError: `get` before any `load`. */
    | NotLoaded
    /** TypeError: `create_weight_matrix` was given something that is not a WordEmbedding. */
    | NotAWordEmbedding
    /** TypeError: `word not in word_embedding.vocab` while that vocab is still None. */
    | VocabIsNone
    /** KeyError: a dictionary lookup of a key that is absent. */
    | MissingKey(key: string)
    /** ValueError: numpy could not broadcast the vector of line `line` into a row. */
    | ShapeMismatch(line: nat)
    /** AttributeError: the stored generator has no `default_rng` method. */
    | NoDefaultRng
}
