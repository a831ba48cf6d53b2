/**
 * The `WordEmbedding` store: construction with validation, loading of
 * already-split lines, and lookup with its out-of-vocabulary policy.
 * Vector elements are reals; nothing numeric is computed on them.
 */
module Embedding {
  import opened Wrappers
  import opened Errors

  /** The accepted values of `oov_init`. */
  datatype OovInit = Zero | Rand

  /** What the caller passed as `random_state`. */
  datatype RandomStateArg = IntSeed(seed: int) | RandomStateObject | NoneGiven | OtherValue

  /** What the store keeps as its random generator. */
  datatype RandomSource = SeededState(seed: int) | GivenState | GlobalState

  datatype Config = Config(dimensions: int, oovInit: OovInit, randomState: RandomSource)

  /** One line of an embedding file, split into its word and its values. */
  datatype Line = Line(word: string, values: seq<real>)

  function Zeros(n: nat): seq<real>
  {
    seq(n, _ => 0.0)
  }

  /** The range of numpy's `uniform(-0.5, 0.5)`. */
  predicate InUnitRange(v: seq<real>)
  {
    forall i :: 0 <= i < |v| ==> -0.5 <= v[i] < 0.5
  }

  /** The seeds `numpy.random.RandomState` accepts. */
  const SeedBound: int := 0x1_0000_0000

  /**
   * The checks of the constructor, in the order it makes them: `oov_init`,
   * then `random_state` (building `RandomState(seed)` rejects a seed outside
   * 0..2^32 - 1), then `dimensions`.
   */
  function CheckConfig(dimensions: int, oovInit: string, randomState: RandomStateArg): (r: Result<Config, Error>)
    ensures r.Success? <==>
      && (oovInit == "zero" || oovInit == "rand")
      && !randomState.OtherValue?
      && (randomState.IntSeed? ==> 0 <= randomState.seed < SeedBound)
      && 50 <= dimensions <= 300
    ensures oovInit != "zero" && oovInit != "rand" ==> r == Failure(UnknownOovInit)
    ensures (oovInit == "zero" || oovInit == "rand") && randomState.OtherValue? ==> r == Failure(BadRandomState)
    ensures (oovInit == "zero" || oovInit == "rand") && randomState.IntSeed? && !(0 <= randomState.seed < SeedBound) ==>
      r == Failure(SeedOutOfRange)
    ensures r.Failure? && r.error == DimensionsOutOfRange <==>
      && (oovInit == "zero" || oovInit == "rand")
      && !randomState.OtherValue?
      && (randomState.IntSeed? ==> 0 <= randomState.seed < SeedBound)
      && !(50 <= dimensions <= 300)
    ensures r.Success? ==>
      && r.value.dimensions == dimensions
      && (r.value.oovInit == Zero <==> oovInit == "zero")
      && (randomState.IntSeed? ==> r.value.randomState == SeededState(randomState.seed))
      && (randomState.RandomStateObject? ==> r.value.randomState == GivenState)
      && (randomState.NoneGiven? ==> r.value.randomState == GlobalState)
  {
    if oovInit != "zero" && oovInit != "rand" then Failure(UnknownOovInit)
    else
      var source :=
        match randomState
        case IntSeed(s) => if 0 <= s < SeedBound then Success(SeededState(s)) else Failure(SeedOutOfRange)
        case RandomStateObject => Success(GivenState)
        case NoneGiven => Success(GlobalState)
        case OtherValue => Failure(BadRandomState);
      if source.Failure? then Failure(source.error)
      else if !(50 <= dimensions <= 300) then Failure(DimensionsOutOfRange)
      else Success(Config(dimensions, if oovInit == "zero" then Zero else Rand, source.value))
  }

  /**
   * numpy assigns a vector to a row of width d when it has d values, or a
   * single value, which it repeats.
   */
  predicate Broadcastable(values: seq<real>, d: nat)
  {
    |values| == d || |values| == 1
  }

  function Broadcast(values: seq<real>, d: nat): (r: seq<real>)
    requires Broadcastable(values, d)
    ensures |r| == d
    ensures |values| == d ==> r == values
    ensures forall i :: 0 <= i < d ==> r[i] in values
  {
    if |values| == d then values else seq(d, _ => values[0])
  }

  /** The first line whose values cannot be assigned to a row, if any. */
  function FirstMismatch(lines: seq<Line>, d: nat): (r: Option<nat>)
    ensures r.None? <==> forall i :: 0 <= i < |lines| ==> Broadcastable(lines[i].values, d)
    ensures r.Some? ==>
      && r.value < |lines|
      && !Broadcastable(lines[r.value].values, d)
      && forall i :: 0 <= i < r.value ==> Broadcastable(lines[i].values, d)
  {
    if lines == [] then None
    else if !Broadcastable(lines[0].values, d) then Some(0)
    else match FirstMismatch(lines[1..], d)
      case None => None
      case Some(k) => Some(k + 1)
  }

  lemma FirstMismatchAt(lines: seq<Line>, d: nat, i: nat)
    requires i < |lines| && !Broadcastable(lines[i].values, d)
    requires forall k :: 0 <= k < i ==> Broadcastable(lines[k].values, d)
    ensures FirstMismatch(lines, d) == Some(i)
  {
  }

  /** The word -> row table after reading `lines`: a later line overwrites an earlier one. */
  function LineIndex(lines: seq<Line>): map<string, nat>
  {
    if lines == [] then map[]
    else LineIndex(lines[..|lines| - 1])[lines[|lines| - 1].word := |lines| - 1]
  }

  /** Every word of the lines maps to the last line that starts with it. */
  lemma {:induction false} LineIndexLast(lines: seq<Line>)
    ensures forall w :: w in LineIndex(lines) <==> exists i :: 0 <= i < |lines| && lines[i].word == w
    ensures forall w :: w in LineIndex(lines) ==>
      && LineIndex(lines)[w] < |lines|
      && lines[LineIndex(lines)[w]].word == w
      && forall j :: LineIndex(lines)[w] < j < |lines| ==> lines[j].word != w
  {
    if lines != [] {
      var init := lines[..|lines| - 1];
      LineIndexLast(init);
      var n := |lines| - 1;
      forall w | (exists i :: 0 <= i < |lines| && lines[i].word == w) ensures w in LineIndex(lines) {
        var i :| 0 <= i < |lines| && lines[i].word == w;
        if i < n {
          assert init[i].word == w;
        }
      }
      forall w | w in LineIndex(init) ensures exists i :: 0 <= i < |lines| && lines[i].word == w {
        var i :| 0 <= i < |init| && init[i].word == w;
        assert lines[i].word == w;
      }
    }
  }

  /**
   * The tables and rows after the first n lines were read: word i of the
   * reverse table is the word of line i, a word maps to the last of those
   * lines starting with it, and row i holds the values of line i.
   */
  ghost predicate LinesRead(lines: seq<Line>, n: nat, vocab: map<string, nat>, reverse: map<nat, string>,
                            rows: seq<seq<real>>, d: nat)
    requires n <= |lines|
  {
    && n <= |rows|
    && vocab == LineIndex(lines[..n])
    && (forall i :: i in reverse <==> 0 <= i < n)
    && (forall i :: 0 <= i < n ==> reverse[i] == lines[i].word)
    && (forall i :: 0 <= i < n ==> Broadcastable(lines[i].values, d))
    && (forall i :: 0 <= i < n ==> rows[i] == Broadcast(lines[i].values, d))
  }

  /** Reading one more line that fits a row stores it at the next row. */
  lemma LinesReadStep(lines: seq<Line>, n: nat, vocab: map<string, nat>, reverse: map<nat, string>,
                      rows: seq<seq<real>>, d: nat)
    requires n < |lines| && n < |rows| && Broadcastable(lines[n].values, d)
    requires LinesRead(lines, n, vocab, reverse, rows, d)
    ensures LinesRead(lines, n + 1, vocab[lines[n].word := n], reverse[n := lines[n].word],
                      rows[n := Broadcast(lines[n].values, d)], d)
  {
    assert lines[..n + 1][..n] == lines[..n];
  }

  /** Every row has width d and both tables point inside the rows. */
  ghost predicate WellFormed(vocab: map<string, nat>, reverse: map<nat, string>, rows: seq<seq<real>>, d: nat)
  {
    && (forall w :: w in vocab ==> vocab[w] < |rows|)
    && (forall i :: i in reverse ==> i < |rows|)
    && (forall i :: 0 <= i < |rows| ==> |rows[i]| == d)
  }

  /** Whatever prefix of the lines has been read, the tables are well formed. */
  lemma LinesReadWellFormed(lines: seq<Line>, n: nat, vocab: map<string, nat>, reverse: map<nat, string>,
                            rows: seq<seq<real>>, d: nat)
    requires n <= |lines| && LinesRead(lines, n, vocab, reverse, rows, d)
    requires forall k :: 0 <= k < |rows| ==> |rows[k]| == d
    ensures WellFormed(vocab, reverse, rows, d)
  {
    LineIndexLast(lines[..n]);
  }

  /** A vector of width n drawn from `uniform(-0.5, 0.5)`. */
  predicate IsDraw(v: seq<real>, n: nat)
  {
    |v| == n && InUnitRange(v)
  }

  /**
   * A draw of `uniform(-0.5, 0.5, n)` from the configured generator: any n
   * values in range (the source calls `default_rng()` on the generator first,
   * see `LookupAsWritten`).
   */
  method Uniform(n: nat) returns (v: seq<real>)
    ensures IsDraw(v, n)
  {
    assert IsDraw(Zeros(n), n);
    v :| IsDraw(v, n);
  }

  predicate AllDraws(vs: seq<seq<real>>, count: nat, n: nat)
  {
    |vs| == count && forall i :: 0 <= i < count ==> IsDraw(vs[i], n)
  }

  /** A draw of `uniform(-0.5, 0.5, size=(rows, n))` from the configured generator. */
  method UniformRows(rows: nat, n: nat) returns (m: array<seq<real>>)
    ensures fresh(m) && m.Length == rows
    ensures forall i :: 0 <= i < rows ==> IsDraw(m[i], n)
  {
    var zeros := seq(rows, _ => Zeros(n));
    assert AllDraws(zeros, rows, n);
    var draws: seq<seq<real>> :| AllDraws(draws, rows, n);
    assert AllDraws(draws, rows, n);
    m := new seq<real>[rows](i => if 0 <= i < |draws| then draws[i] else []);
    forall i | 0 <= i < rows ensures IsDraw(m[i], n) {
      assert m[i] == draws[i];
    }
  }

  /**
   * The vectors a lookup of `word` may return from the table `vocab` over
   * `rows`: its row when the word is in the table; otherwise a fresh draw in
   * [-0.5, 0.5) under the 'rand' policy with `includeOov`, and the zero vector
   * in all other cases.
   */
  ghost predicate LookupYields(vocab: map<string, nat>, rows: seq<seq<real>>, oovInit: OovInit, d: nat,
                               word: string, includeOov: bool, v: seq<real>)
  {
    if word in vocab then vocab[word] < |rows| && v == rows[vocab[word]]
    else if oovInit == Rand && includeOov then IsDraw(v, d)
    else v == Zeros(d)
  }

  /**
   * Whether the stored generator answers `default_rng()`: the numpy.random
   * module (kept for `random_state=None`) does; a RandomState object, also
   * the one built from an int seed, has no such method.
   */
  predicate HasDefaultRng(source: RandomSource)
  {
    source.GlobalState?
  }

  /**
   * `get` as written: its 'rand' branch calls `random_state.default_rng()`,
   * an AttributeError for a seeded or given RandomState; `draw` stands for
   * the vector the call returns when it exists.
   */
  function LookupAsWritten(vocab: map<string, nat>, rows: seq<seq<real>>, oovInit: OovInit, source: RandomSource,
                           d: nat, word: string, includeOov: bool, draw: seq<real>): (r: Result<seq<real>, Error>)
    requires forall w :: w in vocab ==> vocab[w] < |rows|
    ensures r.Failure? <==> word !in vocab && oovInit == Rand && includeOov && !HasDefaultRng(source)
    ensures r.Failure? ==> r.error == NoDefaultRng
    ensures r.Success? && IsDraw(draw, d) ==> LookupYields(vocab, rows, oovInit, d, word, includeOov, r.value)
  {
    if word in vocab then Success(rows[vocab[word]])
    else if oovInit == Rand && includeOov then
      if HasDefaultRng(source) then Success(draw) else Failure(NoDefaultRng)
    else Success(Zeros(d))
  }

  /**
   * With a seeded or given generator, the 'rand' lookup of a word outside the
   * table fails as written, although a vector in the intended sense exists.
   */
  lemma SeededLookupFails(vocab: map<string, nat>, rows: seq<seq<real>>, source: RandomSource, d: nat,
                          word: string, draw: seq<real>)
    requires forall w :: w in vocab ==> vocab[w] < |rows|
    requires word !in vocab && !source.GlobalState?
    ensures LookupAsWritten(vocab, rows, Rand, source, d, word, true, draw) == Failure(NoDefaultRng)
    ensures exists v :: LookupYields(vocab, rows, Rand, d, word, true, v)
  {
    assert IsDraw(Zeros(d), d);
    assert LookupYields(vocab, rows, Rand, d, word, true, Zeros(d));
  }

  class WordEmbedding {
    const dimensions: nat
    const oovInit: OovInit
    const randomState: RandomSource
    /** The matrix of vectors, one row per line; null until `Load` (Python's None). */
    var embedding: array?<seq<real>>
    var vocab: map<string, nat>
    var reverseVocab: map<nat, string>

    ghost predicate Valid()
      reads this, embedding
    {
      && 50 <= dimensions <= 300
      && (embedding == null ==> vocab == map[] && reverseVocab == map[])
      && (embedding != null ==> WellFormed(vocab, reverseVocab, embedding[..], dimensions))
    }

    /** Nothing is loaded until `Load` runs (both Python fields are None until then). */
    predicate Loaded()
      reads this
    {
      embedding != null
    }

    constructor (config: Config)
      requires 50 <= config.dimensions <= 300
      ensures Valid() && !Loaded()
      ensures dimensions == config.dimensions && oovInit == config.oovInit && randomState == config.randomState
    {
      dimensions := config.dimensions;
      oovInit := config.oovInit;
      randomState := config.randomState;
      embedding := null;
      vocab := map[];
      reverseVocab := map[];
    }

    /** The vectors `Get` may return for `word`, as `LookupYields` says over the loaded rows. */
    ghost predicate Yields(word: string, includeOov: bool, v: seq<real>)
      reads this, embedding
      requires Loaded()
    {
      LookupYields(vocab, embedding[..], oovInit, dimensions, word, includeOov, v)
    }

    /** The number of lines a load of `lines` stores before it stops. */
    function Stored(lines: seq<Line>): (n: nat)
      ensures n <= |lines|
    {
      match FirstMismatch(lines, dimensions)
      case None => |lines|
      case Some(k) => k
    }

    /** The state after the first n lines were read, as `LinesRead` says. */
    ghost predicate HoldsLines(lines: seq<Line>, n: nat)
      reads this, embedding
      requires n <= |lines|
    {
      embedding != null && LinesRead(lines, n, vocab, reverseVocab, embedding[..], dimensions)
    }

    /**
     * Reads the lines into a new matrix of |lines| rows (`__count_lines`
     * gives the row count). A line whose values do not fit a row stops the
     * load with ValueError, the earlier lines already stored.
     */
    method Load(lines: seq<Line>) returns (r: Outcome<Error>)
      requires Valid()
      modifies this
      ensures Valid() && Loaded()
      ensures fresh(embedding) && embedding.Length == |lines|
      ensures r == match FirstMismatch(lines, dimensions)
                   case None => Pass
                   case Some(k) => Fail(ShapeMismatch(k))
      ensures HoldsLines(lines, Stored(lines))
    {
      // np.empty: the rows not yet read hold unspecified values of the right width
      assert |Zeros(dimensions)| == dimensions;
      var filler: seq<real> :| |filler| == dimensions;
      var rows := new seq<real>[|lines|](_ => filler);
      embedding := rows;
      vocab := map[];
      reverseVocab := map[];
      var i := 0;
      while i < |lines|
        invariant 0 <= i <= |lines|
        invariant embedding == rows
        invariant LinesRead(lines, i, vocab, reverseVocab, rows[..], dimensions)
        invariant forall k :: 0 <= k < |lines| ==> |rows[k]| == dimensions
      {
        var line := lines[i];
        if !Broadcastable(line.values, dimensions) {
          LinesReadWellFormed(lines, i, vocab, reverseVocab, rows[..], dimensions);
          FirstMismatchAt(lines, dimensions, i);
          assert Stored(lines) == i;
          return Fail(ShapeMismatch(i));
        }
        ghost var before := rows[..];
        LinesReadStep(lines, i, vocab, reverseVocab, before, dimensions);
        rows[i] := Broadcast(line.values, dimensions);
        assert rows[..] == before[i := Broadcast(line.values, dimensions)];
        vocab := vocab[line.word := i];
        reverseVocab := reverseVocab[i := line.word];
        i := i + 1;
      }
      LinesReadWellFormed(lines, i, vocab, reverseVocab, rows[..], dimensions);
      assert FirstMismatch(lines, dimensions) == None && Stored(lines) == i;
      return Pass;
    }

    /**
     * The vector of `word`: RuntimeError before any load, else a vector that
     * `Yields` allows, always of width `dimensions`.
     */
    method Get(word: string, includeOov: bool) returns (r: Result<seq<real>, Error>)
      requires Valid()
      ensures r.Failure? <==> !Loaded()
      ensures r.Failure? ==> r.error == NotLoaded
      ensures r.Success? ==> |r.value| == dimensions && Yields(word, includeOov, r.value)
    {
      if embedding == null {
        return Failure(NotLoaded);
      }
      if word in vocab {
        r := Success(embedding[vocab[word]]);
      } else if oovInit == Rand && includeOov {
        var v := Uniform(dimensions);
        r := Success(v);
      } else {
        r := Success(Zeros(dimensions));
      }
    }
  }

  /** `WordEmbedding(dimensions, oov_init, random_state)`: raises ValueError on a bad argument. */
  method NewWordEmbedding(dimensions: int, oovInit: string, randomState: RandomStateArg)
    returns (r: Result<WordEmbedding, Error>)
    ensures r.Success? <==> CheckConfig(dimensions, oovInit, randomState).Success?
    ensures r.Failure? ==> CheckConfig(dimensions, oovInit, randomState) == Failure(r.error)
    ensures r.Success? ==>
      && fresh(r.value) && r.value.Valid() && !r.value.Loaded()
      && r.value.dimensions == dimensions
      && Success(Config(r.value.dimensions, r.value.oovInit, r.value.randomState))
         == CheckConfig(dimensions, oovInit, randomState)
  {
    match CheckConfig(dimensions, oovInit, randomState)
    case Failure(e) =>
      return Failure(e);
    case Success(config) =>
      var we := new WordEmbedding(config);
      return Success(we);
  }
}
