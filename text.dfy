/**
 * Strings and token streams. Tokenisation itself (the spaCy pipeline) is not
 * modelled: a text arrives as the sequence of its tokens' surface strings.
 */
module Text {

  /** ASCII case mapping of one character, standing for Python's `str.lower`. */
  function LowerChar(c: char): char
  {
    if 'A' <= c <= 'Z' then (c as int + 32) as char else c
  }

  function Lower(s: string): string
  {
    seq(|s|, i requires 0 <= i < |s| => LowerChar(s[i]))
  }

  /** The lowercased tokens of one text. */
  function LowerAll(tokens: seq<string>): seq<string>
  {
    seq(|tokens|, k requires 0 <= k < |tokens| => Lower(tokens[k]))
  }

  /** Lowercasing a prefix one token longer appends that token, lowercased. */
  lemma LowerAllPrefix(tokens: seq<string>, j: nat)
    requires j < |tokens|
    ensures LowerAll(tokens[..j + 1]) == LowerAll(tokens[..j]) + [Lower(tokens[j])]
  {
    var a, b := LowerAll(tokens[..j + 1]), LowerAll(tokens[..j]) + [Lower(tokens[j])];
    forall k | 0 <= k < |a| ensures a[k] == b[k] {
      assert tokens[..j + 1][k] == tokens[k];
    }
  }

  /** The stream of lowercased tokens of all texts, text after text. */
  function Tokens(texts: seq<seq<string>>): seq<string>
  {
    if texts == [] then [] else Tokens(texts[..|texts| - 1]) + LowerAll(texts[|texts| - 1])
  }

  /** The stream of a prefix one text longer appends that text's tokens. */
  lemma TokensPrefix(texts: seq<seq<string>>, i: nat)
    requires i < |texts|
    ensures Tokens(texts[..i + 1]) == Tokens(texts[..i]) + LowerAll(texts[i])
  {
    assert texts[..i + 1][..i] == texts[..i];
  }

  /** Every lowercased token of every text occurs in the stream. */
  lemma {:induction false} TokensContain(texts: seq<seq<string>>, i: nat, k: nat)
    requires i < |texts| && k < |texts[i]|
    ensures Lower(texts[i][k]) in Tokens(texts)
  {
    var n := |texts| - 1;
    if i == n {
      assert LowerAll(texts[n])[k] == Lower(texts[i][k]);
    } else {
      TokensContain(texts[..n], i, k);
    }
  }

  /** The stream holds exactly one entry per token. */
  lemma {:induction false} TokensLength(texts: seq<seq<string>>)
    ensures |Tokens(texts)| == TokenCount(texts)
  {
    if texts != [] {
      TokensLength(texts[..|texts| - 1]);
    }
  }

  function TokenCount(texts: seq<seq<string>>): nat
  {
    if texts == [] then 0 else TokenCount(texts[..|texts| - 1]) + |texts[|texts| - 1]|
  }

  /** Python's `' '.join(words)`. */
  function Join(words: seq<string>): string
  {
    if words == [] then ""
    else if |words| == 1 then words[0]
    else Join(words[..|words| - 1]) + " " + words[|words| - 1]
  }
}
