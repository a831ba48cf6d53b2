/**
 * The frequency table `words_count`, an insertion-ordered dictionary from
 * word to count, modelled as the sequence of its entries in order.
 */
module WordCounts {

  datatype WordCount = WordCount(word: string, count: nat)

  function WordsOf(t: seq<WordCount>): set<string>
  {
    if t == [] then {} else {t[0].word} + WordsOf(t[1..])
  }

  /** No word has two entries (the table is a dictionary). */
  predicate UniqueWords(t: seq<WordCount>)
  {
    t == [] || (t[0].word !in WordsOf(t[1..]) && UniqueWords(t[1..]))
  }

  /** Total of all counts. */
  function Sum(t: seq<WordCount>): nat
  {
    if t == [] then 0 else t[0].count + Sum(t[1..])
  }

  /** Count recorded for word w (0 when w has no entry). */
  function CountOf(t: seq<WordCount>, w: string): nat
  {
    if t == [] then 0 else (if t[0].word == w then t[0].count else 0) + CountOf(t[1..], w)
  }

  /**
   * One occurrence of w: increments its entry where it stands, or appends a
   * new entry with count 1 at the end of the order.
   */
  function Bump(t: seq<WordCount>, w: string): (r: seq<WordCount>)
    ensures |r| == if w in WordsOf(t) then |t| else |t| + 1
    ensures forall i :: 0 <= i < |t| ==> r[i].word == t[i].word
    ensures w !in WordsOf(t) ==> r[|t|] == WordCount(w, 1)
    ensures WordsOf(r) == WordsOf(t) + {w}
    ensures forall v :: CountOf(r, v) == CountOf(t, v) + (if v == w then 1 else 0)
    ensures Sum(r) == Sum(t) + 1
    ensures UniqueWords(t) ==> UniqueWords(r)
  {
    if t == [] then [WordCount(w, 1)]
    else if t[0].word == w then [WordCount(w, t[0].count + 1)] + t[1..]
    else [t[0]] + Bump(t[1..], w)
  }

  /** The table after counting each word of `ws` in turn. */
  function Tally(t: seq<WordCount>, ws: seq<string>): seq<WordCount>
  {
    if ws == [] then t else Bump(Tally(t, ws[..|ws| - 1]), ws[|ws| - 1])
  }

  /** Counting two word lists one after the other is counting their concatenation. */
  lemma {:induction false} TallyAppend(t: seq<WordCount>, ws: seq<string>, vs: seq<string>)
    ensures Tally(Tally(t, ws), vs) == Tally(t, ws + vs)
  {
    if vs != [] {
      TallyAppend(t, ws, vs[..|vs| - 1]);
      assert (ws + vs)[..|ws + vs| - 1] == ws + vs[..|vs| - 1];
    } else {
      assert ws + vs == ws;
    }
  }

  /**
   * Counting adds exactly the occurrences of each word, so the total grows by
   * the number of words counted.
   */
  lemma {:induction false} TallyCounts(t: seq<WordCount>, ws: seq<string>)
    ensures forall v :: CountOf(Tally(t, ws), v) == CountOf(t, v) + multiset(ws)[v]
    ensures Sum(Tally(t, ws)) == Sum(t) + |ws|
  {
    if ws != [] {
      var init := ws[..|ws| - 1];
      TallyCounts(t, init);
      assert ws == init + [ws[|ws| - 1]];
    }
  }

  /** The table holds one entry per word seen, and nothing else is added. */
  lemma {:induction false} TallyWords(t: seq<WordCount>, ws: seq<string>)
    requires UniqueWords(t)
    ensures UniqueWords(Tally(t, ws))
    ensures WordsOf(Tally(t, ws)) == WordsOf(t) + set w | w in ws
  {
    if ws != [] {
      var init := ws[..|ws| - 1];
      TallyWords(t, init);
      assert ws == init + [ws[|ws| - 1]];
    }
  }

  /** Non-increasing order of counts. */
  predicate Descending(t: seq<WordCount>)
  {
    forall i, j :: 0 <= i < j < |t| ==> t[i].count >= t[j].count
  }

  /**
   * Inserts x in front of the first entry whose count does not exceed x's,
   * so x precedes the entries of equal count that were after it.
   */
  function Insert(x: WordCount, t: seq<WordCount>): seq<WordCount>
  {
    if t == [] || t[0].count <= x.count then [x] + t else [t[0]] + Insert(x, t[1..])
  }

  /**
   * `sorted(items, key=count, reverse=True)`: a stable sort by count, largest
   * first (Python's sort keeps equal keys in their original order also when
   * `reverse=True`).
   */
  function SortByCount(t: seq<WordCount>): seq<WordCount>
  {
    if t == [] then [] else Insert(t[0], SortByCount(t[1..]))
  }

  /** The entries having count c, in table order. */
  function WithCount(t: seq<WordCount>, c: nat): seq<WordCount>
  {
    if t == [] then [] else (if t[0].count == c then [t[0]] else []) + WithCount(t[1..], c)
  }

  lemma {:induction false} InsertPermutes(x: WordCount, t: seq<WordCount>)
    ensures multiset(Insert(x, t)) == multiset{x} + multiset(t)
  {
    if t != [] && t[0].count > x.count {
      InsertPermutes(x, t[1..]);
      assert t == [t[0]] + t[1..];
    }
  }

  lemma {:induction false} InsertWords(x: WordCount, t: seq<WordCount>)
    ensures WordsOf(Insert(x, t)) == {x.word} + WordsOf(t)
    ensures UniqueWords(t) && x.word !in WordsOf(t) ==> UniqueWords(Insert(x, t))
  {
    if t != [] && t[0].count > x.count {
      InsertWords(x, t[1..]);
    }
  }

  lemma {:induction false} InsertCounts(x: WordCount, t: seq<WordCount>)
    ensures Sum(Insert(x, t)) == x.count + Sum(t)
    ensures forall v :: CountOf(Insert(x, t), v) == (if x.word == v then x.count else 0) + CountOf(t, v)
  {
    if t != [] && t[0].count > x.count {
      InsertCounts(x, t[1..]);
    }
  }

  lemma {:induction false} InsertWithCount(x: WordCount, t: seq<WordCount>, c: nat)
    ensures WithCount(Insert(x, t), c) == (if x.count == c then [x] else []) + WithCount(t, c)
  {
    if t != [] && t[0].count > x.count {
      InsertWithCount(x, t[1..], c);
      var r := Insert(x, t);
      assert r[1..] == Insert(x, t[1..]);
    }
  }

  lemma ConsDescending(a: WordCount, s: seq<WordCount>)
    requires Descending(s)
    requires s == [] || s[0].count <= a.count
    ensures Descending([a] + s)
  {
    var r := [a] + s;
    forall i, j | 0 <= i < j < |r| ensures r[i].count >= r[j].count {
      if i == 0 {
        assert r[j] == s[j - 1];
        assert s[0].count >= s[j - 1].count;
      } else {
        assert r[i] == s[i - 1] && r[j] == s[j - 1];
      }
    }
  }

  lemma {:induction false} InsertDescending(x: WordCount, t: seq<WordCount>)
    requires Descending(t)
    ensures Descending(Insert(x, t))
  {
    if t == [] || t[0].count <= x.count {
      ConsDescending(x, t);
    } else {
      var t' := t[1..];
      assert Descending(t');
      InsertDescending(x, t');
      var r' := Insert(x, t');
      assert r'[0] == x || r'[0] == t'[0];
      ConsDescending(t[0], r');
    }
  }

  /** After sorting, counts are in non-increasing order. */
  lemma {:induction false} SortDescending(t: seq<WordCount>)
    ensures Descending(SortByCount(t))
  {
    if t != [] {
      SortDescending(t[1..]);
      InsertDescending(t[0], SortByCount(t[1..]));
    }
  }

  /** Sorting only reorders: the entries are the same and words stay unique. */
  lemma {:induction false} SortPermutes(t: seq<WordCount>)
    ensures multiset(SortByCount(t)) == multiset(t)
    ensures WordsOf(SortByCount(t)) == WordsOf(t)
    ensures UniqueWords(t) ==> UniqueWords(SortByCount(t))
  {
    if t != [] {
      SortPermutes(t[1..]);
      InsertPermutes(t[0], SortByCount(t[1..]));
      InsertWords(t[0], SortByCount(t[1..]));
      assert t == [t[0]] + t[1..];
    }
  }

  /** Sorting keeps every word's count and the total. */
  lemma {:induction false} SortCounts(t: seq<WordCount>)
    ensures Sum(SortByCount(t)) == Sum(t)
    ensures forall v :: CountOf(SortByCount(t), v) == CountOf(t, v)
  {
    if t != [] {
      SortCounts(t[1..]);
      InsertCounts(t[0], SortByCount(t[1..]));
    }
  }

  /**
   * Stability: for every count, the entries having it appear in the sorted
   * table in the order they had before, so ties keep first-seen order.
   */
  lemma {:induction false} SortStable(t: seq<WordCount>, c: nat)
    ensures WithCount(SortByCount(t), c) == WithCount(t, c)
  {
    if t != [] {
      SortStable(t[1..], c);
      InsertWithCount(t[0], SortByCount(t[1..]), c);
    }
  }
}
