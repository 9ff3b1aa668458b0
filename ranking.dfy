/**
 * The last step of a suggestion query: the collected (word, freq) items are
 * sorted by frequency, highest first, and only the words are kept.
 */
module Ranking {
  import opened Counts

  /** One collected completion with its counter. */
  datatype Suggestion = Suggestion(word: Word, freq: nat)

  /** Each word of `S` that `m` stores, paired with its counter. */
  ghost function Tagged(m: Frequencies, S: set<Word>): set<Suggestion>
  {
    set w | w in S && w in m :: Suggestion(w, m[w])
  }

  /** Tagging disjoint sets of words gives disjoint sets of items. */
  lemma TaggedUnion(m: Frequencies, A: set<Word>, B: set<Word>)
    requires A !! B
    ensures multiset(Tagged(m, A + B)) == multiset(Tagged(m, A)) + multiset(Tagged(m, B))
  {
    assert Tagged(m, A + B) == Tagged(m, A) + Tagged(m, B);
    MultisetOfDisjointUnion(Tagged(m, A), Tagged(m, B));
  }

  /**
   * Items that list each stored word of `S` once with its counter, in any
   * order, have exactly the words of `S` and carry the stored counters.
   */
  lemma {:induction false} WordsOfTagged(found: seq<Suggestion>, m: Frequencies, S: set<Word>)
    requires S <= m.Keys
    requires multiset(found) == multiset(Tagged(m, S))
    ensures multiset(Words(found)) == multiset(S)
    decreases |found|
  {
    if found == [] {
      TaggedCovers(m, S);
    } else {
      var w := found[0].word;
      TaggedHead(found, m, S);
      WordsOfTagged(found[1..], m, S - {w});
      WordsHead(found, S);
    }
  }

  /** The first item of a listing of the tagged words of `S` is tagged, and the rest lists the others. */
  lemma TaggedHead(found: seq<Suggestion>, m: Frequencies, S: set<Word>)
    requires found != [] && multiset(found) == multiset(Tagged(m, S))
    ensures found[0].word in S
    ensures multiset(found[1..]) == multiset(Tagged(m, S - {found[0].word}))
  {
    var x := found[0];
    assert x in multiset(found);
    TaggedRemove(m, S, x);
    assert found == [x] + found[1..];
    assert multiset(found) == multiset{x} + multiset(found[1..]);
    forall r ensures multiset(found[1..])[r] == multiset(Tagged(m, S - {x.word}))[r] {
      assert (multiset{x} + multiset(found[1..]))[r] == (multiset{x} + multiset(Tagged(m, S - {x.word})))[r];
    }
  }

  /** A listing whose tail has the words of `S` but its head's word has the words of `S`. */
  lemma WordsHead(found: seq<Suggestion>, S: set<Word>)
    requires found != [] && found[0].word in S
    requires multiset(Words(found[1..])) == multiset(S - {found[0].word})
    ensures multiset(Words(found)) == multiset(S)
  {
    var w := found[0].word;
    assert S == (S - {w}) + {w};
    MultisetOfDisjointUnion(S - {w}, {w});
  }

  /** Every stored word of `S` is tagged. */
  lemma TaggedCovers(m: Frequencies, S: set<Word>)
    requires S <= m.Keys
    ensures forall w :: w in S ==> Suggestion(w, m[w]) in Tagged(m, S)
  {
  }

  /** Items that list tagged words carry the stored counters of their words. */
  lemma TaggedFits(found: seq<Suggestion>, m: Frequencies, S: set<Word>)
    requires multiset(found) == multiset(Tagged(m, S))
    ensures forall e :: e in found ==> e.word in S && e.word in m && m[e.word] == e.freq
  {
    forall e | e in found ensures e.word in S && e.word in m && m[e.word] == e.freq {
      assert e in multiset(found);
    }
  }

  /** Taking one item out of a tagged set takes its word out of the set of words. */
  lemma TaggedRemove(m: Frequencies, S: set<Word>, x: Suggestion)
    requires x in Tagged(m, S)
    ensures x.word in S
    ensures multiset(Tagged(m, S)) == multiset{x} + multiset(Tagged(m, S - {x.word}))
  {
    assert Tagged(m, S) == Tagged(m, S - {x.word}) + {x};
    MultisetOfDisjointUnion(Tagged(m, S - {x.word}), {x});
  }

  /** Frequencies never increase along `s`; equal frequencies may come in any order. */
  predicate RankedByFreq(s: seq<Suggestion>)
  {
    forall k, l :: 0 <= k < l < |s| ==> s[k].freq >= s[l].freq
  }

  /** The words of `s`, in order. */
  function Words(s: seq<Suggestion>): (ws: seq<Word>)
    ensures |ws| == |s|
  {
    if s == [] then [] else [s[0].word] + Words(s[1..])
  }

  /** The `k`-th word is the word of the `k`-th item. */
  lemma {:induction false} WordsAt(s: seq<Suggestion>, k: nat)
    requires k < |s|
    ensures Words(s)[k] == s[k].word
  {
    if k > 0 {
      WordsAt(s[1..], k - 1);
    }
  }

  /**
   * Places `e` before the first item of `s` whose frequency is lower, so an
   * item already in `s` with the same frequency stays after it.
   */
  function InsertByFreq(e: Suggestion, s: seq<Suggestion>): (r: seq<Suggestion>)
    ensures multiset(r) == multiset(s) + multiset{e}
  {
    if s == [] || e.freq >= s[0].freq then
      [e] + s
    else
      assert s == [s[0]] + s[1..];
      [s[0]] + InsertByFreq(e, s[1..])
  }

  /** Inserting an item adds its word to the words. */
  lemma {:induction false} InsertKeepsWords(e: Suggestion, s: seq<Suggestion>)
    ensures multiset(Words(InsertByFreq(e, s))) == multiset(Words(s)) + multiset{e.word}
  {
    if s == [] || e.freq >= s[0].freq {
      assert ([e] + s)[1..] == s;
    } else {
      var rest := InsertByFreq(e, s[1..]);
      InsertKeepsWords(e, s[1..]);
      assert ([s[0]] + rest)[1..] == rest;
    }
  }

  /** Inserting into a ranked sequence keeps it ranked. */
  lemma {:induction false} InsertKeepsRanked(e: Suggestion, s: seq<Suggestion>)
    requires RankedByFreq(s)
    ensures RankedByFreq(InsertByFreq(e, s))
  {
    var r := InsertByFreq(e, s);
    if s == [] || e.freq >= s[0].freq {
      forall k, l | 0 <= k < l < |r| ensures r[k].freq >= r[l].freq {
        if k > 0 {
          assert r[k] == s[k - 1] && r[l] == s[l - 1];
        } else if l > 1 {
          assert r[1].freq >= r[l].freq;
        }
      }
    } else {
      var rest := InsertByFreq(e, s[1..]);
      InsertKeepsRanked(e, s[1..]);
      forall l | 0 <= l < |rest| ensures s[0].freq >= rest[l].freq {
        assert rest[l] in multiset(rest);
        if rest[l] != e {
          assert rest[l] in multiset(s[1..]);
          var j :| 0 <= j < |s[1..]| && s[1..][j] == rest[l];
          assert s[0].freq >= s[j + 1].freq;
        }
      }
      forall k, l | 0 <= k < l < |r| ensures r[k].freq >= r[l].freq {
        assert r[l] == rest[l - 1];
        if k > 0 {
          assert r[k] == rest[k - 1];
        }
      }
    }
  }

  /** Sorting by frequency, highest first (a stable insertion sort). */
  function SortByFreq(s: seq<Suggestion>): (r: seq<Suggestion>)
    ensures multiset(r) == multiset(s)
    ensures RankedByFreq(r)
  {
    if s == [] then []
    else
      assert s == [s[0]] + s[1..];
      InsertKeepsRanked(s[0], SortByFreq(s[1..]));
      InsertByFreq(s[0], SortByFreq(s[1..]))
  }

  /** Sorting keeps the words, each as often as before. */
  lemma {:induction false} SortKeepsWords(s: seq<Suggestion>)
    ensures multiset(Words(SortByFreq(s))) == multiset(Words(s))
  {
    if s != [] {
      SortKeepsWords(s[1..]);
      InsertKeepsWords(s[0], SortByFreq(s[1..]));
    }
  }

  /**
   * The ranking step of a query: the same words, each as often as it was
   * collected, in an order whose frequencies never increase.
   */
  function Rank(found: seq<Suggestion>): (ws: seq<Word>)
    ensures multiset(ws) == multiset(Words(found))
  {
    SortKeepsWords(found);
    Words(SortByFreq(found))
  }

  /**
   * When every collected item carries the counter that `m` holds for its word,
   * the ranked words come in non-increasing order of those counters.
   */
  lemma RankOrdersByFreq(found: seq<Suggestion>, m: Frequencies)
    requires forall e :: e in found ==> e.word in m && m[e.word] == e.freq
    ensures forall k :: 0 <= k < |Rank(found)| ==> Rank(found)[k] in m
    ensures forall k, l :: 0 <= k < l < |Rank(found)| ==> m[Rank(found)[k]] >= m[Rank(found)[l]]
  {
    var ranked := SortByFreq(found);
    forall k | 0 <= k < |ranked| ensures Rank(found)[k] == ranked[k].word && ranked[k] in found {
      WordsAt(ranked, k);
      assert ranked[k] in multiset(ranked);
    }
  }
}
