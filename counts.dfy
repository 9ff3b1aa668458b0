/**
 * The abstract meaning of the autocomplete index: a finite map from words to
 * frequency counters, the insert-or-increment step on it, and the replay of
 * stored word records that rebuilds it at startup.
 */
module Counts {

  /** Words are sequences of Unicode code points; no case folding anywhere. */
  type Word = seq<char>

  /** Word -> frequency. A word is present exactly when it was inserted. */
  type Frequencies = map<Word, nat>

  /** A persisted (word, freq) record of the word store. */
  datatype WordRecord = WordRecord(word: Word, freq: nat)

  /** Frequency of `w`, 0 when `w` was never inserted. */
  function Get(m: Frequencies, w: Word): nat
  {
    if w in m then m[w] else 0
  }

  /**
   * Insert-or-increment: `w` becomes present and its counter grows by `f`;
   * every other word keeps its presence and its counter.
   */
  function Bump(m: Frequencies, w: Word, f: nat): (r: Frequencies)
    ensures w in r && Get(r, w) == Get(m, w) + f
    ensures r.Keys == m.Keys + {w}
    ensures forall v :: v != w ==> Get(r, v) == Get(m, v)
  {
    m[w := Get(m, w) + f]
  }

  /** Every stored word that has `prefix` as a prefix. */
  function Completions(m: Frequencies, prefix: Word): set<Word>
  {
    set w | w in m && prefix <= w
  }

  /** The completions of `prefix` that continue with one of the characters `cs`. */
  ghost function Via(m: Frequencies, prefix: Word, cs: set<char>): set<Word>
  {
    set w | w in m && prefix < w && w[|prefix|] in cs
  }

  /** Applying the records in order, each as an insert-or-increment. */
  function Replay(m: Frequencies, records: seq<WordRecord>): Frequencies
  {
    if records == [] then m
    else
      var last := records[|records| - 1];
      Bump(Replay(m, records[..|records| - 1]), last.word, last.freq)
  }

  /** Sum of the frequencies of the records that carry `w`. */
  function SumFor(records: seq<WordRecord>, w: Word): nat
  {
    if records == [] then 0
    else
      var last := records[|records| - 1];
      SumFor(records[..|records| - 1], w) + (if last.word == w then last.freq else 0)
  }

  /** `n` records of `w` with the default increment of 1. */
  function Repeated(w: Word, n: nat): (r: seq<WordRecord>)
    ensures |r| == n && forall k :: 0 <= k < n ==> r[k] == WordRecord(w, 1)
  {
    seq(n, _ => WordRecord(w, 1))
  }

  /** Each record `(w, f)` spelled out as `f` records of `w` with the default increment. */
  function Expanded(records: seq<WordRecord>): (r: seq<WordRecord>)
    ensures forall k :: 0 <= k < |r| ==> r[k].freq == 1
  {
    if records == [] then []
    else
      var last := records[|records| - 1];
      Expanded(records[..|records| - 1]) + Repeated(last.word, last.freq)
  }

  // ---------------------------------------------------------------------------
  // Completions

  /** The empty prefix completes to every stored word. */
  lemma CompletionsOfEmpty(m: Frequencies)
    ensures Completions(m, []) == m.Keys
  {
  }

  /** Splitting the completions under the next character: adding one character to `cs`. */
  lemma ViaAdd(m: Frequencies, prefix: Word, cs: set<char>, c: char)
    requires c !in cs
    ensures Via(m, prefix, cs + {c}) == Via(m, prefix, cs) + Completions(m, prefix + [c])
    ensures Via(m, prefix, cs) !! Completions(m, prefix + [c])
    ensures prefix !in Completions(m, prefix + [c])
  {
    forall w | w in Completions(m, prefix + [c])
      ensures w in Via(m, prefix, cs + {c})
    {
      assert w[..|prefix|] == (prefix + [c])[..|prefix|] == prefix;
      assert w[|prefix|] == (prefix + [c])[|prefix|] == c;
    }
    forall w | w in Via(m, prefix, cs + {c}) && w[|prefix|] == c
      ensures w in Completions(m, prefix + [c])
    {
      assert w[..|prefix| + 1] == w[..|prefix|] + [w[|prefix|]] == prefix + [c];
    }
  }

  /**
   * When `cs` holds every character by which a stored word extends `prefix`,
   * the completions of `prefix` are `prefix` itself (if stored) and those via `cs`.
   */
  lemma CompletionsSplit(m: Frequencies, prefix: Word, cs: set<char>)
    requires forall w :: w in m && prefix < w ==> w[|prefix|] in cs
    ensures Completions(m, prefix) == (if prefix in m then {prefix} else {}) + Via(m, prefix, cs)
    ensures prefix !in Via(m, prefix, cs)
  {
    forall w | w in Completions(m, prefix) && w != prefix
      ensures w in Via(m, prefix, cs)
    {
      assert prefix < w;
    }
  }

  /** The multiset of a union of disjoint sets. */
  lemma MultisetOfDisjointUnion<T>(a: set<T>, b: set<T>)
    requires a !! b
    ensures multiset(a + b) == multiset(a) + multiset(b)
  {
    forall w ensures multiset(a + b)[w] == (multiset(a) + multiset(b))[w] {
    }
  }

  // ---------------------------------------------------------------------------
  // Replay

  lemma {:induction false} SumForAppend(a: seq<WordRecord>, b: seq<WordRecord>, w: Word)
    ensures SumFor(a + b, w) == SumFor(a, w) + SumFor(b, w)
    decreases |b|
  {
    if b == [] {
      assert a + b == a;
    } else {
      assert (a + b)[..|a + b| - 1] == a + b[..|b| - 1];
      SumForAppend(a, b[..|b| - 1], w);
    }
  }

  /**
   * Replaying records leaves a word present exactly when it was present before
   * or some record carries it, and adds to its counter the sum of the
   * frequencies of the records that carry it.
   */
  lemma {:induction false} ReplayAccumulates(m: Frequencies, records: seq<WordRecord>, w: Word)
    ensures w in Replay(m, records) <==> w in m || exists r :: r in records && r.word == w
    ensures Get(Replay(m, records), w) == Get(m, w) + SumFor(records, w)
  {
    if records != [] {
      var init := records[..|records| - 1];
      var last := records[|records| - 1];
      assert records == init + [last];
      ReplayAccumulates(m, init, w);
      if last.word != w {
        forall r | r in records && r.word == w ensures r in init {
        }
      }
    }
  }

  /** The sum for a word depends on the records only up to reordering. */
  lemma {:induction false} SumForPermutation(r1: seq<WordRecord>, r2: seq<WordRecord>, w: Word)
    requires multiset(r1) == multiset(r2)
    ensures SumFor(r1, w) == SumFor(r2, w)
    decreases |r1|
  {
    if r1 != [] {
      var init := r1[..|r1| - 1];
      var x := r1[|r1| - 1];
      assert r1 == init + [x];
      assert x in multiset(r2);
      var j :| 0 <= j < |r2| && r2[j] == x;
      var rest := r2[..j] + r2[j + 1..];
      assert r2 == r2[..j] + [x] + r2[j + 1..];
      calc {
        multiset(rest);
        multiset(r2[..j]) + multiset(r2[j + 1..]);
        multiset(r2) - multiset{x};
        multiset(r1) - multiset{x};
        multiset(init);
      }
      SumForPermutation(init, rest, w);
      SumForAppend(r2[..j] + [x], r2[j + 1..], w);
      SumForAppend(r2[..j], [x], w);
      SumForAppend(r2[..j], r2[j + 1..], w);
      SumForAppend(init, [x], w);
      assert SumFor([x], w) == SumFor([], w) + (if x.word == w then x.freq else 0) by {
        assert [x][..0] == [];
      }
    }
  }

  /**
   * The index is a rebuildable cache of the store: replaying the records in
   * any order gives the same frequencies.
   */
  lemma ReplayOrderIrrelevant(m: Frequencies, r1: seq<WordRecord>, r2: seq<WordRecord>)
    requires multiset(r1) == multiset(r2)
    ensures Replay(m, r1) == Replay(m, r2)
  {
    forall w ensures (w in Replay(m, r1) <==> w in Replay(m, r2)) && Get(Replay(m, r1), w) == Get(Replay(m, r2), w) {
      ReplayAccumulates(m, r1, w);
      ReplayAccumulates(m, r2, w);
      SumForPermutation(r1, r2, w);
      forall r ensures r in r1 <==> r in r2 {
        assert r in r1 <==> r in multiset(r1);
        assert r in r2 <==> r in multiset(r2);
      }
    }
  }

  /**
   * Replaying, from nothing, records that carry distinct words rebuilds them
   * exactly: each word with its recorded counter, and no other word.
   */
  lemma {:induction false} ReplayDistinct(records: seq<WordRecord>)
    requires forall i, j :: 0 <= i < j < |records| ==> records[i].word != records[j].word
    ensures forall r :: r in records ==> r.word in Replay(map[], records) && Replay(map[], records)[r.word] == r.freq
    ensures forall w :: w in Replay(map[], records) ==> exists r :: r in records && r.word == w
  {
    if records != [] {
      var init := records[..|records| - 1];
      var last := records[|records| - 1];
      assert records == init + [last];
      ReplayDistinct(init);
      forall r | r in init ensures r.word != last.word {
        var i :| 0 <= i < |init| && init[i] == r;
        assert records[i] == r;
      }
    }
  }

  /** Inserting a word `n` times with the default increment gives it frequency `n`. */
  lemma {:induction false} RepeatedDefaultIncrements(m: Frequencies, w: Word, n: nat)
    ensures Replay(m, Repeated(w, n)) == if n == 0 then m else Bump(m, w, n)
  {
    if n > 0 {
      assert Repeated(w, n)[..n - 1] == Repeated(w, n - 1);
      RepeatedDefaultIncrements(m, w, n - 1);
    }
  }

  /** Replaying two runs of records one after the other. */
  lemma {:induction false} ReplayAppend(m: Frequencies, a: seq<WordRecord>, b: seq<WordRecord>)
    ensures Replay(m, a + b) == Replay(Replay(m, a), b)
    decreases |b|
  {
    if b == [] {
      assert a + b == a;
    } else {
      assert (a + b)[..|a + b| - 1] == a + b[..|b| - 1];
      ReplayAppend(m, a, b[..|b| - 1]);
    }
  }

  /**
   * Replaying records with positive counters gives the same frequencies as
   * inserting each word as many times as its counter, one at a time.
   */
  lemma {:induction false} ReplayExpanded(m: Frequencies, records: seq<WordRecord>)
    requires forall k :: 0 <= k < |records| ==> records[k].freq > 0
    ensures Replay(m, Expanded(records)) == Replay(m, records)
  {
    if records != [] {
      var init := records[..|records| - 1];
      var last := records[|records| - 1];
      ReplayExpanded(m, init);
      ReplayAppend(m, Expanded(init), Repeated(last.word, last.freq));
      RepeatedDefaultIncrements(Replay(m, init), last.word, last.freq);
    }
  }

  /**
   * Hydration equivalence: rebuilding from stored records with positive
   * counters gives the same frequencies as inserting each stored word, one
   * default increment at a time, as often as its counter says, in any order.
   */
  lemma HydrationEquivalence(m: Frequencies, records: seq<WordRecord>, inserts: seq<WordRecord>)
    requires forall k :: 0 <= k < |records| ==> records[k].freq > 0
    requires multiset(inserts) == multiset(Expanded(records))
    ensures Replay(m, inserts) == Replay(m, records)
  {
    ReplayOrderIrrelevant(m, inserts, Expanded(records));
    ReplayExpanded(m, records);
  }

  /** Inserting a word once with frequency `f` equals inserting it `f` times with the default increment. */
  lemma BulkEqualsRepeated(m: Frequencies, w: Word, f: nat)
    requires f > 0
    ensures Replay(m, [WordRecord(w, f)]) == Replay(m, Repeated(w, f))
  {
    RepeatedDefaultIncrements(m, w, f);
    assert [WordRecord(w, f)][..0] == [];
  }
}
