/**
 * The service that owns the trie: it rebuilds the trie from the stored word
 * records at startup, inserts a submitted word into the trie and then
 * increments its counter in the word store, and answers suggestion queries.
 *
 * The word store is not called here. Its contents are a `Frequencies` value
 * passed in and returned, the records it yields at startup are a sequence, and
 * whether the store's upsert fails is a parameter.
 */
module Service {
  import opened Counts
  import opened PrefixTrie

  class TrieService {
    /** The in-memory index, created once with the service. */
    var trie: Trie

    ghost predicate Valid()
      reads this, trie
    {
      trie.Valid()
    }

    /** A service whose trie stores no word yet. */
    constructor ()
      ensures Valid() && fresh(trie)
      ensures trie.Contents == map[]
    {
      trie := new Trie();
    }

    /**
     * Inserts every stored record into the trie, in the order the store
     * yields them, each with its stored counter as the increment.
     */
    method LoadWordsFromDB(records: seq<WordRecord>)
      requires Valid()
      modifies trie
      ensures Valid()
      ensures trie.Contents == Replay(old(trie.Contents), records)
    {
      for i := 0 to |records|
        invariant Valid()
        invariant trie.Contents == Replay(old(trie.Contents), records[..i])
      {
        assert records[..i + 1][..i] == records[..i];
        trie.Insert(records[i].word, records[i].freq);
      }
      assert records[..|records|] == records;
    }

    /**
     * Inserts `word` into the trie with the default increment of 1, then asks
     * the store to increment the stored counter of `word`, creating the record
     * with counter 1 when it is missing. A failing store write is swallowed:
     * the trie keeps the new count and `store'` is the unchanged store.
     * When the trie and the store agreed before, they agree afterwards unless
     * the write failed, and then the trie is exactly one increment ahead.
     */
    method AddWord(word: Word, store: Frequencies, storeFails: bool) returns (store': Frequencies)
      requires Valid()
      modifies trie
      ensures Valid()
      ensures trie.Contents == Bump(old(trie.Contents), word, 1)
      ensures storeFails ==> store' == store
      ensures !storeFails ==> store' == Bump(store, word, 1)
      ensures old(trie.Contents) == store ==>
                if storeFails then trie.Contents == Bump(store', word, 1) else trie.Contents == store'
    {
      trie.Insert(word, 1);
      if storeFails {
        store' := store;
      } else {
        store' := Bump(store, word, 1);
      }
    }

    /** The trie's suggestions for `prefix`. */
    method GetSuggestions(prefix: Word) returns (ws: seq<Word>)
      requires Valid()
      ensures multiset(ws) == multiset(Completions(trie.Contents, prefix))
      ensures forall k :: 0 <= k < |ws| ==> ws[k] in trie.Contents && prefix <= ws[k]
      ensures forall k, l :: 0 <= k < l < |ws| ==> trie.Contents[ws[k]] >= trie.Contents[ws[l]]
    {
      ws := trie.GetSuggestions(prefix);
    }
  }

  /**
   * "apple" twice and "app" once: the query "app" ranks "apple" (counter 2)
   * before "app" (counter 1), and the query "xyz" finds nothing.
   */
  method RankingScenario() returns (app: seq<Word>, xyz: seq<Word>)
    ensures app == ["apple", "app"]
    ensures xyz == []
  {
    var service := new TrieService();
    var store := map[];
    store := service.AddWord("apple", store, false);
    store := service.AddWord("app", store, false);
    store := service.AddWord("apple", store, false);
    AppleCounts();
    app := service.GetSuggestions("app");
    AppleRanking(app, service.trie.Contents);
    xyz := service.GetSuggestions("xyz");
    NoCompletions(service.trie.Contents, "xyz", xyz);
  }

  lemma AppleCounts()
    ensures Bump(Bump(Bump(map[], "apple", 1), "app", 1), "apple", 1) == map["apple" := 2, "app" := 1]
  {
    var m := Bump(Bump(Bump(map[], "apple", 1), "app", 1), "apple", 1);
    assert m.Keys == {"apple", "app"};
    assert "apple" != "app" by {
      assert |"apple"| != |"app"|;
    }
  }

  lemma AppleRanking(ws: seq<Word>, m: Frequencies)
    requires m == map["apple" := 2, "app" := 1]
    requires multiset(ws) == multiset(Completions(m, "app"))
    requires forall k, l :: 0 <= k < l < |ws| ==> ws[k] in m && ws[l] in m && m[ws[k]] >= m[ws[l]]
    ensures ws == ["apple", "app"]
  {
    assert "apple"[..3] == "app";
    assert Completions(m, "app") == {"apple", "app"};
    assert "apple" != "app" by {
      assert |"apple"| != |"app"|;
    }
    assert multiset(ws) == multiset{"apple", "app"};
    assert |ws| == 2;
    assert ws[0] in multiset(ws) && ws[1] in multiset(ws);
    assert multiset(ws)["apple"] == 1;
  }

  lemma NoCompletions(m: Frequencies, prefix: Word, ws: seq<Word>)
    requires m == map["apple" := 2, "app" := 1] && prefix == "xyz"
    requires multiset(ws) == multiset(Completions(m, prefix))
    ensures ws == []
  {
    assert "apple"[0] != "xyz"[0] && "app"[0] != "xyz"[0];
    assert Completions(m, prefix) == {};
    assert |ws| == |multiset(ws)| == 0;
  }

  /** With the store unreachable, a recorded word is still suggested at once. */
  method UnreachableStoreScenario() returns (ca: seq<Word>, store: Frequencies)
    ensures ca == ["cat"]
    ensures store == map[]
  {
    var service := new TrieService();
    store := service.AddWord("cat", map[], true);
    assert Completions(service.trie.Contents, "ca") == {"cat"};
    ca := service.GetSuggestions("ca");
    assert ca[0] in multiset(ca);
  }
}
