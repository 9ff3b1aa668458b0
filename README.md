# Autocomplete prefix trie with frequency counters

This project is a Dafny model of the in-memory index behind an autocomplete
server. The server keeps a prefix trie in which each node has children keyed
by character, an end-of-word flag and a frequency counter. It offers three operations:

- `insert(word, frequency = 1)` walks the word character by character. It
  creates missing children, marks the last node as an end of word and adds
  `frequency` to that node's counter.
- `searchPrefix(prefix)` walks the prefix and returns the node reached, or
  nothing when a character is missing.
- `getSuggestions(prefix)` runs a depth-first walk below the prefix node. The
  walk collects `{word, freq}` for every end-of-word node. The results are
  then sorted by counter, highest first, and only the words are returned.

A `TrieService` owns one trie and does three things:

- At startup it replays the stored `(word, freq)` records through `insert`.
- When a word is submitted, it inserts the word into the trie and then asks
  the word store to increment that word's counter. A failure of the store is
  logged and otherwise ignored.
- It answers queries by delegating to the trie.

The model is split into four modules:

- `Counts` (`counts.dfy`): the abstract meaning of the index. This is a finite
  map `Frequencies` from words to counters. The module defines:
  - the insert-or-increment step `Bump`;
  - the completions of a prefix;
  - `Replay`, which replays store records;
  - lemmas about frequencies adding up, replay order and hydration.
- `Ranking` (`ranking.dfy`): the last step of a query. It sorts the collected
  items by counter (a stable insertion sort) and projects them to words.
- `PrefixTrie` (`trie.dfy`): the trie as a class that is updated in place.
  - Nodes live in an arena `nodes: seq<TrieNode>`. Node 0 is the root, and a
    child is referenced by its arena index.
  - Ghost state ties the arena to its meaning. Each node has a spelled path
    (`paths`), and `index` is the inverse of `paths`. Each non-root node has a
    parent link, and the abstract `Contents: Frequencies`.
  - The class invariant `Valid()` says five things:
    1. the arena is a tree rooted at 0;
    2. each child's path extends its parent's path by the child's character;
    3. each path leads to exactly one node;
    4. the end-of-word nodes and their counters are exactly `Contents`;
    5. every non-root node lies on the path of some stored word.
  - `Insert`, `SearchPrefix`, `Dfs` and `GetSuggestions` are methods with
    loops or recursion, as in the source. They are proved against
    `Contents`.
- `Service` (`trie_service.dfy`): the `TrieService` class, plus two worked
  scenarios.

The word store is never called:

- the records it yields at startup are a sequence parameter;
- its contents are a `Frequencies` value passed to `AddWord` and returned;
- whether its upsert fails is a boolean parameter.

A written description of this service says two things the code does not do:

- it calls `insert("")` a no-op;
- it says queries are lower-cased.

The code behaves differently, and the model follows the code:

- `insert("")` never enters its loop, so it marks the root as an end of word
  and the empty word becomes a stored word (`server/TrieService.js:17-24`).
  Only the request layer keeps empty input out.
- No path changes the case of words or prefixes.

## Model

| member | source | states |
|---|---|---|
| Counts.Bump | server/TrieService.js:23-24 | Inserting `w` with increment `f` makes `w` present with its counter raised by exactly `f`; every other word keeps its presence and counter |
| Counts.ReplayAccumulates | server/TrieService.js:63-65 | After replaying records, a word is present exactly when it was before or some record carries it, and its counter grew by the sum of the counters of the records that carry it |
| Counts.ReplayOrderIrrelevant | server/TrieService.js:63-65 | Replaying the same records in any order gives the same frequencies |
| Counts.ReplayDistinct | server/TrieService.js:62-65 | Replaying records with distinct words into an empty index gives each recorded word exactly its recorded counter, and no other word |
| Counts.RepeatedDefaultIncrements | server/TrieService.js:15-24 | Inserting a word `n` times with the default increment of 1 gives it counter `n` more than before (and adds nothing when `n` is 0) |
| Counts.BulkEqualsRepeated | server/TrieService.js:15-24 | Inserting a word once with increment `f > 0` equals inserting it `f` times with the default increment |
| Counts.ReplayExpanded | server/TrieService.js:63-65 | Replaying records with positive counters equals inserting each word as often as its counter, one default increment at a time |
| Counts.HydrationEquivalence | server/TrieService.js:63-65 | Startup replay of records with positive counters equals inserting each stored word counter-many times with the default increment, in any order |
| Counts.ViaAdd | server/TrieService.js:45-47 | The completions of a prefix through a set of next characters, plus one more character `c`, are the old ones together with the completions of `prefix + [c]`, and the two are disjoint |
| Counts.CompletionsSplit | server/TrieService.js:42-47 | When every stored extension of a prefix continues with a character in `cs`, the completions are the prefix itself (if stored) plus those through `cs` |
| Ranking.SortByFreq | server/TrieService.js:51 | The sorted items are a permutation of the collected ones, and their counters never increase |
| Ranking.InsertKeepsRanked | server/TrieService.js:51 | Inserting an item into a sequence ranked by counter keeps it ranked |
| Ranking.SortKeepsWords | server/TrieService.js:51 | Sorting keeps every collected word, as often as it was collected |
| Ranking.Rank | server/TrieService.js:51 | The returned words are a permutation of the words of the collected items |
| Ranking.RankOrdersByFreq | server/TrieService.js:51 | When each item carries its word's stored counter, the returned words are stored and come in non-increasing order of stored counter |
| Ranking.WordsOfTagged | server/TrieService.js:43 | Items that list each stored word of a set once with its counter, in any order, carry exactly the words of that set |
| Ranking.TaggedFits | server/TrieService.js:43 | Every such item is a word of the set with its stored counter |
| PrefixTrie.PrefixClosed | server/TrieService.js:16-22 | Every prefix of the path of a node is itself the path of a node |
| PrefixTrie.NextIsEdge | server/TrieService.js:17-21 | Along a node's path, the node of each prefix has the next character as a child, leading to the node of the longer prefix |
| PrefixTrie.ChildrenCover | server/TrieService.js:45-47 | Every stored word that strictly extends a node's path continues along one of that node's children |
| PrefixTrie.AddChildKeepsTrie | server/TrieService.js:18-20 | Creating a missing child as a new node keeps the arena a trie with the same stored words; the new path was not a path before |
| PrefixTrie.MarkEndKeepsTrie | server/TrieService.js:23-24 | Marking the node of `w` as an end of word and adding `f` to its counter gives a trie of `Bump(contents, w, f)` |
| PrefixTrie.KeepsEdges | server/TrieService.js:16-22 | A trie that keeps an earlier trie's node paths keeps every one of its edges: no child is removed or re-pointed |
| PrefixTrie.GatherStep | server/TrieService.js:45-47 | Appending the items found below child `c` to those found below the children already visited gives the items below the visited children and `c` |
| PrefixTrie.Trie.constructor | server/TrieService.js:11-13 | A new trie is a single root with no children, not an end of word, with counter 0, and stores no word |
| PrefixTrie.Trie.PathIffCompletions | server/TrieService.js:27-34 | A non-empty word is a path of the trie exactly when some stored word has it as a prefix |
| PrefixTrie.Trie.Insert | server/TrieService.js:15-25 | The stored words become `Bump(old, word, frequency)`; the node of `word` is an end of word with its counter raised by exactly `frequency`; old paths and edges remain, and every new node lies on the path of `word`; the trie invariant is kept |
| PrefixTrie.Trie.AddChild | server/TrieService.js:18-20 | Appends one fresh node as child `ch` of `node`, with path `paths[node] + [ch]`, which was not a path before; stored words unchanged |
| PrefixTrie.Trie.MarkWordEnd | server/TrieService.js:23-24 | Marks the node of `word` as an end of word and adds `frequency` to its counter; the stored words become `Bump(old, word, frequency)` and the trie invariant holds |
| PrefixTrie.Trie.SearchPrefix | server/TrieService.js:27-34 | Returns nothing exactly when `prefix` is not a path, that is, when it is non-empty and no stored word extends it; otherwise returns the node whose path spells `prefix`; changes nothing |
| PrefixTrie.Trie.Dfs | server/TrieService.js:41-48 | Appends to the accumulator exactly one `(word, counter)` item per stored word that extends the node's path, keeping what was there |
| PrefixTrie.Trie.GetSuggestions | server/TrieService.js:36-52 | Returns each stored word with `prefix` as a prefix exactly once and nothing else, with counters non-increasing; empty exactly when no stored word extends `prefix`; every stored word for the empty prefix |
| Service.TrieService.constructor | server/TrieService.js:56-58 | The service starts with a fresh, valid trie that stores no word |
| Service.TrieService.LoadWordsFromDB | server/TrieService.js:60-67 | The stored words become the replay of the records, in the order given, over the previous ones |
| Service.TrieService.AddWord | server/TrieService.js:69-80 | The trie gets the default increment whether or not the store write fails; the store is incremented only when the write succeeds; if trie and store agreed before, they agree after, or the trie is exactly one increment ahead after a failed write |
| Service.TrieService.GetSuggestions | server/TrieService.js:82-84 | The trie's suggestions for `prefix`, with the same guarantees |
| Service.RankingScenario | server/TrieService.js:69-84 | After adding "apple", "app" and "apple", the query "app" returns exactly `["apple", "app"]` and the query "xyz" returns nothing |
| Service.UnreachableStoreScenario | server/TrieService.js:69-84 | Adding "cat" while the store write fails leaves the store unchanged, and the query "ca" still returns exactly `["cat"]` |

## Left out

- The word store itself is not part of this model: `Word.find()`, `findOneAndUpdate` with its upsert, and the connection (`server/ConnectDB.js`, `server/WordModel.js`). Its records, its contents and the failure of a write are parameters instead.
- The logging by `console.log` and `console.error` is left out, as is the `async`/`await` scheduling. Each operation runs to completion, one at a time.
- The HTTP layer (`server/index.js`) is left out: its routes, its empty-input guards and status codes, and the unawaited startup load racing the listener. The client (`client/`) is left out too.
- Counters are natural numbers. A JavaScript counter is a double, so the model does not capture stored counters that are negative, fractional or not numbers, nor loss of precision above 2^53. With natural numbers, the comparator `b.freq - a.freq` orders exactly by counter.
- Node objects are modelled as arena entries referenced by index. No node is ever shared or re-pointed, so no aliasing is lost. `SearchPrefix` returns an arena index instead of a node reference.
- Words are sequences of Unicode scalar values, which matches `for...of` iterating code points. Strings that hold lone UTF-16 surrogates are not modelled.
- PrefixTrie.Trie.Dfs: children are visited in an arbitrary order. JavaScript's `for...in` visits integer-like keys in ascending order first and then the other keys in insertion order, and the model does not pin this down.
- PrefixTrie.Trie.GetSuggestions: the order of words with equal counters is left open, which is weaker than the source's fixed order. The sort is a stable insertion sort, but no lemma states its stability.
- `loadWordsFromDB` ignores its `WordModel` argument and reads the imported model. This has no effect in the model.
