/**
 * The prefix trie with frequency counters. Nodes live in an arena (a sequence
 * the trie extends in place); a node's children map each character to the
 * arena index of the child, and index 0 is the root.
 */
module PrefixTrie {
  import opened Counts
  import opened Ranking

  datatype Option<T> = None | Some(value: T)

  /** A trie node: children by character, end-of-word flag and counter. */
  datatype TrieNode = TrieNode(children: map<char, nat>, isEnd: bool, freq: nat)

  /** A freshly created node: no children, not an end of word, counter 0. */
  const EmptyNode := TrieNode(map[], false, 0)

  /** `index` and `paths` are inverse: each node is reached by exactly one path. */
  ghost predicate PathsIndexed(paths: seq<Word>, index: map<Word, nat>)
  {
    && (forall i :: 0 <= i < |paths| ==> paths[i] in index && index[paths[i]] == i)
    && (forall p :: p in index ==> index[p] < |paths| && paths[index[p]] == p)
  }

  /** Each edge extends its parent's path by its character and points to a later node. */
  ghost predicate EdgesExtend(nodes: seq<TrieNode>, paths: seq<Word>)
    requires |paths| == |nodes|
  {
    forall i, c :: 0 <= i < |nodes| && c in nodes[i].children ==>
      i < nodes[i].children[c] < |nodes| && paths[nodes[i].children[c]] == paths[i] + [c]
  }

  /** Every node but the root is the child of an earlier node, by the last character of its path. */
  ghost predicate ParentsLinked(nodes: seq<TrieNode>, paths: seq<Word>, parent: seq<nat>)
    requires |paths| == |nodes| == |parent|
  {
    forall j {:trigger parent[j]} :: 0 < j < |nodes| ==>
      && parent[j] < j && |paths[j]| > 0
      && paths[j] == paths[parent[j]] + [paths[j][|paths[j]| - 1]]
      && paths[j][|paths[j]| - 1] in nodes[parent[j]].children
      && nodes[parent[j]].children[paths[j][|paths[j]| - 1]] == j
  }

  /** The end-of-word nodes and their counters are exactly `contents`; other counters are 0. */
  ghost predicate Abstracts(nodes: seq<TrieNode>, index: map<Word, nat>, contents: Frequencies)
  {
    && (forall i :: 0 <= i < |nodes| && !nodes[i].isEnd ==> nodes[i].freq == 0)
    && (forall w :: w in contents <==> w in index && index[w] < |nodes| && nodes[index[w]].isEnd)
    && (forall w :: w in contents ==> contents[w] == nodes[index[w]].freq)
  }

  /** The arena is a trie rooted at node 0 whose stored words are `contents`. */
  ghost predicate IsTrie(nodes: seq<TrieNode>, paths: seq<Word>, index: map<Word, nat>, parent: seq<nat>, contents: Frequencies)
  {
    && |nodes| >= 1 && |paths| == |nodes| && |parent| == |nodes|
    && paths[0] == []
    && PathsIndexed(paths, index)
    && EdgesExtend(nodes, paths)
    && ParentsLinked(nodes, paths, parent)
    && Abstracts(nodes, index, contents)
  }

  /** Every prefix of a path of the trie is a path of the trie. */
  lemma {:induction false} PrefixClosed(nodes: seq<TrieNode>, paths: seq<Word>, index: map<Word, nat>, parent: seq<nat>, contents: Frequencies, p: Word, k: nat)
    requires IsTrie(nodes, paths, index, parent, contents)
    requires p in index && k <= |p|
    ensures p[..k] in index
    decreases |p|
  {
    if k == |p| {
      assert p[..k] == p;
    } else {
      var j := index[p];
      assert j != 0;
      var q := paths[parent[j]];
      assert p == q + [p[|p| - 1]];
      assert q[..k] == p[..k];
      PrefixClosed(nodes, paths, index, parent, contents, q, k);
    }
  }

  /** The next character of a path, from the node of a prefix of it, is an edge of the trie. */
  lemma NextIsEdge(nodes: seq<TrieNode>, paths: seq<Word>, index: map<Word, nat>, parent: seq<nat>, contents: Frequencies, p: Word, k: nat)
    requires IsTrie(nodes, paths, index, parent, contents)
    requires p in index && k < |p|
    ensures p[..k] in index && p[k] in nodes[index[p[..k]]].children
    ensures p[..k + 1] in index && nodes[index[p[..k]]].children[p[k]] == index[p[..k + 1]]
  {
    PrefixClosed(nodes, paths, index, parent, contents, p, k + 1);
    var q := p[..k + 1];
    var j := index[q];
    assert j != 0;
    assert q == paths[parent[j]] + [p[k]];
    assert paths[parent[j]] == p[..k];
  }

  /** The prefix of length `k + 1` extends the prefix of length `k` by the next character. */
  lemma TakeOneMore(w: Word, k: nat)
    requires k < |w|
    ensures w[..k + 1] == w[..k] + [w[k]]
  {
  }

  /** Every stored word that extends the path of a node continues along one of its children. */
  lemma ChildrenCover(nodes: seq<TrieNode>, paths: seq<Word>, index: map<Word, nat>, parent: seq<nat>, contents: Frequencies, node: nat)
    requires IsTrie(nodes, paths, index, parent, contents) && node < |nodes|
    ensures forall w :: w in contents && paths[node] < w ==> w[|paths[node]|] in nodes[node].children
  {
    forall w | w in contents && paths[node] < w
      ensures w[|paths[node]|] in nodes[node].children
    {
      NextIsEdge(nodes, paths, index, parent, contents, w, |paths[node]|);
      assert w[..|paths[node]|] == paths[node];
    }
  }

  /**
   * A trie that keeps the paths of an earlier trie keeps its edges: no child
   * is removed or re-pointed.
   */
  lemma KeepsEdges(nodes0: seq<TrieNode>, paths0: seq<Word>, index0: map<Word, nat>, parent0: seq<nat>, contents0: Frequencies,
                   nodes: seq<TrieNode>, paths: seq<Word>, index: map<Word, nat>, parent: seq<nat>, contents: Frequencies)
    requires IsTrie(nodes0, paths0, index0, parent0, contents0)
    requires IsTrie(nodes, paths, index, parent, contents)
    requires paths0 <= paths
    ensures forall i, c :: 0 <= i < |nodes0| && c in nodes0[i].children ==>
              c in nodes[i].children && nodes[i].children[c] == nodes0[i].children[c]
  {
    forall i, c | 0 <= i < |nodes0| && c in nodes0[i].children
      ensures c in nodes[i].children && nodes[i].children[c] == nodes0[i].children[c]
    {
      var j := nodes0[i].children[c];
      var p := paths[j];
      assert p == paths[i] + [c];
      NextIsEdge(nodes, paths, index, parent, contents, p, |paths[i]|);
      assert p[..|paths[i]|] == paths[i] && p[..|paths[i]| + 1] == p;
    }
  }

  /** The arena after `ch` is added as a new last node below `node`. */
  function WithChild(nodes: seq<TrieNode>, node: nat, ch: char): (r: seq<TrieNode>)
    requires node < |nodes|
    ensures |r| == |nodes| + 1 && r[|nodes|] == EmptyNode
    ensures r[node].children == nodes[node].children[ch := |nodes|]
    ensures forall i :: 0 <= i < |nodes| ==> r[i].isEnd == nodes[i].isEnd && r[i].freq == nodes[i].freq
    ensures forall i :: 0 <= i < |nodes| && i != node ==> r[i] == nodes[i]
  {
    nodes[node := nodes[node].(children := nodes[node].children[ch := |nodes|])] + [EmptyNode]
  }

  /** Adding the missing child `ch` of `node` as a new last node keeps the arena a trie. */
  lemma AddChildKeepsTrie(nodes: seq<TrieNode>, paths: seq<Word>, index: map<Word, nat>, parent: seq<nat>, contents: Frequencies, node: nat, ch: char)
    requires IsTrie(nodes, paths, index, parent, contents)
    requires node < |nodes| && ch !in nodes[node].children
    ensures paths[node] + [ch] !in index
    ensures IsTrie(WithChild(nodes, node, ch), paths + [paths[node] + [ch]], index[paths[node] + [ch] := |nodes|], parent + [node], contents)
  {
    var q := paths[node] + [ch];
    assert q !in index by {
      if q in index {
        NextIsEdge(nodes, paths, index, parent, contents, q, |q| - 1);
      }
    }
    AddChildIndexed(paths, index, q);
    AddChildEdges(nodes, paths, node, ch);
    AddChildParents(nodes, paths, parent, node, ch);
    AddChildAbstracts(nodes, index, contents, node, ch, q);
  }

  lemma AddChildIndexed(paths: seq<Word>, index: map<Word, nat>, q: Word)
    requires PathsIndexed(paths, index) && q !in index
    ensures PathsIndexed(paths + [q], index[q := |paths|])
  {
  }

  lemma AddChildEdges(nodes: seq<TrieNode>, paths: seq<Word>, node: nat, ch: char)
    requires |paths| == |nodes| && EdgesExtend(nodes, paths)
    requires node < |nodes| && ch !in nodes[node].children
    ensures EdgesExtend(WithChild(nodes, node, ch), paths + [paths[node] + [ch]])
  {
    var nodes', paths' := WithChild(nodes, node, ch), paths + [paths[node] + [ch]];
    forall i, c | 0 <= i < |nodes'| && c in nodes'[i].children
      ensures i < nodes'[i].children[c] < |nodes'| && paths'[nodes'[i].children[c]] == paths'[i] + [c]
    {
      if i != node || c != ch {
        assert i < |nodes| && c in nodes[i].children && nodes'[i].children[c] == nodes[i].children[c];
      }
    }
  }

  lemma AddChildParents(nodes: seq<TrieNode>, paths: seq<Word>, parent: seq<nat>, node: nat, ch: char)
    requires |paths| == |nodes| == |parent| && ParentsLinked(nodes, paths, parent)
    requires node < |nodes| && ch !in nodes[node].children
    ensures ParentsLinked(WithChild(nodes, node, ch), paths + [paths[node] + [ch]], parent + [node])
  {
    var nodes', paths', parent' := WithChild(nodes, node, ch), paths + [paths[node] + [ch]], parent + [node];
    forall j | 0 < j < |nodes'|
      ensures && parent'[j] < j && |paths'[j]| > 0
              && paths'[j] == paths'[parent'[j]] + [paths'[j][|paths'[j]| - 1]]
              && paths'[j][|paths'[j]| - 1] in nodes'[parent'[j]].children
              && nodes'[parent'[j]].children[paths'[j][|paths'[j]| - 1]] == j
    {
      if j < |nodes| {
        assert parent'[j] == parent[j] && paths'[j] == paths[j];
        var c := paths[j][|paths[j]| - 1];
        assert nodes[parent[j]].children[c] == j;
        assert nodes'[parent[j]].children[c] == j;
      }
    }
  }

  lemma AddChildAbstracts(nodes: seq<TrieNode>, index: map<Word, nat>, contents: Frequencies, node: nat, ch: char, q: Word)
    requires Abstracts(nodes, index, contents) && node < |nodes| && q !in index
    ensures Abstracts(WithChild(nodes, node, ch), index[q := |nodes|], contents)
  {
  }

  /** The arena after `node` is marked as an end of word and `f` is added to its counter. */
  function MarkEnd(nodes: seq<TrieNode>, node: nat, f: nat): (r: seq<TrieNode>)
    requires node < |nodes|
    ensures |r| == |nodes| && r[node].isEnd && r[node].freq == nodes[node].freq + f
    ensures forall i :: 0 <= i < |nodes| ==> r[i].children == nodes[i].children
    ensures forall i :: 0 <= i < |nodes| && i != node ==> r[i] == nodes[i]
  {
    nodes[node := nodes[node].(isEnd := true, freq := nodes[node].freq + f)]
  }

  /** Marking the node of `w` as an end of word with `f` added keeps the arena a trie of `Bump(contents, w, f)`. */
  lemma MarkEndKeepsTrie(nodes: seq<TrieNode>, paths: seq<Word>, index: map<Word, nat>, parent: seq<nat>, contents: Frequencies, node: nat, w: Word, f: nat)
    requires IsTrie(nodes, paths, index, parent, contents)
    requires node < |nodes| && paths[node] == w
    ensures IsTrie(MarkEnd(nodes, node, f), paths, index, parent, Bump(contents, w, f))
  {
    var nodes' := MarkEnd(nodes, node, f);
    assert EdgesExtend(nodes', paths) by {
      forall i, c | 0 <= i < |nodes'| && c in nodes'[i].children
        ensures i < nodes'[i].children[c] < |nodes'| && paths[nodes'[i].children[c]] == paths[i] + [c]
      {
        assert nodes'[i].children == nodes[i].children;
      }
    }
    assert ParentsLinked(nodes', paths, parent) by {
      forall j | 0 < j < |nodes'|
        ensures nodes'[parent[j]].children == nodes[parent[j]].children
      {
      }
    }
    assert index[w] == node;
  }

  /** `below[i]` is a stored word whose path goes through node `i`, for every node but the root. */
  ghost predicate StoredBelow(paths: seq<Word>, below: seq<Word>, contents: Frequencies)
  {
    && |below| == |paths|
    && forall i {:trigger below[i]} :: 0 < i < |paths| ==> below[i] in contents && paths[i] <= below[i]
  }

  /** After `w` is stored, the nodes created for it lie on its path. */
  lemma StoredBelowExtend(paths0: seq<Word>, paths: seq<Word>, below: seq<Word>, contents: Frequencies, w: Word, f: nat)
    requires StoredBelow(paths0, below, contents)
    requires paths0 <= paths
    requires forall i :: |paths0| <= i < |paths| ==> paths[i] <= w
    ensures StoredBelow(paths, below + seq(|paths| - |paths0|, _ => w), Bump(contents, w, f))
  {
    var below' := below + seq(|paths| - |paths0|, _ => w);
    forall i | 0 < i < |paths| ensures below'[i] in Bump(contents, w, f) && paths[i] <= below'[i] {
      if i < |paths0| {
        assert below'[i] == below[i] && paths[i] == paths0[i];
      } else {
        assert below'[i] == w;
      }
    }
  }

  /** Appending the items via `c` to those gathered via `visited` gathers those via `visited + {c}`. */
  lemma GatherStep(m: Frequencies, prefix: Word, here: set<Word>, visited: set<char>, c: char,
                   suggestions: seq<Suggestion>, before: seq<Suggestion>, after: seq<Suggestion>)
    requires here <= {prefix} && prefix !in Via(m, prefix, visited) && c !in visited
    requires multiset(before) == multiset(suggestions) + multiset(Tagged(m, here + Via(m, prefix, visited)))
    requires multiset(after) == multiset(before) + multiset(Tagged(m, Completions(m, prefix + [c])))
    ensures prefix !in Via(m, prefix, visited + {c})
    ensures multiset(after) == multiset(suggestions) + multiset(Tagged(m, here + Via(m, prefix, visited + {c})))
  {
    ViaAdd(m, prefix, visited, c);
    var gathered, next := here + Via(m, prefix, visited), Completions(m, prefix + [c]);
    assert here + Via(m, prefix, visited + {c}) == gathered + next;
    TaggedUnion(m, gathered, next);
  }

  class Trie {
    /** The arena of nodes; `nodes[0]` is the root. */
    var nodes: seq<TrieNode>

    /** The characters spelled on the way from the root to each node. */
    ghost var paths: seq<Word>
    /** The inverse of `paths`: the node reached by each spelled path. */
    ghost var index: map<Word, nat>
    /** The node each non-root node hangs from. */
    ghost var parent: seq<nat>
    /** For each node other than the root, a stored word whose path goes through it. */
    ghost var storedBelow: seq<Word>
    /** The abstract value: every stored word with its frequency. */
    ghost var Contents: Frequencies

    ghost predicate WellFormed()
      reads this
    {
      IsTrie(nodes, paths, index, parent, Contents)
    }

    /** Every node other than the root lies on the path of some stored word. */
    ghost predicate Populated()
      reads this
    {
      StoredBelow(paths, storedBelow, Contents)
    }

    ghost predicate Valid()
      reads this
    {
      WellFormed() && Populated()
    }

    /** An empty trie: a root with no children that is not an end of word. */
    constructor ()
      ensures Valid() && Contents == map[]
      ensures nodes == [EmptyNode]
    {
      nodes := [EmptyNode];
      paths := [[]];
      index := map[[] := 0];
      parent := [0];
      storedBelow := [[]];
      Contents := map[];
    }

    /** A non-empty word is a path of the trie exactly when it is a prefix of some stored word. */
    lemma PathIffCompletions(p: Word)
      requires Valid()
      ensures p in index <==> p == [] || Completions(Contents, p) != {}
    {
      if p in index && p != [] {
        assert paths[index[p]] == p;
        assert 0 < index[p];
      }
      if p in index && p != [] {
        assert storedBelow[index[p]] in Completions(Contents, p);
      }
      if Completions(Contents, p) != {} {
        var w :| w in Completions(Contents, p);
        PrefixClosed(nodes, paths, index, parent, Contents, w, |p|);
        assert w[..|p|] == p;
      }
      if p == [] {
        assert paths[0] == [];
      }
    }

    /**
     * Walks `word` from the root, creating each missing child, then marks the
     * node reached as an end of word and adds `frequency` to its counter.
     * Existing nodes keep their paths and children; the new nodes are exactly
     * the prefixes of `word` that were not yet paths.
     */
    method Insert(word: Word, frequency: nat)
      requires Valid()
      modifies this
      ensures Valid()
      ensures Contents == Bump(old(Contents), word, frequency)
      ensures word in index && nodes[index[word]].isEnd
      ensures nodes[index[word]].freq == Get(old(Contents), word) + frequency
      ensures old(paths) <= paths
      ensures forall i :: |old(paths)| <= i < |paths| ==> paths[i] <= word
      ensures forall i, c :: 0 <= i < |old(nodes)| && c in old(nodes[i].children) ==>
                c in nodes[i].children && nodes[i].children[c] == old(nodes[i].children[c])
    {
      var node: nat := 0;
      for k := 0 to |word|
        invariant WellFormed()
        invariant node < |nodes| == |paths| && paths[node] == word[..k]
        invariant Contents == old(Contents) && storedBelow == old(storedBelow)
        invariant old(paths) <= paths
        invariant forall i :: |old(paths)| <= i < |paths| ==> paths[i] <= word
      {
        var ch := word[k];
        TakeOneMore(word, k);
        if ch !in nodes[node].children {
          AddChild(node, ch);
        }
        node := nodes[node].children[ch];
      }
      assert word[..|word|] == word;
      MarkWordEnd(node, word, frequency, old(paths));
      KeepsEdges(old(nodes), old(paths), old(index), old(parent), old(Contents), nodes, paths, index, parent, Contents);
    }

    /**
     * Marks `node`, whose path is `word`, as an end of word and adds `frequency`
     * to its counter; the nodes created since the arena had paths `paths0` lie
     * on the path of `word`.
     */
    method MarkWordEnd(node: nat, word: Word, frequency: nat, ghost paths0: seq<Word>)
      requires WellFormed() && StoredBelow(paths0, storedBelow, Contents)
      requires node < |nodes| && paths[node] == word
      requires paths0 <= paths
      requires forall i :: |paths0| <= i < |paths| ==> paths[i] <= word
      modifies this
      ensures Valid()
      ensures Contents == Bump(old(Contents), word, frequency)
      ensures paths == old(paths)
    {
      MarkEndKeepsTrie(nodes, paths, index, parent, Contents, node, word, frequency);
      StoredBelowExtend(paths0, paths, storedBelow, Contents, word, frequency);
      nodes, Contents, storedBelow :=
        MarkEnd(nodes, node, frequency), Bump(Contents, word, frequency),
        storedBelow + seq(|paths| - |paths0|, _ => word);
    }

    /**
     * Creates the missing child `ch` of `node` as a new node at the end of the
     * arena.
     */
    method AddChild(node: nat, ch: char)
      requires WellFormed()
      requires node < |nodes| && ch !in nodes[node].children
      modifies this
      ensures WellFormed()
      ensures nodes == WithChild(old(nodes), node, ch)
      ensures paths == old(paths) + [old(paths[node]) + [ch]]
      ensures index == old(index)[old(paths[node]) + [ch] := old(|nodes|)]
      ensures parent == old(parent) + [node]
      ensures storedBelow == old(storedBelow)
      ensures old(paths[node]) + [ch] !in old(index)
      ensures Contents == old(Contents)
    {
      AddChildKeepsTrie(nodes, paths, index, parent, Contents, node, ch);
      var q := paths[node] + [ch];
      nodes, paths, index, parent :=
        WithChild(nodes, node, ch), paths + [q], index[q := |nodes|], parent + [node];
    }

    /**
     * Walks `prefix` from the root: None exactly when some character of the
     * path is missing, otherwise the node whose path spells `prefix`.
     */
    method SearchPrefix(prefix: Word) returns (r: Option<nat>)
      requires Valid()
      ensures r.None? <==> prefix !in index
      ensures r.None? <==> prefix != [] && Completions(Contents, prefix) == {}
      ensures r.Some? ==> r.value < |nodes| && paths[r.value] == prefix
    {
      PathIffCompletions(prefix);
      var node: nat := 0;
      for k := 0 to |prefix|
        invariant node < |nodes| == |paths| && paths[node] == prefix[..k]
      {
        TakeOneMore(prefix, k);
        if prefix[k] !in nodes[node].children {
          if prefix in index {
            NextIsEdge(nodes, paths, index, parent, Contents, prefix, k);
          }
          return None;
        }
        node := nodes[node].children[prefix[k]];
      }
      assert prefix[..|prefix|] == prefix;
      return Some(node);
    }

    /**
     * The depth-first walk below `node`, whose path is `currWord`: appends to
     * `suggestions` one item for each stored word under `node`, with its
     * counter, and nothing else; children are visited in no fixed order.
     */
    method Dfs(node: nat, currWord: Word, suggestions: seq<Suggestion>) returns (out: seq<Suggestion>)
      requires WellFormed()
      requires node < |nodes| && paths[node] == currWord
      ensures suggestions <= out
      ensures multiset(out) == multiset(suggestions) + multiset(Tagged(Contents, Completions(Contents, currWord)))
      decreases |nodes| - node
    {
      out := suggestions;
      ghost var here: set<Word> := {};
      if nodes[node].isEnd {
        out := out + [Suggestion(currWord, nodes[node].freq)];
        here := {currWord};
        assert Tagged(Contents, here) == {Suggestion(currWord, Contents[currWord])};
      } else {
        assert Tagged(Contents, here) == {};
      }
      assert here == if currWord in Contents then {currWord} else {};
      assert Via(Contents, currWord, {}) == {};
      var pending := nodes[node].children.Keys;
      ghost var visited: set<char> := {};
      while pending != {}
        invariant pending + visited == nodes[node].children.Keys && pending !! visited
        invariant currWord !in Via(Contents, currWord, visited)
        invariant suggestions <= out
        invariant multiset(out) == multiset(suggestions) + multiset(Tagged(Contents, here + Via(Contents, currWord, visited)))
        decreases pending
      {
        var c :| c in pending;
        var child := nodes[node].children[c];
        ghost var before := out;
        out := Dfs(child, currWord + [c], out);
        GatherStep(Contents, currWord, here, visited, c, suggestions, before, out);
        pending := pending - {c};
        visited := visited + {c};
      }
      ChildrenCover(nodes, paths, index, parent, Contents, node);
      CompletionsSplit(Contents, currWord, visited);
    }

    /**
     * Every stored word that has `prefix` as a prefix, each exactly once, in
     * non-increasing order of frequency; nothing when no stored word extends
     * `prefix`.
     */
    method GetSuggestions(prefix: Word) returns (ws: seq<Word>)
      requires Valid()
      ensures multiset(ws) == multiset(Completions(Contents, prefix))
      ensures forall k :: 0 <= k < |ws| ==> ws[k] in Contents && prefix <= ws[k]
      ensures forall k, l :: 0 <= k < l < |ws| ==> Contents[ws[k]] >= Contents[ws[l]]
      ensures ws == [] <==> Completions(Contents, prefix) == {}
      ensures prefix == [] ==> multiset(ws) == multiset(Contents.Keys)
    {
      CompletionsOfEmpty(Contents);
      var start := SearchPrefix(prefix);
      if start.None? {
        return [];
      }
      var found := Dfs(start.value, prefix, []);
      WordsOfTagged(found, Contents, Completions(Contents, prefix));
      TaggedFits(found, Contents, Completions(Contents, prefix));
      RankOrdersByFreq(found, Contents);
      ws := Rank(found);
      forall k | 0 <= k < |ws| ensures prefix <= ws[k] {
        assert ws[k] in multiset(ws);
      }
    }
  }
}
