/** The prefix trie `AutoComplete` of app/autocomplete.ts, with the node
    shape of types/trie.ts.

    Each node object is an entry of the table `nodes`, and a reference to a
    node is its index in the table; the root is entry 0. A node's `children`
    map sends a letter to the index of the child, and `order` lists the
    letters in the order they were first set, which is the order in which a
    JavaScript `Map` yields its keys. Every child comes after its parent in
    the table, so walking down always ends.

    `add_word` only appends nodes, adds children and sets terminal flags.
    `look_up_prefix` walks the prefix and then follows the first-inserted
    child until it reaches a terminal node. That loop ends because every
    node other than the root that is not terminal has a child. */
module AutoCompletion {
  import opened Wrappers
  import opened Strings

  /** `TrieNode`: the letter of the edge into the node (`''` for the root),
      the children, their letters in insertion order, and `is_terminal`. */
  datatype TrieNode = TrieNode(letter: string, children: map<char, nat>, order: seq<char>, isTerminal: bool)

  /** A fresh node with no children. */
  function Leaf(letter: string): TrieNode
  {
    TrieNode(letter, map[], [], false)
  }

  /** `node.children.set(c, j)`: a key already present keeps its place in the
      insertion order; a new key goes last. */
  function SetChild(node: TrieNode, c: char, j: nat): (r: TrieNode)
    ensures r.children == node.children[c := j]
    ensures c in node.children ==> r.order == node.order
    ensures c !in node.children ==> r.order == node.order + [c]
  {
    node.(children := node.children[c := j],
          order := if c in node.children then node.order else node.order + [c])
  }

  // ---------------------------------------------------------------------------
  // Walking the table

  /** The child of node `i` along letter `c`, if there is one. */
  function Child(nodes: seq<TrieNode>, i: nat, c: char): (r: Option<nat>)
    requires i < |nodes|
    ensures r.Some? ==> r.value < |nodes|
    ensures r.Some? ==> c in nodes[i].children && r.value == nodes[i].children[c]
    ensures Descending(nodes) ==> (r.Some? <==> c in nodes[i].children)
  {
    if c in nodes[i].children && nodes[i].children[c] < |nodes| then Some(nodes[i].children[c]) else None
  }

  /** The node reached from node `i` by the letters of `w`, if every step exists. */
  function Follow(nodes: seq<TrieNode>, i: nat, w: string): (r: Option<nat>)
    requires i < |nodes|
    ensures r.Some? ==> r.value < |nodes|
    ensures Descending(nodes) && r.Some? ==> i <= r.value && (r.value == i <==> w == [])
    decreases |w|
  {
    if w == [] then Some(i)
    else
      match Child(nodes, i, w[0])
      case None => None
      case Some(j) => Follow(nodes, j, w[1..])
  }

  /** `w` was added: its letters lead from the root to a terminal node. */
  predicate Present(nodes: seq<TrieNode>, w: string)
    requires |nodes| > 0
  {
    var r := Follow(nodes, 0, w);
    r.Some? && nodes[r.value].isTerminal
  }

  /** Following `u` and then `v`. */
  lemma {:induction false} FollowConcat(nodes: seq<TrieNode>, i: nat, u: string, v: string)
    requires i < |nodes|
    ensures Follow(nodes, i, u + v) ==
      (match Follow(nodes, i, u) case None => None case Some(j) => Follow(nodes, j, v))
    decreases |u|
  {
    if u == [] {
      assert u + v == v;
    } else {
      assert (u + v)[0] == u[0];
      assert (u + v)[1..] == u[1..] + v;
      match Child(nodes, i, u[0])
      case None =>
      case Some(j) => FollowConcat(nodes, j, u[1..], v);
    }
  }

  /** Following one more letter. */
  lemma FollowAppend(nodes: seq<TrieNode>, i: nat, w: string, c: char)
    requires i < |nodes|
    ensures Follow(nodes, i, w + [c]) ==
      (match Follow(nodes, i, w) case None => None case Some(j) => Child(nodes, j, c))
  {
    FollowConcat(nodes, i, w, [c]);
    match Follow(nodes, i, w)
    case None =>
    case Some(j) =>
      assert [c][1..] == [];
  }

  // ---------------------------------------------------------------------------
  // The invariant of the trie

  /** Every child comes after its parent, its path is the parent's path and
      its letter, and its `letter` field is that letter. `paths[i]` is the
      word spelled from the root to node `i`. */
  predicate Linked(nodes: seq<TrieNode>, paths: seq<string>)
  {
    Descending(nodes) && |paths| == |nodes| && paths[0] == [] &&
    forall i, c :: 0 <= i < |nodes| && c in nodes[i].children ==>
      paths[nodes[i].children[c]] == paths[i] + [c] &&
      nodes[nodes[i].children[c]].letter == [c]
  }

  /** The table has a root, and every child comes after its parent. */
  predicate Descending(nodes: seq<TrieNode>)
  {
    |nodes| >= 1 &&
    forall i, c :: 0 <= i < |nodes| && c in nodes[i].children ==> i < nodes[i].children[c] < |nodes|
  }

  /** No letter twice in a sequence. */
  predicate Distinct(s: seq<char>)
  {
    forall a, b :: 0 <= a < b < |s| ==> s[a] != s[b]
  }

  /** `order` lists the keys of `children`, each once. */
  predicate Ordered(nodes: seq<TrieNode>)
  {
    forall i :: 0 <= i < |nodes| ==>
      Distinct(nodes[i].order) && (forall c :: c in nodes[i].order <==> c in nodes[i].children)
  }

  /** Every node but the root and `except` that is not terminal has a child. */
  predicate Extendable(nodes: seq<TrieNode>, except: int)
  {
    forall i :: 0 < i < |nodes| && i != except && !nodes[i].isTerminal ==> nodes[i].order != []
  }

  /** Terminal nodes end added words. */
  predicate Labelled(nodes: seq<TrieNode>, paths: seq<string>, words: set<string>)
    requires |paths| == |nodes|
  {
    forall i :: 0 <= i < |nodes| && nodes[i].isTerminal ==> paths[i] in words
  }

  /** Every added word is non-empty and present. */
  predicate Stored(nodes: seq<TrieNode>, words: set<string>)
    requires |nodes| > 0
  {
    forall w :: w in words ==> w != [] && Present(nodes, w)
  }

  /** The invariant of a trie holding `words`. */
  predicate TrieInvariant(nodes: seq<TrieNode>, paths: seq<string>, words: set<string>)
  {
    Linked(nodes, paths) && Ordered(nodes) && Extendable(nodes, -1) &&
    Labelled(nodes, paths, words) && Stored(nodes, words)
  }

  /** The node reached by a word is the node whose path is that word. */
  lemma {:induction false} FollowPath(nodes: seq<TrieNode>, paths: seq<string>, i: nat, w: string)
    requires Linked(nodes, paths) && i < |nodes|
    ensures Follow(nodes, i, w).Some? ==> paths[Follow(nodes, i, w).value] == paths[i] + w
    ensures Follow(nodes, i, w).Some? && w != [] ==> Follow(nodes, i, w).value > i
    decreases |w|
  {
    if w != [] {
      match Child(nodes, i, w[0])
      case None =>
      case Some(j) =>
        FollowPath(nodes, paths, j, w[1..]);
        assert [w[0]] + w[1..] == w;
        ConcatAssoc(paths[i], [w[0]], w[1..]);
    }
  }

  // ---------------------------------------------------------------------------
  // Growth: what add_word may do to the table

  /** `after` only adds nodes, adds children, keeps every child and its place
      in the insertion order, and sets terminal flags. */
  predicate Grows(before: seq<TrieNode>, after: seq<TrieNode>)
  {
    |before| <= |after| &&
    forall i :: 0 <= i < |before| ==>
      before[i].letter == after[i].letter &&
      before[i].order <= after[i].order &&
      (before[i].isTerminal ==> after[i].isTerminal) &&
      (forall c :: c in before[i].children ==>
        c in after[i].children && after[i].children[c] == before[i].children[c])
  }

  lemma GrowsTrans(a: seq<TrieNode>, b: seq<TrieNode>, c: seq<TrieNode>)
    requires Grows(a, b) && Grows(b, c)
    ensures Grows(a, c)
  {
    forall i | 0 <= i < |a|
      ensures a[i].order <= c[i].order
    {
      assert a[i].order <= b[i].order && b[i].order <= c[i].order;
      assert c[i].order[..|a[i].order|] == b[i].order[..|a[i].order|];
    }
  }

  /** Paths that exist keep leading to the same nodes as the table grows. */
  lemma {:induction false} FollowGrows(before: seq<TrieNode>, after: seq<TrieNode>, i: nat, w: string)
    requires Grows(before, after) && i < |before|
    ensures Follow(before, i, w).Some? ==> Follow(after, i, w) == Follow(before, i, w)
    decreases |w|
  {
    if w != [] {
      match Child(before, i, w[0])
      case None =>
      case Some(j) =>
        assert Child(after, i, w[0]) == Some(j);
        FollowGrows(before, after, j, w[1..]);
    }
  }

  /** Following a word that leaves the trie leaves it for every longer word too. */
  lemma FollowMissing(nodes: seq<TrieNode>, i: nat, u: string, v: string)
    requires i < |nodes| && Follow(nodes, i, u).None?
    ensures Follow(nodes, i, u + v).None?
  {
    FollowConcat(nodes, i, u, v);
  }

  // ---------------------------------------------------------------------------
  // Completion: the first-inserted branch below a node

  /** The letters `look_up_prefix` appends below node `i`: none at a terminal
      node, else the first-inserted child's letter and the completion below
      that child. */
  ghost function Completion(nodes: seq<TrieNode>, i: nat): (r: string)
    requires Descending(nodes) && Ordered(nodes) && Extendable(nodes, -1)
    requires 0 < i < |nodes|
    ensures Follow(nodes, i, r).Some? && nodes[Follow(nodes, i, r).value].isTerminal
    ensures r == [] <==> nodes[i].isTerminal
    decreases |nodes| - i
  {
    if nodes[i].isTerminal then []
    else
      var c := nodes[i].order[0];
      assert c in nodes[i].children;
      var j := nodes[i].children[c];
      var rest := Completion(nodes, j);
      assert ([c] + rest)[0] == c && ([c] + rest)[1..] == rest;
      assert Child(nodes, i, c) == Some(j);
      [c] + rest
  }

  /** Every completion below the node of a prefix spells an added word. */
  lemma CompletionAdded(nodes: seq<TrieNode>, paths: seq<string>, words: set<string>, prefix: string)
    requires TrieInvariant(nodes, paths, words)
    requires prefix != [] && Follow(nodes, 0, prefix).Some?
    ensures Follow(nodes, 0, prefix).value > 0
    ensures prefix + Completion(nodes, Follow(nodes, 0, prefix).value) in words
  {
    var start := Follow(nodes, 0, prefix).value;
    FollowPath(nodes, paths, 0, prefix);
    assert paths[start] == prefix;
    var tail := Completion(nodes, start);
    var t := Follow(nodes, start, tail).value;
    FollowPath(nodes, paths, start, tail);
    assert paths[t] == prefix + tail;
    assert nodes[t].isTerminal;
    assert Labelled(nodes, paths, words);
  }

  /** The node of an added word is terminal, so its completion is empty. */
  lemma AddedCompletesToItself(nodes: seq<TrieNode>, paths: seq<string>, words: set<string>, w: string)
    requires TrieInvariant(nodes, paths, words)
    requires w in words
    ensures Follow(nodes, 0, w).Some? && Follow(nodes, 0, w).value > 0
    ensures Completion(nodes, Follow(nodes, 0, w).value) == []
  {
    FollowPath(nodes, paths, 0, w);
  }

  /** What `look_up_prefix` returns for a prefix that is in the trie: an added
      word that extends the prefix, and the prefix itself when it was added. */
  lemma PrefixCompletes(nodes: seq<TrieNode>, paths: seq<string>, words: set<string>, prefix: string)
    requires TrieInvariant(nodes, paths, words)
    requires prefix != [] && Follow(nodes, 0, prefix).Some?
    ensures Follow(nodes, 0, prefix).value > 0
    ensures var w := prefix + Completion(nodes, Follow(nodes, 0, prefix).value);
      w in words && |prefix| <= |w| && w[..|prefix|] == prefix &&
      (prefix in words ==> w == prefix)
  {
    CompletionAdded(nodes, paths, words, prefix);
    var w := prefix + Completion(nodes, Follow(nodes, 0, prefix).value);
    assert w[..|prefix|] == prefix;
    if prefix in words {
      AddedCompletesToItself(nodes, paths, words, prefix);
      assert w == prefix + [];
    }
  }

  /** The completion below a node that is not terminal starts with the
      letter of its first-inserted child. */
  lemma CompletionStep(nodes: seq<TrieNode>, i: nat)
    requires Descending(nodes) && Ordered(nodes) && Extendable(nodes, -1)
    requires 0 < i < |nodes| && !nodes[i].isTerminal
    ensures nodes[i].order != [] && nodes[i].order[0] in nodes[i].children
    ensures i < nodes[i].children[nodes[i].order[0]] < |nodes|
    ensures Completion(nodes, i) == [nodes[i].order[0]] + Completion(nodes, nodes[i].children[nodes[i].order[0]])
  {
  }

  /** One letter of the prefix walk in `look_up_prefix`: a missing child
      means the prefix is absent, else the walk goes on to that child. */
  lemma PrefixLetter(nodes: seq<TrieNode>, prefix: string, k: nat, curr: nat)
    requires Descending(nodes)
    requires k < |prefix| && curr < |nodes| && Follow(nodes, 0, prefix[..k]) == Some(curr)
    ensures prefix[k] !in nodes[curr].children ==> Follow(nodes, 0, prefix).None?
    ensures prefix[k] in nodes[curr].children ==>
      Follow(nodes, 0, prefix[..k + 1]) == Some(nodes[curr].children[prefix[k]])
  {
    FollowAppend(nodes, 0, prefix[..k], prefix[k]);
    assert prefix[..k + 1] == prefix[..k] + [prefix[k]];
    if prefix[k] !in nodes[curr].children {
      FollowMissing(nodes, 0, prefix[..k + 1], prefix[k + 1..]);
      assert prefix[..k + 1] + prefix[k + 1..] == prefix;
    }
  }

  /** One letter of the completion walk in `look_up_prefix`: the word so far
      and the completion below the current node still make up `target`. */
  lemma CompletionLetter(nodes: seq<TrieNode>, word: string, i: nat, target: string)
    requires Descending(nodes) && Ordered(nodes) && Extendable(nodes, -1)
    requires 0 < i < |nodes| && !nodes[i].isTerminal
    requires word + Completion(nodes, i) == target
    ensures nodes[i].order != [] && nodes[i].order[0] in nodes[i].children
    ensures i < nodes[i].children[nodes[i].order[0]] < |nodes|
    ensures (word + [nodes[i].order[0]]) + Completion(nodes, nodes[i].children[nodes[i].order[0]]) == target
  {
    CompletionStep(nodes, i);
    var c := nodes[i].order[0];
    ConcatAssoc(word, [c], Completion(nodes, nodes[i].children[c]));
  }

  // ---------------------------------------------------------------------------
  // One letter of add_word

  /** The table after one iteration of the `add_word` loop at node `curr` with
      letter `c`: the existing child is reused, or a new leaf is appended;
      either way `children.set` is called. Also the new child. */
  function Descend(nodes: seq<TrieNode>, curr: nat, c: char): (r: (seq<TrieNode>, nat))
    requires curr < |nodes|
    ensures |r.0| == |nodes| + (if c in nodes[curr].children then 0 else 1)
    ensures c in r.0[curr].children && r.0[curr].children[c] == r.1
    ensures c in nodes[curr].children ==> r.1 == nodes[curr].children[c]
    ensures c !in nodes[curr].children ==> r.1 == |nodes| && r.0[r.1] == Leaf([c])
    ensures r.0[curr].letter == nodes[curr].letter && r.0[curr].isTerminal == nodes[curr].isTerminal
    ensures forall k :: 0 <= k < |nodes| && k != curr ==> r.0[k] == nodes[k]
  {
    if c in nodes[curr].children then
      (nodes[curr := SetChild(nodes[curr], c, nodes[curr].children[c])], nodes[curr].children[c])
    else
      var n := |nodes|;
      ((nodes + [Leaf([c])])[curr := SetChild(nodes[curr], c, n)], n)
  }

  /** The paths after one iteration. */
  ghost function DescendPaths(nodes: seq<TrieNode>, paths: seq<string>, curr: nat, c: char): seq<string>
    requires curr < |nodes| && curr < |paths|
  {
    if c in nodes[curr].children then paths else paths + [paths[curr] + [c]]
  }

  /** Setting a child that is already there changes nothing. */
  lemma SetExistingChild(nodes: seq<TrieNode>, curr: nat, c: char)
    requires curr < |nodes| && c in nodes[curr].children
    ensures Descend(nodes, curr, c).0 == nodes
  {
    assert nodes[curr].children[c := nodes[curr].children[c]] == nodes[curr].children;
    assert SetChild(nodes[curr], c, nodes[curr].children[c]) == nodes[curr];
  }

  /** A new child keeps the table linked: it is the last entry and spells
      the path of `curr` and its letter. */
  lemma NewChildLinked(nodes: seq<TrieNode>, paths: seq<string>, curr: nat, c: char)
    requires Linked(nodes, paths) && curr < |nodes| && c !in nodes[curr].children
    ensures Linked(Descend(nodes, curr, c).0, DescendPaths(nodes, paths, curr, c))
  {
    var nodes' := Descend(nodes, curr, c).0;
    var paths' := DescendPaths(nodes, paths, curr, c);
    var n := |nodes|;
    assert |nodes'| == n + 1 && |paths'| == n + 1;
    assert nodes'[n] == Leaf([c]) && nodes'[curr].letter == nodes[curr].letter;
    assert nodes'[curr].children == nodes[curr].children[c := n];
    assert forall i :: 0 <= i < n && i != curr ==> nodes'[i] == nodes[i];
    assert forall i :: 0 <= i < n ==> nodes'[i].letter == nodes[i].letter && paths'[i] == paths[i];
    forall i, d | 0 <= i < |nodes'| && d in nodes'[i].children
      ensures i < nodes'[i].children[d] < |nodes'|
      ensures paths'[nodes'[i].children[d]] == paths'[i] + [d]
      ensures nodes'[nodes'[i].children[d]].letter == [d]
    {
      if i == curr && d == c {
      } else {
        assert i < n && d in nodes[i].children && nodes'[i].children[d] == nodes[i].children[d];
      }
    }
  }

  /** A new child keeps every `order` listing the keys of its node once. */
  lemma NewChildOrdered(nodes: seq<TrieNode>, curr: nat, c: char)
    requires Ordered(nodes) && curr < |nodes| && c !in nodes[curr].children
    ensures Ordered(Descend(nodes, curr, c).0)
  {
    var nodes' := Descend(nodes, curr, c).0;
    assert nodes'[|nodes|] == Leaf([c]);
    forall i | 0 <= i < |nodes'|
      ensures Distinct(nodes'[i].order) && (forall d :: d in nodes'[i].order <==> d in nodes'[i].children)
    {
      if i == curr {
        assert c !in nodes[curr].order;
        assert nodes'[curr].order == nodes[curr].order + [c];
      } else if i < |nodes| {
        assert nodes'[i] == nodes[i];
      }
    }
  }

  /** A new child keeps the terminal flags and every old child, and the only
      node that may lack a child is the new leaf. */
  lemma NewChildGrows(nodes: seq<TrieNode>, paths: seq<string>, words: set<string>, curr: nat, c: char)
    requires |paths| == |nodes| && curr < |nodes| && c !in nodes[curr].children
    requires Extendable(nodes, curr) && Labelled(nodes, paths, words)
    ensures Grows(nodes, Descend(nodes, curr, c).0)
    ensures Extendable(Descend(nodes, curr, c).0, |nodes|)
    ensures Labelled(Descend(nodes, curr, c).0, DescendPaths(nodes, paths, curr, c), words)
  {
    var nodes' := Descend(nodes, curr, c).0;
    assert nodes'[|nodes|] == Leaf([c]);
    assert nodes'[curr].order == nodes[curr].order + [c];
    assert forall i :: 0 <= i < |nodes| && i != curr ==> nodes'[i] == nodes[i];
  }

  /** One iteration keeps the table linked and ordered, only grows it,
      leaves terminal flags alone, and moves the one node that may lack a
      child from `curr` to the new child. */
  lemma DescendKeeps(nodes: seq<TrieNode>, paths: seq<string>, words: set<string>, curr: nat, c: char)
    requires Linked(nodes, paths) && Ordered(nodes) && Extendable(nodes, curr)
    requires Labelled(nodes, paths, words)
    requires curr < |nodes|
    ensures var (nodes', nxt) := Descend(nodes, curr, c);
      var paths' := DescendPaths(nodes, paths, curr, c);
      Linked(nodes', paths') && Ordered(nodes') && Extendable(nodes', nxt) &&
      Labelled(nodes', paths', words) && Grows(nodes, nodes') &&
      curr < nxt < |nodes'| && Child(nodes', curr, c) == Some(nxt) &&
      paths'[nxt] == paths[curr] + [c]
  {
    if c in nodes[curr].children {
      SetExistingChild(nodes, curr, c);
    } else {
      NewChildLinked(nodes, paths, curr, c);
      NewChildOrdered(nodes, curr, c);
      NewChildGrows(nodes, paths, words, curr, c);
    }
  }

  /** The walk to the node of `word[..k]` extends to the node of
      `word[..k + 1]` once that child exists in a grown table. */
  lemma FollowStep(old0: seq<TrieNode>, nodes: seq<TrieNode>, nodes': seq<TrieNode>,
                   curr: nat, nxt: nat, word: string, k: nat)
    requires k < |word| && curr < |nodes|
    requires Grows(old0, nodes) && Grows(nodes, nodes')
    requires Follow(nodes, 0, word[..k]) == Some(curr) && Child(nodes', curr, word[k]) == Some(nxt)
    ensures Grows(old0, nodes') && Follow(nodes', 0, word[..k + 1]) == Some(nxt)
  {
    GrowsTrans(old0, nodes, nodes');
    FollowGrows(nodes, nodes', 0, word[..k]);
    FollowAppend(nodes', 0, word[..k], word[k]);
    assert word[..k + 1] == word[..k] + [word[k]];
  }

  /** The invariant of the `add_word` loop after `k` letters: the table is a
      trie for the old words, grown from `old0`, except that node `curr`, the
      node of `word[..k]`, may lack a child. */
  predicate Building(old0: seq<TrieNode>, words: set<string>, nodes: seq<TrieNode>, paths: seq<string>,
                     curr: nat, word: string, k: nat)
  {
    k <= |word| && Linked(nodes, paths) && Ordered(nodes) && Extendable(nodes, curr) &&
    Labelled(nodes, paths, words) && Grows(old0, nodes) &&
    curr < |nodes| && Follow(nodes, 0, word[..k]) == Some(curr) && paths[curr] == word[..k]
  }

  /** One iteration of the `add_word` loop keeps its invariant. */
  lemma AddStep(old0: seq<TrieNode>, words: set<string>, nodes: seq<TrieNode>, paths: seq<string>,
                curr: nat, word: string, k: nat)
    requires k < |word| && Building(old0, words, nodes, paths, curr, word, k)
    ensures curr < |nodes|
    ensures var (nodes', nxt) := Descend(nodes, curr, word[k]);
      Building(old0, words, nodes', DescendPaths(nodes, paths, curr, word[k]), nxt, word, k + 1)
  {
    var d := Descend(nodes, curr, word[k]);
    var paths' := DescendPaths(nodes, paths, curr, word[k]);
    DescendKeeps(nodes, paths, words, curr, word[k]);
    FollowStep(old0, nodes, d.0, curr, d.1, word, k);
    assert word[..k + 1] == word[..k] + [word[k]];
    assert paths'[d.1] == word[..k + 1];
  }

  /** Marking the node of a new word terminal completes `add_word`: the table
      holds the old words and the new one. */
  lemma MarkKeeps(old0: seq<TrieNode>, words: set<string>, nodes: seq<TrieNode>, paths: seq<string>, curr: nat, word: string)
    requires |old0| > 0 && Stored(old0, words)
    requires Grows(old0, nodes)
    requires Linked(nodes, paths) && Ordered(nodes) && Extendable(nodes, curr)
    requires Labelled(nodes, paths, words)
    requires word != [] && curr < |nodes| && Follow(nodes, 0, word) == Some(curr) && paths[curr] == word
    ensures var nodes' := nodes[curr := nodes[curr].(isTerminal := true)];
      TrieInvariant(nodes', paths, words + {word}) && Grows(old0, nodes')
  {
    var nodes' := nodes[curr := nodes[curr].(isTerminal := true)];
    assert Grows(nodes, nodes');
    GrowsTrans(old0, nodes, nodes');
    assert Follow(nodes', 0, word) == Some(curr) by {
      FollowGrows(nodes, nodes', 0, word);
    }
    forall w | w in words + {word}
      ensures w != [] && Present(nodes', w)
    {
      if w in words {
        FollowGrows(old0, nodes', 0, w);
      }
    }
  }

  // ---------------------------------------------------------------------------
  // The class

  /** `class AutoComplete`: the node table, with the root at index 0. */
  class AutoComplete {
    var nodes: seq<TrieNode>
    /** The word spelled from the root to each node. */
    ghost var paths: seq<string>
    /** The words added so far. */
    ghost var words: set<string>

    ghost predicate Valid()
      reads this
    {
      TrieInvariant(nodes, paths, words)
    }

    /** An empty trie: a root with letter `''`, no children, not terminal. */
    constructor()
      ensures Valid()
      ensures nodes == [Leaf("")] && words == {}
    {
      nodes := [Leaf("")];
      paths := [[]];
      words := {};
    }

    /** `add_word(word)`: follow or create one node per letter, then mark the
        last one terminal. The empty word changes nothing. */
    method AddWord(word: string)
      requires Valid()
      modifies this
      ensures Valid()
      ensures word == [] ==> nodes == old(nodes) && words == old(words)
      ensures word != [] ==> words == old(words) + {word}
      ensures Grows(old(nodes), nodes)
      ensures forall w :: w in old(words) ==> Present(nodes, w)
      ensures word != [] ==> Present(nodes, word)
    {
      if word == [] { return; }
      var curr: nat := 0;
      for k := 0 to |word|
        invariant words == old(words)
        invariant Building(old(nodes), words, nodes, paths, curr, word, k)
      {
        ghost var before := nodes;
        ghost var beforePaths := paths;
        var lttr := word[k];
        var nxtNode: nat;
        if lttr in nodes[curr].children {
          nxtNode := nodes[curr].children[lttr];
        } else {
          nxtNode := |nodes|;
          nodes := nodes + [Leaf([lttr])];
          paths := paths + [paths[curr] + [lttr]];
        }
        nodes := nodes[curr := SetChild(nodes[curr], lttr, nxtNode)];
        assert (nodes, nxtNode) == Descend(before, curr, lttr);
        assert paths == DescendPaths(before, beforePaths, curr, lttr);
        AddStep(old(nodes), words, before, beforePaths, curr, word, k);
        curr := nxtNode;
      }
      assert word[..|word|] == word;
      MarkKeeps(old(nodes), words, nodes, paths, curr, word);
      nodes := nodes[curr := nodes[curr].(isTerminal := true)];
      words := words + {word};
    }

    /** `look_up_prefix(prefix)`: `None` (JavaScript's `undefined`) for the
        empty prefix or a prefix that leaves the trie; otherwise an added
        word that extends the prefix along first-inserted children. */
    method LookUpPrefix(prefix: string) returns (r: Option<string>)
      requires Valid()
      ensures r.None? <==> prefix == [] || Follow(nodes, 0, prefix).None?
      ensures r.Some? ==> r.value in words && |prefix| <= |r.value| && r.value[..|prefix|] == prefix
      ensures prefix in words ==> r == Some(prefix)
      ensures r.Some? ==> Follow(nodes, 0, prefix).Some? && Follow(nodes, 0, prefix).value > 0
      ensures r.Some? ==> r.value == prefix + Completion(nodes, Follow(nodes, 0, prefix).value)
    {
      if prefix == [] { return None; }
      var curr: nat := 0;
      for k := 0 to |prefix|
        invariant curr < |nodes| && Follow(nodes, 0, prefix[..k]) == Some(curr)
      {
        var lttr := prefix[k];
        PrefixLetter(nodes, prefix, k, curr);
        if lttr !in nodes[curr].children {
          return None;
        }
        curr := nodes[curr].children[lttr];
      }
      assert prefix[..|prefix|] == prefix;
      PrefixCompletes(nodes, paths, words, prefix);
      var word := prefix;
      ghost var start := curr;
      assert Descending(nodes) && Ordered(nodes) && Extendable(nodes, -1);
      while !nodes[curr].isTerminal
        invariant 0 < curr < |nodes|
        invariant word + Completion(nodes, curr) == prefix + Completion(nodes, start)
        decreases |nodes| - curr
      {
        CompletionLetter(nodes, word, curr, prefix + Completion(nodes, start));
        var nxtLetter := nodes[curr].order[0];
        word := word + [nxtLetter];
        curr := nodes[curr].children[nxtLetter];
      }
      assert word + [] == word;
      r := Some(word);
    }
  }
}
