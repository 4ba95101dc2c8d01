/**
 * The keyword trie as an arena of nodes addressed by index. Node 0 is the
 * root; `ends[n]` is the node's keyword-end flag and `edges[n]` its map from
 * character to child index (the `subNodes` map of a `TrieNode`).
 *
 * Two ghost sequences describe the arena: `labels[n]` is the word spelled by
 * the path from the root to node n, and `below[n]` names a flagged node
 * below every non-root node (every node lies on some keyword's path).
 */
module Trie {
  import opened Wrappers
  import opened Text

  type Edges = seq<map<Char16, nat>>

  /** `getSubNode`: the child of node n for character c, if any. */
  function Child(edges: Edges, n: nat, c: Char16): Option<nat>
  {
    if n < |edges| && c in edges[n] then Some(edges[n][c]) else None
  }

  /** The arena after `addSubNode`: node n's edge for c leads to m. */
  function Link(edges: Edges, n: nat, c: Char16, m: nat): Edges
    requires n < |edges|
  {
    var row: map<Char16, nat> := edges[n][c := m];
    edges[n := row]
  }

  /** The node reached from the root by following the characters of u. */
  function Walk(edges: Edges, u: seq<Char16>): Option<nat>
    decreases |u|
  {
    if u == [] then Some(0)
    else
      match Walk(edges, u[..|u| - 1])
      case None => None
      case Some(n) => Child(edges, n, u[|u| - 1])
  }

  /** The arena is a tree whose node n is reached exactly by the word labels[n]. */
  ghost predicate Shape(ends: seq<bool>, edges: Edges, labels: seq<seq<Char16>>)
  {
    && |ends| == |edges| == |labels| > 0
    && labels[0] == [] && !ends[0]
    && (forall n, c :: 0 <= n < |edges| && c in edges[n] ==>
          n < edges[n][c] < |edges| && labels[edges[n][c]] == labels[n] + [c])
    && (forall m {:trigger Walk(edges, labels[m])} :: 0 <= m < |labels| ==> Walk(edges, labels[m]) == Some(m))
  }

  /** Every non-root node lies on the path of a flagged node. */
  ghost predicate Witnessed(ends: seq<bool>, labels: seq<seq<Char16>>, below: seq<nat>)
  {
    && |below| == |labels| == |ends|
    && forall m :: 0 < m < |below| ==>
         below[m] < |ends| && ends[below[m]] && labels[m] <= labels[below[m]]
  }

  /** The loaded keywords: the words spelled by the flagged nodes. */
  ghost function Keywords(ends: seq<bool>, labels: seq<seq<Char16>>): set<seq<Char16>>
    requires |ends| == |labels|
  {
    set m | 0 <= m < |ends| && ends[m] :: labels[m]
  }

  /** A walk that succeeds ends at the node labelled with the walked word. */
  lemma {:induction false} WalkLabel(ends: seq<bool>, edges: Edges, labels: seq<seq<Char16>>, u: seq<Char16>)
    requires Shape(ends, edges, labels) && Walk(edges, u).Some?
    ensures Walk(edges, u).value < |labels| && labels[Walk(edges, u).value] == u
    decreases |u|
  {
    if u != [] {
      WalkLabel(ends, edges, labels, u[..|u| - 1]);
      assert u == u[..|u| - 1] + [u[|u| - 1]];
    }
  }

  /** Every prefix of a walkable word is walkable. */
  lemma {:induction false} WalkPrefix(edges: Edges, u: seq<Char16>, j: nat)
    requires Walk(edges, u).Some? && j <= |u|
    ensures Walk(edges, u[..j]).Some?
    decreases |u|
  {
    if j < |u| {
      WalkPrefix(edges, u[..|u| - 1], j);
      assert u[..|u| - 1][..j] == u[..j];
    } else {
      assert u[..j] == u;
    }
  }

  /** Two nodes spelling the same word are the same node. */
  lemma LabelsDistinct(ends: seq<bool>, edges: Edges, labels: seq<seq<Char16>>, m: nat, m': nat)
    requires Shape(ends, edges, labels) && m < |labels| && m' < |labels|
    requires labels[m] == labels[m']
    ensures m == m'
  {
    assert Walk(edges, labels[m]) == Some(m) && Walk(edges, labels[m']) == Some(m');
  }

  /** Every prefix of a loaded keyword has its own node. */
  lemma {:induction false} PrefixHasNode(ends: seq<bool>, edges: Edges, labels: seq<seq<Char16>>, u: seq<Char16>)
    requires Shape(ends, edges, labels) && IsKeywordPrefix(Keywords(ends, labels), u)
    ensures Walk(edges, u).Some? && Walk(edges, u).value < |labels| && labels[Walk(edges, u).value] == u
  {
    var k :| k in Keywords(ends, labels) && u <= k;
    var m :| 0 <= m < |ends| && ends[m] && labels[m] == k;
    assert Walk(edges, k) == Some(m);
    WalkPrefix(edges, k, |u|);
    assert k[..|u|] == u;
    WalkLabel(ends, edges, labels, u);
  }

  /** A word no node spells begins no loaded keyword. */
  lemma NoNodeNotPrefix(ends: seq<bool>, edges: Edges, labels: seq<seq<Char16>>, u: seq<Char16>)
    requires Shape(ends, edges, labels)
    requires forall m :: 0 <= m < |labels| ==> labels[m] != u
    ensures !IsKeywordPrefix(Keywords(ends, labels), u)
  {
    if IsKeywordPrefix(Keywords(ends, labels), u) {
      PrefixHasNode(ends, edges, labels, u);
      assert false;
    }
  }

  /** Every non-root node spells a prefix of a loaded keyword. */
  lemma NodeIsKeywordPrefix(ends: seq<bool>, edges: Edges, labels: seq<seq<Char16>>, below: seq<nat>, m: nat)
    requires Shape(ends, edges, labels) && Witnessed(ends, labels, below) && 0 < m < |ends|
    ensures IsKeywordPrefix(Keywords(ends, labels), labels[m])
  {
    var w := below[m];
    assert labels[w] in Keywords(ends, labels);
  }

  /** A node is flagged exactly when the word it spells is a loaded keyword. */
  lemma EndIffKeyword(ends: seq<bool>, edges: Edges, labels: seq<seq<Char16>>, m: nat)
    requires Shape(ends, edges, labels) && m < |ends|
    ensures ends[m] <==> labels[m] in Keywords(ends, labels)
  {
    if labels[m] in Keywords(ends, labels) {
      var m' :| 0 <= m' < |ends| && ends[m'] && labels[m'] == labels[m];
      LabelsDistinct(ends, edges, labels, m, m');
    }
  }

  /** A missing edge means no node spells the extended word. */
  lemma NoChildNoNode(ends: seq<bool>, edges: Edges, labels: seq<seq<Char16>>, n: nat, c: Char16)
    requires Shape(ends, edges, labels) && n < |edges| && c !in edges[n]
    ensures forall m :: 0 <= m < |labels| ==> labels[m] != labels[n] + [c]
  {
    var u := labels[n] + [c];
    assert u[..|u| - 1] == labels[n];
    assert Walk(edges, u) == None;
    forall m | 0 <= m < |labels|
      ensures labels[m] != u
    {
      assert Walk(edges, labels[m]) == Some(m);
    }
  }

  /** Adding edges never changes where an existing walk ends. */
  lemma {:induction false} WalkPreserved(edges: Edges, edges': Edges, u: seq<Char16>)
    requires forall n, c :: 0 <= n < |edges| && c in edges[n] ==>
               n < |edges'| && c in edges'[n] && edges'[n][c] == edges[n][c]
    requires Walk(edges, u).Some?
    ensures Walk(edges', u) == Walk(edges, u)
    decreases |u|
  {
    if u != [] {
      WalkPreserved(edges, edges', u[..|u| - 1]);
    }
  }

  /**
   * Flagging node m on top of an older arena adds exactly the word of m to
   * the keywords.
   */
  lemma KeywordsAfterMark(ends0: seq<bool>, labels0: seq<seq<Char16>>, ends: seq<bool>, labels: seq<seq<Char16>>, m: nat)
    requires |ends0| == |labels0| <= |ends| == |labels| && labels[..|labels0|] == labels0
    requires m < |ends|
    requires forall n :: 0 <= n < |ends| ==> ends[n] == (n == m || (n < |ends0| && ends0[n]))
    ensures Keywords(ends, labels) == Keywords(ends0, labels0) + {labels[m]}
  {
    forall k | k in Keywords(ends0, labels0)
      ensures k in Keywords(ends, labels)
    {
      var n :| 0 <= n < |ends0| && ends0[n] && labels0[n] == k;
      assert labels[n] == labels0[n];
    }
    forall k | k in Keywords(ends, labels)
      ensures k in Keywords(ends0, labels0) + {labels[m]}
    {
      var n :| 0 <= n < |ends| && ends[n] && labels[n] == k;
      if n != m {
        assert labels[n] == labels0[n];
      }
    }
  }

  /**
   * Appending a fresh unflagged node as the child of n for c keeps the arena
   * a tree, with the new node spelling n's word followed by c.
   */
  lemma ShapeAfterNewChild(ends: seq<bool>, edges: Edges, labels: seq<seq<Char16>>, n: nat, c: Char16)
    requires Shape(ends, edges, labels) && n < |edges| && c !in edges[n]
    ensures Shape(ends + [false], Link(edges + [map[]], n, c, |edges|), labels + [labels[n] + [c]])
  {
    var edges' := Link(edges + [map[]], n, c, |edges|);
    var labels' := labels + [labels[n] + [c]];
    forall m | 0 <= m < |labels'|
      ensures Walk(edges', labels'[m]) == Some(m)
    {
      if m < |labels| {
        WalkPreserved(edges, edges', labels[m]);
      } else {
        var u := labels[n] + [c];
        assert u[..|u| - 1] == labels[n];
        WalkPreserved(edges, edges', labels[n]);
      }
    }
  }

  /**
   * (ends, edges, labels) is (ends0, edges0, labels0) grown by nodes for
   * prefixes of `word`, with at most node `flagged` newly flagged (-1 for
   * none): old nodes keep their words, flags and edges, and the edges stay as
   * they were when no node was added.
   */
  ghost predicate Grown(ends0: seq<bool>, edges0: Edges, labels0: seq<seq<Char16>>,
                        ends: seq<bool>, edges: Edges, labels: seq<seq<Char16>>,
                        word: seq<Char16>, flagged: int)
  {
    && |ends0| == |edges0| == |labels0| <= |ends| == |edges| == |labels|
    && (forall n :: 0 <= n < |ends0| ==> labels[n] == labels0[n] && ends[n] == (ends0[n] || n == flagged))
    && (forall n :: |ends0| <= n < |ends| ==> labels[n] <= word && ends[n] == (n == flagged))
    && (forall n, c :: 0 <= n < |edges0| && c in edges0[n] ==> c in edges[n] && edges[n][c] == edges0[n][c])
    && (|ends| == |ends0| ==> edges == edges0)
  }

  /** Growing for a prefix of `word` after growing for `word` is growing for `word`. */
  lemma GrownTrans(ends0: seq<bool>, edges0: Edges, labels0: seq<seq<Char16>>,
                   ends1: seq<bool>, edges1: Edges, labels1: seq<seq<Char16>>,
                   ends2: seq<bool>, edges2: Edges, labels2: seq<seq<Char16>>,
                   word: seq<Char16>, part: seq<Char16>)
    requires Grown(ends0, edges0, labels0, ends1, edges1, labels1, word, -1)
    requires Grown(ends1, edges1, labels1, ends2, edges2, labels2, part, -1)
    requires part <= word
    ensures Grown(ends0, edges0, labels0, ends2, edges2, labels2, word, -1)
  {
  }

  /** Flagging node m after growing. */
  lemma GrownFlag(ends0: seq<bool>, edges0: Edges, labels0: seq<seq<Char16>>,
                  ends: seq<bool>, edges: Edges, labels: seq<seq<Char16>>,
                  word: seq<Char16>, m: nat)
    requires Grown(ends0, edges0, labels0, ends, edges, labels, word, -1) && m < |ends|
    ensures Grown(ends0, edges0, labels0, ends[m := true], edges, labels, word, m)
  {
  }

  /** Growing without adding a node and without flagging changes nothing. */
  lemma GrownNothing(ends0: seq<bool>, edges0: Edges, labels0: seq<seq<Char16>>,
                     ends: seq<bool>, edges: Edges, labels: seq<seq<Char16>>, word: seq<Char16>)
    requires Grown(ends0, edges0, labels0, ends, edges, labels, word, -1) && |ends| == |ends0|
    ensures ends == ends0 && edges == edges0 && labels == labels0
  {
  }

  /**
   * After the walk of a non-empty word has grown the arena and flagged the
   * node of that word, every node still lies on a keyword's path and the
   * keywords are the old ones and the word; a word that was already a
   * keyword had its path already, and then no flag changes.
   */
  lemma InsertComplete(ends0: seq<bool>, edges0: Edges, labels0: seq<seq<Char16>>, below0: seq<nat>,
                       ends: seq<bool>, edges: Edges, labels: seq<seq<Char16>>,
                       word: seq<Char16>, node: nat)
    requires Shape(ends0, edges0, labels0) && Witnessed(ends0, labels0, below0)
    requires Shape(ends, edges, labels)
    requires word != [] && node < |ends| && labels[node] == word
    requires Grown(ends0, edges0, labels0, ends, edges, labels, word, node)
    ensures Witnessed(ends, labels, below0 + seq(|ends| - |below0|, _ => node))
    ensures Keywords(ends, labels) == Keywords(ends0, labels0) + {word}
    ensures word in Keywords(ends0, labels0) ==> Walk(edges0, word).Some?
    ensures word in Keywords(ends0, labels0) && |ends| == |ends0| ==> ends == ends0
  {
    assert labels[..|labels0|] == labels0;
    KeywordsAfterMark(ends0, labels0, ends, labels, node);
    if word in Keywords(ends0, labels0) {
      var m :| 0 <= m < |ends0| && ends0[m] && labels0[m] == word;
      assert Walk(edges0, labels0[m]) == Some(m);
      LabelsDistinct(ends, edges, labels, m, node);
    }
  }

  /**
   * The loop of `addKeyword` after i characters: the arena is a tree grown
   * for `word`, `node` spells word[..i], at most i nodes were added and none
   * when the whole word already had a path (`present`); the node of the last
   * character is flagged once the word is done.
   */
  ghost predicate Inserting(ends0: seq<bool>, edges0: Edges, labels0: seq<seq<Char16>>,
                            ends: seq<bool>, edges: Edges, labels: seq<seq<Char16>>,
                            word: seq<Char16>, i: nat, node: nat, present: bool)
  {
    && i <= |word|
    && Shape(ends, edges, labels)
    && Grown(ends0, edges0, labels0, ends, edges, labels, word, if 0 < i == |word| then node else -1)
    && node < |ends| && labels[node] == word[..i]
    && |ends| <= |ends0| + i
    && (present ==> |ends| == |ends0|)
  }

  /** Where the walk of `word` goes next: the edge for word[i] exists when the whole word has a path. */
  lemma InsertingHasEdge(ends0: seq<bool>, edges0: Edges, labels0: seq<seq<Char16>>,
                         ends: seq<bool>, edges: Edges, labels: seq<seq<Char16>>,
                         word: seq<Char16>, i: nat, node: nat)
    requires Inserting(ends0, edges0, labels0, ends, edges, labels, word, i, node, Walk(edges0, word).Some?)
    requires i < |word| && Walk(edges0, word).Some?
    ensures word[i] in edges[node]
  {
    WalkPrefix(edges, word, i + 1);
    assert word[..i + 1][..i] == word[..i];
    assert Walk(edges, word[..i]) == Some(node);
  }

  /** One iteration of `addKeyword`'s loop keeps `Inserting`. */
  lemma InsertingStep(ends0: seq<bool>, edges0: Edges, labels0: seq<seq<Char16>>,
                      ends1: seq<bool>, edges1: Edges, labels1: seq<seq<Char16>>,
                      ends2: seq<bool>, edges2: Edges, labels2: seq<seq<Char16>>,
                      word: seq<Char16>, i: nat, node: nat, sub: nat, present: bool)
    requires Inserting(ends0, edges0, labels0, ends1, edges1, labels1, word, i, node, present)
    requires i < |word| && (present ==> word[i] in edges1[node])
    requires Shape(ends2, edges2, labels2)
    requires node < sub < |ends2| && labels2[sub] == labels1[node] + [word[i]]
    requires Grown(ends1, edges1, labels1, ends2, edges2, labels2, labels2[sub], -1)
    requires |ends2| <= |ends1| + 1
    requires word[i] in edges1[node] ==> |ends2| == |ends1|
    ensures i + 1 < |word| ==> Inserting(ends0, edges0, labels0, ends2, edges2, labels2, word, i + 1, sub, present)
    ensures i + 1 == |word| ==> Inserting(ends0, edges0, labels0, ends2[sub := true], edges2, labels2, word, i + 1, sub, present)
  {
    assert word[..i + 1] == word[..i] + [word[i]] <= word;
    GrownTrans(ends0, edges0, labels0, ends1, edges1, labels1, ends2, edges2, labels2, word, word[..i + 1]);
    if i + 1 == |word| {
      GrownFlag(ends0, edges0, labels0, ends2, edges2, labels2, word, sub);
    }
  }
}
