/**
 * The filter object: it owns the trie arena, grows it one keyword at a time
 * and scans texts against it.
 */
module Engine {
  import opened Wrappers
  import opened Text
  import opened Trie
  import opened Masking
  import opened FilterLoop

  class SensitiveFilter {
    /** `isKeywordEnd` of every node; node 0 is `rootNode`. */
    var ends: seq<bool>
    /** `subNodes` of every node. */
    var edges: seq<map<Char16, nat>>
    /** The word each node spells. */
    ghost var labels: seq<seq<Char16>>
    /** A flagged node below each non-root node. */
    ghost var below: seq<nat>

    ghost predicate Shaped()
      reads this
    {
      Shape(ends, edges, labels)
    }

    ghost predicate Valid()
      reads this
    {
      Shape(ends, edges, labels) && Witnessed(ends, labels, below)
    }

    /** The keywords loaded so far. */
    ghost function Loaded(): set<seq<Char16>>
      reads this
      requires Valid()
    {
      Keywords(ends, labels)
    }

    /** A new filter holds only the root, so it knows no keyword. */
    constructor ()
      ensures Valid() && Loaded() == {}
      ensures |ends| == 1 && edges == [map[]]
    {
      ends := [false];
      edges := [map[]];
      labels := [[]];
      below := [0];
      new;
      assert Walk(edges, labels[0]) == Some(0);
    }

    /** `getSubNode`: the child of node n for c, which spells n's word followed by c; none without an edge for c. */
    function GetSubNode(n: nat, c: Char16): (r: Option<nat>)
      reads this
      requires Shaped() && n < |ends|
      ensures r.Some? ==> n < r.value < |ends| && labels[r.value] == labels[n] + [c]
      ensures r.None? ==> c !in edges[n]
    {
      Child(edges, n, c)
    }

    /** `isKeywordEnd`: node n is flagged exactly when its word is a loaded keyword. */
    function IsKeywordEnd(n: nat): (r: bool)
      reads this
      requires Valid() && n < |ends|
      ensures r <==> labels[n] in Loaded()
    {
      EndIffKeyword(ends, edges, labels, n);
      ends[n]
    }

    /** `new TrieNode()`: an unflagged node without children, at the end of the arena. */
    method NewNode() returns (m: nat)
      modifies this`ends, this`edges
      ensures m == old(|ends|)
      ensures ends == old(ends) + [false] && edges == old(edges) + [map[]]
    {
      m := |ends|;
      ends := ends + [false];
      edges := edges + [map[]];
    }

    /** `addSubNode`: registers m as the child of n for c. */
    method AddSubNode(n: nat, c: Char16, m: nat)
      requires n < |edges|
      modifies this`edges
      ensures edges == Link(old(edges), n, c, m)
    {
      edges := Link(edges, n, c, m);
    }

    /** `setKeywordEnd`: sets the flag of node n. */
    method SetKeywordEnd(n: nat, flag: bool)
      requires n < |ends|
      modifies this`ends
      ensures ends == old(ends)[n := flag]
    {
      ends := ends[n := flag];
    }

    /**
     * The body of `addKeyword`'s loop up to the move: the child of `node` for
     * c, created and registered when missing. Nothing that existed changes,
     * and nothing changes at all when the child was there.
     */
    method Descend(node: nat, c: Char16) returns (sub: nat)
      requires Shaped() && node < |ends|
      modifies this
      ensures Shaped() && below == old(below)
      ensures node < sub < |ends| && labels[sub] == labels[node] + [c]
      ensures Grown(old(ends), old(edges), old(labels), ends, edges, labels, labels[sub], -1)
      ensures |ends| <= old(|ends|) + 1
      ensures c in old(edges[node]) ==> |ends| == old(|ends|)
    {
      var found := GetSubNode(node, c);
      if found.Some? {
        sub := found.value;
      } else {
        ShapeAfterNewChild(ends, edges, labels, node, c);
        sub := NewNode();
        AddSubNode(node, c, sub);
        labels := labels + [labels[node] + [c]];
      }
    }

    /**
     * One pass of `addKeyword`'s loop: move to the child for keyword[i],
     * creating it when missing, and flag it when it is the last character.
     */
    method Advance(keyword: seq<Char16>, i: nat, node: nat,
                   ghost ends0: seq<bool>, ghost edges0: Edges, ghost labels0: seq<seq<Char16>>)
      returns (sub: nat)
      requires i < |keyword|
      requires Inserting(ends0, edges0, labels0, ends, edges, labels, keyword, i, node, Walk(edges0, keyword).Some?)
      modifies this
      ensures Inserting(ends0, edges0, labels0, ends, edges, labels, keyword, i + 1, sub, Walk(edges0, keyword).Some?)
      ensures below == old(below)
    {
      ghost var present := Walk(edges0, keyword).Some?;
      var c := keyword[i];
      if present {
        InsertingHasEdge(ends0, edges0, labels0, ends, edges, labels, keyword, i, node);
      }
      ghost var ends1, edges1, labels1 := ends, edges, labels;
      sub := Descend(node, c);
      InsertingStep(ends0, edges0, labels0, ends1, edges1, labels1, ends, edges, labels,
                    keyword, i, node, sub, present);
      if i == |keyword| - 1 {
        SetKeywordEnd(sub, true);
      }
    }

    /**
     * `addKeyword`: walks the keyword from the root, creating missing
     * children, and flags the node of its last character. The keywords grow
     * by exactly this word (the empty word is ignored), no existing edge or
     * flag is lost, and a word already loaded leaves the trie as it was.
     */
    method AddKeyword(keyword: seq<Char16>)
      requires Valid()
      modifies this
      ensures Valid()
      ensures Loaded() == old(Loaded()) + (if keyword == [] then {} else {keyword})
      ensures keyword != [] ==> Walk(edges, keyword).Some? && ends[Walk(edges, keyword).value]
      ensures old(|ends|) <= |ends| <= old(|ends|) + |keyword|
      ensures forall n :: 0 <= n < old(|ends|) && old(ends[n]) ==> ends[n]
      ensures forall n, c :: 0 <= n < old(|edges|) && c in old(edges[n]) ==>
                c in edges[n] && edges[n][c] == old(edges[n][c])
      ensures keyword == [] || keyword in old(Loaded()) ==> ends == old(ends) && edges == old(edges)
    {
      var node: nat := 0;
      var i := 0;
      while i < |keyword|
        invariant Inserting(old(ends), old(edges), old(labels), ends, edges, labels, keyword, i, node,
                            Walk(old(edges), keyword).Some?)
        invariant below == old(below)
      {
        node := Advance(keyword, i, node, old(ends), old(edges), old(labels));
        i := i + 1;
      }
      if keyword == [] {
        GrownNothing(old(ends), old(edges), old(labels), ends, edges, labels, keyword);
      } else {
        assert keyword[..i] == keyword;
        InsertComplete(old(ends), old(edges), old(labels), old(below), ends, edges, labels, keyword, node);
        below := below + seq(|ends| - |below|, _ => node);
      }
    }


    /**
     * `init` without its resource reading: the lines of the keyword list are
     * added one after the other. The keywords grow by exactly the non-empty lines.
     */
    method LoadKeywords(words: seq<seq<Char16>>)
      requires Valid()
      modifies this
      ensures Valid()
      ensures Loaded() == old(Loaded()) + (set w | w in words && w != [])
    {
      var i := 0;
      while i < |words|
        invariant i <= |words| && Valid()
        invariant Loaded() == old(Loaded()) + (set w | w in words[..i] && w != [])
      {
        AddKeyword(words[i]);
        assert words[..i + 1] == words[..i] + [words[i]];
        i := i + 1;
      }
      assert words[..i] == words;
    }
  
    /**
     * One pass of `filter`'s loop, on the character at `position`: a symbol
     * is copied when no match is open and skipped otherwise; any other
     * character is looked up below `node` (see `Follow`).
     */
    method Step(s: seq<Char16>, node: nat, begin: nat, position: nat, sb: seq<Char16>,
                ghost out: seq<Char16>)
      returns (node': nat, begin': nat, position': nat, sb': seq<Char16>)
      requires Valid()
      requires position < |s| && LoopState(Loaded(), labels, s, out, node, begin, position, sb)
      ensures LoopState(Loaded(), labels, s, out, node', begin', position', sb')
      ensures begin < begin' || (begin == begin' && position < position')
    {
      var c := s[position];
      if IsSymbol(c) {
        if node == 0 {
          SymbolAtRoot(Loaded(), labels, s, out, begin, position, sb);
          node', begin', position', sb' := node, begin + 1, position + 1, sb + [c];
        } else {
          SymbolInside(Loaded(), labels, s, out, node, begin, position, sb);
          node', begin', position', sb' := node, begin, position + 1, sb;
        }
      } else {
        node', begin', position', sb' := Follow(s, node, begin, position, sb, out);
      }
    }

    /**
     * A non-symbol at `position`: `node` moves to its child for it; without
     * a child text[begin] is copied and the match restarts one further, a
     * child that ends a keyword writes "***" and restarts after `position`,
     * and any other child goes on to the next character.
     */
    method Follow(s: seq<Char16>, node: nat, begin: nat, position: nat, sb: seq<Char16>,
                  ghost out: seq<Char16>)
      returns (node': nat, begin': nat, position': nat, sb': seq<Char16>)
      requires Valid()
      requires position < |s| && !IsSymbol(s[position])
      requires LoopState(Loaded(), labels, s, out, node, begin, position, sb)
      ensures LoopState(Loaded(), labels, s, out, node', begin', position', sb')
      ensures begin < begin' || (begin == begin' && position < position')
    {
      var found := GetSubNode(node, s[position]);
      if found.None? {
        node', begin', position', sb' := CopyBegin(s, node, begin, position, sb, out);
      } else if IsKeywordEnd(found.value) {
        node', begin', position', sb' := MaskSpan(s, node, found.value, begin, position, sb, out);
      } else {
        node', begin', position', sb' := Proceed(s, node, found.value, begin, position, sb, out);
      }
    }

    /** No child of `node` for the character: text[begin] is copied and the match restarts one further. */
    method CopyBegin(s: seq<Char16>, node: nat, begin: nat, position: nat, sb: seq<Char16>, ghost out: seq<Char16>)
      returns (node': nat, begin': nat, position': nat, sb': seq<Char16>)
      requires Valid()
      requires position < |s| && !IsSymbol(s[position])
      requires LoopState(Loaded(), labels, s, out, node, begin, position, sb)
      requires s[position] !in edges[node]
      ensures node' == 0 && begin' == position' == begin + 1 && sb' == sb + [s[begin]]
      ensures LoopState(Loaded(), labels, s, out, node', begin', position', sb')
    {
      NoChild(Loaded(), ends, edges, labels, s, out, node, begin, position, sb);
      node', begin', position', sb' := 0, begin + 1, begin + 1, sb + [s[begin]];
    }

    /** The child m ends a keyword: "***" is written and the match restarts after `position`. */
    method MaskSpan(s: seq<Char16>, node: nat, m: nat, begin: nat, position: nat, sb: seq<Char16>, ghost out: seq<Char16>)
      returns (node': nat, begin': nat, position': nat, sb': seq<Char16>)
      requires Valid()
      requires position < |s| && !IsSymbol(s[position])
      requires LoopState(Loaded(), labels, s, out, node, begin, position, sb)
      requires m < |labels| && labels[m] == labels[node] + [s[position]] && labels[m] in Loaded()
      ensures node' == 0 && begin' == position' == position + 1 && sb' == sb + REPLACEMENT
      ensures LoopState(Loaded(), labels, s, out, node', begin', position', sb')
    {
      ChildEnds(Loaded(), labels, s, out, node, m, begin, position, sb);
      node', begin', position', sb' := 0, position + 1, position + 1, sb + REPLACEMENT;
    }

    /** The child m only continues a keyword: the match goes on from m at the next character. */
    method Proceed(s: seq<Char16>, node: nat, m: nat, begin: nat, position: nat, sb: seq<Char16>, ghost out: seq<Char16>)
      returns (node': nat, begin': nat, position': nat, sb': seq<Char16>)
      requires Valid()
      requires position < |s| && !IsSymbol(s[position])
      requires LoopState(Loaded(), labels, s, out, node, begin, position, sb)
      requires node < m < |labels| && labels[m] == labels[node] + [s[position]] && labels[m] !in Loaded()
      ensures node' == m && begin' == begin && position' == position + 1 && sb' == sb
      ensures LoopState(Loaded(), labels, s, out, node', begin', position', sb')
    {
      ChildContinues(Loaded(), ends, edges, labels, below, s, out, node, m, begin, position, sb);
      node', begin', position', sb' := m, begin, position + 1, sb;
    }

    /**
     * The loop of `filter` on a non-blank text s, with its three pointers
     * `node` (`tempNode`), `begin` and `position` and the output `sb`: the
     * result is s with every masked span replaced by "***", as the pieces
     * of `Scan` describe it.
     */
    method Mask(s: seq<Char16>) returns (t: seq<Char16>)
      requires Valid()
      ensures t == Render(Scan(Loaded(), s, 0))
    {
      ghost var out := Render(Scan(Loaded(), s, 0));
      var node: nat := 0;
      var begin: nat := 0;
      var position: nat := 0;
      var sb: seq<Char16> := [];
      Start(Loaded(), labels, s);
      while position < |s|
        invariant LoopState(Loaded(), labels, s, out, node, begin, position, sb)
        decreases |s| - begin, |s| - position
      {
        node, begin, position, sb := Step(s, node, begin, position, sb, out);
      }
      Finish(Loaded(), labels, s, out, node, begin, position, sb);
      t := sb + s[begin..];
    }

    /** `filter`: null for a blank text, otherwise the masked text. */
    method Filter(text: Option<seq<Char16>>) returns (r: Option<seq<Char16>>)
      requires Valid()
      ensures r.None? <==> IsBlank(text)
      ensures r.Some? ==> r.value == Render(Scan(Loaded(), text.value, 0))
    {
      if IsBlank(text) {
        return None;
      }
      var t := Mask(text.value);
      return Some(t);
    }
  }
}
