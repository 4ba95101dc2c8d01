/**
 * The state of `filter`'s loop over the trie arena, on values: `node`
 * (`tempNode`) is the trie node of the non-symbols of text[begin..position],
 * it is the root exactly when no match is open, and the output so far is
 * `sb` (see `Masking.Progress`). One lemma per branch of the loop body
 * shows that the branch keeps this state, and two more cover the loop's
 * entry and exit.
 */
module FilterLoop {
  import opened Text
  import opened Trie
  import opened Masking

  ghost predicate LoopState(keywords: set<seq<Char16>>, labels: seq<seq<Char16>>,
                            text: seq<Char16>, out: seq<Char16>,
                            node: nat, begin: nat, position: nat, sb: seq<Char16>)
  {
    && Progress(keywords, text, out, begin, position, sb)
    && node < |labels| && labels[node] == Strip(text[begin..position])
    && (node == 0 <==> begin == position)
  }

  /** Before the first pass: nothing written, no match open, `node` at the root. */
  lemma Start(keywords: set<seq<Char16>>, labels: seq<seq<Char16>>, text: seq<Char16>)
    requires labels != [] && labels[0] == []
    ensures LoopState(keywords, labels, text, Render(Scan(keywords, text, 0)), 0, 0, 0, [])
  {
    assert [] + Render(Scan(keywords, text, 0)) == Render(Scan(keywords, text, 0));
    assert text[0..0] == [];
  }

  /** After the last pass: appending text[begin..] to `sb` gives the whole output. */
  lemma Finish(keywords: set<seq<Char16>>, labels: seq<seq<Char16>>, text: seq<Char16>, out: seq<Char16>,
               node: nat, b: nat, p: nat, sb: seq<Char16>)
    requires LoopState(keywords, labels, text, out, node, b, p, sb) && |text| <= p
    ensures sb + text[b..] == out
  {
    ProgressEnd(keywords, text, out, b, sb);
  }

  /** A symbol while `node` is the root: it is copied and `begin` moves past it. */
  lemma SymbolAtRoot(keywords: set<seq<Char16>>, labels: seq<seq<Char16>>, text: seq<Char16>, out: seq<Char16>,
                     b: nat, p: nat, sb: seq<Char16>)
    requires LoopState(keywords, labels, text, out, 0, b, p, sb) && p < |text| && IsSymbol(text[p])
    ensures LoopState(keywords, labels, text, out, 0, b + 1, p + 1, sb + [text[p]])
  {
    ProgressSymbolAtStart(keywords, text, out, b, sb);
    assert text[b + 1..p + 1] == [];
  }

  /** A symbol inside an open match: skipped, `node` stays. */
  lemma SymbolInside(keywords: set<seq<Char16>>, labels: seq<seq<Char16>>, text: seq<Char16>, out: seq<Char16>,
                     node: nat, b: nat, p: nat, sb: seq<Char16>)
    requires LoopState(keywords, labels, text, out, node, b, p, sb) && p < |text| && IsSymbol(text[p])
    requires node != 0
    ensures LoopState(keywords, labels, text, out, node, b, p + 1, sb)
  {
    StripSnoc(text, b, p);
    ProgressSymbolInside(keywords, text, out, b, p, sb);
  }

  /** No child for the character: text[begin] is copied and the match restarts one further. */
  lemma NoChild(keywords: set<seq<Char16>>, ends: seq<bool>, edges: Edges, labels: seq<seq<Char16>>,
                text: seq<Char16>, out: seq<Char16>, node: nat, b: nat, p: nat, sb: seq<Char16>)
    requires Shape(ends, edges, labels) && keywords == Keywords(ends, labels)
    requires LoopState(keywords, labels, text, out, node, b, p, sb)
    requires p < |text| && !IsSymbol(text[p])
    requires text[p] !in edges[node]
    ensures LoopState(keywords, labels, text, out, 0, b + 1, b + 1, sb + [text[b]])
  {
    StripSnoc(text, b, p);
    NoChildNoNode(ends, edges, labels, node, text[p]);
    NoNodeNotPrefix(ends, edges, labels, labels[node] + [text[p]]);
    ProgressMismatch(keywords, text, out, b, p, sb);
    assert text[b + 1..b + 1] == [];
  }

  /** The child m ends a keyword: "***" is written and the match restarts after `position`. */
  lemma ChildEnds(keywords: set<seq<Char16>>, labels: seq<seq<Char16>>, text: seq<Char16>, out: seq<Char16>,
                  node: nat, m: nat, b: nat, p: nat, sb: seq<Char16>)
    requires LoopState(keywords, labels, text, out, node, b, p, sb) && p < |text| && !IsSymbol(text[p])
    requires m < |labels| && labels[m] == labels[node] + [text[p]] && labels[m] in keywords
    requires labels[0] == []
    ensures LoopState(keywords, labels, text, out, 0, p + 1, p + 1, sb + REPLACEMENT)
  {
    StripSnoc(text, b, p);
    ProgressMatch(keywords, text, out, b, p, sb);
    assert text[p + 1..p + 1] == [];
  }

  /** The child m only continues a keyword: the match goes on from m. */
  lemma ChildContinues(keywords: set<seq<Char16>>, ends: seq<bool>, edges: Edges, labels: seq<seq<Char16>>,
                       below: seq<nat>, text: seq<Char16>, out: seq<Char16>,
                       node: nat, m: nat, b: nat, p: nat, sb: seq<Char16>)
    requires Shape(ends, edges, labels) && Witnessed(ends, labels, below) && keywords == Keywords(ends, labels)
    requires LoopState(keywords, labels, text, out, node, b, p, sb)
    requires p < |text| && !IsSymbol(text[p])
    requires node < m < |labels| && labels[m] == labels[node] + [text[p]] && labels[m] !in keywords
    ensures LoopState(keywords, labels, text, out, m, b, p + 1, sb)
  {
    StripSnoc(text, b, p);
    NodeIsKeywordPrefix(ends, edges, labels, below, m);
    ProgressExtend(keywords, text, out, b, p, sb);
  }
}
