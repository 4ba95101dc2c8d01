/**
 * What the output of `filter` looks like, proved about the pieces `Scan`
 * cuts a text into: unmatched text passes through unchanged, every masked
 * span is the shortest keyword match from its start, a match still open at
 * the end is written out unmasked, and the length of the output is the
 * length of the input adjusted by the masked spans.
 */
module Properties {
  import opened Text
  import opened Masking

  /** The output of pieces none of which is masked is the text they were cut from. */
  lemma {:induction false} RenderUnmasked(ps: seq<Piece>)
    requires forall i :: 0 <= i < |ps| ==> !ps[i].Masked?
    ensures Render(ps) == Source(ps)
    decreases |ps|
  {
    if ps != [] {
      assert forall i :: 0 <= i < |ps[1..]| ==> ps[1..][i] == ps[i + 1];
      RenderUnmasked(ps[1..]);
    }
  }

  /**
   * Pass-through: when no keyword match starts anywhere from `b` on, no
   * keyword-end node is ever reached (no piece is masked) and the text from
   * `b` is written as it is.
   */
  lemma {:induction false} PassThrough(keywords: set<seq<Char16>>, text: seq<Char16>, b: nat)
    requires b <= |text|
    requires forall i, q :: b <= i <= q < |text| ==> !MatchesAt(keywords, text, i, q)
    ensures forall p :: p in Scan(keywords, text, b) ==> !p.Masked?
    ensures Render(Scan(keywords, text, b)) == text[b..]
    decreases |text| - b
  {
    if b < |text| {
      var c := Next(keywords, text, b);
      assert !c.piece.Masked? by {
        if !IsSymbol(text[b]) && FirstMatch(keywords, text, b, b).Some? {
          assert false;
        }
      }
      PassThrough(keywords, text, c.next);
      assert Scan(keywords, text, b) == [c.piece] + Scan(keywords, text, c.next);
      ScanStep(keywords, text, b);
      SliceJoin(text, b, c.next);
    }
  }

  /**
   * Pass-through, stated on the output itself: whenever no keyword-end node
   * is reached, so that no span is masked, the output equals the input. This
   * covers texts whose only matches are hidden inside a match still open at
   * the end, which `PassThrough` excludes.
   */
  lemma UnmaskedUnchanged(keywords: set<seq<Char16>>, text: seq<Char16>)
    requires forall p :: p in Scan(keywords, text, 0) ==> !p.Masked?
    ensures Render(Scan(keywords, text, 0)) == text
  {
    var ps := Scan(keywords, text, 0);
    forall i | 0 <= i < |ps|
      ensures !ps[i].Masked?
    {
      assert ps[i] in ps;
    }
    RenderUnmasked(ps);
    ScanSource(keywords, text, 0);
    assert text[0..] == text;
  }

  /** With no keyword loaded every text comes back unchanged. */
  lemma NoKeywordsNoChange(text: seq<Char16>)
    ensures Render(Scan({}, text, 0)) == text
  {
    PassThrough({}, text, 0);
  }

  /**
   * A span masked as the shortest keyword match from its start: it starts
   * and ends on a non-symbol, its non-symbols spell a loaded keyword, and no
   * shorter span from the same start that ends on a non-symbol does.
   */
  ghost predicate ShortestMatch(keywords: set<seq<Char16>>, span: seq<Char16>)
  {
    && span != [] && !IsSymbol(span[0]) && !IsSymbol(span[|span| - 1])
    && Strip(span) in keywords
    && forall j :: 0 < j < |span| && !IsSymbol(span[j - 1]) ==> Strip(span[..j]) !in keywords
  }

  /** The span `Next` masks is the shortest match from its start. */
  lemma NextMasked(keywords: set<seq<Char16>>, text: seq<Char16>, b: nat)
    requires b < |text|
    ensures Next(keywords, text, b).piece.Masked? ==> ShortestMatch(keywords, Next(keywords, text, b).piece.span)
  {
    var c := Next(keywords, text, b);
    if c.piece.Masked? {
      assert FirstMatch(keywords, text, b, b).Some?;
      var q := FirstMatch(keywords, text, b, b).value;
      assert c.piece.span == text[b..q + 1];
      FirstMatchMinimal(keywords, text, b, b);
      FirstMatchShortest(keywords, text, b, q);
    }
  }

  /** A match from `b` that no earlier match from `b` precedes spans the shortest match. */
  lemma FirstMatchShortest(keywords: set<seq<Char16>>, text: seq<Char16>, b: nat, q: nat)
    requires MatchesAt(keywords, text, b, q) && !IsSymbol(text[b])
    requires forall q' :: b <= q' < q ==> !MatchesAt(keywords, text, b, q')
    ensures ShortestMatch(keywords, text[b..q + 1])
  {
    var span := text[b..q + 1];
    forall j | 0 < j < |span| && !IsSymbol(span[j - 1])
      ensures Strip(span[..j]) !in keywords
    {
      assert span[..j] == text[b..b + j];
      assert !MatchesAt(keywords, text, b, b + j - 1);
    }
  }

  /** Match replacement: every masked span of the text is the shortest keyword match from its start. */
  lemma {:induction false} ScanMaskedSpans(keywords: set<seq<Char16>>, text: seq<Char16>, b: nat)
    requires b <= |text|
    ensures forall p :: p in Scan(keywords, text, b) && p.Masked? ==> ShortestMatch(keywords, p.span)
    decreases |text| - b
  {
    if b < |text| {
      var c := Next(keywords, text, b);
      NextMasked(keywords, text, b);
      ScanMaskedSpans(keywords, text, c.next);
      assert Scan(keywords, text, b) == [c.piece] + Scan(keywords, text, c.next);
    }
  }

  /**
   * Keywords that hold a symbol are never matched: symbols are never looked
   * up in the trie, so the word of a masked span holds none.
   */
  lemma SymbolKeywordsNeverMasked(keywords: set<seq<Char16>>, text: seq<Char16>, b: nat, k: seq<Char16>)
    requires b <= |text| && k in keywords
    requires exists i :: 0 <= i < |k| && IsSymbol(k[i])
    ensures forall p :: p in Scan(keywords, text, b) && p.Masked? ==> Strip(p.span) != k
  {
    ScanMaskedSpans(keywords, text, b);
    forall p | p in Scan(keywords, text, b) && p.Masked?
      ensures Strip(p.span) != k
    {
      StripSymbolFree(p.span);
    }
  }

  /**
   * A match still open when the text ends: it starts on a non-symbol, its
   * non-symbols spell the beginning of a keyword, and no keyword ends inside it.
   */
  ghost predicate OpenMatch(keywords: set<seq<Char16>>, tail: seq<Char16>)
  {
    && tail != [] && !IsSymbol(tail[0])
    && IsKeywordPrefix(keywords, Strip(tail))
    && forall j :: 0 < j <= |tail| && !IsSymbol(tail[j - 1]) ==> Strip(tail[..j]) !in keywords
  }

  /** The remainder `Next` leaves unmasked runs to the end of the text and is an open match. */
  lemma NextRest(keywords: set<seq<Char16>>, text: seq<Char16>, b: nat)
    requires b < |text|
    ensures var c := Next(keywords, text, b);
            c.piece.Rest? ==> c.next == |text| && OpenMatch(keywords, c.piece.tail)
  {
    var c := Next(keywords, text, b);
    if c.piece.Rest? {
      FirstMatchMinimal(keywords, text, b, b);
      var tail := text[b..];
      forall j | 0 < j <= |tail| && !IsSymbol(tail[j - 1])
        ensures Strip(tail[..j]) !in keywords
      {
        assert tail[..j] == text[b..b + j];
        assert !MatchesAt(keywords, text, b, b + j - 1);
      }
    }
  }

  /**
   * Unfinished match: an unmasked remainder appended after the loop is the
   * last piece, and it is a match still open at the end of the text.
   */
  lemma {:induction false} ScanRest(keywords: set<seq<Char16>>, text: seq<Char16>, b: nat)
    requires b <= |text|
    ensures forall i :: 0 <= i < |Scan(keywords, text, b)| && Scan(keywords, text, b)[i].Rest? ==>
              i == |Scan(keywords, text, b)| - 1 && OpenMatch(keywords, Scan(keywords, text, b)[i].tail)
    decreases |text| - b
  {
    if b < |text| {
      var c := Next(keywords, text, b);
      var ps := Scan(keywords, text, b);
      var rest := Scan(keywords, text, c.next);
      NextRest(keywords, text, b);
      ScanRest(keywords, text, c.next);
      assert ps == [c.piece] + rest;
      forall i | 0 <= i < |ps| && ps[i].Rest?
        ensures i == |ps| - 1 && OpenMatch(keywords, ps[i].tail)
      {
        if i == 0 {
          assert rest == [];
        } else {
          assert ps[i] == rest[i - 1];
        }
      }
    }
  }

  /** The number of masked spans. */
  ghost function MaskCount(ps: seq<Piece>): nat
  {
    if ps == [] then 0 else (if ps[0].Masked? then 1 else 0) + MaskCount(ps[1..])
  }

  /** The total length of the masked spans. */
  ghost function MaskedLength(ps: seq<Piece>): nat
  {
    if ps == [] then 0 else (if ps[0].Masked? then |ps[0].span| else 0) + MaskedLength(ps[1..])
  }

  /** Every masked span gives up its own length and writes three characters instead. */
  lemma {:induction false} RenderLength(ps: seq<Piece>)
    ensures |Render(ps)| + MaskedLength(ps) == |Source(ps)| + |REPLACEMENT| * MaskCount(ps)
    decreases |ps|
  {
    if ps != [] {
      RenderLength(ps[1..]);
    }
  }

  /**
   * Output length: the length of the text, less the lengths of the masked
   * spans, plus three for every one of them.
   */
  lemma OutputLength(keywords: set<seq<Char16>>, text: seq<Char16>)
    ensures var ps := Scan(keywords, text, 0);
            |Render(ps)| == |text| - MaskedLength(ps) + 3 * MaskCount(ps)
  {
    RenderLength(Scan(keywords, text, 0));
    ScanSource(keywords, text, 0);
  }

  /**
   * Mismatch restart: once the followed word leaves every keyword, the
   * output from `b` is text[b] followed by the output of a scan restarted at b + 1.
   */
  lemma OutputKept(keywords: set<seq<Char16>>, text: seq<Char16>, b: nat, p: nat)
    requires Following(keywords, text, b, p) && p < |text| && !IsSymbol(text[p])
    requires !IsKeywordPrefix(keywords, Strip(text[b..p + 1]))
    ensures Render(Scan(keywords, text, b)) == [text[b]] + Render(Scan(keywords, text, b + 1))
  {
    ScanMismatch(keywords, text, b, p);
    ScanStep(keywords, text, b);
  }

  /**
   * Match replacement: once the followed word is a keyword, the output from
   * `b` is "***", whatever the span's length, followed by the output after the span.
   */
  lemma OutputMasked(keywords: set<seq<Char16>>, text: seq<Char16>, b: nat, p: nat)
    requires Following(keywords, text, b, p) && p < |text| && !IsSymbol(text[p])
    requires Strip(text[b..p + 1]) in keywords
    ensures Render(Scan(keywords, text, b)) == REPLACEMENT + Render(Scan(keywords, text, p + 1))
  {
    ScanMatch(keywords, text, b, p);
    ScanStep(keywords, text, b);
  }

  /** Unfinished match: a match still open at the end is written out unmasked. */
  lemma OutputOpen(keywords: set<seq<Char16>>, text: seq<Char16>, b: nat)
    requires Following(keywords, text, b, |text|)
    ensures Render(Scan(keywords, text, b)) == text[b..]
  {
    ScanUnfinished(keywords, text, b);
    ScanStep(keywords, text, b);
  }

  /** A symbol inside an open match leaves it open. */
  lemma FollowingSkip(keywords: set<seq<Char16>>, text: seq<Char16>, b: nat, p: nat)
    requires Following(keywords, text, b, p) && b < p < |text| && IsSymbol(text[p])
    ensures Following(keywords, text, b, p + 1)
  {
    StripSnoc(text, b, p);
  }
}
