/**
 * What `filter` computes, stated over the set of loaded keywords rather than
 * over the trie. The text is cut into pieces: characters copied as they are,
 * matched spans replaced by "***", and the remainder appended after the loop.
 */
module Masking {
  import opened Wrappers
  import opened Text

  /** `REPLACEMENT`: the fixed marker "***" written for every matched span. */
  const REPLACEMENT: seq<Char16> := ['*' as int, '*' as int, '*' as int]

  datatype Piece =
    | Kept(ch: Char16)           // one character copied to the output
    | Masked(span: seq<Char16>)  // a matched span, written as REPLACEMENT
    | Rest(tail: seq<Char16>)    // the text from `begin` on, appended after the loop

  /** What a piece writes to the output. */
  function Image(p: Piece): seq<Char16>
  {
    match p
    case Kept(c) => [c]
    case Masked(_) => REPLACEMENT
    case Rest(t) => t
  }

  /** What a piece consumes from the input. */
  function Original(p: Piece): seq<Char16>
  {
    match p
    case Kept(c) => [c]
    case Masked(s) => s
    case Rest(t) => t
  }

  /** The output text. */
  function Render(ps: seq<Piece>): seq<Char16>
  {
    if ps == [] then [] else Image(ps[0]) + Render(ps[1..])
  }

  /** The input text the pieces were cut from. */
  function Source(ps: seq<Piece>): seq<Char16>
  {
    if ps == [] then [] else Original(ps[0]) + Source(ps[1..])
  }

  /** The output of a piece followed by more pieces. */
  lemma RenderCons(p: Piece, ps: seq<Piece>)
    ensures Render([p] + ps) == Image(p) + Render(ps)
  {
    assert ([p] + ps)[1..] == ps;
  }

  /** The input of a piece followed by more pieces. */
  lemma SourceCons(p: Piece, ps: seq<Piece>)
    ensures Source([p] + ps) == Original(p) + Source(ps)
  {
    assert ([p] + ps)[1..] == ps;
  }

  /**
   * A keyword is matched from `b` to `q`: the non-symbol characters of
   * text[b..q+1] spell a loaded keyword, and that span ends on a
   * non-symbol (the character whose lookup reached the keyword-end node).
   */
  ghost predicate MatchesAt(keywords: set<seq<Char16>>, text: seq<Char16>, b: nat, q: nat)
  {
    b <= q < |text| && !IsSymbol(text[q]) && Strip(text[b..q + 1]) in keywords
  }

  /** The first position at or after p where a match from b ends. */
  ghost function FirstMatch(keywords: set<seq<Char16>>, text: seq<Char16>, b: nat, p: nat): (r: Option<nat>)
    requires b <= p <= |text|
    ensures r.Some? ==> p <= r.value && MatchesAt(keywords, text, b, r.value)
    decreases |text| - p
  {
    if p == |text| then None
    else if MatchesAt(keywords, text, b, p) then Some(p)
    else FirstMatch(keywords, text, b, p + 1)
  }

  /** The match FirstMatch finds is the first one: no match from b ends between p and it. */
  lemma {:induction false} FirstMatchMinimal(keywords: set<seq<Char16>>, text: seq<Char16>, b: nat, p: nat)
    requires b <= p <= |text|
    ensures FirstMatch(keywords, text, b, p).Some? ==>
              forall q :: p <= q < FirstMatch(keywords, text, b, p).value ==> !MatchesAt(keywords, text, b, q)
    ensures FirstMatch(keywords, text, b, p).None? ==>
              forall q :: p <= q < |text| ==> !MatchesAt(keywords, text, b, q)
    decreases |text| - p
  {
    if p < |text| && !MatchesAt(keywords, text, b, p) {
      FirstMatchMinimal(keywords, text, b, p + 1);
    }
  }

  /** The piece cut at a start position and the position where cutting resumes. */
  datatype Cut = Cut(piece: Piece, next: nat)

  /**
   * The one decision `filter` takes for a start `b`:
   * - a symbol at `b` is copied;
   * - otherwise the shortest keyword match starting at `b` is masked;
   * - otherwise, if the rest of the text spells only the beginning of a
   *   keyword, the match is still open at the end and the rest is copied;
   * - otherwise text[b] is copied and the next start is b + 1.
   */
  ghost function Next(keywords: set<seq<Char16>>, text: seq<Char16>, b: nat): (c: Cut)
    requires b < |text|
    ensures b < c.next <= |text|
    ensures Original(c.piece) == text[b..c.next]
  {
    if IsSymbol(text[b]) then Cut(Kept(text[b]), b + 1)
    else
      match FirstMatch(keywords, text, b, b)
      case Some(q) => Cut(Masked(text[b..q + 1]), q + 1)
      case None =>
        if IsKeywordPrefix(keywords, Strip(text[b..])) then Cut(Rest(text[b..]), |text|)
        else Cut(Kept(text[b]), b + 1)
  }

  /** The pieces `filter` cuts text[b..] into. */
  ghost function Scan(keywords: set<seq<Char16>>, text: seq<Char16>, b: nat): (r: seq<Piece>)
    requires b <= |text|
    ensures |r| <= |text| - b
    ensures r == [] <==> b == |text|
    decreases |text| - b
  {
    if b == |text| then []
    else
      var c := Next(keywords, text, b);
      [c.piece] + Scan(keywords, text, c.next)
  }

  /** The pieces consume the text exactly: the output is the input with the masked spans replaced. */
  lemma {:induction false} ScanSource(keywords: set<seq<Char16>>, text: seq<Char16>, b: nat)
    requires b <= |text|
    ensures Source(Scan(keywords, text, b)) == text[b..]
    decreases |text| - b
  {
    if b < |text| {
      var c := Next(keywords, text, b);
      ScanSource(keywords, text, c.next);
      SourceCons(c.piece, Scan(keywords, text, c.next));
      SliceJoin(text, b, c.next);
    }
  }

  /** Two adjacent slices join into one. */
  lemma SliceJoin(text: seq<Char16>, i: nat, j: nat)
    requires i <= j <= |text|
    ensures text[i..j] + text[j..] == text[i..]
  {
  }

  /** The output from `b` is the image of the piece cut at `b` followed by the output after it. */
  lemma ScanStep(keywords: set<seq<Char16>>, text: seq<Char16>, b: nat)
    requires b < |text|
    ensures var c := Next(keywords, text, b);
            Render(Scan(keywords, text, b)) == Image(c.piece) + Render(Scan(keywords, text, c.next))
  {
    var c := Next(keywords, text, b);
    RenderCons(c.piece, Scan(keywords, text, c.next));
  }

  /**
   * A match from `b` has been followed up to `p` without being decided:
   * text[b] is not a symbol, the non-symbols of text[b..p] spell the
   * beginning of some keyword (the trie node `tempNode` stands on) and no
   * keyword ended before `p`.
   */
  ghost predicate Following(keywords: set<seq<Char16>>, text: seq<Char16>, b: nat, p: nat)
  {
    && b <= p <= |text| && b < |text|
    && !IsSymbol(text[b])
    && (b < p ==> IsKeywordPrefix(keywords, Strip(text[b..p])))
    && forall q :: b <= q < p ==> !MatchesAt(keywords, text, b, q)
  }

  /** Once the followed word leaves every keyword, no match from `b` ends at or after `p`. */
  lemma NoLaterMatch(keywords: set<seq<Char16>>, text: seq<Char16>, b: nat, p: nat)
    requires b <= p < |text| && !IsKeywordPrefix(keywords, Strip(text[b..p + 1]))
    ensures forall q :: p <= q < |text| ==> !MatchesAt(keywords, text, b, q)
    ensures !IsKeywordPrefix(keywords, Strip(text[b..]))
  {
    forall q | p <= q < |text|
      ensures !MatchesAt(keywords, text, b, q)
    {
      LeftKeywords(keywords, text, b, p + 1, q + 1);
    }
    LeftKeywords(keywords, text, b, p + 1, |text|);
    assert text[b..|text|] == text[b..];
  }

  /** A span from `b` that starts with a word leading out of every keyword leads out of every keyword too. */
  lemma LeftKeywords(keywords: set<seq<Char16>>, text: seq<Char16>, b: nat, i: nat, j: nat)
    requires b <= i <= j <= |text| && !IsKeywordPrefix(keywords, Strip(text[b..i]))
    ensures !IsKeywordPrefix(keywords, Strip(text[b..j])) && Strip(text[b..j]) !in keywords
  {
    StripSliceGrows(text, b, i, j);
    KeywordPrefixClosed(keywords, Strip(text[b..i]), Strip(text[b..j]));
  }

  /** Stripping a longer span from `b` gives a longer word. */
  lemma StripSliceGrows(text: seq<Char16>, b: nat, i: nat, j: nat)
    requires b <= i <= j <= |text|
    ensures Strip(text[b..i]) <= Strip(text[b..j])
  {
    var t := text[b..j];
    assert t[..i - b] == text[b..i];
    assert t[..j - b] == t;
    StripPrefix(t, i - b, j - b);
  }

  /**
   * Mismatch: when the character at `p` leads out of every keyword, exactly
   * text[b] is copied and scanning restarts at b + 1.
   */
  lemma ScanMismatch(keywords: set<seq<Char16>>, text: seq<Char16>, b: nat, p: nat)
    requires Following(keywords, text, b, p) && p < |text| && !IsSymbol(text[p])
    requires !IsKeywordPrefix(keywords, Strip(text[b..p + 1]))
    ensures Next(keywords, text, b) == Cut(Kept(text[b]), b + 1)
  {
    NoLaterMatch(keywords, text, b, p);
    assert FirstMatch(keywords, text, b, b).None?;
  }

  /**
   * Match: when the character at `p` completes a keyword, the whole span
   * text[b..p+1], symbols included, is masked and scanning goes on after it.
   */
  lemma ScanMatch(keywords: set<seq<Char16>>, text: seq<Char16>, b: nat, p: nat)
    requires Following(keywords, text, b, p) && p < |text| && !IsSymbol(text[p])
    requires Strip(text[b..p + 1]) in keywords
    ensures Next(keywords, text, b) == Cut(Masked(text[b..p + 1]), p + 1)
  {
    assert MatchesAt(keywords, text, b, p);
    FirstMatchMinimal(keywords, text, b, b);
  }

  /**
   * Unfinished match: a match still open when the text ends is written out
   * unmasked, from `b` to the end.
   */
  lemma ScanUnfinished(keywords: set<seq<Char16>>, text: seq<Char16>, b: nat)
    requires Following(keywords, text, b, |text|)
    ensures Next(keywords, text, b) == Cut(Rest(text[b..]), |text|)
  {
    assert text[b..|text|] == text[b..];
    assert FirstMatch(keywords, text, b, b).None?;
  }

  /** A character that continues a keyword without completing one keeps the match open. */
  lemma FollowingExtend(keywords: set<seq<Char16>>, text: seq<Char16>, b: nat, p: nat)
    requires b <= p < |text| && (b < p ==> Following(keywords, text, b, p)) && !IsSymbol(text[p])
    requires IsKeywordPrefix(keywords, Strip(text[b..p + 1])) && Strip(text[b..p + 1]) !in keywords
    ensures Following(keywords, text, b, p + 1)
  {
    assert !MatchesAt(keywords, text, b, p);
  }

  /**
   * The loop of `filter` has written `sb` and stands at `begin` and
   * `position`: a match opened at `begin` is followed up to `position`,
   * and `sb` followed by the output from `begin` on is the whole output.
   */
  ghost predicate Progress(keywords: set<seq<Char16>>, text: seq<Char16>, out: seq<Char16>,
                           begin: nat, position: nat, sb: seq<Char16>)
  {
    && begin <= position <= |text|
    && (begin < position ==> Following(keywords, text, begin, position))
    && sb + Render(Scan(keywords, text, begin)) == out
  }

  /** A symbol met while no match is open is copied. */
  lemma ProgressSymbolAtStart(keywords: set<seq<Char16>>, text: seq<Char16>, out: seq<Char16>, b: nat, sb: seq<Char16>)
    requires Progress(keywords, text, out, b, b, sb) && b < |text| && IsSymbol(text[b])
    ensures Progress(keywords, text, out, b + 1, b + 1, sb + [text[b]])
  {
    var rest := Render(Scan(keywords, text, b + 1));
    assert Render(Scan(keywords, text, b)) == [text[b]] + rest by {
      assert Next(keywords, text, b) == Cut(Kept(text[b]), b + 1);
      ScanStep(keywords, text, b);
    }
    AppendShift(sb, [text[b]], rest, out);
  }

  /** A symbol met inside an open match is skipped. */
  lemma ProgressSymbolInside(keywords: set<seq<Char16>>, text: seq<Char16>, out: seq<Char16>, b: nat, p: nat, sb: seq<Char16>)
    requires Progress(keywords, text, out, b, p, sb) && b < p < |text| && IsSymbol(text[p])
    ensures Progress(keywords, text, out, b, p + 1, sb)
  {
    StripSnoc(text, b, p);
  }

  /** A character that leads out of every keyword: text[b] is copied and the match restarts at b + 1. */
  lemma ProgressMismatch(keywords: set<seq<Char16>>, text: seq<Char16>, out: seq<Char16>, b: nat, p: nat, sb: seq<Char16>)
    requires Progress(keywords, text, out, b, p, sb) && p < |text| && !IsSymbol(text[p])
    requires !IsKeywordPrefix(keywords, Strip(text[b..p + 1]))
    ensures Progress(keywords, text, out, b + 1, b + 1, sb + [text[b]])
  {
    var rest := Render(Scan(keywords, text, b + 1));
    assert Render(Scan(keywords, text, b)) == [text[b]] + rest by {
      assert Following(keywords, text, b, p);
      ScanMismatch(keywords, text, b, p);
      ScanStep(keywords, text, b);
    }
    AppendShift(sb, [text[b]], rest, out);
  }

  /** A character that completes a keyword: "***" is written and the match restarts after it. */
  lemma ProgressMatch(keywords: set<seq<Char16>>, text: seq<Char16>, out: seq<Char16>, b: nat, p: nat, sb: seq<Char16>)
    requires Progress(keywords, text, out, b, p, sb) && p < |text| && !IsSymbol(text[p])
    requires Strip(text[b..p + 1]) in keywords
    ensures Progress(keywords, text, out, p + 1, p + 1, sb + REPLACEMENT)
  {
    var rest := Render(Scan(keywords, text, p + 1));
    assert Render(Scan(keywords, text, b)) == REPLACEMENT + rest by {
      assert Following(keywords, text, b, p);
      ScanMatch(keywords, text, b, p);
      ScanStep(keywords, text, b);
    }
    AppendShift(sb, REPLACEMENT, rest, out);
  }

  /** A character that continues a keyword without completing one: the match goes on. */
  lemma ProgressExtend(keywords: set<seq<Char16>>, text: seq<Char16>, out: seq<Char16>, b: nat, p: nat, sb: seq<Char16>)
    requires Progress(keywords, text, out, b, p, sb) && p < |text| && !IsSymbol(text[p])
    requires IsKeywordPrefix(keywords, Strip(text[b..p + 1])) && Strip(text[b..p + 1]) !in keywords
    ensures Progress(keywords, text, out, b, p + 1, sb)
  {
    FollowingExtend(keywords, text, b, p);
  }

  /** Regrouping an append: the written prefix absorbs the next image. */
  lemma AppendShift(sb: seq<Char16>, image: seq<Char16>, rest: seq<Char16>, out: seq<Char16>)
    requires sb + (image + rest) == out
    ensures (sb + image) + rest == out
  {
  }

  /** At the end of the text, appending text[begin..] completes the output. */
  lemma ProgressEnd(keywords: set<seq<Char16>>, text: seq<Char16>, out: seq<Char16>, b: nat, sb: seq<Char16>)
    requires Progress(keywords, text, out, b, |text|, sb)
    ensures sb + text[b..] == out
  {
    if b < |text| {
      ScanUnfinished(keywords, text, b);
      ScanStep(keywords, text, b);
    }
  }
}
