/**
 * `filter` on small keyword sets and texts, worked out from `Scan` one
 * decision at a time: each example is split into one lemma per start
 * position, and the example itself chains them. Each lemma takes the
 * keyword set `K` and the text `t` as parameters pinned by its `requires`
 * rather than writing the literals into its `ensures`: the solver then works
 * with one name for each literal instead of re-expanding the set and
 * sequence displays at every use, which keeps these proofs small.
 */
module Examples {
  import opened Text
  import opened Masking
  import opened Properties

  const a: Char16 := 'a' as int
  const b: Char16 := 'b' as int
  const c: Char16 := 'c' as int
  const d: Char16 := 'd' as int
  const dash: Char16 := '-' as int

  /** A word whose first character starts no keyword begins no keyword. */
  lemma NotPrefixByFirst(K: set<seq<Char16>>, u: seq<Char16>)
    requires u != [] && forall k :: k in K ==> k != [] && k[0] != u[0]
    ensures !IsKeywordPrefix(K, u)
  {
    forall k | k in K
      ensures !(u <= k)
    {
      assert k[0] != u[0];
    }
  }

  /** Keywords {"ab", "abc"} on "abc": the shorter keyword is masked, "c" is kept. */
  lemma ShortestKeywordWins(K: set<seq<Char16>>, t: seq<Char16>)
    requires K == {[a, b], [a, b, c]} && t == [a, b, c]
    ensures Render(Scan(K, t, 0)) == REPLACEMENT + [c]
  {
    ShortestKeywordWinsAt0(K, t);
    ShortestKeywordWinsAt2(K, t);
  }

  lemma ShortestKeywordWinsAt0(K: set<seq<Char16>>, t: seq<Char16>)
    requires K == {[a, b], [a, b, c]} && t == [a, b, c]
    ensures Render(Scan(K, t, 0)) == REPLACEMENT + Render(Scan(K, t, 2))
  {
    assert t[0..1] == [a] && t[0..2] == [a, b];
    StripPlain([a]);
    StripPlain([a, b]);
    assert [a] <= [a, b];
    FollowingExtend(K, t, 0, 0);
    OutputMasked(K, t, 0, 1);
  }

  lemma ShortestKeywordWinsAt2(K: set<seq<Char16>>, t: seq<Char16>)
    requires K == {[a, b], [a, b, c]} && t == [a, b, c]
    ensures Render(Scan(K, t, 2)) == [c]
  {
    assert Strip(t[2..3]) == [c] by {
      assert t[2..3] == [c];
      StripPlain([c]);
    }
    NotPrefixByFirst(K, [c]);
    OutputKept(K, t, 2, 2);
  }

  /** Keywords {"bad"} on "b-a-d": the symbols inside the match are masked with it. */
  lemma SymbolsInsideMatchMasked(K: set<seq<Char16>>, t: seq<Char16>)
    requires K == {[b, a, d]} && t == [b, dash, a, dash, d]
    ensures Render(Scan(K, t, 0)) == REPLACEMENT
  {
    SymbolsInsideMatchFollowed(K, t);
    SymbolsInsideMatchEnds(K, t);
  }

  lemma SymbolsInsideMatchOpened(K: set<seq<Char16>>, t: seq<Char16>)
    requires K == {[b, a, d]} && t == [b, dash, a, dash, d]
    ensures Following(K, t, 0, 2) && Strip(t[0..2]) == [b]
  {
    assert t[0..1] == [b];
    StripPlain([b]);
    assert [b] <= [b, a, d];
    FollowingExtend(K, t, 0, 0);
    FollowingSkip(K, t, 0, 1);
    StripSnoc(t, 0, 1);
  }

  lemma SymbolsInsideMatchFollowed(K: set<seq<Char16>>, t: seq<Char16>)
    requires K == {[b, a, d]} && t == [b, dash, a, dash, d]
    ensures Following(K, t, 0, 4) && Strip(t[0..4]) == [b, a]
  {
    SymbolsInsideMatchOpened(K, t);
    StripSnoc(t, 0, 2);
    assert [b, a] <= [b, a, d];
    FollowingExtend(K, t, 0, 2);
    FollowingSkip(K, t, 0, 3);
    StripSnoc(t, 0, 3);
  }

  lemma SymbolsInsideMatchEnds(K: set<seq<Char16>>, t: seq<Char16>)
    requires K == {[b, a, d]} && t == [b, dash, a, dash, d]
    requires Following(K, t, 0, 4) && Strip(t[0..4]) == [b, a]
    ensures Render(Scan(K, t, 0)) == REPLACEMENT
  {
    StripSnoc(t, 0, 4);
    assert Strip(t[0..5]) == [b, a, d];
    OutputMasked(K, t, 0, 4);
  }

  /** Keywords {"ab", "bc"} on "abc": a masked span is not scanned again, so "bc" is not found. */
  lemma MaskedTextNotRescanned(K: set<seq<Char16>>, t: seq<Char16>)
    requires K == {[a, b], [b, c]} && t == [a, b, c]
    ensures Render(Scan(K, t, 0)) == REPLACEMENT + [c]
  {
    MaskedTextNotRescannedAt0(K, t);
    MaskedTextNotRescannedAt2(K, t);
  }

  lemma MaskedTextNotRescannedAt0(K: set<seq<Char16>>, t: seq<Char16>)
    requires K == {[a, b], [b, c]} && t == [a, b, c]
    ensures Render(Scan(K, t, 0)) == REPLACEMENT + Render(Scan(K, t, 2))
  {
    assert t[0..1] == [a] && t[0..2] == [a, b];
    StripPlain([a]);
    StripPlain([a, b]);
    assert [a] <= [a, b];
    FollowingExtend(K, t, 0, 0);
    OutputMasked(K, t, 0, 1);
  }

  lemma MaskedTextNotRescannedAt2(K: set<seq<Char16>>, t: seq<Char16>)
    requires K == {[a, b], [b, c]} && t == [a, b, c]
    ensures Render(Scan(K, t, 2)) == [c]
  {
    assert Strip(t[2..3]) == [c] by {
      assert t[2..3] == [c];
      StripPlain([c]);
    }
    NotPrefixByFirst(K, [c]);
    OutputKept(K, t, 2, 2);
  }

  /** Keywords {"abd", "bc"} on "abc": "ab" leads nowhere, "a" is kept and "bc" is masked. */
  lemma MismatchRestartsOneFurther(K: set<seq<Char16>>, t: seq<Char16>)
    requires K == {[a, b, d], [b, c]} && t == [a, b, c]
    ensures Render(Scan(K, t, 0)) == [a] + REPLACEMENT
  {
    MismatchRestartsAt0(K, t);
    MismatchRestartsAt1(K, t);
  }

  lemma MismatchRestartsAt0(K: set<seq<Char16>>, t: seq<Char16>)
    requires K == {[a, b, d], [b, c]} && t == [a, b, c]
    ensures Render(Scan(K, t, 0)) == [a] + Render(Scan(K, t, 1))
  {
    MismatchRestartsOpened(K, t);
    assert t[0..3] == [a, b, c];
    StripPlain([a, b, c]);
    assert forall k :: k in K ==> !([a, b, c] <= k);
    OutputKept(K, t, 0, 2);
  }

  lemma MismatchRestartsOpened(K: set<seq<Char16>>, t: seq<Char16>)
    requires K == {[a, b, d], [b, c]} && t == [a, b, c]
    ensures Following(K, t, 0, 2)
  {
    assert t[0..1] == [a] && t[0..2] == [a, b];
    StripPlain([a]);
    StripPlain([a, b]);
    assert [a] <= [a, b, d] && [a, b] <= [a, b, d];
    FollowingExtend(K, t, 0, 0);
    FollowingExtend(K, t, 0, 1);
  }

  lemma MismatchRestartsAt1(K: set<seq<Char16>>, t: seq<Char16>)
    requires K == {[a, b, d], [b, c]} && t == [a, b, c]
    ensures Render(Scan(K, t, 1)) == REPLACEMENT
  {
    assert t[1..2] == [b] && t[1..3] == [b, c];
    StripPlain([b]);
    StripPlain([b, c]);
    assert [b] <= [b, c];
    FollowingExtend(K, t, 1, 1);
    OutputMasked(K, t, 1, 2);
  }

  /** Keywords {"bad"} on "ba": the match is still open at the end, so "ba" is kept. */
  lemma OpenMatchAtEndKept(K: set<seq<Char16>>, t: seq<Char16>)
    requires K == {[b, a, d]} && t == [b, a]
    ensures Render(Scan(K, t, 0)) == t
  {
    OpenMatchAtEndFollowed(K, t);
    OutputOpen(K, t, 0);
  }

  lemma OpenMatchAtEndFollowed(K: set<seq<Char16>>, t: seq<Char16>)
    requires K == {[b, a, d]} && t == [b, a]
    ensures Following(K, t, 0, 2)
  {
    assert t[0..1] == [b] && t[0..2] == [b, a];
    StripPlain([b]);
    StripPlain([b, a]);
    assert [b] <= [b, a, d] && [b, a] <= [b, a, d];
    FollowingExtend(K, t, 0, 0);
    FollowingExtend(K, t, 0, 1);
  }

  /**
   * Keywords {"abc", "b"} on "ab": the match of "abc" is still open at the
   * end, so the text is kept as a whole, although the keyword "b" ends at 1.
   */
  lemma OpenMatchHidesKeyword(K: set<seq<Char16>>, t: seq<Char16>)
    requires K == {[a, b, c], [b]} && t == [a, b]
    ensures MatchesAt(K, t, 1, 1)
    ensures Render(Scan(K, t, 0)) == t
  {
    assert t[1..2] == [b];
    StripPlain([b]);
    OpenMatchHidesKeywordFollowed(K, t);
    OutputOpen(K, t, 0);
  }

  lemma OpenMatchHidesKeywordFollowed(K: set<seq<Char16>>, t: seq<Char16>)
    requires K == {[a, b, c], [b]} && t == [a, b]
    ensures Following(K, t, 0, 2)
  {
    assert t[0..1] == [a] && t[0..2] == [a, b];
    StripPlain([a]);
    StripPlain([a, b]);
    assert [a] <= [a, b, c] && [a, b] <= [a, b, c];
    FollowingExtend(K, t, 0, 0);
    FollowingExtend(K, t, 0, 1);
  }
}
