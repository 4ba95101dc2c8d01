/**
 * Characters and texts as the filter sees them. A Java `char` is one UTF-16
 * code unit, so a text is a sequence of code units and every comparison on a
 * character is a comparison of integers.
 */
module Text {
  import opened Wrappers

  /** One UTF-16 code unit, the value of a Java `char`. */
  type Char16 = c: int | 0 <= c < 0x1_0000

  /** `CharUtils.isAsciiAlphanumeric`: 'A'..'Z', 'a'..'z' or '0'..'9'. */
  predicate IsAsciiAlphanumeric(c: Char16)
  {
    (0x41 <= c <= 0x5A) || (0x61 <= c <= 0x7A) || (0x30 <= c <= 0x39)
  }

  /**
   * `isSymbol`: neither an ASCII letter or digit nor a unit of the East Asian
   * block 0x2E80..0x9FFF. Symbols are skipped while a match is in progress.
   */
  predicate IsSymbol(c: Char16)
  {
    !IsAsciiAlphanumeric(c) && (c < 0x2E80 || c > 0x9FFF)
  }

  /** The classification written out on code values, with its boundary cases. */
  lemma SymbolClassification(c: Char16)
    ensures IsSymbol(c) <==> !(48 <= c <= 57 || 65 <= c <= 90 || 97 <= c <= 122 || 0x2E80 <= c <= 0x9FFF)
    ensures IsSymbol(0x2E7F) && !IsSymbol(0x2E80) && !IsSymbol(0x9FFF) && IsSymbol(0xA000)
    ensures IsSymbol('-' as int) && IsSymbol(' ' as int) && IsSymbol('_' as int)
    ensures !IsSymbol('a' as int) && !IsSymbol('Z' as int) && !IsSymbol('0' as int)
  {
  }

  /**
   * `Character.isWhitespace` on one code unit: the Unicode space, line and
   * paragraph separators other than the no-break spaces U+00A0, U+2007 and
   * U+202F, and the controls U+0009..U+000D and U+001C..U+001F.
   */
  predicate IsWhitespace(c: Char16)
  {
    || 0x09 <= c <= 0x0D
    || 0x1C <= c <= 0x20
    || c == 0x1680
    || 0x2000 <= c <= 0x2006
    || 0x2008 <= c <= 0x200A
    || c == 0x2028 || c == 0x2029
    || c == 0x205F
    || c == 0x3000
  }

  /** `StringUtils.isBlank`: null, empty, or whitespace only. */
  predicate IsBlank(text: Option<seq<Char16>>)
  {
    match text
    case None => true
    case Some(s) => forall i :: 0 <= i < |s| ==> IsWhitespace(s[i])
  }

  /**
   * The non-symbol characters of `s`, in order: the path a span of text
   * follows in the trie, since symbols are never looked up.
   */
  function Strip(s: seq<Char16>): (r: seq<Char16>)
    ensures |r| <= |s|
    ensures s != [] && !IsSymbol(s[|s| - 1]) ==> r != [] && r[|r| - 1] == s[|s| - 1]
    decreases |s|
  {
    if s == [] then []
    else Strip(s[..|s| - 1]) + (if IsSymbol(s[|s| - 1]) then [] else [s[|s| - 1]])
  }

  /** A stripped text holds no symbol. */
  lemma {:induction false} StripSymbolFree(s: seq<Char16>)
    ensures forall i :: 0 <= i < |Strip(s)| ==> !IsSymbol(Strip(s)[i])
    decreases |s|
  {
    if s != [] {
      StripSymbolFree(s[..|s| - 1]);
    }
  }

  /** A text without symbols strips to itself. */
  lemma {:induction false} StripPlain(s: seq<Char16>)
    requires forall i :: 0 <= i < |s| ==> !IsSymbol(s[i])
    ensures Strip(s) == s
    decreases |s|
  {
    if s != [] {
      StripPlain(s[..|s| - 1]);
    }
  }

  /** Stripping a longer prefix of a text gives a longer prefix of the stripped text. */
  lemma {:induction false} StripPrefix(s: seq<Char16>, i: nat, j: nat)
    requires i <= j <= |s|
    ensures Strip(s[..i]) <= Strip(s[..j])
    decreases j - i
  {
    if i < j {
      StripPrefix(s, i, j - 1);
      assert s[..j][..j - 1] == s[..j - 1];
    }
  }

  /** Extending a span by one character adds that character to its word unless it is a symbol. */
  lemma StripSnoc(s: seq<Char16>, b: nat, p: nat)
    requires b <= p < |s|
    ensures Strip(s[b..p + 1]) == Strip(s[b..p]) + (if IsSymbol(s[p]) then [] else [s[p]])
  {
    assert s[b..p + 1][..p - b] == s[b..p];
  }

  /** Some loaded keyword starts with `u`: the trie has a node for `u`. */
  ghost predicate IsKeywordPrefix(keywords: set<seq<Char16>>, u: seq<Char16>)
  {
    exists k :: k in keywords && u <= k
  }

  /** A prefix of a keyword, or of a keyword prefix, is a keyword prefix. */
  lemma KeywordPrefixClosed(keywords: set<seq<Char16>>, u: seq<Char16>, v: seq<Char16>)
    requires u <= v
    ensures IsKeywordPrefix(keywords, v) ==> IsKeywordPrefix(keywords, u)
    ensures v in keywords ==> IsKeywordPrefix(keywords, u)
  {
    if IsKeywordPrefix(keywords, v) {
      var k :| k in keywords && v <= k;
      assert u <= k;
    }
    if v in keywords {
      assert u <= v;
    }
  }
}
