# Sensitive-word filter, modelled in Dafny

This project models the masking engine of the forum's `SensitiveFilter`
component and proves what it does. The engine has two parts:

- A keyword **trie** is built from a word list with `addKeyword`.
- A **scanner**, `filter`, replaces every keyword it finds in a text by
  `"***"`.

The scanner runs one left-to-right pass with three cursors:

- `tempNode` is the trie node of the match in progress;
- `begin` is where that match started;
- `position` is the character being looked at.

How the scanner handles each character:

- A "symbol" is echoed while no match is open. Inside a match it is skipped.
  A symbol is any character that is not an ASCII letter or digit and lies
  outside 0x2E80–0x9FFF.
- If the trie has no child for a character, `text[begin]` is copied and the
  match restarts at `begin + 1`.
- Reaching a keyword-end node writes `"***"` for the whole span from `begin`
  to `position`, symbols included.
- Whatever is left from `begin` when the text ends is copied unchanged.

The model keeps the source's form:

- **Text** (`text.dfy`): characters are Java `char`s, i.e. UTF-16 code units
  as integers. This file also holds the symbol classifier and the blank test.
- **Trie** (`trie.dfy`): the trie is an arena of nodes addressed by index,
  with node 0 as `rootNode`. Two ghost sequences describe it:
  - the word each node spells;
  - a flagged node below every node.

  The lemmas about the arena live here.
- **Engine** (`engine.dfy`): the class `SensitiveFilter` holds the arena
  (`ends`, `edges`) as fields. Its methods follow the Java methods:
  - `AddKeyword` with its loop, `Descend` and `Advance`;
  - `GetSubNode`, `AddSubNode` and `SetKeywordEnd`;
  - `Filter`, whose loop is in `Mask`, with one method per branch of the
    loop body.
- **Masking** (`masking.dfy`): the specification that `Mask` is proved
  against. `Scan` cuts the text into pieces, decided one start position at a
  time. A piece is one of:
  - a character kept;
  - a span masked as `"***"`;
  - the rest of the text, left unmasked because a match was still open when
    the text ended.

  `Render` joins the pieces' output. This file also holds the lemmas that
  relate one iteration of the loop to one decision of `Scan`.
- **FilterLoop** (`filter_loop.dfy`): the loop state as a predicate. It says:
  - `tempNode` spells the non-symbols of `text[begin..position]`;
  - `tempNode` is the root exactly when `begin == position`;
  - the output so far, followed by the output from `begin` on, is the whole
    output.

  There is one lemma per branch of the loop.
- **Properties** (`properties.dfy`): properties of `Scan`'s output:
  - pass-through;
  - shortest match;
  - unfinished matches;
  - the output length.
- **Examples** (`examples.dfy`) and **Scenarios** (`scenarios.dfy`): worked
  keyword sets and texts. Scenarios drives the class end to end.

Termination of `filter`'s loop is proved with the measure
`(|text| − begin, |text| − position)`. This pair decreases lexicographically,
although `position` moves back to `begin + 1` on a mismatch.

## Model

All source paths are `src/main/java/com/nowcoder/community/util/SensitiveFilter.java`.

| member | source | states |
|---|---|---|
| Text.IsSymbol | src/main/java/com/nowcoder/community/util/SensitiveFilter.java:110-113 | `isSymbol`, as a definition: a character is a symbol when it is not an ASCII letter or digit and lies outside 0x2E80..0x9FFF (its classification lemma is `Text.SymbolClassification`) |
| Text.IsWhitespace | src/main/java/com/nowcoder/community/util/SensitiveFilter.java:61 | `Character.isWhitespace` on one code unit, as a definition: the Unicode space, line and paragraph separators other than the no-break spaces, and the controls U+0009..U+000D and U+001C..U+001F |
| Text.IsBlank | src/main/java/com/nowcoder/community/util/SensitiveFilter.java:61-63 | `StringUtils.isBlank`, as a definition: null, or every unit is whitespace (the empty text included); `Engine.SensitiveFilter.Filter` returns null exactly then |
| Text.SymbolClassification | src/main/java/com/nowcoder/community/util/SensitiveFilter.java:110-113 | `isSymbol(c)` holds exactly when c is not one of '0'..'9', 'A'..'Z', 'a'..'z' and lies outside 0x2E80..0x9FFF; the boundary units 0x2E7F and 0xA000 are symbols, 0x2E80 and 0x9FFF are not |
| Text.StripSymbolFree | src/main/java/com/nowcoder/community/util/SensitiveFilter.java:75-84 | the word a span follows in the trie (its non-symbols) contains no symbol, because symbols are never looked up |
| Text.StripSnoc | src/main/java/com/nowcoder/community/util/SensitiveFilter.java:75-84 | moving `position` one further adds the character to the followed word unless it is a symbol |
| Text.StripPrefix | src/main/java/com/nowcoder/community/util/SensitiveFilter.java:72-84 | a longer span from `begin` follows a longer word in the trie (the followed word only grows) |
| Text.StripPlain | src/main/java/com/nowcoder/community/util/SensitiveFilter.java:75-84 | a text without symbols is followed in the trie character by character |
| Text.KeywordPrefixClosed | src/main/java/com/nowcoder/community/util/SensitiveFilter.java:43-58 | a prefix of a keyword or of a keyword prefix is a keyword prefix (the trie holds a node for every prefix of every keyword) |
| Trie.Child | src/main/java/com/nowcoder/community/util/SensitiveFilter.java:134-136 | `getSubNode`, as a definition on the arena: the child of node n for c, or none when n has no edge for c (`HashMap.get` returning null) |
| Trie.Link | src/main/java/com/nowcoder/community/util/SensitiveFilter.java:130-132 | `addSubNode`, as a definition on the arena: node n's edge for c leads to m, and every other edge is as before (`HashMap.put`) |
| Trie.WalkLabel | src/main/java/com/nowcoder/community/util/SensitiveFilter.java:134-136 | following the characters of u with `getSubNode` from the root, when it succeeds, reaches the node that spells u |
| Trie.WalkPrefix | src/main/java/com/nowcoder/community/util/SensitiveFilter.java:134-136 | every prefix of a word that has a path from the root has a path too |
| Trie.LabelsDistinct | src/main/java/com/nowcoder/community/util/SensitiveFilter.java:117-137 | two nodes that spell the same word are the same node (the arena is a tree) |
| Trie.PrefixHasNode | src/main/java/com/nowcoder/community/util/SensitiveFilter.java:43-58 | every prefix of a loaded keyword has its node, reached by walking it from the root |
| Trie.NoNodeNotPrefix | src/main/java/com/nowcoder/community/util/SensitiveFilter.java:84-85 | a word that no node spells begins no loaded keyword, so a missing child means the match cannot succeed |
| Trie.NodeIsKeywordPrefix | src/main/java/com/nowcoder/community/util/SensitiveFilter.java:43-58 | every non-root node spells the beginning of a loaded keyword, since nodes are only created on a keyword's path |
| Trie.EndIffKeyword | src/main/java/com/nowcoder/community/util/SensitiveFilter.java:123-128 | a node's end flag is set exactly when the word it spells is a loaded keyword |
| Trie.NoChildNoNode | src/main/java/com/nowcoder/community/util/SensitiveFilter.java:134-136 | when node n has no child for c, no node spells n's word followed by c |
| Trie.WalkPreserved | src/main/java/com/nowcoder/community/util/SensitiveFilter.java:130-132 | adding children never changes where an existing path from the root ends |
| Trie.KeywordsAfterMark | src/main/java/com/nowcoder/community/util/SensitiveFilter.java:54-56 | flagging the node of the last character adds exactly that node's word to the keywords |
| Trie.ShapeAfterNewChild | src/main/java/com/nowcoder/community/util/SensitiveFilter.java:49-52 | a new unflagged node registered as the child of n for c keeps the arena a tree, the new node spelling n's word followed by c |
| Trie.InsertComplete | src/main/java/com/nowcoder/community/util/SensitiveFilter.java:43-58 | after the walk of a non-empty word the keywords are the old ones plus the word, every node still lies on a keyword's path, and re-adding a loaded word changes no flag |
| Trie.InsertingHasEdge | src/main/java/com/nowcoder/community/util/SensitiveFilter.java:46-49 | when the word already had a path, `getSubNode` finds the child at every step, so no node is created |
| Trie.InsertingStep | src/main/java/com/nowcoder/community/util/SensitiveFilter.java:45-57 | one iteration of `addKeyword`'s loop keeps the insertion invariant: `tempNote` spells word[..i], old nodes, words, flags and edges are kept, and the last character's node is flagged |
| Engine.SensitiveFilter.constructor | src/main/java/com/nowcoder/community/util/SensitiveFilter.java:21 | a new filter holds only an unflagged root without children, so no keyword is loaded |
| Engine.SensitiveFilter.GetSubNode | src/main/java/com/nowcoder/community/util/SensitiveFilter.java:134-136 | `getSubNode`: the child found spells the node's word followed by c; none is found only when there is no edge for c |
| Engine.SensitiveFilter.IsKeywordEnd | src/main/java/com/nowcoder/community/util/SensitiveFilter.java:123-125 | `isKeywordEnd` is true exactly when the node's word is a loaded keyword |
| Engine.SensitiveFilter.NewNode | src/main/java/com/nowcoder/community/util/SensitiveFilter.java:119-121 | `new TrieNode()`: a node with the flag false and no children, appended to the arena |
| Engine.SensitiveFilter.AddSubNode | src/main/java/com/nowcoder/community/util/SensitiveFilter.java:130-132 | `addSubNode`: node n's edge for c now leads to m, and nothing else changes |
| Engine.SensitiveFilter.SetKeywordEnd | src/main/java/com/nowcoder/community/util/SensitiveFilter.java:126-128 | `setKeywordEnd`: node n's flag is the given value, and nothing else changes |
| Engine.SensitiveFilter.Descend | src/main/java/com/nowcoder/community/util/SensitiveFilter.java:46-53 | the child of `tempNote` for c is found or created and registered; it spells the word so far plus c, at most one node is added, and none if the edge existed |
| Engine.SensitiveFilter.Advance | src/main/java/com/nowcoder/community/util/SensitiveFilter.java:45-57 | one pass of `addKeyword`'s loop, flagging the node when i is the last index, keeps the insertion invariant |
| Engine.SensitiveFilter.AddKeyword | src/main/java/com/nowcoder/community/util/SensitiveFilter.java:43-58 | the keywords grow by exactly the word (the empty word adds nothing); its path from the root ends on a flagged node; flags are only ever set; existing edges are kept; at most one node per character is added; the empty word or a loaded word leaves the trie unchanged (idempotence) |
| Engine.SensitiveFilter.LoadKeywords | src/main/java/com/nowcoder/community/util/SensitiveFilter.java:35-37 | adding the lines of the word list in order loads exactly the non-empty lines |
| Engine.SensitiveFilter.Step | src/main/java/com/nowcoder/community/util/SensitiveFilter.java:73-82 | one iteration of `filter`'s loop keeps the loop state, and (|text| − begin, |text| − position) decreases lexicographically |
| Engine.SensitiveFilter.Follow | src/main/java/com/nowcoder/community/util/SensitiveFilter.java:84-104 | the three outcomes of looking a non-symbol up below `tempNode` each keep the loop state and decrease the measure |
| Engine.SensitiveFilter.CopyBegin | src/main/java/com/nowcoder/community/util/SensitiveFilter.java:85-92 | no child: exactly text[begin] is written, `begin` and `position` both become begin + 1, `tempNode` the root, and the loop state holds |
| Engine.SensitiveFilter.MaskSpan | src/main/java/com/nowcoder/community/util/SensitiveFilter.java:93-100 | keyword end: exactly "***" is written, `begin` and `position` both become position + 1, `tempNode` the root, and the loop state holds |
| Engine.SensitiveFilter.Proceed | src/main/java/com/nowcoder/community/util/SensitiveFilter.java:101-104 | a child that is not a keyword end: only `position` advances, `tempNode` becomes the child, and the loop state holds |
| Engine.SensitiveFilter.Mask | src/main/java/com/nowcoder/community/util/SensitiveFilter.java:64-107 | the loop, followed by the remainder from `begin`, produces exactly `Render(Scan(keywords, text, 0))` for the loaded keywords |
| Engine.SensitiveFilter.Filter | src/main/java/com/nowcoder/community/util/SensitiveFilter.java:60-108 | `filter` returns null exactly when the text is null, empty or whitespace only, and otherwise the masked text described by `Scan` |
| FilterLoop.Start | src/main/java/com/nowcoder/community/util/SensitiveFilter.java:65-71 | the loop state holds on entry: `tempNode` is the root, begin = position = 0, nothing is written |
| FilterLoop.Finish | src/main/java/com/nowcoder/community/util/SensitiveFilter.java:106 | at the end of the text, appending text[begin..] to what was written gives the whole output |
| FilterLoop.SymbolAtRoot | src/main/java/com/nowcoder/community/util/SensitiveFilter.java:75-81 | a symbol with no match open is echoed and `begin` moves past it, keeping the loop state |
| FilterLoop.SymbolInside | src/main/java/com/nowcoder/community/util/SensitiveFilter.java:75-81 | a symbol inside an open match is skipped without output, keeping the loop state |
| FilterLoop.NoChild | src/main/java/com/nowcoder/community/util/SensitiveFilter.java:84-92 | a missing child means the followed word begins no keyword; copying text[begin] and restarting at begin + 1 keeps the loop state |
| FilterLoop.ChildEnds | src/main/java/com/nowcoder/community/util/SensitiveFilter.java:93-100 | a child spelling a loaded keyword: writing "***" and restarting after `position` keeps the loop state |
| FilterLoop.ChildContinues | src/main/java/com/nowcoder/community/util/SensitiveFilter.java:101-104 | a child spelling only a keyword prefix: moving on keeps the loop state |
| Masking.Scan | src/main/java/com/nowcoder/community/util/SensitiveFilter.java:60-108 | the reference definition of `filter`'s output, cut into pieces decided one start position at a time; every piece consumes at least one character, so there are at most |text| − begin pieces, and none exactly at the end of the text |
| Masking.FirstMatchMinimal | src/main/java/com/nowcoder/community/util/SensitiveFilter.java:93-99 | the match found from `begin` is the first: no keyword match from `begin` ends earlier, and when none is found none exists |
| Masking.Next | src/main/java/com/nowcoder/community/util/SensitiveFilter.java:72-106 | each decision consumes at least one character and its piece is exactly the text it consumes |
| Masking.ScanSource | src/main/java/com/nowcoder/community/util/SensitiveFilter.java:60-108 | the pieces consume the whole text in order, so the output is the input with the masked spans replaced |
| Masking.ScanStep | src/main/java/com/nowcoder/community/util/SensitiveFilter.java:72-105 | the output from `begin` is the output of the decision at `begin` followed by the output from where it resumes |
| Masking.NoLaterMatch | src/main/java/com/nowcoder/community/util/SensitiveFilter.java:84-92 | once the followed word leaves every keyword, no match from `begin` ends later and the rest of the text begins no keyword |
| Masking.LeftKeywords | src/main/java/com/nowcoder/community/util/SensitiveFilter.java:84-92 | a span that begins with a word leading out of every keyword leads out of every keyword and is not a keyword |
| Masking.StripSliceGrows | src/main/java/com/nowcoder/community/util/SensitiveFilter.java:72-84 | the word followed from `begin` only grows as `position` advances |
| Masking.ScanMismatch | src/main/java/com/nowcoder/community/util/SensitiveFilter.java:85-91 | a mismatch after an open match: the decision at `begin` keeps exactly text[begin] and resumes at begin + 1 |
| Masking.ScanMatch | src/main/java/com/nowcoder/community/util/SensitiveFilter.java:93-99 | a keyword completed at `position`: the decision at `begin` masks the whole span text[begin..position], symbols included, and resumes after it |
| Masking.ScanUnfinished | src/main/java/com/nowcoder/community/util/SensitiveFilter.java:106 | a match still open at the end of the text: the decision keeps text[begin..] unmasked |
| Masking.FollowingExtend | src/main/java/com/nowcoder/community/util/SensitiveFilter.java:101-104 | a character that continues a keyword without completing one keeps the match open |
| Masking.ProgressSymbolAtStart | src/main/java/com/nowcoder/community/util/SensitiveFilter.java:76-79 | echoing a symbol while no match is open keeps written-so-far plus remaining output equal to the whole output |
| Masking.ProgressSymbolInside | src/main/java/com/nowcoder/community/util/SensitiveFilter.java:75-81 | skipping a symbol inside a match keeps the output relation |
| Masking.ProgressMismatch | src/main/java/com/nowcoder/community/util/SensitiveFilter.java:85-91 | appending text[begin] and restarting at begin + 1 keeps the output relation |
| Masking.ProgressMatch | src/main/java/com/nowcoder/community/util/SensitiveFilter.java:93-99 | appending "***" and restarting after `position` keeps the output relation |
| Masking.ProgressExtend | src/main/java/com/nowcoder/community/util/SensitiveFilter.java:101-104 | advancing `position` on a keyword prefix keeps the output relation |
| Masking.ProgressEnd | src/main/java/com/nowcoder/community/util/SensitiveFilter.java:106 | after the last character, `sb` plus text[begin..] is the whole output |
| Properties.RenderUnmasked | src/main/java/com/nowcoder/community/util/SensitiveFilter.java:76-91 | without masked pieces, the output is exactly the text the pieces were cut from |
| Properties.PassThrough | src/main/java/com/nowcoder/community/util/SensitiveFilter.java:72-106 | when no keyword match (symbols skipped) starts anywhere in the text, no span is masked and the output equals the input |
| Properties.UnmaskedUnchanged | src/main/java/com/nowcoder/community/util/SensitiveFilter.java:72-106 | whenever no keyword-end node is reached, so that no span is masked, the output equals the input; this also covers a keyword hidden inside a match still open at the end |
| Properties.NoKeywordsNoChange | src/main/java/com/nowcoder/community/util/SensitiveFilter.java:60-108 | with no keyword loaded, the output of any text is the text itself |
| Properties.NextMasked | src/main/java/com/nowcoder/community/util/SensitiveFilter.java:93-99 | a masked span is the shortest keyword match from its start |
| Properties.FirstMatchShortest | src/main/java/com/nowcoder/community/util/SensitiveFilter.java:93-99 | a match from `begin` that no earlier match precedes starts and ends on a non-symbol, spells a keyword, and no shorter span from `begin` does |
| Properties.ScanMaskedSpans | src/main/java/com/nowcoder/community/util/SensitiveFilter.java:93-99 | every masked span of the output spells a loaded keyword and is the shortest keyword match from its start |
| Properties.SymbolKeywordsNeverMasked | src/main/java/com/nowcoder/community/util/SensitiveFilter.java:75-84 | a loaded keyword that contains a symbol is never the word of a masked span |
| Properties.NextRest | src/main/java/com/nowcoder/community/util/SensitiveFilter.java:106 | an unmasked remainder runs to the end of the text, starts on a non-symbol, begins a keyword, and contains no completed keyword |
| Properties.ScanRest | src/main/java/com/nowcoder/community/util/SensitiveFilter.java:106 | an unmasked remainder is the last piece of the output and is a match still open at the end |
| Properties.RenderLength | src/main/java/com/nowcoder/community/util/SensitiveFilter.java:95 | every masked span gives up its length and writes three characters instead |
| Properties.OutputLength | src/main/java/com/nowcoder/community/util/SensitiveFilter.java:95 | output length = input length − total length of masked spans + 3 × number of masked spans |
| Properties.OutputKept | src/main/java/com/nowcoder/community/util/SensitiveFilter.java:85-91 | on a mismatch, the output from `begin` is text[begin] followed by the output of a scan restarted at begin + 1 |
| Properties.OutputMasked | src/main/java/com/nowcoder/community/util/SensitiveFilter.java:93-99 | on a keyword end, the output from `begin` is "***", whatever the span's length, followed by the output after the span |
| Properties.OutputOpen | src/main/java/com/nowcoder/community/util/SensitiveFilter.java:106 | a match still open at the end of the text is written out unmasked |
| Properties.FollowingSkip | src/main/java/com/nowcoder/community/util/SensitiveFilter.java:75-81 | a symbol inside an open match leaves the match open |
| Examples.ShortestKeywordWins | src/main/java/com/nowcoder/community/util/SensitiveFilter.java:93-99 | keywords {"ab", "abc"} on "abc" give "***c" |
| Examples.SymbolsInsideMatchMasked | src/main/java/com/nowcoder/community/util/SensitiveFilter.java:75-99 | keywords {"bad"} on "b-a-d" give "***" |
| Examples.MaskedTextNotRescanned | src/main/java/com/nowcoder/community/util/SensitiveFilter.java:93-99 | keywords {"ab", "bc"} on "abc" give "***c" |
| Examples.MismatchRestartsOneFurther | src/main/java/com/nowcoder/community/util/SensitiveFilter.java:85-99 | keywords {"abd", "bc"} on "abc" give "a***" |
| Examples.OpenMatchAtEndKept | src/main/java/com/nowcoder/community/util/SensitiveFilter.java:106 | keywords {"bad"} on "ba" give "ba" |
| Examples.OpenMatchHidesKeyword | src/main/java/com/nowcoder/community/util/SensitiveFilter.java:106 | keywords {"abc", "b"} on "ab" give "ab", although the keyword "b" ends at position 1 |
| Scenarios.LoadThenFilter | src/main/java/com/nowcoder/community/util/SensitiveFilter.java:43-108 | a filter object loaded with "ab" and "abc" filters "abc" to "***c" |
| Scenarios.AddKeywordTwice | src/main/java/com/nowcoder/community/util/SensitiveFilter.java:43-58 | adding the same word a second time leaves the flags and edges exactly as the first time left them, and the keywords grow by the word once |
| Scenarios.EmptyFilter | src/main/java/com/nowcoder/community/util/SensitiveFilter.java:60-108 | a filter with no keyword returns null for a blank text and any other text unchanged |

## Left out

- `init` reads the word list from a classpath resource line by line, and
  catches and logs an `IOException`. That is I/O, so it is not modelled.
  `LoadKeywords` takes the lines as a sequence and adds them in order.
- The Spring annotations `@Component` and `@PostConstruct`, and the SLF4J
  logger, are left out. They carry no logic.
- `HashMap` is modelled as a Dafny `map`. Hashing and iteration order play no
  part in the engine.
- Java object identity of nodes is not modelled. Nodes are indices into an
  arena, and `tempNode == rootNode` is modelled as `node == 0`.
- `Character.isWhitespace` is not modelled by calling Java. It is written out
  as an explicit set of code units, following the Unicode data of current
  JDKs. Java 8 also counts U+180E, which this model does not.
  `StringUtils.isBlank` is then "null, or every unit is whitespace".
- Characters are UTF-16 code units, exactly as Java's `char`. Symbols are
  classified per unit, so a surrogate pair gives two symbols.
- There is no concurrency between loading and filtering. The source has
  none, and none is modelled.
- Running time is not modelled. The restart at `begin + 1` makes the worst
  case quadratic; only termination is proved.
- A text with no keyword as a substring can still change: the code skips
  symbols inside a match, so keywords {"bad"} on "b-a-d" give "***".
  `Properties.PassThrough` therefore requires that no symbol-skipping match
  (`Masking.MatchesAt`) exists, and `Examples.SymbolsInsideMatchMasked` shows
  the case. `Properties.UnmaskedUnchanged` states pass-through on the output
  itself: no masked span means the text is unchanged.
- A match still open at the end of the text hides any keyword that starts
  inside it. The code does not rescan from `begin + 1` after the loop.
  Keywords {"abc", "b"} on "ab" give "ab". The model reproduces this
  behaviour (`Examples.OpenMatchHidesKeyword`, `Properties.ScanRest`) rather
  than correcting it.
