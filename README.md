# jquery.readmore in Dafny

A model of the jQuery plugin `jquery.readmore`. The plugin shortens a
container to a summary and adds a "Read more" link. It works on each root
element in three steps:

1. It marks the elements inside the root with a class. It then cuts every
   non-blank text child of a marked element whose tag is not in
   `ignore_children` into chunk spans, one span after each delimiter
   character.
2. It hides the marked targets from the last one backwards while the
   container is too tall.
3. If it hid anything, it attaches a link. Clicking the link shows the
   hidden targets again and removes the link.

The modules follow that structure:

- `Seqs`: sequence helpers (`Range`, `Filter` as jQuery's `.filter`, `SetOf`).
- `Settings`: the options and their defaults.
- `TextChunks`: the split of one text at the delimiters, and `$.trim`.
- `Dom`: the page.
  - Nodes are stored in document order, each pointing at its parent.
  - A target is an element or a chunk span.
  - `Dom.IsHidden` is jQuery's `:hidden`: the target was hidden itself, or
    sits inside a hidden element.
- `Filters`: the two element filters, `skipElement` and `skipElementByParents`.
- `Marking`: what `markForHiding` marks and splits, stated as predicates.
- `Hiding`: the hide test, and `Cut`, the point where the countdown loop stops.
- `Readmore`: class `Page`.
  - The node structure is fixed.
  - The fields hold what the plugin changes: marked elements, split
    texts, hidden targets and attached links.
  - The methods are the plugin's operations, each proved against the
    functions above.

## Model

| member | source | states |
|---|---|---|
| TextChunks.SpanTexts | jquery.readmore.js:141 | The global replace as a list of span contents: there is always at least one span. SpanTextsConcat, SpanTextsCount and SpanTextsShape state what the spans are. |
| TextChunks.RemoveFirstEmpty | jquery.readmore.js:142 | The non-global replace: when some span is empty exactly one span is dropped, when none is the list is unchanged, and every remaining span was in the input. |
| TextChunks.Split | jquery.readmore.js:141-142 | The two replaces together: every chunk is one of the spans of the global replace. SplitLossless, SplitShape and SplitCount state what the chunks are. |
| TextChunks.SplitLossless | jquery.readmore.js:141-142 | Concatenating the chunks of a text gives back the text, character for character. |
| TextChunks.SplitShape | jquery.readmore.js:141-142 | Every chunk is non-empty. Every chunk but the last ends with a delimiter and holds no other delimiter. The last chunk holds at most one delimiter, and only as its final character. |
| TextChunks.SplitCount | jquery.readmore.js:141-142 | There is one chunk per delimiter, plus one more when the text is non-empty and does not end with a delimiter. |
| TextChunks.SplitDropsOnlyTrailing | jquery.readmore.js:142 | The replace of the empty span markup only ever removes the trailing empty span, which exists exactly when the text is empty or ends with a delimiter. |
| TextChunks.RemoveFirstEmptyDropsTrailing | jquery.readmore.js:142 | If only the last span can be empty, removing the first empty span removes that last one, and nothing else. |
| TextChunks.SpanTextsConcat | jquery.readmore.js:141 | After the global replace, the span contents concatenate back to the text. |
| TextChunks.SpanTextsCount | jquery.readmore.js:141 | The global replace makes one span per delimiter, plus one. |
| TextChunks.SpanTextsShape | jquery.readmore.js:141 | After the global replace, there is one span per delimiter plus one, and the spans concatenate back to the text. Every span but the last ends with a delimiter and holds no other delimiter. The last span holds no delimiter, and it is empty exactly when the text is empty or ends with a delimiter. |
| TextChunks.SplitWithoutDelimiter | jquery.readmore.js:141-142 | A non-empty text without delimiters becomes one span holding the whole text. |
| TextChunks.SplitNonEmpty | jquery.readmore.js:141-142 | A non-empty text always yields at least one chunk. |
| TextChunks.SplitExample | jquery.readmore.js:48 | With the default delimiters, "A.B,C-D" is cut into "A.", "B,", "C-", "D". |
| TextChunks.SplitKeepsTrailingWhitespace | jquery.readmore.js:137-142 | The split works on the untrimmed text. "Done. " yields "Done." and a whitespace-only chunk " ". |
| TextChunks.Trim | jquery.readmore.js:137 | `$.trim` gives a result no longer than its input that neither starts nor ends with whitespace. |
| TextChunks.TrimEmptyIffBlank | jquery.readmore.js:137 | `$.trim` of a text is empty exactly when every character is whitespace. |
| Filters.Join | jquery.readmore.js:105 | `join()` of a non-empty list starts with its first entry. MemberOccursInJoin states that every entry occurs in it. |
| Filters.IndexOf | jquery.readmore.js:109 | `indexOf` returns a non-negative index exactly when the needle occurs, and that index is the first occurrence. |
| Filters.MemberOccursInJoin | jquery.readmore.js:105 | Every entry of a list occurs in the list joined with commas. |
| Filters.SkipElement | jquery.readmore.js:92-98 | Keeps an element exactly when neither its own tag nor the tag of one of its child elements is in `skip_elements`. |
| Filters.ParentsWalkFindsIgnoredAncestor | jquery.readmore.js:107-112 | The walk over the ancestors sets the flag exactly when some ancestor's tag occurs as a substring of the joined list. The walk goes up to the top of the document. |
| Filters.SkipElementByParents | jquery.readmore.js:101-114 | Keeps an element exactly when no ancestor, up to the top of the document, has a tag occurring in `ignore_children.join()`. |
| Filters.DefaultIgnoreMatchesSubstrings | jquery.readmore.js:105-109 | With the default list, the tags "tr" and "s" count as ignored, because they are substrings of "strong". |
| Dom.AncestorBefore | jquery.readmore.js:107 | Every ancestor comes earlier in document order and is an element. |
| Dom.DescendantTargets | jquery.readmore.js:78 | `find('*')` returns only targets strictly inside the element, later in document order. |
| Dom.DescendantTargetsExact | jquery.readmore.js:78 | `find('*')` returns every element and chunk span inside the element, and nothing else. |
| Dom.Descendants | jquery.readmore.js:78 | The descendants of a target all lie strictly inside it; a chunk span has none. |
| Dom.TargetsFromInOrder | jquery.readmore.js:69 | The targets are returned in document order: by node, and the chunk spans of one text by their position. |
| Seqs.FilterKeepsOrder | jquery.readmore.js:128-131 | `.filter` keeps its survivors in their original relative order. |
| Dom.AncestorHiddenIffHiddenAncestor | jquery.readmore.js:79 | A node is inside a hidden element exactly when one of its ancestors was hidden. |
| Dom.MarkedTargets | jquery.readmore.js:69 | `find('.' + classname)` returns only targets inside the root that are marked elements or chunk spans. |
| Dom.MarkedTargetsExact | jquery.readmore.js:69 | `find('.' + classname)` returns exactly the marked elements and chunk spans inside the root, in document order. |
| Dom.IsHidden | jquery.readmore.js:79 | `:hidden` holds exactly when the target was hidden itself or some ancestor element was hidden. |
| Marking.FilteredElements | jquery.readmore.js:120-133 | The elements that receive the class are exactly the elements inside the root that pass each filter whose list is non-empty. |
| Marking.ContentsOf | jquery.readmore.js:134 | `all.contents()` holds exactly the child nodes of the given elements. |
| Marking.Replaces | jquery.readmore.js:135-140 | The callback accepts a node exactly when it is a text that is not all whitespace and whose parent's tag is not in `ignore_children`. |
| Marking.ChunksForKeys | jquery.readmore.js:134-145 | After the callbacks over a list of nodes, the replaced texts are exactly the accepted nodes of the list, each with the chunks of its own text. |
| Marking.AnyReplacesWitness | jquery.readmore.js:125-144 | The `marked` flag is set after the callbacks exactly when some node of the list was accepted. |
| Marking.ContentsPassSplitsTexts | jquery.readmore.js:134-145 | Over the contents of the marked elements, the callback replaces exactly the non-blank texts whose parent's tag is not in `ignore_children`. It replaces them with their chunks, and it sets the flag exactly when it replaced one. |
| Marking.IgnoredSubtreeKeptWhole | jquery.readmore.js:101-114 | Nothing strictly below an element whose tag is in `ignore_children` is marked or split. |
| Marking.IgnoredRootMarksNothing | jquery.readmore.js:107 | Since the ancestor walk is unbounded, a root whose own tag occurs in the joined list marks nothing and splits nothing. |
| Marking.TableRowQuirk | jquery.readmore.js:105-109 | With the default options, nothing below a `tr` element is ever marked. |
| Marking.SplitsBelowMarkedElement | jquery.readmore.js:133-140 | A split text is a child of a marked element, never a direct child of the root. |
| Hiding.HideCondition | jquery.readmore.js:80 | The test never holds at or below `minheight`, and always holds above both bounds. Its zero-height clause can only fire when `minheight` is negative, and at height 0 above `minheight` it always holds. Between the bounds and at a non-zero height, it holds only when all descendants are hidden. |
| Hiding.CountsAllHidden | jquery.readmore.js:78-79 | Counting descendants and `:hidden` descendants gives true exactly when the target has element descendants and all of them are `:hidden`. |
| Hiding.SpanNeverFullyCollapsed | jquery.readmore.js:78-79 | A chunk span has no element descendants, so only the height clauses can hide it. |
| Hiding.Cut | jquery.readmore.js:76-87 | The loop stops at an index no greater than its start, so it runs at most `chunks.length` times. |
| Hiding.CutHidesSuffix | jquery.readmore.js:76-83 | Each hidden target passed the test against the height with every later target hidden. |
| Hiding.CutStopsAtFailure | jquery.readmore.js:80-86 | The first target kept, if any, failed the test, and the loop broke there. |
| Hiding.CutCharacterized | jquery.readmore.js:76-87 | The loop hides a suffix of the marked targets, last first. The height before each hide was above `minheight`. The loop stops at the first target that fails the test. |
| Hiding.StopsAtMinHeight | jquery.readmore.js:80 | At or below `minheight`, nothing is hidden. |
| Hiding.FiveChunkExample | jquery.readmore.js:68-89 | The container starts at 300 and each hidden chunk removes 60, with bounds 50 and 200. The loop hides two of five chunks and stops at 180. |
| Hiding.ShowingChunksUndoesCut | jquery.readmore.js:60 | Set identity behind `Readmore.Page.ReadmoreThenClick`: removing the root's marked targets from what the hide loop produced gives back the hidden set from before the loop, provided none of those targets was hidden before it. |
| Readmore.Page.Chunks | jquery.readmore.js:69 | The targets the loop walks are exactly the marked elements and chunk spans inside the root, in document order. |
| Readmore.Page.MarkForHiding | jquery.readmore.js:117-148 | It marks exactly the filtered elements and replaces exactly the texts the callback accepts, with their chunks. It returns true exactly when it split some text. Nothing is hidden and no link is attached. |
| Readmore.Page.ReplaceText | jquery.readmore.js:135-145 | One callback call replaces node c by its chunks exactly when it accepts c, and answers whether it did. Nothing else changes. |
| Readmore.Page.ReplaceTexts | jquery.readmore.js:134-147 | The `contents().each` loop adds the chunks of each accepted text. Its flag is true exactly when some content was accepted. |
| Readmore.Page.HideElements | jquery.readmore.js:68-89 | It hides exactly the suffix of the marked targets that `Cut` names, on top of what was already hidden. It returns true exactly when that suffix is non-empty. |
| Readmore.Page.CreateReadMoreLink | jquery.readmore.js:55-57 | A link is attached to the root, and nothing else changes. |
| Readmore.Page.ClickReadMore | jquery.readmore.js:57-63 | A click removes the root's link and shows every marked target of the root again. |
| Readmore.Page.ReadmoreThenClick | jquery.readmore.js:150-166 | Suppose nothing inside the root was hidden beforehand. Running the plugin on the root and then clicking its link, if it got one, leaves the hidden set as it was. The link is gone, and the marks and splits stay. |
| Readmore.Page.Readmore | jquery.readmore.js:150-166 | Marking always runs. Hiding runs only when marking split a text. The link is attached exactly when marking split a text and hiding hid something. |

## Left out

- HTML parsing of the span string (l.141-143) is not modelled. A text that holds markup characters would be re-parsed as HTML by `$(txt)`. The model replaces the text node by spans holding the chunk texts verbatim.
- `split_using` is modelled as a set of single delimiter characters, as the default pattern at l.48 is. A pattern whose match is longer than its capture group would drop characters, and that is not modelled.
- Option merging with `$.extend` (l.42-51) and the iteration of `this.each` over several roots are not modelled. The pipeline is modelled for one root, with the options given as a value.
- `hide_me_classname` is modelled as a "carries the marker class" flag, and `readmore_link` as the presence of a control. The model assumes that nothing else on the page carries the class.
- Layout is not modelled. `outerHeight` is a function from the set of hidden targets to an integer, given as a parameter. `:hidden` is taken to mean "hidden itself or inside a hidden element".
- The 600 ms opacity animation, the click binding and `preventDefault` (l.57-62) are not modelled.
- Readmore.Page.ClickReadMore states only the end state. The animation's toggle is taken to show every target that is `:hidden`.
- The callback passed to `createReadMoreLink` (l.163-165) sets a `didhide` flag that is never read again, so it has no effect and is not modelled.
- Running the plugin twice on the same root is not modelled. It would nest new spans inside existing chunk spans, while the model keeps one list of chunks per text node.
- `skip_elements` and `ignore_children` entries are assumed to be lower-case tag names. `children(selector)` is modelled as a match on the tag, not as general selector matching.
- The split works on the untrimmed text, so whitespace-only chunks can occur.
- `markForHiding` returns true only when some text was split. Marking elements alone does not make it return true.
- The ancestor test has no upper bound, because the `$this` at l.41 is never assigned. It also matches substrings of the joined list.
- With a container height of 300 less 60 per hidden chunk and bounds 50 and 200, the loop stops at 180, because 180 is within the bounds and a chunk span has no descendants.
