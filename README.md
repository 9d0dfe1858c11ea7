# toc_to_html in Dafny

`tools/toc_to_html.py` turns an indented plain-text outline into a nested
HTML table of contents. Each input line is one entry. Its level is its
number of leading spaces divided by four, and its name is the rest of the
line with surrounding whitespace stripped. The output is a list of lines:
- a header `<ul class="toc no-parts">`;
- for every entry, a `<li>` line, a name line and a `</li>` line;
- a `<ul>` … `</ul>` pair around the children of an entry;
- a footer `</ul>`.

Every line inside the outer list is indented by two spaces per level.

The model has three modules:

- `Outline` (`outline.dfy`) covers `Node`, the input constant 4 and `parse`.
  - `ParseSpec` is the function that `Parse`, a method with the source's
    `for` loop, is proved against.
  - `lstrip(" ")` is `LeadingSpaces`, which counts only `' '`.
  - `strip()` is `Strip`, built on `IsWhitespace`. `IsWhitespace` is the
    `str.isspace` set, listed by code point.
- `Toc` (`toc.dfy`) covers the output constant 2, `dump` and `convert`.
  - The caller-owned list `html` is a class `Html` whose `lines` field the
    methods append to.
  - A ghost token list beside `lines` records the role of every line:
    header, footer, item open, name, item close, sublist open or close.
    Properties are therefore stated about roles, not by matching text. A
    name such as `<li>` cannot be mistaken for a marker.
  - `Dump` keeps the source's `while` loop, cursor and recursive call. It is
    proved against `DumpSpec`, whose loop is the pair of functions
    `Siblings` and `AfterChildren`. Those functions take the buffer as
    input, as the source does.
- `TocProperties` (`toc_properties.dfy`) proves what the output promises:
  - markers nest properly, each close at the indentation of its open;
  - each node has one `<li>`/`</li>` pair, and the sublist markers balance;
  - the names appear in input order at their levels;
  - each line is indented by twice its level;
  - `convert` succeeds on exactly the outlines that `ValidOutline`
    describes.

Each Python `assert`, and the `IndexError` that an empty outline raises, is
an `Err` result naming the offending line or node:
- `MalformedIndentation` comes from line 25.
- `MissingNode` comes from reading `nodes[begin]` past the end, at line 35
  on an empty outline.
- `LevelMismatch` comes from line 35.
- `DepthJump` comes from line 52.

On failure, `Convert` returns no output. `Dump` leaves in the buffer what it
had appended before failing, as the source does.

`convert` does not guard against an empty outline: `dump` reads `nodes[0]`
at line 35 and raises `IndexError`. The model returns `MissingNode(0)`
(`TocProperties.EmptyRejected`).

## Model

| member | source | states |
|---|---|---|
| Outline.IsWhitespace | tools/toc_to_html.py:28 | defines the characters `strip()` removes; the space and `\t` through `\r` are among them, and no printable ASCII character other than the space is |
| Outline.TrimStart | tools/toc_to_html.py:28 | defines removal of the longest whitespace prefix; the result is never longer than the input (TrimStartFacts and TrimStartAt characterise it) |
| Outline.TrimEnd | tools/toc_to_html.py:28 | defines removal of the longest whitespace suffix; the result is never longer than the input (TrimEndFacts and TrimEndAt characterise it) |
| Outline.Strip | tools/toc_to_html.py:28 | defines `strip()` as both removals; the result is no longer than the input and neither starts nor ends with whitespace |
| Outline.LeadingSpaces | tools/toc_to_html.py:21-24 | the count is the number of `' '` characters before the first character that is not a space; a tab does not count |
| Outline.LeadingSpacesUnique | tools/toc_to_html.py:21-24 | any n with n spaces in front of a non-space (or of the end) is that count |
| Outline.TrimStartFacts | tools/toc_to_html.py:28 | removing leading whitespace drops a whitespace-only prefix and leaves no leading whitespace |
| Outline.TrimEndFacts | tools/toc_to_html.py:28 | removing trailing whitespace drops a whitespace-only suffix and leaves no trailing whitespace |
| Outline.TrimStartAt | tools/toc_to_html.py:28 | leading whitespace removal stops exactly at the first non-whitespace character |
| Outline.TrimEndAt | tools/toc_to_html.py:28 | trailing whitespace removal stops exactly after the last non-whitespace character |
| Outline.StripKeepsCore | tools/toc_to_html.py:28 | `strip()` yields the text from the first to the last non-whitespace character, so a trailing newline is removed |
| Outline.StripEmptyIffBlank | tools/toc_to_html.py:28 | the name is empty exactly when the line is all whitespace |
| Outline.ParseLine | tools/toc_to_html.py:21-28 | defines the node of one line; a failure is MalformedIndentation at that line, and a parsed name fits in the line after its indentation and has no surrounding whitespace |
| Outline.ParseLineMeaning | tools/toc_to_html.py:21-28 | a line fails exactly when its space count is not a multiple of 4; otherwise level * 4 is that count and the name is the rest of the line stripped |
| Outline.ParseSpec | tools/toc_to_html.py:16-30 | defines `parse` as its loop builds the list; a result holds one node per line, and a failure is MalformedIndentation at a line of the input |
| Outline.ParseSpecOk | tools/toc_to_html.py:16-30 | parsing succeeds exactly when every line is well indented, and then yields one node per line, in order, with no line dropped |
| Outline.ParseSpecErr | tools/toc_to_html.py:19-25 | a failure is MalformedIndentation naming the first line that fails, all earlier lines being well indented |
| Outline.ParseSpecErrSticks | tools/toc_to_html.py:19-25 | once a prefix of the input fails, the whole input fails with the same error |
| Outline.Parse | tools/toc_to_html.py:16-30 | the loop returns what ParseSpec describes, stopping at the first malformed line |
| Outline.BlankLineKept | tools/toc_to_html.py:28 | a blank line becomes a node with an empty name at level 0 |
| Outline.IndentedLine | tools/toc_to_html.py:21-28 | `"    b\n"` becomes node `b` at level 1 |
| Outline.TabIsNotIndentation | tools/toc_to_html.py:21-28 | `"\tb"` stays at level 0 and its name is `b` |
| Outline.MisIndentedLine | tools/toc_to_html.py:25 | a line with three leading spaces fails with MalformedIndentation at its index |
| Toc.Spaces | tools/toc_to_html.py:36 | the prefix is exactly n space characters |
| Toc.Indent | tools/toc_to_html.py:36 | defines the prefix of a level: exactly 2 * level spaces |
| Toc.Render | tools/toc_to_html.py:40-57 | defines the text of each line kind; every line inside the outer list starts with its level's prefix, and a name line holds the name verbatim after it |
| Toc.RenderAll | tools/toc_to_html.py:40-57 | the buffer has one line per token, each the rendering of its token |
| Toc.Siblings | tools/toc_to_html.py:38-59 | defines the loop; its returned cursor lies within the range and is past the first node when the range is not empty, and its only failure is DepthJump at a later node of the range |
| Toc.AfterChildren | tools/toc_to_html.py:50-57 | defines the end of one iteration; the cursor never moves back, and its only failure is DepthJump at the cursor or later |
| Toc.DumpSpec | tools/toc_to_html.py:33-35 | defines `dump`: on success the first node is at the requested level and the cursor is within the range; a failure is MissingNode past the end, LevelMismatch at the first node, or DepthJump at a later node of the range |
| Toc.Html.constructor | tools/toc_to_html.py:63 | the buffer starts empty |
| Toc.Html.Emit | tools/toc_to_html.py:40 | `append` adds exactly one line at the end and changes nothing else |
| Toc.Dump | tools/toc_to_html.py:33-59 | the buffer ends as DumpSpec says and the result is its cursor or its failure |
| Toc.TocTokens | tools/toc_to_html.py:63-74 | defines the line roles of `convert`'s output; success needs a first node at level 0; failures are MissingNode(0) only for no nodes, LevelMismatch(0), or DepthJump at a later node |
| Toc.ConvertSpec | tools/toc_to_html.py:61-74 | defines `convert`; a parse failure is passed on unchanged, and every failure names a line of the input, except MissingNode for an empty input |
| Toc.Convert | tools/toc_to_html.py:61-74 | the result is ConvertSpec of the input: the lines of TocTokens for the parsed outline, or the first failure |
| TocProperties.SiblingsKeepsPrefix | tools/toc_to_html.py:38-59 | dump only appends: the old buffer is a prefix of the new one |
| TocProperties.SiblingsStops | tools/toc_to_html.py:51-56 | a run of siblings stops at the end or at the first node shallower than its level, and consumes only nodes at least that deep |
| TocProperties.AfterStops | tools/toc_to_html.py:51-57 | the same for the end of one iteration |
| TocProperties.DumpReturns | tools/toc_to_html.py:33-59 | dump returns r with begin < r <= end for a non-empty range; r < end implies nodes[r] is shallower than the level; at level 0 it consumes the whole range |
| TocProperties.SiblingsCounts | tools/toc_to_html.py:40-57 | every node consumed adds one `<li>` and exactly one `</li>`; sublist opens and closes are added in equal numbers |
| TocProperties.SublistCounts | tools/toc_to_html.py:44-49 | the same for a node with a sublist, whose `<ul>` and `</ul>` are one pair |
| TocProperties.LeafCounts | tools/toc_to_html.py:53-57 | the same for a node without a sublist; the early exit at line 55 replaces the close at line 57 |
| TocProperties.AfterCounts | tools/toc_to_html.py:53-57 | one iteration's end adds exactly one `</li>` for the current node |
| TocProperties.SiblingsEntries | tools/toc_to_html.py:41 | the name lines added are the consumed nodes, in order, each at its own level |
| TocProperties.SublistEntries | tools/toc_to_html.py:41-49 | the same for a node with a sublist: its name comes before its children's |
| TocProperties.AfterEntries | tools/toc_to_html.py:51-57 | the same for the rest of the loop after one item |
| TocProperties.ItemHeadScan | tools/toc_to_html.py:40-41 | an item's `<li>` and name line leave that item open and named |
| TocProperties.SiblingsNested | tools/toc_to_html.py:38-59 | inside a list that may hold the level, the added lines nest properly and close everything they open, each close at its open's indentation |
| TocProperties.SublistNested | tools/toc_to_html.py:44-49 | the same for a node with a sublist: the sublist sits inside the item, with `<ul>`/`</ul>` at the parent's indentation |
| TocProperties.AfterNested | tools/toc_to_html.py:51-57 | closing the item returns to the enclosing list |
| TocProperties.SiblingsSucceeds | tools/toc_to_html.py:44-57 | if every later node in the range is placeable, the loop does not fail |
| TocProperties.AfterSucceeds | tools/toc_to_html.py:51-57 | the end of an iteration does not fail when the next node is not deeper than the level |
| TocProperties.SiblingsPlaceable | tools/toc_to_html.py:44-57 | every node a successful run consumes after its first is placeable |
| TocProperties.AfterPlaceable | tools/toc_to_html.py:51-57 | every node that the rest of a successful loop consumes, from the cursor on, is placeable |
| TocProperties.TocTokensOkIff | tools/toc_to_html.py:61-74 | the top-level dump succeeds exactly on a valid outline: non-empty, first node at level 0, and each later node deeper than its predecessor or at the level of an earlier sibling |
| TocProperties.TocTokensFramed | tools/toc_to_html.py:66-72 | the output starts with the header and ends with the footer |
| TocProperties.TocTokensNested | tools/toc_to_html.py:61-74 | all markers of the output nest properly and none is left open |
| TocProperties.TocTokensCounts | tools/toc_to_html.py:61-74 | the output has one `<li>` and one `</li>` per node and as many `<ul>` as `</ul>` inside the outer list |
| TocProperties.TocTokensEntries | tools/toc_to_html.py:61-74 | the name lines of the output are exactly the nodes, in input order, each at its level |
| TocProperties.ConvertOkIff | tools/toc_to_html.py:61-74 | convert succeeds exactly when parsing succeeds and the parsed outline is valid |
| TocProperties.ConvertShape | tools/toc_to_html.py:61-74 | a successful output starts with `<ul class="toc no-parts">` and ends with `</ul>`, and its k-th name line shows the k-th input line's node |
| TocProperties.RenderIndent | tools/toc_to_html.py:36 | reading back a marker or name line's leading spaces gives 2 * its level, provided a name line's name does not start with `' '` (a parsed name never does) |
| TocProperties.ConvertIndentation | tools/toc_to_html.py:36-57 | every output line inside the outer list is indented by exactly 2 spaces per level |
| TocProperties.DepthJumpRejected | tools/toc_to_html.py:44-52 | depths [0, 2, 1] fail with DepthJump at node 2 |
| TocProperties.SkippedLevelAccepted | tools/toc_to_html.py:44-49 | depths [0, 2] are accepted, the sublist rendered at depth 2 |
| TocProperties.SiblingSublist | tools/toc_to_html.py:51-57 | depths [0, 1, 1] put two items in one sublist |
| TocProperties.BackToTop | tools/toc_to_html.py:53-56 | depths [0, 1, 0] close the sublist and the parent item before the next top-level item |
| TocProperties.EmptyRejected | tools/toc_to_html.py:35 | an empty outline fails reading node 0 |
| TocProperties.IndentedFirstRejected | tools/toc_to_html.py:35 | an outline whose first node is at level 1 fails the level check |

## Left out

- `main` is not modelled: argument checking, the usage message, reading the file with `readlines` and writing the lines joined by newlines are I/O.
- Python's `-O` flag, which removes `assert` statements, is not modelled. Each assertion is always a failure.
- Exceptions are `Err` values. The model does not distinguish `AssertionError` from `IndexError` beyond the four error kinds.
- Python's recursion limit is not modelled. Very deep outlines would raise `RecursionError` in the source.
- Toc.Dump: requires begin <= end <= |nodes|. Every call in the source satisfies this; other arguments, which the source never passes, are not modelled.
- Strings are sequences of Unicode code points, as in Python 3. The whitespace set follows `str.isspace` as a fixed list of code points; no Unicode database is consulted.
- `Node` is a value (a datatype); the source never changes a node after building it.
