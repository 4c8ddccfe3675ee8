# Subword cursor navigation, modelled in Dafny

This project models the navigation engine of the karmchenki-subword editor extension.
The engine moves, extends and deletes selections one *subword* at a time. A subword is a
camelCase hump or a run of digits, underscores or hyphens. At the edge of a word the
cursor skips separators instead. A `#`-prefixed hexadecimal colour literal is never split.

The document is a string with LF line endings. A position is an offset `0..|doc|`. The
host's reads become functions on that string:

- the text of a range;
- the character left or right of an offset (empty past either end of the document);
- the column-0 test (offset 0, or just after a line break).

Modules, one per component:

- `Classify` (`classify.dfy`): word characters, hexadecimal digits, and the upper-case and digit tables.
- `Buffer` (`buffer.dfy`): ranges and the character reads.
- `WordExtent` (`word_extent.dfy`): the outward word scan and `extend_to_word`.
- `Separators` (`separators.dfy`): the separator-run skip. It also holds the as-written leftward skip (see Findings).
- `Subword` (`subword.dfy`): the breakpoint rule and the two position moves.
- `CursorOps` (`cursor_ops.dfy`): selections, the inverted/non-inverted predicates, and an `Editor` class whose methods replace its selection list.

Each loop of the source is a method with its loop. Each method is proved equal to a
specification function: `WordStart`/`WordEnd`, `SkipLeft`/`SkipRight`,
`SubwordLeft`/`SubwordRight`. The properties the source promises are stated on those
functions and in lemmas about them.

## Model

| member | source | states |
|---|---|---|
| `Classify.IsAsciiWordChar` | src/extension.ts:9-15 | the code-range test accepts exactly ASCII digits, ASCII letters, `-` and `_` |
| `Classify.AlphanumericEmpty` | src/extension.ts:6 | the empty string is never a word character |
| `Classify.AlphanumericSingle` | src/extension.ts:5-18 | on one character, the string test is exactly "ASCII word character or one of the extras" |
| `Classify.AlphanumericWithoutExtras` | src/extension.ts:5-18 | without extras, a string passes iff it is non-empty and all of it is ASCII word characters |
| `Classify.AlphanumericStopsAtFirstExtra` | src/extension.ts:8 | a string whose first character is an extra passes whatever follows (the early `true`) |
| `Classify.IsAlphanumeric` | src/extension.ts:5-18 | the index loop with early returns computes `Alphanumeric` |
| `Classify.HexDigitTable` | src/extension.ts:87 | membership in the table `0123456789abcdefABCDEF` is exactly `IsHexDigit`: `0`-`9`, `a`-`f` or `A`-`F` |
| `Classify.IsHexadecimalString` | src/extension.ts:85-90 | the loop answers whether every character is a hex digit |
| `Classify.UpperTable` | src/extension.ts:92 | membership in `UPPERS` is exactly `IsUpper`: `A`-`Z` plus the eight accented capitals |
| `Classify.DigitTable` | src/extension.ts:93 | membership in `NUMBERS` is exactly `IsDigit`: `0`-`9` |
| `Classify.UpperWordCharsAreAscii` | src/extension.ts:92 | an upper-case letter that is a word character is ASCII, so accented capitals never occur inside a word |
| `Buffer.TextOf` | src/extension.ts:126 | the text of a range has exactly the range's length |
| `Buffer.AtColumnZero` | src/extension.ts:25 | a position is at column 0 exactly when the text left of it is empty or a line break |
| `Buffer.StepText` | src/extension.ts:26-27 | a step left is the character before; a step right is the character after, or empty at a line end or the document end |
| `Buffer.CharLeft` | src/extension.ts:48-56 | empty exactly at offset 0, else the one character before (the length assertion never fails on LF text) |
| `Buffer.CharRight` | src/extension.ts:58-62 | empty exactly at the document end, else the one character after |
| `Buffer.PreviousCharacter` | src/extension.ts:117-122 | empty exactly at offset 0, else the character before |
| `WordExtent.WordStart` | src/extension.ts:20-32 | `start <= pos`, every character in `[start, pos)` is a word character, and the one before `start` is not (or `start` is 0) |
| `WordExtent.WordEnd` | src/extension.ts:20-32 | `pos <= end <= |doc|`, every character in `[pos, end)` is a word character, and the one at `end` is not (or it is the end) |
| `WordExtent.WordRange` | src/extension.ts:42-46 | the range lies within the document and holds `pos` |
| `WordExtent.WordRangeIsMaximal` | src/extension.ts:42-46 | all of `[start, end)` is word characters, and the range cannot be widened on either side |
| `WordExtent.WordStartUnique` | src/extension.ts:20-32 | any offset with those three properties is the word start |
| `WordExtent.WordEndUnique` | src/extension.ts:20-32 | any offset with those three properties is the word end |
| `WordExtent.WordEdgesAreFixedPoints` | src/extension.ts:20-32 | scanning again from a returned edge returns the same edge |
| `WordExtent.WordRangeSymmetric` | src/extension.ts:42-46 | every position in `[start, end]` of a word yields the same word range |
| `WordExtent.FindEndOrBeginningOfWord` | src/extension.ts:20-32 | the stepping loop (column-0 stop going left, text test per step) returns `WordEnd` for +1 and `WordStart` for -1 |
| `WordExtent.FindEndOfWord` | src/extension.ts:34-36 | returns `WordEnd` |
| `WordExtent.FindBeginningOfWord` | src/extension.ts:38-40 | returns `WordStart` |
| `WordExtent.ExtendToWord` | src/extension.ts:42-46 | returns `WordRange` |
| `Separators.RunStart` | src/extension.ts:68-70 | the start of the maximal run of one character ending at an offset |
| `Separators.RunEnd` | src/extension.ts:79-81 | the end of the maximal run of one character starting at an offset |
| `Separators.SkipLeft` | src/extension.ts:64-72 | at offset 0 nothing moves; elsewhere the skip moves strictly left, over a non-separator exactly one step |
| `Separators.SkipLeftCrossesRun` | src/extension.ts:67-70 | over space, tab, `|` or `&`, the leftward skip goes back past the whole run of that same character and no further |
| `Separators.SkipRight` | src/extension.ts:74-83 | at the document end nothing moves; elsewhere the skip moves strictly right, over a non-separator exactly one step |
| `Separators.SkipRightCrossesRun` | src/extension.ts:78-81 | over a separator, the rightward skip goes to the end of the whole run of that same character and no further |
| `Separators.MoveLeftPastSpaces` | src/extension.ts:64-72 | the do-while loop returns `SkipLeft` (with the offset-0 guard, see Findings) |
| `Separators.MoveRightPastSpaces` | src/extension.ts:74-83 | the do-while loop returns `SkipRight` |
| `Separators.CharLeftClamped` | src/extension.ts:48-56 | the read left of an offset below the document start is empty, as the host clamps it; above the start it is the one character there, and from 0 on it agrees with `CharLeft` |
| `Separators.SeparatorsInclude` | src/extension.ts:67 | the membership test of the one-character read in `' \t|&'`; the empty read (at offset 0) passes it |
| `Separators.SeparatorsIncludeIsSubstringTest` | src/extension.ts:67 | on texts of at most one character, the test holds exactly when the text occurs as a substring of the separator list, both directions |
| `Separators.LeftSkipLoop` | src/extension.ts:68-70 | the do-while as written, with at most `fuel` iterations: with none left it is still looping, and when it exits it has gone down by at least one and at most `fuel` |
| `Separators.MoveLeftPastSpacesAsWritten` | src/extension.ts:64-72 | the leftward skip as written, without the offset-0 guard; when it exits, the offset is strictly left of the start |
| `Separators.LeftSkipLoopBeforeStart` | src/extension.ts:68-70 | at offset 0 or below, the loop looking for `''` never exits |
| `Separators.AsWrittenLeftSkipDivergesAtStart` | src/extension.ts:64-72 | the source's leftward skip at offset 0 runs out of any number of iterations |
| `Separators.LeftSkipLoopFindsRunStart` | src/extension.ts:68-70 | away from offset 0, the source's loop exits at the start of the run |
| `Separators.AsWrittenLeftSkipAgreesAwayFromStart` | src/extension.ts:64-72 | at every offset above 0, the source's leftward skip ends, and at `SkipLeft` |
| `Subword.IsSubwordBreakpoint` | src/extension.ts:95-107 | the source's boolean rule over the characters either side of index `i`; a breakpoint never lies between two equal characters |
| `Subword.BreakpointByClass` | src/extension.ts:95-107 | humps and the edges of digit, underscore and hyphen runs are breakpoints; upper-to-lower, same-case letters and the inside of a run are not |
| `Subword.LastBreakpoint` | src/extension.ts:139-145 | the largest breakpoint in `1..j`, or 0 when there is none |
| `Subword.FirstBreakpoint` | src/extension.ts:161-167 | the smallest breakpoint in `j..|word|-1`, or `|word|` when there is none |
| `Subword.LastBreakpointIs` | src/extension.ts:139-145 | a breakpoint (or 0) with none after it up to `j` is the one the downward scan finds |
| `Subword.FirstBreakpointIs` | src/extension.ts:161-167 | a breakpoint (or `|word|`) with none before it from `j` is the one the upward scan finds |
| `Subword.SubwordLeftByScan` | src/extension.ts:136-145 | inside a word that is not a colour literal, the left move is the word start plus the last breakpoint below the cursor |
| `Subword.SubwordRightByScan` | src/extension.ts:158-167 | inside a word that is not a colour literal, the right move is the word start plus the first breakpoint above the cursor |
| `Subword.BoundaryAfterStart` | src/extension.ts:158-167 | a boundary past the word start is a breakpoint or the word end |
| `Subword.BoundaryBeforeEnd` | src/extension.ts:136-145 | a boundary before the word end is the word start or a breakpoint |
| `Subword.FirstAfterLast` | src/extension.ts:139-167 | within a word, the upward scan from just past the last breakpoint below `m` finds `m`, when `m` is a breakpoint or the word end |
| `Subword.LastAfterFirst` | src/extension.ts:139-167 | within a word, the downward scan from just below the first breakpoint above `m` finds `m`, when `m` is a breakpoint or the word start |
| `Subword.IsHexLiteral` | src/extension.ts:132 | a colour literal is a word that has `#` immediately before its start |
| `Subword.SubwordLeft` | src/extension.ts:124-146 | a left move from offset 0 stays at 0; from any other offset it moves strictly left |
| `Subword.SubwordRight` | src/extension.ts:148-168 | a right move at the document end stays; from any other offset it moves strictly right, not past the end |
| `Subword.SubwordLeftInsideWord` | src/extension.ts:136-145 | inside a word (not a colour literal), a left move lands in `[start, pos)` on the nearest boundary: the largest breakpoint below `pos`, else the word start |
| `Subword.SubwordRightInsideWord` | src/extension.ts:158-167 | inside a word (not a colour literal), a right move lands in `(pos, end]` on the smallest breakpoint above `pos`, else the word end |
| `Subword.HexLiteralIsAtomic` | src/extension.ts:132-156 | after `#`, an all-hex word is crossed whole: left to its start, right to its end |
| `Subword.MoveAtWordEdgeSkipsSeparators` | src/extension.ts:128-152 | at the left (right) edge of a word, or outside one, the move is the separator skip |
| `Subword.LeftUndoesRight` | src/extension.ts:124-168 | from a subword boundary not at the word end, a right move then a left move comes back (colour literals excepted) |
| `Subword.RightUndoesLeft` | src/extension.ts:124-168 | from a subword boundary not at the word start, a left move then a right move comes back (colour literals excepted) |
| `Subword.MovePositionSubwordLeft` | src/extension.ts:124-146 | the method (edge fallback, hex shortcut, downward scan) returns `SubwordLeft` |
| `Subword.MovePositionSubwordRight` | src/extension.ts:148-168 | the method (edge fallback, hex shortcut, upward scan) returns `SubwordRight` |
| `Subword.OneWordDocument` | src/extension.ts:42-46 | in a document made of word characters only, every position's word is the whole document |
| `Subword.CamelCaseFirstHump` | src/extension.ts:95-107 | in `fooBarBaz` the first breakpoint from index 1 is 3 |
| `Subword.CamelCaseSecondHump` | src/extension.ts:95-107 | in `fooBarBaz` the first breakpoint from 4 is 6, and the last up to 8 is 6 |
| `Subword.CamelCaseLastSubword` | src/extension.ts:95-107 | in `fooBarBaz` there is no breakpoint from 7 on |
| `Subword.CamelCaseStops` | src/extension.ts:148-168 | right moves through `fooBarBaz` from 0 land at 3, 6 and 9; a left move from 9 lands at 6 |
| `Subword.DigitRunEntry` | src/extension.ts:95-107 | in `item2Count` the first breakpoint from 1 is 4 |
| `Subword.DigitRunExit` | src/extension.ts:95-107 | in `item2Count` index 5 is a breakpoint |
| `Subword.DigitRunLastSubword` | src/extension.ts:95-107 | in `item2Count` there is no breakpoint from 6 on |
| `Subword.DigitRunStops` | src/extension.ts:148-168 | right moves through `item2Count` from 0 land at 4, 5 and 10 |
| `Subword.SpaceRunIsOneStep` | src/extension.ts:64-72 | in `a    b`, a left move from 5 crosses the four spaces at once and lands at 1 |
| `Subword.ColourLiteralStops` | src/extension.ts:132-156 | from inside `#ff00aa`, a left move lands at 1 and a right move at 7 |
| `CursorOps.Selection.ToRange` | src/extension.ts:208 | the range of a selection runs from its lesser to its greater end |
| `CursorOps.Selection.IsEmpty` | src/extension.ts:207 | a selection is empty exactly when the start and end of its range coincide, both directions |
| `CursorOps.AllEmpty` | src/extension.ts:207 | the `every(s => s.isEmpty)` test of the delete commands; it holds for an empty list of selections |
| `CursorOps.SelectionIsInverted` | src/extension.ts:220-222 | an inverted selection is neither a caret nor non-inverted |
| `CursorOps.SelectionIsNonInverted` | src/extension.ts:224-226 | a non-inverted selection is not a caret |
| `CursorOps.SelectionOrientation` | src/extension.ts:220-226 | every selection is a caret, inverted or non-inverted, and never both of the last two |
| `CursorOps.MovedSelection` | src/extension.ts:173-175 | the new active end is the moved position; extending keeps the anchor, otherwise the result is a caret |
| `CursorOps.MoveSelectionLeft` | src/extension.ts:172-174 | one selection moved left: its active end goes to `SubwordLeft`, and it stays within the document |
| `CursorOps.MoveSelectionRight` | src/extension.ts:182-184 | one selection moved right: its active end goes to `SubwordRight`, and it stays within the document |
| `CursorOps.MoveAllLeft` | src/extension.ts:170-176 | the `forEach` loop builds a list of the same length and order, each entry its selection moved left and within the document |
| `CursorOps.MoveAllRight` | src/extension.ts:180-186 | the `forEach` loop builds a list of the same length and order, each entry its selection moved right and within the document |
| `CursorOps.Editor.MoveSubwordLeft` | src/extension.ts:170-178 | same number and order of selections; each is its old one moved by `SubwordLeft` from its active end |
| `CursorOps.Editor.MoveSubwordRight` | src/extension.ts:180-188 | same number and order of selections; each is its old one moved by `SubwordRight` from its active end |
| `CursorOps.Editor.DeleteSubwordLeft` | src/extension.ts:206-209 | if every selection is a caret, each is extended left and `[SubwordLeft(a), a)` is deleted; otherwise the selections stay and their own ranges are deleted |
| `CursorOps.Editor.DeleteSubwordRight` | src/extension.ts:211-214 | if every selection is a caret, each is extended right and `[a, SubwordRight(a))` is deleted; otherwise the selections stay and their own ranges are deleted |
| `CursorOps.Editor.SelectionRanges` | src/extension.ts:208 | one range per selection, in order, each within the document |
| `CursorOps.Editor.DropSelections` | src/extension.ts:216-218 | every selection becomes a caret at its own active end, in order |

## Left out

- The host editor API. Positions are offsets into a string, so position/offset conversion and `Position.translate` are not modelled. The comparison helpers patched onto the host's position type (src/extension.ts:109-115) become integer comparisons.
- CRLF line endings: the model assumes LF-only text. With CRLF, the character read left of an offset can span two characters and trip the source's assertion.
- Characters outside the Basic Multilingual Plane: the text is assumed to be BMP-only. A Dafny `char` is a Unicode scalar value, so such a character is one offset here but two UTF-16 code units, and two offsets, in the source.
- The text edit itself and the host's merging of overlapping selections. The delete commands return the list of ranges to delete.
- The selection-change subscription and the two `setContext` flags (src/extension.ts:228-237). Only the two predicates they use are modelled.
- Command registration and activation (src/extension.ts:239-264).
- The movement code never passes extra word characters. The subword moves therefore use none, while the classification and the word scan keep the parameter.
- The direction argument of the word scan must be +1 or -1, and a breakpoint index must lie strictly inside the word. The source throws an assertion error otherwise, and both are `requires` clauses here.
- `Subword.SubwordLeft`, `Subword.MovePositionSubwordLeft`, `CursorOps.MoveSelectionLeft`, `CursorOps.MoveAllLeft`, `CursorOps.Editor.MoveSubwordLeft`, `CursorOps.Editor.DeleteSubwordLeft`: at offset 0 these return (or move the caret to) 0, where the source's leftward skip never ends; they use the corrected skip of the finding below.
- `Subword.BreakpointByClass`: states the rule through character classes. The rule itself is the body of `IsSubwordBreakpoint`, which mirrors the source's boolean expression.

## Findings

| source | as written | input that shows it | evidently intended | confidence | as-written member | corrected member |
|---|---|---|---|---|---|---|
| src/extension.ts:64-72 | `move_left_past_spaces` has no guard for offset 0. The character to the left is then `''`, `' \t|&'.includes('')` is true, and the do-while keeps decrementing the offset. Each clamped read stays `''`, so the loop never ends. `move_position_subword_left` reaches it whenever the cursor is at offset 0, because the word scan stops at column 0 and the edge fallback fires. | any document, cursor at offset 0, move or delete subword left | return the position unchanged, as `move_right_past_spaces` does at the document end | high; not executed | `Separators.AsWrittenLeftSkipDivergesAtStart` | `Separators.MoveLeftPastSpaces` |

The project's other members use the corrected skip. So `SubwordLeft(doc, 0) == 0` holds, and the left-move commands need no precondition on the cursor. At every other offset, `Separators.AsWrittenLeftSkipAgreesAwayFromStart` proves that the code as written ends, at the same offset as the corrected skip.

A note on the leftward edge case: one might expect it to be unreachable, because the edge fallback seems to need a word. It is reachable. At offset 0 the leftward scan stops at once at column 0 (src/extension.ts:25), so the word range starts at the cursor even when a word follows it (for `foo` it is `[0, 3)`). The edge fallback therefore runs, and the skip starts at offset 0. The model follows the code on this point.
