# JustAnotherHotkeyPlugin, heading, link and tag logic in Dafny

This project models the editing logic of the Obsidian plugin
JustAnotherHotkeyPlugin and proves properties about it. Three parts are covered:

- **Heading commands** (`src/main.ts`). These are select to next heading,
  select to previous heading, select current heading, select all headings of
  the current level, and move to the next or previous heading of a given level.
- **Wikilink commands** (`src/main.ts`). "Select link display text" and
  "select link without display text" find the `[[...]]` link at the cursor.
  They then select part of it, or insert a `|` into it.
- **Tag hierarchy sort** (`src/ui/modals/tagSuggestModal.ts`). This orders
  the tag list shown by the tag picker.

The document is a `seq<string>` of lines and the cursor is a `Pos(line, ch)`.
Each command is a pure function from the document and the cursor to one
`Effect`: a selection, a selection plus a notice, a cursor move, a line
replacement plus a cursor move, or a notice alone. In the plugin these are
editor calls and `new Notice(...)`. Offsets index the line as a `seq<char>`.

Files:

- `basics.dfy` holds `Option`, `IndexOf`, and decimal rendering for the notice texts.
- `lex_order.dfy` holds the order of `Array.prototype.sort()` without a
  comparator, and an insertion sort as the reference sort.
- `headings.dfy` holds the heading classifier and the upward and downward line scans.
- `editor.dfy` holds positions, notices and effects.
- `heading_commands.dfy`, `links.dfy` and `tag_sort.dfy` hold the three parts.

Each command's contract says where the selection or cursor lands, in terms
of the document alone. It also says when the "not found" notice is raised,
as an if-and-only-if. Lemmas relate commands to each other. For example,
from a heading of level N, moving to the next level-N heading and back
puts the cursor at the end of the starting heading line. Running "select
link display text" a second time after it inserted a `|` selects the empty
display text.

The select-all command does not scan the whole document for headings of
the current level. It scans the scope shared with the current heading's
siblings. That scope runs from the line after the nearest shallower heading
above, to the line before the next heading no deeper than that parent. The
model follows the code, `src/main.ts:267-298`.

## Model

| member | source | states |
|---|---|---|
| Headings.HeadingLevel | src/main.ts:254-257 | the level of a line: the length of its leading `#` run when a JavaScript white-space character follows it, else 0; the function has no ensures of its own, and `Headings.HeadingLevelIsRegexMatch` states that it agrees with `^(#+)\s` |
| Headings.HeadingLevelIsRegexMatch | src/main.ts:254-257 | `^(#+)\s` matches a line exactly when its level is positive, and then the captured `#` run is `level` long; `\s` is the full JavaScript white-space set |
| Headings.FindDown | src/main.ts:148-154 | the downward scan stops at the first matching line of the range; no earlier line of the range matches; no result means no line of the range matches |
| Headings.FindUp | src/main.ts:181-187 | the upward scan stops at the nearest matching line at or above its start; no result means no line of the range matches |
| Headings.CountLevelIsCardinality | src/main.ts:300-317 | the running heading count equals the number of level-L heading lines in the range |
| Headings.CountLevelPositive | src/main.ts:300-317 | a range that holds a level-L heading counts at least one |
| HeadingCommands.SectionEnd | src/main.ts:146-172 | the end line is at or below the start, no heading lies after the start up to it, and it is the last line or is followed by a heading |
| HeadingCommands.CurrentHeading | src/main.ts:214-223 | the nearest heading at or above a line; none exactly when no line from 0 to that line is a heading |
| Editor.MessageText | src/main.ts:344 | the text of each notice, as the plugin spells it: the count notice here, and the fixed notices of `src/main.ts` lines 263, 370, 395, 444 and 493; a rendering function with no ensures of its own |
| HeadingCommands.SelectToNextHeading | src/main.ts:142-175 | anchor is the cursor; head is the end of a line in [cursor line, last line] with no heading after the cursor line up to it, followed by a heading or the end of the document |
| HeadingCommands.SelectToPreviousHeading | src/main.ts:177-208 | head is the cursor; anchor is column 0 of a line at or above the cursor line, with no heading from it to the line above the cursor, and the line above it is a heading or it is line 0 |
| HeadingCommands.SelectCurrentHeading | src/main.ts:210-244 | anchor line is the nearest heading at or above the cursor, or -1 exactly when there is none; the only heading in the selection is its first line; the head ends the section |
| HeadingCommands.SiblingScope | src/main.ts:267-298 | the scope starts after the nearest shallower heading above (or at line 0) and ends before the next heading no deeper than that parent (or at the last line); with no parent it is the whole document |
| HeadingCommands.SameLevelSpan | src/main.ts:300-330 | first and last level-L headings of the scope, with none outside them in the scope; the selection end is past the last one, with no heading of level at most L in between, and it stops before one or at the scope end |
| HeadingCommands.SelectAllCurrentLevelHeadings | src/main.ts:246-345 | only the notice "No heading found" exactly when no heading is at or above the cursor; otherwise the notice counts the level-L headings in the sibling scope, at least one, and the selection spans the same-level span |
| HeadingCommands.MoveToNextHeading | src/main.ts:348-372 | the cursor goes to the end of the nearest line below with exactly level N; the notice is raised exactly when there is none |
| HeadingCommands.MoveToPreviousHeading | src/main.ts:374-397 | the cursor goes to the end of the nearest line above with exactly level N; the notice is raised exactly when there is none |
| HeadingCommands.SelectCurrentOnHeadingLine | src/main.ts:210-244 | on a heading line, "select current heading" starts at that line and ends where "select to next heading" ends |
| HeadingCommands.SelectCurrentJoinsPreviousAndNext | src/main.ts:177-244 | "select current heading" ends where "select to next heading" ends; off a heading line, it starts one line above where "select to previous heading" starts |
| HeadingCommands.MoveNextThenPrevious | src/main.ts:348-397 | from a level-N heading, moving to the next level-N heading and back returns to the end of the start line |
| HeadingCommands.MovePreviousThenNext | src/main.ts:348-397 | from a level-N heading, moving to the previous level-N heading and forward returns to the end of the start line |
| HeadingCommands.SelectAllSiblingExample | src/main.ts:246-345 | on levels 1, 2, 2, 1, 2 with the cursor under the second level-2 heading, only the two level-2 headings under the first level-1 heading are selected and counted |
| Basics.IndexOf | src/main.ts:413 | `indexOf`: the first occurrence, or -1 exactly when the character is absent |
| Basics.DecimalString | src/main.ts:344 | the rendered count is nonempty, all digits, without a leading zero |
| Basics.DecimalRoundTrip | src/main.ts:344 | parsing the rendered count gives the count back |
| Links.CloseIndex | src/main.ts:403 | the first `]` at or after an index, or the line end |
| Links.LinkStartIsRegexMatch | src/main.ts:403 | a match of `\[\[([^\]]+)\]\]` starts at p exactly when `IsLinkStart` holds, and then ends exactly at `LinkEnd` |
| Links.Exec | src/main.ts:403-408 | `exec` from `lastIndex`: the leftmost match at or after it; none means no match starts there or later |
| Links.OverlappingMatchesShareEnd | src/main.ts:403-408 | a match starting inside another match ends at the same closing brackets |
| Links.SkippedMatchCoversNothing | src/main.ts:406-411 | when the found match does not span the cursor, no match starting before its end spans it, so resuming at `lastIndex` loses nothing |
| Links.LocateFrom | src/main.ts:407-441 | the exec loop returns the first match spanning the cursor (both ends included), or nothing exactly when no match spans it |
| Links.FindLinkAt | src/main.ts:399-411 | the link used is the match spanning the cursor with the smallest start; none exactly when no match spans the cursor |
| Links.FindLinkAtIsFirstCover | src/main.ts:399-411 | conversely, a spanning match with no spanning match before it is the one found |
| Links.DisplayTextEdit | src/main.ts:411-436 | with a `|` in the content, selects from after its first `|` to before `]]`; without, inserts one `|` before `]]` and puts the cursor right after it |
| Links.TargetSelection | src/main.ts:461-489 | selects from after `[[` up to the first `|`, or up to `]]` when there is none, with no `|` inside the selection |
| Links.SelectLinkDisplayText | src/main.ts:399-446 | the "not inside or near a link" notice exactly when no match spans the cursor; otherwise the display-text edit of the link found |
| Links.SelectLinkWithoutDisplayText | src/main.ts:448-494 | the notice exactly when no match spans the cursor; otherwise the target selection of the link found |
| Links.TargetPipeDisplayIsContent | src/main.ts:412-489 | with a `|`, the target selection, the `|` and the display-text selection make up the link content exactly |
| Links.SelectionsAroundPipe | src/main.ts:412-489 | with a `\|` in the content, the target selection ends at the first `\|` and the display-text selection starts just after it and ends before `]]` |
| Links.PipeInsertionBeforeLink | src/main.ts:427-429 | the inserted `|` cannot make a match before the link reach past the insertion point unless that match already ended at the link's `]]` |
| Links.PipeInsertedLinkShape | src/main.ts:427-429 | after the insertion the link still matches at the same start, one character longer, its content ending in the new `|` |
| Links.PipeInsertedNothingEarlier | src/main.ts:427-435 | after the insertion no earlier match spans the new cursor |
| Links.PipeInsertedLinkFound | src/main.ts:427-435 | after the insertion the link found at the new cursor is the same link, one character longer |
| Links.IndexOfTrailingPipe | src/main.ts:413 | in content that gained the only `|` at its end, `indexOf('|')` is that last index |
| Links.InsertedPipeOpensEmptyDisplayText | src/main.ts:411-436 | running "select link display text" again after it inserted a `|` selects the empty display text at the cursor |
| Links.SelectLinkPartsExample | src/main.ts:412-489 | on `See [[Note Name\|Display]] here` at offset 10, the target selection is "Note Name" and the display-text selection is "Display" |
| Links.InsertPipeExample | src/main.ts:424-435 | on `See [[Note Name]] here` at offset 8, the line becomes `See [[Note Name\|]] here` and the cursor goes to offset 16 |
| LexOrder.LexLeTotal | src/ui/modals/tagSuggestModal.ts:56 | any two tags are comparable |
| LexOrder.LexLeAntisymmetric | src/ui/modals/tagSuggestModal.ts:56 | tags that sort both ways are equal |
| LexOrder.LexLeTransitive | src/ui/modals/tagSuggestModal.ts:56 | the order is transitive |
| LexOrder.Insert | src/ui/modals/tagSuggestModal.ts:56 | inserting into a sorted list keeps it sorted and adds exactly that element |
| LexOrder.Sort | src/ui/modals/tagSuggestModal.ts:56 | the result is sorted and a permutation of the input |
| LexOrder.SortedPermutationUnique | src/ui/modals/tagSuggestModal.ts:56 | two sorted permutations of one list are equal, so any correct sort gives this result |
| LexOrder.SortIdempotent | src/ui/modals/tagSuggestModal.ts:67 | sorting a sorted list changes nothing, so sorting a group again for a repeated root does not change it |
| TagSort.SortTagsWithSubtags | src/ui/modals/tagSuggestModal.ts:18-73 | `sortTagsWithSubtags`: group, sort the root list, emit; the function has no ensures of its own, and its properties are stated by `TagSort.OutputCount`, `TagSort.OutputOrder`, `TagSort.OutputCoversInput`, `TagSort.OutputFromInput` and `TagSort.EveryListingEmitsWholeGroup` |
| TagSort.AddTag | src/ui/modals/tagSuggestModal.ts:26-52 | one iteration of the first loop; the function has no ensures of its own, and `TagSort.AddTagKeepsGrouped` and `TagSort.RootCount` state what the loop builds |
| TagSort.Emit | src/ui/modals/tagSuggestModal.ts:58-70 | the second loop; the function has no ensures of its own, and `TagSort.EmitSplit`, `TagSort.EmitCount` and `TagSort.EmitShape` state what it emits |
| TagSort.ParentOf | src/ui/modals/tagSuggestModal.ts:27-38 | the parent is the text before the first `/`: a prefix of the tag, followed by `/`, with no `/` of its own |
| TagSort.Group | src/ui/modals/tagSuggestModal.ts:25-53 | the hierarchy is keyed by exactly the listed roots; each group holds exactly the subtags with that parent, in input order; every input tag's group is listed; every listed root is an input root or the parent of an input subtag |
| TagSort.AddTagKeepsGrouped | src/ui/modals/tagSuggestModal.ts:26-52 | one iteration of the first loop keeps that invariant |
| TagSort.RootCount | src/ui/modals/tagSuggestModal.ts:29-43 | the root list names a root once per explicit occurrence, plus once when a subtag of it was seen before it |
| TagSort.OutputCount | src/ui/modals/tagSuggestModal.ts:25-72 | the output lists each root as often as the root list does, and each subtag as often as it occurs in the input times how often its parent is listed |
| TagSort.OutputCoversInput | src/ui/modals/tagSuggestModal.ts:25-72 | every input tag occurs in the output |
| TagSort.OutputFromInput | src/ui/modals/tagSuggestModal.ts:40-43 | every output tag is an input tag or the parent of an input subtag |
| TagSort.EmitShape | src/ui/modals/tagSuggestModal.ts:61-70 | the emitted roots are the given root list in order, and every subtag follows its parent or a sibling that does not sort after it |
| TagSort.OutputOrder | src/ui/modals/tagSuggestModal.ts:55-70 | the roots of the output are sorted and are the root list permuted; every subtag directly follows its parent or a smaller-or-equal sibling |
| TagSort.EmitSplit | src/ui/modals/tagSuggestModal.ts:61-70 | for every position of the root list, the emitted list is the emission of the roots before it, then that root followed by its whole sorted group, then the emission of the roots after it |
| TagSort.EveryListingEmitsWholeGroup | src/ui/modals/tagSuggestModal.ts:58-70 | every listing of a root in the sorted root list, a repeated listing included, is followed in the output by all the input subtags under that root, sorted |
| TagSort.NestedSubtagExample | src/ui/modals/tagSuggestModal.ts:27-38 | `a/b/c` is grouped under `a` |
| TagSort.SortExample | src/ui/modals/tagSuggestModal.ts:18-73 | `b, a/y, a/x` becomes `a, a/x, a/y, b` |
| TagSort.RootAfterSubtagListedTwice | src/ui/modals/tagSuggestModal.ts:29-43 | `a/x, a` becomes `a, a/x, a, a/x`: a root given after its subtag is emitted twice |
| TagSort.RootBeforeSubtagListedOnce | src/ui/modals/tagSuggestModal.ts:29-43 | `a, a/x` becomes `a, a/x` |

## Left out

- Plugin lifecycle, command and hotkey registration, and settings (`src/main.ts:14-140`, `src/hotkeys.ts`, `src/settings.ts`). They hold no editing logic.
- The commands that `src/hotkeys.ts` registers by calling methods that `src/main.ts` does not define: `selectToEndOfCurrentHeading` and `selectToBeginningOfCurrentHeading` (`src/hotkeys.ts:16`, `:35`), `selectCurrentAndChildHeadings` (`:74`), `moveToNextHeadingOfLevel` and `moveToPreviousHeadingOfLevel` (`:116`, `:136`), `moveCursorToNextHeading` and `moveCursorToPreviousHeading` (`:156`, `:175`), `moveHeadingUp` and `moveHeadingDown` (`:194`, `:213`), `selectLinkContent` and `selectFullLink` (`:273`, `:293`), `pasteAsCodeBlock` (`:313`), and the line commands `selectCurrentLine`, `selectPreviousLine`, `clearSelectionFromCurrentLine`, `selectToLineStart` and `selectToLineEnd` (`:332-410`). Their bodies are not in `src/main.ts`, so there is nothing to model; this includes the link operations "select content" and "select full link". The model covers the methods `src/main.ts` does define (`selectToNextHeading`, `selectToPreviousHeading`, `selectCurrentHeading`, `selectAllCurrentLevelHeadings`, `moveToNextHeading`, `moveToPreviousHeading`, `selectLinkDisplayText`, `selectLinkWithoutDisplayText`).
- Copying note contents (`src/features/copyContentFeature.ts`). It reads the vault and writes the clipboard, and its only ordering is `localeCompare`, which depends on the host locale.
- The tag picker's UI methods (`getItems`, `getItemText`, `onChooseItem`) and its base class.
- Editor access is replaced by parameters. The document is `lines` and the cursor is `cur`. Editor calls and notices are returned as an `Effect`, and `MessageText` gives the exact notice strings.
- Commands require the cursor line to be a line of the document, as the editor guarantees. The cursor's `ch` is unconstrained.
- Offsets count `char`s, while the editor counts UTF-16 code units. They differ only on lines with characters outside the Basic Multilingual Plane. For the same reason, `LexOrder.LexLe` compares `char`s where `Array.prototype.sort()` compares code units.
- TagSort.Group: the hierarchy is a JavaScript object, modelled as a map. A tag named like an inherited object property (for example `constructor`) makes the plugin's lookup fail or misbehave. The model treats such a tag like any other.
- Only the two regular expressions the commands use are modelled, not a general regex engine.
