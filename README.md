# split_pdf — a Dafny model of the split/merge page

`src/App.jsx` is a single React page that loads one PDF, lets the user
describe page ranges, splits the document into one file per range, lets
the user drag the resulting files into a new order, and merges them back
into one file. This project models the logic of that page in Dafny:

- **RangeList** — the range list: the starting list, what one keystroke
  stores in an entry (`handleRangeChange`), how an entry is normalised when
  an input loses focus (`handleRangeBlur`), and `addRange` / `removeRange`
  with the add button's disabled condition.
- **JsText** — the JavaScript primitives those handlers depend on:
  `parseInt` without a radix (leading white space, sign, `0x` prefix,
  longest digit run, NaN as `None`), the decimal text a template literal
  gives an integer, and `String.prototype.replace` with a string pattern
  (first occurrence only).
- **SplitPlan** — the `dividePdf` loop: zero-based page indices
  `start-1 .. end-1`, `copyPages` as indexing into the page sequence
  (an out-of-range index fails), the `name.pdf` / `rango_{s}-{e}.pdf` file
  name and the `s-e` label, and the stop at the first failing range.
- **AssemblyOrder** — `handleDrop` (splice out, splice in, renumber the ids),
  the page concatenation of `mergeAllPdfs` and its merged file name.
- **Session** — a class holding the page's state (file, bytes, page count,
  ranges, results, dragged index) whose methods are the handlers, plus
  client methods that drive a load → edit → split → merge session.

A document is its sequence of pages (`Page`); the PDF engine is reduced to
"readable, with these pages" or "unreadable". Where the code's behaviour is
surprising, the model follows the code:

- a file the engine cannot parse still replaces the recorded file name and
  bytes (they are stored before parsing), while the page count, ranges and
  results stay as they were;
- when the very first range of a split fails, the previous results stay on
  screen, because the results are only replaced after a range succeeds;
  a later failure leaves the results of the ranges before it;
- leaving an input twice gives what leaving it once gave in every case but
  one: the end input of an entry with a negative start, left cleared, on a
  document with no pages (`RangeList.BlurIdempotentUnlessClearedEndWithoutPages`);
- a range whose end lies below its start copies no page, and the engine's
  `save()` then writes its default blank page, so that file holds one blank
  page (`SplitPlan.ReversedRangeGivesBlankPage`);
- `replace('.pdf', '')` removes the first `.pdf` wherever it stands, not the
  extension (`AssemblyOrder.MergedNameRemovesFirstPdf`);
- two ranges with the same name get the same file name
  (`SplitPlan.NamesNotDeduplicated`).

## Model

| member | source | states |
|---|---|---|
| JsText.TrimStart | src/App.jsx:121 | `parseInt` skips exactly the leading ECMAScript white space: the result is a suffix, every dropped character is white space, and the result does not start with white space |
| JsText.DigitRun | src/App.jsx:121 | the digit run `parseInt` reads is the longest prefix of digits: all of it is digits and the next character is not |
| JsText.NatToDecimal | src/App.jsx:246 | the decimal text of a natural number is non-empty, all digits, and has no leading zero |
| JsText.IntToString | src/App.jsx:252 | the text of an integer is non-empty; digits for non-negative values, a leading '-' for negative ones |
| JsText.ParseInt | src/App.jsx:121 | `parseInt` without a radix: leading white space skipped, optional sign, `0x` prefix, longest digit run, NaN as None; its properties are the rows around it |
| JsText.ParseIntOfBlank | src/App.jsx:121 | text made only of white space, the empty text included, reads as NaN |
| JsText.ParseIntSkipsLeadingSpace | src/App.jsx:121 | leading white space does not change what `parseInt` reads |
| JsText.ParseIntOfDecimal | src/App.jsx:121 | `parseInt` reads back the decimal text of every integer: ParseInt(IntToString(n)) == Some(n) |
| JsText.IntToStringInjective | src/App.jsx:252 | different integers print as different texts |
| JsText.FirstOccurrence | src/App.jsx:338 | the index found is an occurrence with no earlier occurrence, and None means the pattern occurs nowhere |
| JsText.ReplaceFirst | src/App.jsx:338 | a string-pattern `replace` leaves text without the pattern as it is, and otherwise replaces only the first occurrence |
| JsText.ReplaceWithoutOccurrence | src/App.jsx:338 | text in which the pattern never occurs is unchanged |
| JsText.ReplaceFirstOccurrence | src/App.jsx:338 | when the pattern first occurs right after `before`, the result is `before + rep + after` |
| RangeList.AsNumber | src/App.jsx:154-170 | the numeric value JavaScript gives a bound in comparisons and arithmetic: '' counts as 0 |
| RangeList.StartOrOne | src/App.jsx:154 | `start \|\| 1`: 1 when the start's numeric value is 0 (a cleared start or 0), otherwise exactly that value |
| RangeList.Change | src/App.jsx:110-135 | a keystroke stores '' for a cleared box, the `parseInt` value (unclamped) for readable text, leaves the entry unchanged for unreadable text, stores the name verbatim, and touches no other input |
| RangeList.ChangeStoresNumberUnclamped | src/App.jsx:121-129 | typing the text of any integer into a start or end stores exactly that integer, out of range or not |
| RangeList.Blur | src/App.jsx:137-174 | leaving the start clamps it to 1..totalPages (1 when empty, 1 whenever there are no pages) and pulls the end up to it; leaving the end clamps it to (start or 1)..totalPages (max(start or 1, 1) when empty); leaving the name changes nothing |
| RangeList.BlurIdempotent | src/App.jsx:137-174 | for a document with at least one page, normalising the same input twice gives what normalising it once gave |
| RangeList.BlurEndKeepsInRange | src/App.jsx:153-170 | leaving an end that already lies between the start and the last page changes nothing |
| RangeList.BlurIdempotentUnlessClearedEndWithoutPages | src/App.jsx:137-174 | normalising twice equals normalising once exactly when it is not the end input of an entry with a negative start, left cleared, with no pages |
| RangeList.BlurNotIdempotentWithoutPages | src/App.jsx:153-170 | with no pages, start -1 and a cleared end, normalising the end twice differs from normalising it once |
| RangeList.BlurBothSettles | src/App.jsx:137-174 | normalising the start and then the end leaves 1 <= start <= end <= totalPages, whatever was typed |
| RangeList.EditKeepsSettled | src/App.jsx:110-174 | a settled entry stays settled after any keystroke followed by leaving that input |
| RangeList.Add | src/App.jsx:176-186 | the list only grows at its end; a range {next, next, ''} with next = last end + 1 is appended exactly when next <= totalPages |
| RangeList.AddDisabled | src/App.jsx:518 | the add button's disabled condition: the last range's end (as a number) is at or past the last page |
| RangeList.AddDisabledIffNoOp | src/App.jsx:518 | the add button is disabled exactly when pressing it would change nothing |
| RangeList.AddKeepsSettled | src/App.jsx:176-186 | adding after a list of settled ranges keeps every range settled |
| RangeList.Without | src/App.jsx:190 | the filter drops exactly the entry at `index` and keeps the rest in order; an index outside the list drops nothing |
| RangeList.Remove | src/App.jsx:188-192 | removal is refused for a list of one, otherwise drops exactly the range at `index`; the list never becomes empty |
| RangeList.RemoveKeepsSettled | src/App.jsx:188-192 | removing keeps every remaining range settled |
| RangeList.INITIAL_RANGES | src/App.jsx:10 | the range list before any document and after a reset: the single range {1, 1, ''} |
| RangeList.Seed | src/App.jsx:52 | a loaded document starts with the single range {1, min(1, pages), ''}, which is settled when the document has pages |
| SplitPlan.PageIndices | src/App.jsx:227 | the indices start-1 .. end-1, end - start + 1 of them, and none when end < start |
| SplitPlan.PagesToCopy | src/App.jsx:226-229 | the loop collects start-1, start, ..., end-1, and nothing when end < start |
| SplitPlan.CopyPages | src/App.jsx:232 | copying succeeds exactly when every index is inside the document, and then yields the page at each index in order |
| SplitPlan.RangePages | src/App.jsx:222-235 | a range extracts exactly when it is empty (end < start) or lies within 1..page count, and then yields the pages start..end |
| SplitPlan.SettledRangeExtracts | src/App.jsx:226-232 | a settled range always extracts its pages start..end |
| SplitPlan.Label | src/App.jsx:252 | the `s-e` label of a result: the two bounds as printed, joined by '-' |
| SplitPlan.FileName | src/App.jsx:244-246 | `name.pdf` for a named range, `rango_{s}-{e}.pdf` otherwise |
| SplitPlan.FileNameShape | src/App.jsx:244-246 | every file name ends in `.pdf`, and a named range's file name is its name followed by `.pdf` |
| SplitPlan.Saved | src/App.jsx:240 | saving keeps a document's pages, and writes one blank page for a document that has none |
| SplitPlan.Entry | src/App.jsx:248-254 | the result of range i: id i, its file name, its label, and its extracted pages as saved |
| SplitPlan.ReversedRangeGivesBlankPage | src/App.jsx:226-240 | a range whose end lies below its start becomes a file of one blank page |
| SplitPlan.FirstFailure | src/App.jsx:214-235 | every range before the first failing position extracts, and the range at that position does not |
| SplitPlan.SettledRangesNeverFail | src/App.jsx:214-235 | a list of settled ranges splits without failure |
| SplitPlan.ExtractRange | src/App.jsx:226-232 | one iteration's index loop plus `copyPages` yields that range's pages, or the failure |
| SplitPlan.Divide | src/App.jsx:212-261 | one result per range in range order up to the first failing range, each with its position as id, its file name, its `s-e` label and its pages; the failure flag is set exactly when a range failed |
| SplitPlan.TwoRangeExample | src/App.jsx:226-252 | 5 pages split by {1,3,''} and {4,4,'cover'} give indices [0,1,2] and [3], files rango_1-3.pdf and cover.pdf, labels 1-3 and 4-4 |
| SplitPlan.NamesNotDeduplicated | src/App.jsx:244-246 | two ranges with the same name get the same file name |
| SplitPlan.UnnamedFileNameIdentifiesRange | src/App.jsx:244-246 | for unnamed ranges with non-negative bounds, equal file names mean equal ranges |
| AssemblyOrder.Move | src/App.jsx:377-384 | the two splices keep the length and put the dragged item at the drop index |
| AssemblyOrder.MoveIsPermutation | src/App.jsx:377-384 | the move is a permutation of the list, and the identity when the indices agree |
| AssemblyOrder.MoveShifts | src/App.jsx:381-384 | items outside both indices keep their place; items between them shift one place towards the dragged index |
| AssemblyOrder.MoveFirstToLastExample | src/App.jsx:381-384 | dragging the first of [a, b, c] onto the last gives [b, c, a] |
| AssemblyOrder.Reorder | src/App.jsx:377-389 | after the move and the `forEach`, every id equals its position and every entry is the moved entry with that id |
| AssemblyOrder.Concat | src/App.jsx:303-321 | the pages of the merge: every result's pages, one result after another, in list order |
| AssemblyOrder.ConcatAppend | src/App.jsx:303-321 | merging two lists one after the other gives the first's pages followed by the second's |
| AssemblyOrder.MergePages | src/App.jsx:303-321 | the merge loop appends every entry's pages, entry by entry, in list order |
| AssemblyOrder.MergeAfterMoveExample | src/App.jsx:302-321 | after dragging the first of three results onto the last, the merge gives the second's pages, then the third's, then the first's |
| AssemblyOrder.MergeFollowsCurrentOrder | src/App.jsx:302-321 | for any list and any drag from `from` onto `to`, the merge gives the results before both indices, then those between them in their order, with the dragged result's pages placed after them (dragging forward) or before them (dragging back), then the rest: the merge follows the new order of the list, not the order of creation |
| AssemblyOrder.ConcatSamePages | src/App.jsx:387-389 | lists whose entries hold the same pages, position by position, merge to the same pages, so renumbering the ids does not change the merge |
| AssemblyOrder.TiledSplitMerges | src/App.jsx:214-321 | splitting by ranges that cut pages lo..hi into consecutive pieces and merging the results gives back exactly pages lo..hi |
| AssemblyOrder.TilingNeverFails | src/App.jsx:214-235 | ranges that cover a document in consecutive pieces never fail to extract |
| AssemblyOrder.SplitThenMergeRestores | src/App.jsx:214-321 | ranges that cover the whole document in order split without failure, and merging their results restores the document |
| AssemblyOrder.MergedFileName | src/App.jsx:337-339 | the merged name always ends with `_unido.pdf`, and is `pdf_unido.pdf` when no file was chosen |
| AssemblyOrder.MergedNameDropsExtension | src/App.jsx:338 | a name whose only `.pdf` is its extension becomes base + `_unido.pdf` |
| AssemblyOrder.MergedNameRemovesFirstPdf | src/App.jsx:338 | only the first `.pdf` is removed, wherever it stands and whatever follows |
| AssemblyOrder.MergedNameWithoutPdf | src/App.jsx:338 | a name without `.pdf` is kept whole before `_unido.pdf` |
| Session.SplitSession.constructor | src/App.jsx:7-12 | no file, no bytes, no pages, the single range {1, 1, ''}, no results, nothing dragged |
| Session.SplitSession.ProcessFile | src/App.jsx:21-63 | the file and bytes are recorded; a readable document sets the page count, seeds the ranges and clears the results; an unreadable one leaves those as they were |
| Session.SplitSession.Reset | src/App.jsx:399-411 | every field goes back to its initial value |
| Session.SplitSession.HandleRangeChange | src/App.jsx:110-135 | range `index` becomes its Change, every other range is unchanged |
| Session.SplitSession.HandleRangeBlur | src/App.jsx:137-174 | range `index` becomes its Blur for the current page count, every other range is unchanged |
| Session.SplitSession.AddRange | src/App.jsx:176-186 | the ranges become Add of the old ranges and the page count |
| Session.SplitSession.RemoveRange | src/App.jsx:188-192 | the ranges become Remove of the old ranges at `index` |
| Session.SplitSession.DividePdf | src/App.jsx:194-271 | without bytes nothing happens; unreadable bytes fail with the results unchanged; otherwise the results become the entries up to the first failing range, except that a failure of the very first range keeps the old results |
| Session.SplitSession.HandleDragStart | src/App.jsx:362-364 | the index is recorded as dragged |
| Session.SplitSession.HandleDragEnd | src/App.jsx:395-397 | nothing is dragged any more |
| Session.SplitSession.HandleDrop | src/App.jsx:370-393 | with nothing dragged or a drop on the same place the results stay; otherwise they become the move renumbered by position, and they merge to the pages of the move; the drag always ends |
| Session.SplitSession.MergeAllPdfs | src/App.jsx:293-360 | nothing without results; otherwise all results' pages in the current order, as saved, under the merged file name |
| Session.EditFirstRange | src/App.jsx:110-174 | typing `cut` into the seeded range's end stores it, leaving the input keeps it, and typing the name stores it |
| Session.AddAfterFirstRange | src/App.jsx:176-186 | adding after {1, cut, 'part_a'} appends {cut+1, cut+1, ''} |
| Session.EditSecondRange | src/App.jsx:110-174 | typing the page count into the new range's end stores it and leaving the input keeps it |
| Session.ScenarioEditFirst | src/App.jsx:110-174 | loading a file and editing its single range leaves {1, cut, 'part_a'} |
| Session.NameFirstPart | src/App.jsx:110-174 | the three keystroke and blur steps on the seeded range leave {1, cut, 'part_a'} and touch nothing else |
| Session.ScenarioEdit | src/App.jsx:110-192 | loading a file and typing two ranges leaves {1, cut, 'part_a'} and {cut+1, pages, ''} |
| Session.ScenarioSplit | src/App.jsx:194-271 | splitting those two ranges yields their two entries |
| Session.CutFileNames | src/App.jsx:244-246 | the named part is saved as part_a.pdf and the other as rango_{cut+1}-{pages}.pdf |
| Session.CutPagesCover | src/App.jsx:226-232 | the two parts hold all the document's pages, in order |
| Session.ScenarioMerge | src/App.jsx:293-339 | the merge after loading base.pdf, editing and splitting is exactly the original document under base_unido.pdf |

## Left out

- File input, drag-and-drop of the file, the MIME type check and the alerts: a file reaches `ProcessFile` only after passing the type check, and the notifications are not modelled.
- Reading the file's bytes, `PDFDocument.load`, `create`, `addPage` and `save`: a document is its sequence of pages, and loading either yields those pages or fails. Saving always succeeds; the one effect of `save` that is modelled is the blank page it writes into a document without pages (`BlankPage`).
- Blobs, object URLs, `URL.revokeObjectURL`, and the downloads of `downloadSingle`, `downloadAll` and the merged file: browser I/O, not modelled.
- Progress messages, loading/processing flags, timers and the drag-over counter: presentation only.
- Asynchronous interleaving: each handler runs to completion, so the progressive display of partial results during a split is seen only as its final value.
- A failure while merging: the merge of pages always succeeds in the model.
- The shallow copy of the range list and the in-place mutation of its entry objects: the handlers replace the entry by value, which gives the same list.
- JavaScript Numbers are unbounded integers here: `parseInt` of very long digit runs, exponent notation in printed numbers and -0 are not modelled.
- `addRange` after a cleared end computes the string "1"; it is modelled as the number 1, which it equals in every later use.
- RangeList.BlurIdempotent: requires at least one page, because with no pages it fails in one case; RangeList.BlurIdempotentUnlessClearedEndWithoutPages states exactly which.
- RangeList.Add: requires a non-empty list, which every reachable state has (`SplitSession.Valid`).
- Session.SplitSession.HandleDrop: requires the drop index and the dragged index to lie within the results, as they do when both come from the rendered list.
- SplitPlan.UnnamedFileNameIdentifiesRange: stated only for non-negative numeric bounds; a '-' in a printed negative bound could be confused with the separator.
