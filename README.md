# Document review and sharing: a Dafny model

This project models the core of a B2B document workspace. Reviewers compare two texts word by
word and accept, reject or edit each change. Documents are formatted with BBCode. Uploaded files
get storage-safe names. A public share page lets a reader view stored versions and compare any
two of them side by side.

The modules follow the source files:

- `Changes` (`changes.dfy`) holds the `Change` record of `src/types/change.ts`. It also holds the
  per-element rewrites and the tally that both review stores share.
- `DocumentDiff` (`document_diff.dfy`) models `src/hooks/useDocumentDiff.ts`. It has the mapping
  from word-diff parts to changes. Its class `DiffReview` holds the live `changes` list and the
  computed list that reset restores.
- `ChangeStore` (`change_store.dfy`) models `src/hooks/useChanges.ts`. Its class `ChangeList`
  holds one `changes` list; its reset marks every change pending.
- `NormalizeContent` (`normalize_content.dfy`) models `src/utils/normalizeContent.ts`. The loosely
  typed input is a datatype with one variant per shape the function tells apart.
- `BBCode` (`bbcode.dfy`) models `src/utils/formatBBCode.ts`:
  - the cursor splice `insertBBCode`;
  - the two regex chains, through one generic rewriter. It replaces each leftmost, shortest tag
    pair and follows JavaScript's rules: `.` stops at line terminators unless the `s` flag is
    set, the list-item rule closes at a lookahead, and `trim` uses JavaScript's whitespace set.
- `FileNames` (`file_names.dfy`) models `sanitizeFileName` of `src/lib/utils.ts`.
- `Share` (`share.dfy`) models `src/pages/Share.tsx`:
  - version lookup, `makeComparable` and the sort comparator, as functions;
  - the page state, as the class `SharePage`, with one method per handler.
- `Options` (`options.dfy`) is the `Option` datatype that the others use.

State that the source changes in place is modelled as a class. Each method states the full new
state. Where the source replaces a list by mapping over it, the method assigns the result of a
specification function, and the lemmas about that function carry the properties.

## Model

| member | source | states |
|---|---|---|
| Changes.SetStatusOf | src/hooks/useDocumentDiff.ts:45-47 | every entry whose id matches gets the new status; all other statuses, and every id, type and content, are kept, as is the length |
| Changes.SetAllStatus | src/hooks/useDocumentDiff.ts:51-58 | every entry, unchanged or edited ones included, gets the one status; ids, types, contents and order are kept |
| Changes.CountStatus | src/hooks/useDocumentDiff.ts:68-71 | the number of entries with a status is at most the length of the list |
| Changes.Tally | src/hooks/useDocumentDiff.ts:66-73 | the four buckets add up to the length of the list, unchanged entries included |
| Changes.TallyPartitions | src/hooks/useDocumentDiff.ts:66-73 | accepted + rejected + pending + edited counts equal the length, for every list |
| Changes.CountZeroIff | src/hooks/useDocumentDiff.ts:68-71 | a bucket is empty exactly when no entry has that status |
| Changes.CountAfterSetAll | src/hooks/useDocumentDiff.ts:51-58 | after a bulk update, the chosen status counts every entry and every other status counts none |
| Changes.TallyAfterSetAll | src/hooks/useDocumentDiff.ts:51-58 | after accept-all the tally is (length, 0, 0, 0); likewise for the other statuses |
| Changes.SetStatusOfUnknownId | src/hooks/useDocumentDiff.ts:45-47 | an id that no entry has leaves the list unchanged |
| Changes.SetStatusOfIdempotent | src/hooks/useDocumentDiff.ts:45-47 | setting the same status on the same id twice equals doing it once |
| Changes.SetStatusOfDense | src/hooks/useDocumentDiff.ts:19-24 | with dense ids 0..n-1, a status update rewrites exactly entry `id`, and an id out of range is a no-op |
| Changes.SetAllStatusIdempotent | src/hooks/useChanges.ts:12-14 | accept-all, reject-all and the pending reset are each idempotent |
| Changes.PendingRestoresPristine | src/hooks/useDocumentDiff.ts:19-24 | marking every entry pending gives back a freshly computed list with the same ids, types and contents |
| DocumentDiff.ToChanges | src/hooks/useDocumentDiff.ts:19-24 | one change per diff part, in order: change i has id i and status pending; its type is added if the part is added, removed if only removed, unchanged otherwise; its content is the part's value or "" |
| DocumentDiff.ComputeChanges | src/hooks/useDocumentDiff.ts:13-27 | missing texts are diffed as ""; a result that is not a list gives no changes; otherwise there is one pending change per part, and change i has id i, the type of part i (added over removed over unchanged) and part i's text or "" |
| DocumentDiff.AbsentTextIsEmpty | src/hooks/useDocumentDiff.ts:14 | a missing old or new text gives the same changes as an empty one |
| DocumentDiff.SpellsLikeParts | src/hooks/useDocumentDiff.ts:21-22 | the changes that are not added spell the parts' old side; those not removed spell the new side |
| DocumentDiff.ChangesSpellBothTexts | src/hooks/useDocumentDiff.ts:13-27 | given the word-diff library's documented contract, the computed changes spell back the old text and the new text |
| DocumentDiff.DiffReview.constructor | src/hooks/useDocumentDiff.ts:13-30 | the live list starts as the computed list |
| DocumentDiff.DiffReview.SetInputs | src/hooks/useDocumentDiff.ts:36-38 | new inputs recompute the changes and replace the live list with them |
| DocumentDiff.DiffReview.ApplyChange | src/hooks/useDocumentDiff.ts:41-48 | the entry with that id gets the status; nothing else changes; an unknown id is a no-op |
| DocumentDiff.DiffReview.ApplyAll | src/hooks/useDocumentDiff.ts:51-53 | every entry becomes accepted and the tally becomes (length, 0, 0, 0) |
| DocumentDiff.DiffReview.RejectAll | src/hooks/useDocumentDiff.ts:56-58 | every entry becomes rejected and the tally becomes (0, length, 0, 0) |
| DocumentDiff.DiffReview.ResetAll | src/hooks/useDocumentDiff.ts:61-63 | the live list becomes the computed list again, every entry pending |
| DocumentDiff.DiffReview.CurrentStats | src/hooks/useDocumentDiff.ts:66-73 | each bucket counts the live entries with its status, and the buckets add up to the length |
| ChangeStore.ChangeList.constructor | src/hooks/useChanges.ts:6 | the list starts as the initial argument |
| ChangeStore.ChangeList.UpdateChange | src/hooks/useChanges.ts:8-10 | only the entries with that id change status; ids, types, contents and length are kept; an unknown id is a no-op |
| ChangeStore.ChangeList.AcceptAll | src/hooks/useChanges.ts:12 | every status becomes accepted; ids, types, contents and order are kept |
| ChangeStore.ChangeList.RejectAll | src/hooks/useChanges.ts:13 | every status becomes rejected; ids, types, contents and order are kept |
| ChangeStore.ChangeList.ResetAll | src/hooks/useChanges.ts:14 | every status becomes pending; ids, types, contents and order are kept |
| ChangeStore.ResetDiffersFromRestore | src/hooks/useChanges.ts:14 | this reset is not a restore: an initial list holding an accepted change is not given back |
| NormalizeContent.JoinInserts | src/utils/normalizeContent.ts:23 | the joined inserts are as long as the inserts' texts together, and ops without inserts give "" |
| NormalizeContent.JoinInsertsAppend | src/utils/normalizeContent.ts:23 | joining is a homomorphism: the join of two op lists is the join of each, concatenated |
| NormalizeContent.OneOpJoins | src/utils/normalizeContent.ts:23 | one operation contributes its string insert, the text of a truthy non-string insert, or "" when the insert is missing or falsy |
| NormalizeContent.Normalize | src/utils/normalizeContent.ts:11-33 | falsy input gives ""; a string comes back unchanged; `true` gives "true"; an op list of operations gives the in-order join of their inserts, "" for a missing or falsy one, as long as the inserts together; an op list with a nullish op falls back to the text form; another object gives its JSON text, or its text form when serialising fails |
| NormalizeContent.DeltaOfTexts | src/utils/normalizeContent.ts:22-24 | a Delta whose ops insert given texts normalises to those texts concatenated in order |
| NormalizeContent.TextOps | src/utils/normalizeContent.ts:22-24 | one op per text |
| NormalizeContent.TextOpsAreOps | src/utils/normalizeContent.ts:22 | every op built from texts is a real op |
| NormalizeContent.JoinTextOps | src/utils/normalizeContent.ts:23 | joining the ops built from texts gives the texts concatenated |
| BBCode.Substring | src/utils/formatBBCode.ts:60 | JavaScript `substring`: in-range bounds in either order give the slice between them |
| BBCode.InsertBBCode | src/utils/formatBBCode.ts:54-72 | for 0 <= start <= end <= length, the result is the text before start, `[tag]`, the selection, `[/tag]` and the text after end; it is 2·\|tag\|+5 longer; the new position is just past the close tag |
| BBCode.ReversedSelectionRepeatsText | src/utils/formatBBCode.ts:60-67 | with the selection ends reversed, `substring` swaps them for the selection but not for the text before and after, so the text between them appears three times: before the open tag, between the tags and after the close tag |
| BBCode.CloseAt | src/utils/formatBBCode.ts:21 | a close alternative found at the start of the text is listed; none found means none is a prefix |
| BBCode.LazyGroupEnd | src/utils/formatBBCode.ts:6-21 | the lazy group `(.*?)` ends at the first position where a close follows, with no close starting earlier; without the `s` flag it crosses no line terminator; there is no match exactly when no close starts before the first line terminator (or, with the `s` flag, before the end) |
| BBCode.MatchOneGroup | src/utils/formatBBCode.ts:6-21 | a match of a one-group tag ends inside the text |
| BBCode.MatchTwoGroups | src/utils/formatBBCode.ts:10-13 | a match of a two-group tag (`[url=…]`, `[color=…]`, `[size=…]`) ends inside the text |
| BBCode.MatchAt | src/utils/formatBBCode.ts:6-21 | a match starts with the rule's open tag and ends inside the text |
| BBCode.Rewrite | src/utils/formatBBCode.ts:6-21 | one global `.replace`: empty text stays empty, and a text in which the rule's first character never occurs is returned as it is |
| BBCode.ApplyRules | src/utils/formatBBCode.ts:5-22 | the `.replace` chain applied rule after rule; a text without `[` passes it unchanged |
| BBCode.ApplyRulesAppend | src/utils/formatBBCode.ts:5-22 | a chain of replaces split in two is the second part applied to the first part's result |
| BBCode.RewriteCopiesPlain | src/utils/formatBBCode.ts:6-21 | text before the first `[` is copied unchanged by a rewrite |
| BBCode.RewriteWithoutBracket | src/utils/formatBBCode.ts:6-21 | every rule opens with `[`, so a text without `[` is left alone by each rule |
| BBCode.ApplyRulesWithoutBracket | src/utils/formatBBCode.ts:6-21 | a text without `[` is left alone by the whole chain |
| BBCode.RewriteCopiesPiece | src/utils/formatBBCode.ts:6-21 | a piece that cannot start a match is copied unchanged |
| BBCode.RewriteKeepsPieces | src/utils/formatBBCode.ts:6-21 | a text made of pieces none of which starts the rule's tag is left alone |
| BBCode.ApplyRulesKeepsPieces | src/utils/formatBBCode.ts:6-21 | such a text is left alone by every rule of the chain |
| BBCode.CloseAtNone | src/utils/formatBBCode.ts:6-21 | no close tag starts at a character other than `[`, nor where the second character differs from every close |
| BBCode.LazyScan | src/utils/formatBBCode.ts:6-21 | the lazy group skips positions where no close starts |
| BBCode.NoCloseAtBodyPosition | src/utils/formatBBCode.ts:6-21 | no close starts inside a body that holds none |
| BBCode.LazyGroupOverBody | src/utils/formatBBCode.ts:6-21 | over a body without a close, followed by a close, the lazy group is exactly that body |
| BBCode.MatchTagAt | src/utils/formatBBCode.ts:6-21 | `open + body + close…` matches with the body as group 1, ending after the close, or at it when the rule looks ahead |
| BBCode.OneGroupAt | src/utils/formatBBCode.ts:6-21 | a one-group match takes the lazy group and ends after the close, or at it under lookahead |
| BBCode.RewriteTagAt | src/utils/formatBBCode.ts:6-21 | such a text becomes the template filled with the body, followed by the rewrite of the rest |
| BBCode.RewriteAtMatch | src/utils/formatBBCode.ts:6-21 | at a match, the rewrite emits the filled template and continues after the match |
| BBCode.RewriteOpenWithoutClose | src/utils/formatBBCode.ts:6-21 | an open tag never closed on its line is left as written |
| BBCode.ListRulesWithoutBracket | src/utils/formatBBCode.ts:19-21 | the list and item rules leave text without `[` alone, in either order |
| BBCode.ListsThenItems | src/utils/formatBBCode.ts:19-21 | the source's order of the list rules (lists, numbered lists, then items); with `[`-opened rules a text without `[` is unchanged |
| BBCode.ItemsThenLists | src/utils/formatBBCode.ts:19-21 | the corrected order (items first, while their `[/list]` is still there); with `[`-opened rules a text without `[` is unchanged |
| BBCode.NewlinesToBreaks | src/utils/formatBBCode.ts:22 | the output holds no line feed; text without one is unchanged; nothing gets shorter |
| BBCode.CollapseNewlines | src/utils/formatBBCode.ts:46 | no two line feeds are adjacent in the output; the first character stays; text without a double line feed is unchanged |
| BBCode.LeadingSpace | src/utils/formatBBCode.ts:47 | the leading whitespace run, ending at the first non-whitespace character |
| BBCode.TrailingSpace | src/utils/formatBBCode.ts:47 | the trailing whitespace run, ending at the last non-whitespace character |
| BBCode.TrimJs | src/utils/formatBBCode.ts:47 | JavaScript `trim`: no whitespace at either end; trimmed text is unchanged; collapsed line feeds stay collapsed; an empty result means the text was all whitespace |
| BBCode.InlineRulesBracketed | src/utils/formatBBCode.ts:6-18 | every inline rule opens with `[` |
| BBCode.BBCodeToHtml | src/utils/formatBBCode.ts:2-23 | the chain in the source's order: empty input comes back as is; the output has no line feed; text without `[` only has its line feeds made `<br>`, so text without `[` and line feeds is unchanged |
| BBCode.BBCodeToHtmlCorrected | src/utils/formatBBCode.ts:2-23 | the same promises for the corrected chain, which converts list items before the list tags |
| BBCode.FormatBBCode | src/utils/formatBBCode.ts:51 | the alias is the source's chain: empty input comes back as is, the output has no line feed, and text without `[` only has its line feeds made `<br>` |
| BBCode.BBCodeToPlainText | src/utils/formatBBCode.ts:26-48 | the chain in the source's order: empty input comes back as is; the output is trimmed with no double line feed; text without `[` only has its line feeds collapsed and is trimmed |
| BBCode.BBCodeToPlainTextCorrected | src/utils/formatBBCode.ts:26-48 | the same promises for the corrected chain (items first, a real bullet) |
| BBCode.InlineOpensClearOfLists | src/utils/formatBBCode.ts:6-18 | no inline tag can start at `[list]`, `[*]` or `[/list]` |
| BBCode.ClearRulesKeepPieces | src/utils/formatBBCode.ts:6-18 | the inline rules leave list markup and `[`-free text alone |
| BBCode.InlineRulesKeepList | src/utils/formatBBCode.ts:6-18 | a one-item list passes through the inline rules unchanged |
| BBCode.HtmlOnListText | src/utils/formatBBCode.ts:19-22 | in the source order, a one-item list meets the list rules first |
| BBCode.CorrectedHtmlOnListText | src/utils/formatBBCode.ts:19-22 | in the corrected order, a one-item list meets the item rule first |
| BBCode.PlainOnListText | src/utils/formatBBCode.ts:43-47 | in the source order, list text meets the list rules first, then the garbled bullet rule |
| BBCode.CorrectedPlainOnListText | src/utils/formatBBCode.ts:43-47 | in the corrected order, list text meets the item rule first |
| BBCode.ListRuleStep | src/utils/formatBBCode.ts:19-20 | `[list]body[/list]` becomes the list template around the body |
| BBCode.ItemRuleStep | src/utils/formatBBCode.ts:21 | `[*]x[/list]` becomes the item template around x, and the `[/list]` stays |
| BBCode.UnorderedListHtmlStep | src/utils/formatBBCode.ts:19 | `[list]body[/list]` becomes `<ul class="list-disc pl-6">body</ul>` |
| BBCode.UnorderedListPlainStep | src/utils/formatBBCode.ts:43 | `[list]body[/list]` becomes the body |
| BBCode.UnorderedListHtmlOnItem | src/utils/formatBBCode.ts:19 | the unordered list rule turns a one-item list into `<ul …>[*]x</ul>` |
| BBCode.OrderedListKeepsBareItem | src/utils/formatBBCode.ts:20 | the numbered list rule leaves that output alone |
| BBCode.ItemKeepsBareItem | src/utils/formatBBCode.ts:21 | with `[/list]` gone, the item rule finds no lookahead and leaves `[*]x` unconverted |
| BBCode.ListItemLeftUnconverted | src/utils/formatBBCode.ts:19-21 | as written, `[list][*]x[/list]` becomes `<ul …>[*]x</ul>`: the item is never turned into `<li>` |
| BBCode.FormatBBCodeLeavesListItem | src/utils/formatBBCode.ts:51 | the conversion the share page renders (Share.tsx:526) leaves `[list][*]x[/list]` as `<ul …>[*]x</ul>` |
| BBCode.ItemInList | src/utils/formatBBCode.ts:21 | items first: `[list][*]x[/list]` becomes `[list]<li>x</li>[/list]` |
| BBCode.ItemHtmlInList | src/utils/formatBBCode.ts:19-21 | then the list rule wraps that in `<ul …>` and `</ul>` |
| BBCode.ListItemConverted | src/utils/formatBBCode.ts:19-21 | corrected: `[list][*]x[/list]` becomes `<ul …><li>x</li></ul>` |
| BBCode.UnorderedListPlainOnItem | src/utils/formatBBCode.ts:43 | in plain text, the list rule strips the tags and leaves `[*]x` |
| BBCode.LaterPlainRulesKeepBareItem | src/utils/formatBBCode.ts:44-45 | the numbered list and item rules leave `[*]x` alone |
| BBCode.BareItemOutput | src/utils/formatBBCode.ts:46-47 | collapsing and trimming give back `[*]x` for one trimmed line |
| BBCode.PlainListItemLeftUnconverted | src/utils/formatBBCode.ts:43-47 | as written, the plain text of `[list][*]x[/list]` is `[*]x`, with the item marker still in it |
| BBCode.BulletLine | src/utils/formatBBCode.ts:45-47 | a bullet line followed by a line feed trims to the bullet line |
| BBCode.PlainListItemConverted | src/utils/formatBBCode.ts:43-47 | corrected: the plain text of `[list][*]x[/list]` is `• x` |
| BBCode.StrayItemThenLists | src/utils/formatBBCode.ts:45 | an item before a stray `[/list]` becomes a bullet line, and the `[/list]` stays |
| BBCode.ListsKeepStrayItem | src/utils/formatBBCode.ts:43-44 | the list rules leave an item with only a stray `[/list]` alone |
| BBCode.StrayItemOutput | src/utils/formatBBCode.ts:45-47 | collapsing and trimming keep that bullet line and the stray tag |
| BBCode.ItemBulletGarbled | src/utils/formatBBCode.ts:45 | as written, `[*]x[/list]` turns into `â€¢ x`, line feed, `[/list]`: the bullet is U+2022 read back as Windows-1252 |
| BBCode.ItemBulleted | src/utils/formatBBCode.ts:45 | corrected: the same input turns into `• x`, line feed, `[/list]` |
| FileNames.LastDot | src/lib/utils.ts:10 | `lastIndexOf(".")`: a dot with no dot after it, or -1 when there is no dot |
| FileNames.SplitName | src/lib/utils.ts:10-12 | base and extension together are the name; the extension is empty exactly when there is no dot; otherwise it starts with the last dot and has no other dot |
| FileNames.StripMarks | src/lib/utils.ts:15 | no combining mark (U+0300–U+036F) is left; a single mark gives ""; a text without marks is unchanged |
| FileNames.StripMarksAppend | src/lib/utils.ts:15 | stripping goes character by character: the strip of two texts joined is their strips joined, so with the single-character cases every non-mark character is kept in its place |
| FileNames.LowerAscii | src/lib/utils.ts:17 | same length; each ASCII capital is lowered and every other character is kept |
| FileNames.DashRuns | src/lib/utils.ts:18 | the result holds only a–z, 0–9 and `-`, never two dashes in a row; it starts with a dash exactly when the input starts with something other than a letter or digit |
| FileNames.DashRunsKeepAlphanumerics | src/lib/utils.ts:18 | merging runs keeps every letter and digit, in order |
| FileNames.DashRunsAppend | src/lib/utils.ts:18 | after a letter or digit a run is closed, so the merge of two texts joined there is the two merges joined |
| FileNames.DashRunsOfRun | src/lib/utils.ts:18 | a whole run of characters other than letters and digits becomes a single dash |
| FileNames.DashRunsBetweenWords | src/lib/utils.ts:18 | between two words a run becomes exactly one dash, in its place: `x + run + y` merges to the merge of x, `-`, the merge of y |
| FileNames.TrimLeadingDashes | src/lib/utils.ts:19 | `^-+` removed: a suffix of the text that does not start with a dash |
| FileNames.TrimLeadingKeeps | src/lib/utils.ts:19 | removing the leading dashes keeps every letter and digit, and keeps a single-dashed text of letters, digits and dashes so |
| FileNames.TrimTrailingDashes | src/lib/utils.ts:19 | `-+$` removed: a prefix of the text that does not end with a dash, and only dashes were cut |
| FileNames.TrimTrailingKeeps | src/lib/utils.ts:19 | removing the trailing dashes keeps every letter and digit, and keeps a single-dashed text of letters, digits and dashes so |
| FileNames.Slug | src/lib/utils.ts:15-19 | the slug holds only a–z, 0–9 and single dashes, with no dash at either end, and exactly the letters and digits of the lowered, mark-free base |
| FileNames.SafeBase | src/lib/utils.ts:21 | never empty and always slug-shaped: the slug, or "file" when the slug is empty |
| FileNames.FallbackIsSlug | src/lib/utils.ts:21 | "file" is itself slug-shaped |
| FileNames.FilterExt | src/lib/utils.ts:22 | only ASCII letters of either case, digits and dots remain; an extension of those is unchanged; the leading dot survives and no second dot appears |
| FileNames.SanitizeFileName | src/lib/utils.ts:9-24 | the result is the safe base followed by the filtered extension; it starts with a letter or digit and holds only ASCII letters, digits, dots and dashes |
| FileNames.DashRunsOfSlug | src/lib/utils.ts:18 | a single-dashed text of letters, digits and dashes is unchanged by the run merge |
| FileNames.SlugOfSlug | src/lib/utils.ts:15-19 | a slug is its own slug |
| FileNames.SplitOfSanitized | src/lib/utils.ts:10-12 | a sanitised name splits back into its safe base and filtered extension |
| FileNames.SanitizeIdempotent | src/lib/utils.ts:9-24 | sanitising a sanitised name changes nothing |
| FileNames.LastDotIs | src/lib/utils.ts:10 | a dot with no dot after it is the last dot |
| Share.FindVersion | src/pages/Share.tsx:121 | `find`: nothing exactly when no version has the id; otherwise the first version with it |
| Share.VersionText | src/pages/Share.tsx:125 | a version's own content, or the document's when it has none, passed through the normaliser |
| Share.LatestAuthor | src/pages/Share.tsx:156 | the client, or "system" when the client is empty |
| Share.MakeComparable | src/pages/Share.tsx:147-172 | "latest" gives the document's text with number 999, flagged latest, stamped `now`; any other id gives nothing exactly when no version has it, and otherwise that version with its normalised content, not flagged |
| Share.CompareAntisymmetric | src/pages/Share.tsx:183-187 | the comparator is antisymmetric, so the order of the two entries in the array does not decide the sort |
| Share.OrderPair | src/pages/Share.tsx:183-189 | the pair holds the two entries; the left compares at most the right; a latest entry is on the right; otherwise the left version number is at most the right one |
| Share.OrderPairSymmetric | src/pages/Share.tsx:183-189 | ticking the two entries in the other order gives the same sides unless they tie |
| Share.Add | src/pages/Share.tsx:137-138 | `Set.add`: the id is in the set afterwards, every other member stays, no repetition appears; a new id goes at the end |
| Share.Remove | src/pages/Share.tsx:139 | `Set.delete`: the id is gone, every other member stays in order, no repetition appears |
| Share.AddThenRemove | src/pages/Share.tsx:135-142 | ticking an unticked id and unticking it again restores the set, order included |
| Share.ComparisonFor | src/pages/Share.tsx:174-191 | a pair exists exactly when two ids are ticked and both resolve; it is the two comparable entries built from those ids, sorted by the comparator; a ticked "latest" is on the right; otherwise the left number is at most the right |
| Share.SharePage.constructor | src/pages/Share.tsx:53-67 | no data, no version selected, empty content, nothing ticked, not comparing, no pair |
| Share.SharePage.Loaded | src/pages/Share.tsx:95-96 | the shared document is kept and its text is shown; nothing else changes |
| Share.SharePage.HandleVersionSelect | src/pages/Share.tsx:119-126 | without data or with an unknown id nothing changes; otherwise that version is selected and its normalised text shown |
| Share.SharePage.ResetToLatest | src/pages/Share.tsx:128-132 | with data, no version is selected and the document's text is shown |
| Share.SharePage.HandleVersionCheckboxChange | src/pages/Share.tsx:135-142 | a tick adds the id and an untick removes it; afterwards the id is in the set exactly when ticked; every other id keeps its membership |
| Share.SharePage.ClearSelectedVersions | src/pages/Share.tsx:144 | nothing is ticked; everything else is kept |
| Share.SharePage.HandleCompare | src/pages/Share.tsx:174-191 | nothing changes unless data is loaded, exactly two ids are ticked and both resolve; then the page compares the ordered pair |
| Share.SharePage.ExitComparison | src/pages/Share.tsx:193-197 | not comparing, no pair, nothing ticked; the sidebar is back when there are versions |
| Share.SharePage.OnVersionCreatedAsWritten | src/pages/Share.tsx:459-464 | as written: ticks and pair cleared but still comparing, so the page leaves Valid; the plain document view shows, but neither the sidebar (line 291) nor the comparison with its exit controls (lines 423, 443, 457) |
| Share.SharePage.OnVersionCreated | src/pages/Share.tsx:459-464 | corrected: it also leaves comparison mode, so the page stays Valid and the sidebar returns |
| Share.ValidPageShowsAView | src/pages/Share.tsx:291 | on a valid page with versions, exactly one of the sidebar and the comparison view is shown |
| Share.StrandedAfterSave | src/pages/Share.tsx:459-464 | load, tick "latest" and a stored version, compare, then run the callback: still comparing, with neither the sidebar nor the comparison shown |

## Left out

- `diffWords` from the `diff` package is a parameter, a function from two texts to a result.
  The model does not implement a word diff. The round-trip lemma assumes only the package's
  documented contract: the parts that are not added spell the old text, and those not removed
  spell the new text.
- React mechanics are not modelled: `useMemo`, `useEffect`, re-render timing and `console.log`.
  Recomputing the diff is `SetInputs`, which replaces the list.
- The network is not modelled. This covers `fetchSharedDocument` (Share.tsx:82-116) apart from
  storing the data it receives, which is `Loaded`. It also covers the error and loading states
  and the share endpoint.
- The clock is not modelled: `new Date().toISOString()` is the parameter `now`. Expiry checks are
  left out.
- `cn` (utils.ts:4-6) is a class-name helper from foreign libraries and is not modelled.
- Presentational components and the page's rendering are not modelled. The only exception is
  the two conditions for showing the sidebar and the comparison.
- Demo data is not modelled.
- FileNames.StripMarks: NFKD normalisation is taken as the identity. Only the combining-mark
  strip is modelled, so a precomposed letter such as `é` becomes a dash rather than `e`.
- FileNames.LowerAscii: only ASCII capitals are lowered. A non-ASCII character whose lower case
  is an ASCII letter, such as the Kelvin sign, becomes a dash instead.
- NormalizeContent.Normalize: `JSON.stringify` and `String()` are foreign. Their results are
  carried in the input datatype as text.
- Numbers are unbounded integers. The `?? 0` on version numbers in the comparator
  (Share.tsx:186) is dropped, because the type makes them non-null.
- BBCode.MatchTwoGroups: it is modelled, but the lemmas that describe whole conversions cover
  only the one-group tags and the list rules.
- BBCode.ListItemLeftUnconverted, ListItemConverted, ItemBulletGarbled and ItemBulleted are
  proved for one item whose text has no `[` and no line terminator. PlainListItemLeftUnconverted
  also needs the text trimmed, and PlainListItemConverted needs it trimmed and non-empty.
- BBCode.InsertBBCode and BBCode.Substring index a text by characters (Unicode scalar values).
  JavaScript indexes strings by UTF-16 code units, so on text with characters outside the Basic
  Multilingual Plane (emoji, say) the selection offsets, the `substring` cuts and `newPosition`
  differ from the model, and JavaScript can split a surrogate pair, which the model cannot.
- The BBCode conversions are stated for one rule set each. The many-item, nested and mixed-tag
  cases follow from the same rewriter but are not stated as lemmas.
- Share: `version1`'s badge text and the DOCX placeholder check are rendering only and are not
  modelled.

## Findings

| source | as written | input that shows it | evidently intended | confidence | as-written member | corrected member |
|---|---|---|---|---|---|---|
| src/utils/formatBBCode.ts:19-21, 43-45 | the `[list]` rules run before the item rule, so the `[/list]` that the item lookahead waits for is already gone | `[list][*]x[/list]` gives `<ul class="list-disc pl-6">[*]x</ul>` in HTML and `[*]x` in plain text | `<ul …><li>x</li></ul>` and `• x` | high, not executed | BBCode.ListItemLeftUnconverted, BBCode.PlainListItemLeftUnconverted | BBCode.ListItemConverted, BBCode.PlainListItemConverted |
| src/utils/formatBBCode.ts:45 | the bullet literal is the UTF-8 bytes of U+2022 read back as Windows-1252 | `[*]x[/list]` gives `â€¢ x`, a line feed, then `[/list]` | `• x` | high, not executed | BBCode.ItemBulletGarbled | BBCode.ItemBulleted |
| src/pages/Share.tsx:459-464 | the `onVersionCreated` callback clears the ticks and the pair but leaves comparison mode on; the plain document view then shows (the else branch of line 423), but the version sidebar (line 291) and the exit controls (lines 443, 457) are gone. The imported component src/components/comparison/DocumentComparison.tsx declares only `version1`, `version2` and `onBack` (lines 15-19), so nothing in this source calls the callback; the defect is latent until a component does | tick "latest" and a stored version, compare, then have the comparison component call `onVersionCreated` | leave comparison mode as `exitComparison` does | low, not executed; not reachable in this source | Share.SharePage.OnVersionCreatedAsWritten, Share.StrandedAfterSave | Share.SharePage.OnVersionCreated |
