# Accreditation form engine — a Dafny model

This project models the engine of the course-accreditation form generator in
`app.py`. Each spreadsheet row describes a training course. The engine
resolves the row's cells into a tag → value mapping through a fixed rule
table (`build_mapping`). It fills the Word template's content controls with
that mapping, or falls back to replacing tag names in paragraphs
(`generate_docx_from_template`). It generates one form per row, in bulk or
per row. Around this engine the project also models:

- the `{{...}}` placeholder discoverer (`extract_placeholders_from_word`);
- the status and delivery classifiers and the per-row counting of the
  statistics;
- the pagination arithmetic of the form list;
- the template-versus-columns comparison.

Modules, one file each:

| file | module | models |
|---|---|---|
| `wrappers.dfy` | `Wrappers` | `Option`, and `Result` (a value, or an exception that was raised) |
| `seqs.dfy` | `Seqs` | scans shared by several loops: the first element that passes a test, per-element outputs joined in order, and per-element sets united |
| `text.dfy` | `Text` | Python's `strip`, `lower`, `in`, `replace`, `isdigit`, `str(int)` |
| `slotmap.dfy` | `SlotMaps` | the mapping dict: its insertion order, its values, and `d[k] = v` |
| `values.dfy` | `Values` | cells, value clean-up and duration formatting |
| `resolver.dfy` | `Resolver` | the rule table, column resolution and `build_mapping` |
| `document.dfy` | `Documents` | the abstract Word document; any part may be faulty |
| `placeholders.dfy` | `Placeholders` | the `{{...}}` regex and `extract_placeholders_from_word` |
| `filler.dfy` | `Filler` | `generate_docx_from_template`: tier 1 (content controls) and tier 2 (paragraphs) |
| `batch.dfy` | `Batch` | the bulk archive loop and the single-record path |
| `stats.dfy` | `Stats` | status and delivery classifiers, column detection and counting |
| `pagination.dfy` | `Pagination` | page count and page bounds |
| `comparison.dfy` | `Comparison` | matched, similar, missing and unused columns |

Where the code does something in place or in a loop, the model is a `method`
with loop invariants. Its `ensures` ties the result to a specification
function. Lemmas then prove the promised properties of that function.

Some behaviours of the code differ from what one might expect. The model
follows the code:

- **Discovery ignores tags.** Placeholder discovery reads only the
  `{{...}}` tokens of paragraphs and table cells. It never reads the tags of
  content controls (app.py:504-550).
- **Last write wins.** When two rules target the same tag, the later rule's
  non-empty value replaces the earlier one. A later empty value leaves the
  earlier one in place (`Resolver.ResolveIsLastWrite`).
- **Sentinels are tested before trimming.** The `nan`/`none`/`nat` test sees
  the untrimmed text. So `" nan "` is stored as `"nan"`
  (`Values.PaddedSentinelSurvives`).
- **The digit test is redundant.** The duration formatter's digit test never
  changes the result. A digit string never contains `يوم`, so the second
  branch gives the same answer (`Values.FormatDurationByDayWord`).
- **The two paths number forms differently.**
  - The bulk loop names a form from the row's dataframe index label plus
    one (app.py:1421). After the audience or date filter these labels have
    gaps.
  - The single-record path names a form from the row's position in the
    filtered table plus one (app.py:1383).

  So the same row can get two different file names.
- **Some cells raise.** A cell whose `str()` raises is a `Value.Unprintable`
  cell. `build_mapping` lets that exception escape. The bulk loop turns it
  into a warning; the single path does not catch it.

## Model

| member | source | states |
|---|---|---|
| Text.Strip | app.py:626 | `str.strip()`: the result has no leading or trailing whitespace (Python's notion of whitespace) and is no longer than the text |
| Text.StripRemovesSurroundingSpace | app.py:626 | `str.strip()` removes exactly the surrounding whitespace: the result is a slice of the text with only whitespace before and after it |
| Text.Lower | app.py:618 | `str.lower()`, character by character, so the length is kept (ASCII letters only; see Left out) |
| Text.Contains | app.py:595 | `p in s`: `p` occurs in `s` as a contiguous run; `ContainsAt` and `ContainsWitness` prove that this means an occurrence at some position |
| Text.ReplaceAll | app.py:732 | `str.replace(p, r)`: non-overlapping occurrences replaced left to right; `ReplaceAbsent` proves that a text without `p` is unchanged |
| Text.IsDigit | app.py:636 | `str.isdigit()` for one character: ASCII, Arabic-Indic and Extended Arabic-Indic digits (see Left out) |
| Text.NatToString | app.py:1421 | `str(n)` for an index label: at least one digit, and two or more exactly from 10 up; `NatToStringInjective` proves different numbers print differently |
| SlotMaps.Put | app.py:647-648 | `mapping[tag] = value` keeps the dict invariant: the stored value is replaced; a new key joins the end of the iteration order; an existing key keeps its place |
| Values.CellText | app.py:588 | a missing cell reads as the empty text; an unprintable cell raises, and only such a cell raises |
| Values.CleanValue | app.py:624-628 | the cleaned value is empty exactly when the raw text is empty, is a sentinel in lower case (tested before trimming), or is all whitespace; otherwise it is the trimmed text, so it never has surrounding whitespace |
| Values.CleanPlainText | app.py:625-626 | an unpadded text that is too long to be a sentinel passes clean-up unchanged |
| Values.PaddedSentinelSurvives | app.py:625-626 | `" nan "` survives as `"nan"`, which a second clean-up would drop |
| Values.FormatDuration | app.py:631-644 | a count of digits (dots ignored) becomes `"<n> يوم"`; a text that already mentions `يوم` is unchanged; any non-blank result mentions `يوم`; a blank text is unchanged |
| Values.DigitsHoldNoDayWord | app.py:636 | a text of digits and dots never mentions `يوم` |
| Values.FormatDurationByDayWord | app.py:635-641 | formatting equals "append ` يوم` to the trimmed text unless it is blank or already mentions `يوم`": the digit branch is redundant |
| Values.FormatDurationIdempotent | app.py:631-641 | formatting its own output changes nothing |
| Values.DurationOfBareCount | app.py:636-637 | `"3"` becomes `"3 يوم"` |
| Values.DurationOfSuffixedCount | app.py:638-641 | `"3 يوم"` stays as it is |
| Values.Normalise | app.py:624-644 | the slot value is empty exactly when clean-up empties it; other slots get the cleaned value; a non-empty duration mentions `يوم` |
| Seqs.FirstWhere | app.py:594-622 | a scan that breaks at its first hit returns a position that passes the test with no earlier position passing; it finds nothing only when no position passes |
| Seqs.FirstWhereAt | app.py:594-622 | a scan that has passed `i` positions without a hit stops at `i` when position `i` passes, and finds nothing at the end |
| Resolver.StrategyOf | app.py:595-622 | which branch of the fallback scan a rule takes: the venue branch when the header contains `مكان الانعقاد`, the lab branch when it contains `تحتاج لمعمل` or `معمل`, else the generic branch |
| Resolver.Canonical | app.py:591 | the header as the generic branch compares it: trimmed, then lower-cased |
| Resolver.Accepts | app.py:595-622 | the test each branch applies to a column: an exact venue spelling or both venue words; the lab header or the lab phrase; equal or mutually contained canonical names |
| Resolver.ResolveColumn | app.py:586-622 | a column named exactly like the rule wins, and a found column is always a column of the table |
| Resolver.ResolveColumnByScan | app.py:594-622 | without an exactly named column, the column found is the first one the fallback scan accepts, and none is found exactly when no column is accepted |
| Resolver.ApplyRule | app.py:584-644 | the body of the rule loop computes exactly `RuleValue` |
| Resolver.RuleValue | app.py:584-644 | a rule raises exactly when its chosen cell is unprintable; without a chosen column its value is empty; a non-empty value is the cleaned (and, for the duration slot, formatted) text of the printable cell of the chosen column |
| Resolver.TagsOf | app.py:563-580 | the target tags of a rule table, the only keys the mapping may hold |
| Resolver.Resolve | app.py:560-650 | the mapping is a valid dict, holds no empty value, and has only target tags of the rule table as keys |
| Resolver.RaisesStep | app.py:583-622 | the mapping raises exactly when the rules before the last raise or the last rule raises |
| Resolver.ResolveStep | app.py:583-648 | one more rule writes its non-empty value over the mapping built so far, or aborts when it raises |
| Resolver.LastWrite | app.py:583-648 | the independent key-by-key reading of the mapping: the value of the last rule for the tag with a non-empty value; such a value is non-empty and comes from a rule for that tag |
| Resolver.ResolveIsLastWrite | app.py:583-648 | a tag is present exactly when some rule for it produced a non-empty value, and it then holds the value of the last such rule |
| Resolver.LastWriteOfDecidingRule | app.py:583-648 | a rule with a non-empty value and no later rule for its tag decides that tag's last write |
| Resolver.ResolveRaisesIff | app.py:583-622 | the mapping raises exactly when the chosen cell of some rule is unprintable |
| Resolver.PrintableRowResolves | app.py:583-622 | a row without unprintable cells has no unprintable chosen cell, so it always yields a mapping |
| Resolver.VenueRuleMatchesUnspacedHeader | app.py:595-601 | the rule spelled with a trailing space finds the header spelled without it through the venue special case |
| Resolver.LastWriteIgnoresOtherTags | app.py:583-648 | rules for other tags never change a tag's last write |
| Resolver.ChosenCellsPrintable | app.py:583-648 | no rule's chosen cell is unprintable, which by `ResolveRaisesIff` is exactly when the mapping is built |
| Resolver.SlotFromChosenColumn | app.py:583-648 | on a row where no chosen cell is unprintable, a rule whose chosen column (exact, venue, lab or fuzzy match) holds a usable text, followed by no other rule for its tag, decides that slot: the mapping is built and the slot holds the cell's normalised text |
| Resolver.VenueRuleDecides | app.py:565-579 | the unspaced venue rule is the sixth rule and the last one for the venue slot, which is not the duration slot |
| Resolver.VenueSlotFromUnspacedHeader | app.py:565-579 | with the venue header spelled without the space and no chosen cell unprintable, the mapping is built and the venue slot gets the trimmed cell text |
| Resolver.FindColumn | app.py:586-622 | the column scan with its early exit returns exactly `ResolveColumn` |
| Resolver.ApplyRules | app.py:583-648 | the loop over the rules returns exactly `Resolve`, and stores no empty value |
| Resolver.BuildMapping | app.py:552-650 | `build_mapping` over the fixed rule table: exactly `Resolve(RuleTable, …)`, with non-empty values under rule-table tags only |
| Placeholders.RunLength | app.py:517 | the class `[^}]+` consumes exactly the characters before the first `}` |
| Placeholders.MatchHere | app.py:517 | a match at the start of the text always consumes some text, so the scan moves forward |
| Placeholders.FindAll | app.py:517 | `re.findall` of the pattern: the names of the non-overlapping matches, left to right; its soundness is `FindAllSound`, its completeness for a lone token `TokenFound` |
| Placeholders.FindAllSound | app.py:517 | every name the regex finds is non-empty and free of `}`, and its `{{name}}` token occurs in the text |
| Placeholders.NamesNeedOpening | app.py:517 | a text without `{{` holds no placeholder |
| Placeholders.TokenFound | app.py:517 | the token of a non-empty, `}`-free name is found as exactly that name |
| Seqs.UnionOf | app.py:512-518 | `placeholders.update(...)` over a loop: the union of each part's names, accumulated in order |
| Seqs.InUnionOf | app.py:512-518 | the accumulated set holds a name exactly when some part contributed it |
| Seqs.UnionOfReplace | app.py:523-542 | replacing one part (by a faulty one, say) loses at most what that part contributed |
| Seqs.UnionOfAppend | app.py:515-518 | one more paragraph adds exactly its names |
| Placeholders.TablesIff | app.py:523-542 | a name comes from the tables exactly when it is in a readable cell of a readable row of a readable table |
| Placeholders.Discovered | app.py:504-550 | what discovery returns: nothing when the template does not open or its paragraphs cannot be read; else the names of the readable paragraphs, plus those of the readable cells when the table list can be read |
| Placeholders.DiscoveredIff | app.py:504-550 | a name is discovered exactly when the template opens, the paragraph list can be read, and the name is in a readable paragraph or (when the table list can be read) in a readable cell |
| Placeholders.DiscoveredSound | app.py:512-547 | every discovered name is non-empty and free of `}` |
| Placeholders.BrokenTableKeepsOthers | app.py:540-542 | a faulty table loses only its own names |
| Placeholders.BrokenCellKeepsOthers | app.py:529-536 | a faulty cell loses only its own names |
| Placeholders.AddedTokenParagraph | app.py:515-518 | adding a paragraph holding one token adds exactly that name |
| Placeholders.ScanParagraphs | app.py:515-520 | the paragraph loop gathers exactly the names of the readable paragraphs |
| Placeholders.ScanCells | app.py:528-536 | the cell loop gathers exactly the names of the readable cells |
| Placeholders.ScanRows | app.py:526-539 | the row loop gathers exactly the names of the readable rows |
| Placeholders.ScanTables | app.py:524-542 | the table loop gathers exactly the names of the readable tables |
| Placeholders.ExtractPlaceholders | app.py:504-550 | the paragraph loop and the table → row → cell loops return exactly the discovered set |
| Filler.Collected | app.py:676-683 | the first pass keeps a content control whose tag value is present and non-empty |
| Filler.Fillable | app.py:693-705 | a collected control is written when its trimmed tag maps to a non-empty value and it has at least one text run |
| Filler.Written | app.py:703-713 | the runs after a write: the value in the first, every other run empty, as many runs as before |
| Filler.FillControl | app.py:691-715 | one control after tier 1: written when fillable, else unchanged (`FilledControlShowsValue`) |
| Filler.FillAll | app.py:670-715 | tier 1 applied to every control of the body walk; `FillControls` proves the two-pass loop computes it |
| Filler.WrittenShowsValue | app.py:700-713 | after blanking the runs and writing the first one, the control shows exactly the value |
| Filler.FilledControlShowsValue | app.py:691-715 | a fillable control keeps its tag and its number of runs and shows its value; every other control is untouched |
| Filler.WriteRuns | app.py:700-713 | the clearing loop followed by the write gives the value in the first run and empty text in all others |
| Filler.FillOne | app.py:691-715 | one collected control is filled exactly when it is fillable; the result says whether it was |
| Filler.CollectedPositions | app.py:673-688 | every collected position is a position of the body holding a control with a non-empty tag |
| Filler.CollectedPositionsIncrease | app.py:673-688 | the positions are collected in walk order, each once |
| Filler.CollectedPositionsComplete | app.py:673-688 | every control with a non-empty tag is collected |
| Filler.CountAtCollected | app.py:691-715 | counting the fillable controls among the collected positions counts every fillable control of the body |
| Filler.CollectControls | app.py:673-688 | the first pass returns exactly the collected positions |
| Filler.FilledEverywhere | app.py:691-715 | once every collected position is handled, every control of the body is as tier 1 leaves it |
| Filler.FillControls | app.py:670-715 | tier 1 fills exactly the fillable controls, leaves all others as they were, and counts exactly the fillable controls |
| Filler.CountFillable | app.py:691-715 | the count of filled controls never exceeds the number of elements walked |
| Filler.ReplaceKeys | app.py:726-733 | a paragraph counts at most one replacement per mapping key |
| Filler.ReplaceKeysCountsMention | app.py:726-733 | a paragraph counts a replacement exactly when its original text mentions some key with a non-empty value; a paragraph that counts none keeps its text |
| Filler.ReplaceKeysAbsent | app.py:726-733 | a text that holds none of the keys is unchanged and counts nothing |
| Filler.ReplaceInParagraph | app.py:724-737 | a faulty paragraph is skipped with nothing counted; a readable one stays readable and counts at most one replacement per key |
| Filler.ReplaceInParagraphs | app.py:722-737 | tier 2 yields one paragraph per paragraph |
| Filler.ReplaceInParagraphsAt | app.py:724-737 | paragraph i of tier 2's result is paragraph i's own rewrite (its keys replaced in dict order, or unchanged when faulty), and its count is part of the total |
| Filler.ReplaceInParagraphsCountsMention | app.py:722-737 | tier 2 counts nothing exactly when no readable paragraph mentions a key whose value is non-empty |
| Filler.ReplaceInParagraphsBounds | app.py:722-737 | tier 2 leaves faulty paragraphs as they were and counts at most paragraphs × keys |
| Filler.ReplaceKeysInText | app.py:726-733 | the loop over the mapping for one paragraph computes exactly `ReplaceKeys` |
| Filler.UntaggedParagraphsUnchanged | app.py:722-737 | paragraphs that mention no key come out unchanged with a count of 0; this includes every paragraph under an empty mapping |
| Filler.ReplaceInText | app.py:722-737 | the paragraph loop with its inner loop over the mapping returns exactly `ReplaceInParagraphs` |
| Filler.Fill | app.py:652-763 | a document is returned exactly when the template opens and saves; tier 2 never rewrites tables, and the model's separate tables view is not updated by tier 1 either; an unreadable template counts nothing |
| Filler.FillWithEmptyMapping | app.py:691-737 | an empty mapping returns the template unchanged with a count of 0 |
| Filler.NothingFillableWhenEmpty | app.py:693 | no control is fillable under an empty mapping |
| Filler.GenerateDocx | app.py:652-763 | `generate_docx_from_template` returns exactly `Fill`: tier 1 when the body can be walked, otherwise tier 2 when the paragraphs can be read |
| Batch.FormName | app.py:1421 | a form name is longer than its prefix and suffix together: the form number in it has at least one digit |
| Batch.Outcome | app.py:1417-1426 | one row's attempt: a failure when the mapping raises, no document when the filler returns none, else the filled document |
| Batch.EntriesOf | app.py:1421-1425 | the archive entry of one attempt: its form, named from the index label plus one, when a document was produced |
| Batch.WarningsOf | app.py:1432-1433 | the warning of one attempt: its index label plus one, when the mapping raised |
| Batch.Archive | app.py:1415-1426 | the archive: the entries of the attempts in row order (`ArchiveSplits`, `ArchiveStep`) |
| Batch.Warnings | app.py:1415-1433 | the warnings of the attempts in row order (`WarningsSplit`) |
| Batch.FormNameInjective | app.py:1421-1425 | different form numbers give different file names |
| Batch.OneResultPerRow | app.py:1415-1433 | rows yield at most one entry or one warning each, never both; when every row produces a document there is one entry per row |
| Batch.ArchiveSplits | app.py:1415-1433 | rows are independent: the archive of two parts is the two archives concatenated |
| Batch.WarningsSplit | app.py:1432-1433 | the same holds for the warnings |
| Batch.EntriesComeFromAttempts | app.py:1421-1426 | every entry is the filled form of a row that produced one, named from that row's index plus one |
| Batch.DistinctIndexesDistinctNames | app.py:1421-1425 | rows with distinct index labels give entries with distinct names |
| Batch.Attempts | app.py:1415-1433 | the bulk loop makes one attempt per row |
| Batch.AttemptsAround | app.py:1415-1433 | the attempts of a table with one row singled out are those of the rows before it, that row's own, then those of the rows after it |
| Batch.ArchiveStep | app.py:1421-1433 | each attempt appends its own entry and warning to those of the attempts before it |
| Batch.NoEarlierEntryNamed | app.py:1421-1425 | no earlier entry carries the name of a row whose index label is new |
| Batch.AttemptsSplit | app.py:1415-1422 | each row is attempted on its own: the attempts of two parts of the table are the two parts' attempts, concatenated |
| Batch.SingleAttempt | app.py:1415-1433 | a single row contributes exactly its own entry and warning |
| Batch.FailedAttemptAddsNoEntry | app.py:1432-1433 | a failed row adds no entry |
| Batch.FailedAttemptAddsWarning | app.py:1432-1433 | a failed row adds exactly its warning |
| Batch.FailingRowOnlyWarns | app.py:1415-1433 | a row whose mapping raises adds only its warning: the rows before and after it still produce exactly what they would without it |
| Batch.CleanRowGenerates | app.py:1417-1425 | with a template that opens and saves, a row without unprintable cells always yields its form |
| Batch.GenerateRow | app.py:1416-1433 | the loop body for one row writes exactly that row's entry and shows exactly its warning |
| Batch.GenerateAll | app.py:1414-1433 | the bulk loop returns exactly the archive and the warnings of the row-by-row attempts |
| Batch.GenerateOne | app.py:1378-1384 | the single path raises exactly when the mapping raises; otherwise it returns a form exactly when one was produced, named from the page start plus the position plus one |
| Pagination.TotalPages | app.py:1346 | the page count; an empty table still has one page (`TotalPagesIsLeast`) |
| Pagination.StartIdx | app.py:1353 | the first row of a page, pages counted from 1 |
| Pagination.EndIdx | app.py:1354 | one past the last row of a page, cut at the table size (`PageWithinTable`) |
| Pagination.PageOf | app.py:1346-1354 | the page that shows a row (`RowOnExactlyOnePage`) |
| Pagination.FormNumber | app.py:1383 | the number a row's form carries on the single path: page start plus position plus one (`FormNumbersDistinct`) |
| Pagination.TotalPagesIsLeast | app.py:1346 | the page count is at least 1 and is the least number of pages that holds every row |
| Pagination.PageWithinTable | app.py:1346-1354 | every selectable page shows a slice of at most `per` rows within the table, and a non-empty slice when the table has rows |
| Pagination.RowOnExactlyOnePage | app.py:1346-1354 | every row is on exactly one selectable page |
| Pagination.FormNumbersDistinct | app.py:1353-1383 | on the single path, form numbers run from 1 to the table size, and different rows get different numbers |
| Stats.StatusOf | app.py:798-817 | the status classifier: unknown for a missing cell, else the keyword tests in elif order on the trimmed, lower-cased text; `StatusByPriority` proves it reads the keyword table in priority order |
| Stats.StatusByPriority | app.py:798-817 | the status classifier reads the keyword table in priority order: confirmed, postponed, in progress, cancelled, else unknown; a missing cell is unknown |
| Stats.FirstListedWitness | app.py:808-817 | a status found by the table comes with one of its keywords and with none of the keywords of any status tried before it |
| Stats.FirstListedIsListed | app.py:808-817 | the table's answer is unknown, or a status whose keywords the text mentions |
| Stats.DeliveryOf | app.py:819-832 | a course is remote exactly when its notes mention `عن بعد` or `عن بُعد`; it is never hybrid |
| Stats.LastNamed | app.py:866-876 | the detected column is the last one whose trimmed name equals the header; there is none only when no column has that name |
| Stats.FindColumns | app.py:863-876 | the column scan with its elif chain detects exactly the last status column and the last notes column |
| Stats.CountStatus | app.py:926-939 | a status count never exceeds the number of rows counted |
| Stats.CountDelivery | app.py:946-954 | a delivery count never exceeds the number of rows counted |
| Stats.CountCurrentRemote | app.py:957-962 | the number of rows that are both in progress and remote (`CurrentRemoteBounded`, `TallyCurrentRemote`) |
| Stats.StatusCountsPartition | app.py:926-943 | each row has exactly one status, so the five status counts add up to the number of rows |
| Stats.DeliveryCountsPartition | app.py:946-954 | remote and in-person counts add up to the number of rows; hybrid is always 0 |
| Stats.CurrentRemoteBounded | app.py:957-962 | courses that are in progress and remote are counted in both of those counts |
| Stats.TallyStatuses | app.py:926-940 | the status loop yields exactly the per-status counts, and they sum to the row count |
| Stats.TallyDeliveries | app.py:946-954 | the delivery loop yields exactly the delivery counts; remote and in-person cover every row; hybrid stays 0 |
| Stats.TallyCurrentRemote | app.py:957-962 | the loop yields exactly the count of in-progress remote courses, bounded by both counts |
| Stats.CountCourses | app.py:834-962 | total is the row count (0 for an empty frame); the five status counts sum to the total, with every course unknown when there is no status column; remote and in-person cover every course when there is a notes column; hybrid is 0; in-progress remote courses are bounded by both counts |
| Comparison.MatchOf | app.py:1470-1495 | a placeholder matches exactly when it is a column name; a similar match is a column whose lower-cased name contains the placeholder's, or is contained in it |
| Comparison.MatchOfSimilarIsFirst | app.py:1481-1488 | a similar match is the first related column, as `similar_cols[0]` picks it |
| Comparison.MatchOfAbsent | app.py:1470-1495 | a placeholder is missing exactly when it is not a column name and no column is related to it |
| Comparison.MatchPlaceholder | app.py:1470-1495 | the loop body for one placeholder computes exactly `MatchOf` |
| Comparison.ClaimedIff | app.py:1470-1497 | a column is claimed exactly when some placeholder matched it, and only columns are claimed |
| Comparison.ComparedColumns | app.py:1464 | the columns the comparison uses: none when the table has no rows |
| Comparison.Compare | app.py:1457-1503 | one report line per placeholder with its match, then the unused columns (every compared column not claimed); nothing when there are no placeholders; a table without rows offers no columns |
| Comparison.EmptyTableMatchesNothing | app.py:1464 | a table without rows reports every placeholder missing and no column unused, whatever its headers |
| Comparison.MatchedColumnNotUnused | app.py:1497-1503 | a matched column is never reported unused |
| Comparison.UnusedIsUnmatched | app.py:1497-1503 | an unused column is matched by no placeholder |

## Left out

- The Streamlit interface is not modelled (app.py:40-434, 985-1292, 1564-1790). This covers the CSS/JS, KPI cards, charts, sidebar, uploads, buttons and messages. It is presentation and I/O. The single path and the bulk loop are modelled as what runs when their button is pressed.
- Excel loading and sheet discovery are not modelled (app.py:438-500). They are library calls over external files. Rows arrive as values: a map from column name to cell, in column order.
- python-docx and lxml parsing, XML namespaces and `doc.save` are not modelled. The document is an abstract tree in which any part may be faulty, and saving is a flag on the template.
- Paragraphs, tables and the body walk are independent views in the model. In a real document, filling a content control inside a paragraph also changes that paragraph's text. Likewise, the walk at app.py:674 visits every descendant of the body, including content controls inside table cells, so filling one of those also changes that cell. `Fill` keeps the tables view as it was, which is true of tier 2 (app.py:723-726) only.
- Nested content controls are not modelled: each control's runs are its own.
- A fault anywhere in the body walk (app.py:674) reaches the handler at app.py:722 before any control is written, because the walk finishes collecting before the filling starts. That is the model's unreadable-body case, which runs tier 2. A fault inside one control's run writes (app.py:703-713) is caught per control in the code; the model does not represent it, and treats every write as succeeding.
- PDF conversion is not modelled (app.py:765-794). It uses temporary files and `docx2pdf`, so no `.pdf` entries appear in the archive.
- ZIP writing is not modelled (app.py:1414-1427). The archive is a sequence of named entries.
- Date parsing and period filtering are not modelled (app.py:884-920). They depend on pandas datetime behaviour. The counting takes the already-filtered rows.
- The numeric sums of participants, hours and days are not modelled (app.py:964-981). They depend on pandas float behaviour.
- The audience and date filters of the form list are not modelled (app.py:1311-1340). The rows they keep are the input, with their original index labels.
- `calculate_monthly_stats` is not part of this model: it is called in app.py but not defined there.
- config.py holds only constants that the resolver does not use. The sample-data scripts generate fixtures. Neither is part of this model.
- Stats.StatusOf: a status or notes cell whose `str()` raises is not modelled in the counting, because the counting takes present-or-missing texts. The code would let that exception escape.
- Text.Lower: lower-cases ASCII letters only. Python's `lower()` also maps other scripts (Latin-1 and other accented letters, Greek, Cyrillic). For the resolver and the classifiers this makes no difference: their fixed headers and keywords are Arabic, which has no case.
- Comparison.MatchOf: placeholder and column names are arbitrary, so the ASCII-only lower-casing matters here. A placeholder `É` and a column `é` are similar in the code but the model reports the placeholder missing. The model's similar matches are exactly the code's for names whose cased letters are ASCII.
- Text.IsDigit: accepts ASCII, Arabic-Indic and Extended Arabic-Indic digits only, not every Unicode decimal digit. The result does not depend on this, because the digit test is redundant (`Values.FormatDurationByDayWord`).
- Batch.IndexedRow: index labels are natural numbers, as with the default range index of a loaded sheet.
- Placeholders.ExtractPlaceholders: returns a set. The code returns `list(set)`, whose order Python does not fix.
- Comparison.Compare: the placeholder list is taken in a given order, because the code's order comes from a set. The unused columns are a set.
