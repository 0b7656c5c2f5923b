# Sermon transcription QC: trimming and review, modelled in Dafny

Two scripts of the sermon library prepare Whisper transcriptions for quality
control. This project models both.

- `trim_segments` walks the transcribed folders. It reads each folder's audio
  duration and drops the transcription segments that start at or after the
  end of the audio. When anything was dropped, it rebuilds the full text and
  rewrites `result.json`. The script exists twice, as `code/py/trim_segments.py`
  and `src/python/trim_segments.py`; the copies are identical and are modelled
  once.
- `qc_transcribed` runs in two phases.
  - Loading: it loads `qc.csv` and turns every new folder into one row per
    segment (`json2segments`). It merges these into the table, dropping rows
    whose `(name, id)` repeats and keeping the first. When any new rows were
    found, it then sorts by `(id, name)` and saves. It strips the text columns and orders the rows by
    increasing `avg_logprob`.
  - Review: it walks the rows, and for each one the reviewer accepts,
    relabels, marks inaudible, skips, saves or quits. At the end it saves
    again.

Modules:

- `Strings`: Python string primitives on `seq<char>`. These are `strip()`,
  `lower()`, `startswith`/`endswith`, `replace`, and `str(int)` with its
  round trip.
- `Sequences`: the subsequence relation.
- `Wrappers`: `Option`.
- `Transcripts`: a Whisper transcription and its segments.
- `TrimSegments`: `trim_segments`.
- `QcTable`: rows, `json2segments`, the folder-skip rules, the merge with
  de-duplication, and the `(id, name)` order of `sort_and_save_qc`.
- `LabelSanitizer`: the clean-up loop of a typed label.
- `Actions`: reading an action and the prefix-matching dispatch.
- `Review`: the review loop as a pure transition function. A `Session` holds
  the table, the clips kept in the QC folder and the table as of the last
  save.
- `QcRun`: `qc_transcribed` from start to end. It ingests new folders with
  the corrected `NewSegments`, not the failing ingest described under
  "## Findings".

The reviewer's answers form one sequence of strings, consumed in the order
they are asked for. This covers the lines typed at a prompt and the texts
submitted in the labelling dialog. Running out of answers is the end of
input.

## Model

| member | source | states |
|---|---|---|
| TrimSegments.KeepStartingBefore | code/py/trim_segments.py:60-62 | the kept segments are a subsequence of the original and all start before the audio ends |
| TrimSegments.KeepStartingBeforeCounts | code/py/trim_segments.py:62 | each segment starting before the end is kept as many times as it occurs; no other segment is kept |
| TrimSegments.KeepStartingBeforeAll | code/py/trim_segments.py:61-65 | nothing is dropped exactly when every segment starts before the end, and then the list is unchanged |
| TrimSegments.Trim | code/py/trim_segments.py:60-76 | the kept segments are exactly those starting before the duration, in their original order, each as often as it occurred; the file is rewritten exactly when some segment starts at or after the duration; a rewrite sets the text to the stripped join of the kept texts; otherwise the transcription is untouched |
| TrimSegments.SegmentAtDurationDropped | code/py/trim_segments.py:62 | the comparison is strict: a segment starting exactly at the duration is removed and causes a rewrite |
| TrimSegments.TrimIdempotent | code/py/trim_segments.py:60-76 | trimming an already trimmed transcription with the same duration changes and writes nothing |
| TrimSegments.KeepStartingBeforeComposes | code/py/trim_segments.py:62 | filtering by one duration and then another equals filtering by the smaller one |
| TrimSegments.FirstMp3Index | code/py/trim_segments.py:22-31 | the audio is the first listed file whose lower-cased name ends in `.mp3`; there is none exactly when no file qualifies |
| TrimSegments.TrimFolder | code/py/trim_segments.py:18-76 | a folder is skipped as a non-directory exactly when it is not a directory, and as having no `.mp3` exactly when no listed file qualifies; otherwise the duration of that file, looked up by folder and file name, is unreadable exactly when the read-error skip happens; with a duration, a missing, unreadable or `segments`-less `result.json` each gives its own skip, and a readable one is rewritten exactly when `Trim` at that duration rewrites, with `Trim`'s transcription |
| TrimSegments.AfterTrim | code/py/trim_segments.py:60-76 | a folder whose trim rewrites `result.json` holds the trimmed transcription afterwards and is otherwise unchanged; every other folder is left exactly as it was |
| TrimSegments.TrimDirectory | code/py/trim_segments.py:15-76 | one entry per folder, in listing order, keeping name, kind and listing; a folder whose trim rewrites is replaced by itself with the trimmed `result.json`; every other folder is left exactly as it was |
| TrimSegments.TrimDirectoryIdempotent | src/python/trim_segments.py:15-76 | running the script a second time rewrites no folder and leaves the directory as the first run left it |
| TrimSegments.TrimFolderAsWritten | code/py/trim_segments.py:53-61 | the run ends at a folder exactly when the folder is a directory with a readable `.mp3` and its `result.json` has no `segments` list; at every other folder the loop body does what the corrected one does |
| TrimSegments.FirstCrash | code/py/trim_segments.py:15-61 | the script as written stops at the first listed folder that reaches the guard without a `segments` list; every earlier folder passes the guard |
| TrimSegments.FirstCrashIsFirstFailure | code/py/trim_segments.py:15-61 | every folder listed before the first crash goes through the loop body exactly as in the corrected script, and the folder at that position ends the run |
| TrimSegments.TrimDirectoryAsWritten | code/py/trim_segments.py:15-61 | the script as written leaves every folder before the first crash as the corrected script leaves it, and leaves that folder and every later one untouched |
| TrimSegments.AsWrittenAgreesWithoutMissingSegments | code/py/trim_segments.py:53-58 | when no folder lacks `segments`, the script as written and the corrected one leave the same directory |
| TrimSegments.MissingSegmentsStopsTheRun | code/py/trim_segments.py:53-56 | a folder lacking `segments`, listed before a folder that needs trimming, leaves that folder untrimmed as written; the corrected loop trims it |
| QcTable.UidNameInjective | code/py/qc.py:20 | the names `folder + " " + str(id)` hashed into uids differ for different `(folder, id)` pairs |
| QcTable.Json2Segments | code/py/qc.py:14-22 | one row per segment in segment order, carrying the segment's id, text, times and score, the folder name, the uid of `"folder id"` and an empty label |
| QcTable.Json2SegmentsAsWritten | code/py/qc.py:18-20 | as written, the function fails exactly on an empty segment list and otherwise gives the corrected rows |
| QcTable.NewSegments | code/py/qc.py:148-159 | the new rows number exactly the segments of the folders that pass every skip rule; each is the unlabelled row of one segment of such a folder, so none is invented, and every segment of such a folder gives a row |
| QcTable.NewSegmentsAppend | code/py/qc.py:148-159 | new rows come folder by folder in listing order: a listing split in two gives the rows of the first part followed by those of the second |
| QcTable.NewSegmentsOfOneFolder | code/py/qc.py:148-159 | a single folder contributes its `json2segments` rows, in segment order, when it passes the skip rules, and nothing otherwise |
| QcTable.NewSegmentsAreNew | code/py/qc.py:149-150 | no new row shares a folder name with the existing table |
| QcTable.NewSegmentsAsWritten | code/py/qc.py:148-159 | as written, the ingest fails exactly when some ingested folder has no segments, and otherwise gives the corrected rows |
| QcTable.EmptyTranscriptAbortsIngest | code/py/qc.py:18-20 | one new folder with an empty transcription fails the ingest as written; the corrected ingest adds no rows for it |
| QcTable.FirstWithKey | code/py/qc.py:161 | the first row with a key is a row of the input with that key; there is none exactly when the key does not occur |
| QcTable.DropDuplicates | code/py/qc.py:161 | the result is a subsequence with unique `(name, id)` keys, covers every key of the input, holds the first row of each key, and lists the keys in the order they first occur in the input |
| QcTable.DedupeUniqueKeepsAll | code/py/qc.py:161 | rows whose keys are already unique are kept as they are |
| QcTable.SortByIdName | code/py/qc.py:25-28 | the sorted table is a permutation of its input, ordered by `(id, name)` |
| QcTable.SortKeepsKeys | code/py/qc.py:27 | sorting keeps the key set, and keeps keys unique |
| QcTable.SortedPermutationUnique | code/py/qc.py:27 | two `(id, name)` orderings of the same rows with unique keys are identical, so the saved order does not depend on the sorting algorithm |
| QcTable.Merge | code/py/qc.py:159-165 | with no new rows the table is the loaded one; otherwise it is strictly ordered by `(id, name)`, covers the keys of both parts, and each row is the first of its key in existing-then-new order |
| QcTable.ExistingRowsWin | code/py/qc.py:161 | an existing row is never displaced by a new row with the same key; with unique existing keys every existing row survives |
| QcTable.MergeKeepsEverything | code/py/qc.py:148-162 | when the table and the new rows each have unique keys, the merged table holds exactly the rows of both |
| LabelSanitizer.SpacesForBreaks | code/py/qc.py:259-260 | tabs and line breaks become spaces; every other character stays where it was |
| LabelSanitizer.Sanitized | code/py/qc.py:259-262 | the label has no tab, no line break and no double space, and is no longer than what was typed |
| LabelSanitizer.SanitizedIdempotent | code/py/qc.py:259-262 | cleaning a cleaned label changes nothing |
| LabelSanitizer.SanitizedKeepsWords | code/py/qc.py:259-262 | cleaning keeps every non-blank character of the typed text, in order |
| LabelSanitizer.SanitizeLabel | code/py/qc.py:259-263 | the replace loop ends, and leaves the label with runs of blanks collapsed to single spaces |
| Actions.ReadAction | code/py/qc.py:212-215 | an unplayed clip forces "inaudible"; an empty reply is "accept"; any other reply is the action |
| Actions.FirstMatch | code/py/qc.py:217-287 | the lookup finds nothing exactly when the action is a prefix of no command word |
| Actions.ClassifyIsFirstMatch | code/py/qc.py:217-287 | the dispatch picks the first command word, in source order, that the lower-cased action abbreviates; input that abbreviates none is not recognized |
| Actions.ClassifyAbbreviatesInaudible | code/py/qc.py:250 | an action selects "inaudible" exactly when its lowered form is a non-empty prefix of "inaudible", since no earlier command word starts with "i" |
| Actions.ClassifySave | code/py/qc.py:275 | an action saves exactly when its lowered form is a non-empty prefix of "save" |
| Actions.ClassifySkip | code/py/qc.py:275-277 | an action skips exactly when its lowered form is a prefix of "skip" of length at least two, since a lone "s" saves |
| Actions.StopsReviewIffQuit | code/py/qc.py:284-290 | for any action that can end the prompt loop, the check after the loop stops the review exactly when the action was quit or exit |
| Review.Settle | code/py/qc.py:223-266 | storing a label changes only that row's label and records the row's clip as kept under its uid |
| Review.PromptRow | code/py/qc.py:211-215 | an unplayed clip is labelled inaudible without reading an answer, leaving every answer unread; a decision never reads more answers than were given |
| Review.PromptRowReads | code/py/qc.py:211-287 | the prompt loop consumes answers in order: what remains is a suffix of what it was given |
| Review.PromptRowKeepsSave | code/py/qc.py:275-276 | a save made at a row's prompt is remembered however that prompt ends; starting from no save, a played clip's prompt reports a save exactly when some answer before the one that ended the loop was a save |
| Review.PromptRowSettles | code/py/qc.py:211-290 | the loop leaves the label unset exactly when the last action stops the review; otherwise the label is the accepted one, inaudible, skipped, or a cleaned dialog text; for a played clip the last action is the first answer whose command does not ask again |
| Review.PromptRowLabels | code/py/qc.py:211-287 | for a played clip, the action that ends the loop is the first answer that does not ask again, and the answers left are those after it, or after the dialog answer for a label; the label stored is that action's: accept stores the existing label or else the transcribed text, inaudible and skip store their markers, label stores the cleaned dialog answer, quit stores nothing |
| Review.PromptRowIsFirstDecider | code/py/qc.py:211-287 | for a played clip the prompt loop equals a single decision: every answer before the first that does not ask again is a replay, context, save or unrecognized input, and only its saves are remembered; that first answer decides as its command says; with no such answer, input runs out |
| Review.PromptRowInterrupted | code/py/qc.py:211-287 | input runs out at a played clip's prompt exactly when no answer ends the loop, or the answer that would is a label with no dialog answer after it |
| Review.UnplayedClipIsInaudible | code/py/qc.py:214-215 | whatever was typed, a clip that did not play is dispatched as inaudible |
| Review.SaveIf | code/py/qc.py:275-276 | a save records the table as it stands and changes nothing else |
| Review.ApplyPrompt | code/py/qc.py:217-290 | end of input abandons the review and quitting finishes it as stopped, both leaving table and clips as they were; any other decision stores its label on the current row, keeps that row's clip and goes on with the unread answers; the last save is the table as it stood when a save was made at the prompt, and the earlier save otherwise |
| Review.ReviewStep | code/py/qc.py:187-290 | one pass of the row loop keeps one row per row and never reads more answers than it was given |
| Review.StepPrompts | code/py/qc.py:187-198 | a row skipped as labelled or without audio is passed over untouched; a prompted row that settles keeps its clip |
| Review.StepFrame | code/py/qc.py:187-287 | one pass of the row loop changes at most the current row's label |
| Review.StepStops | code/py/qc.py:284-290 | stopping leaves table and clips as they were; the stop is a quit or the end of input |
| Review.StepSaves | code/py/qc.py:275-276 | after a step, the last save is the earlier one or the table as it stood |
| Review.ReviewFrom | code/py/qc.py:187-290 | the row loop keeps one row per row of the table it started with |
| Review.ReviewChangesOnlyPromptedLabels | code/py/qc.py:187-290 | the review changes nothing but labels, each to a label the prompt loop can leave; rows before the start, rows skipped as labelled and rows without audio are left as they are; every relabelled row's clip is kept |
| Review.CompletedReviewKeepsEveryClip | code/py/qc.py:187-290 | a review that reaches the last row without quitting has kept the clip of every row it prompted for |
| Review.ReviewKeepsClips | code/py/qc.py:224-281 | clips are only ever added |
| Review.RevisitIrrelevantWithoutLabels | code/py/qc.py:177-190 | with no labelled row left to reach, the revisit answer makes no difference to the review |
| Review.ReviewSavesWholeTable | code/py/qc.py:275-276 | every save made during the review holds a row for every key of the table |
| Strings.BlankIffStripsEmpty | code/py/qc.py:189 | a label is blank exactly when `strip()` leaves it empty, so the skip test matches the labelled count |
| Strings.DigitsRoundTrip | code/py/qc.py:20 | the decimal digits of `str(id)` for a non-negative id read back as that id |
| QcRun.StripFields | code/py/qc.py:167-169 | every row's text and label become exactly their `strip()`, so neither has surrounding whitespace; other columns are unchanged; already stripped rows are unchanged |
| QcRun.StripFieldsIdempotent | code/py/qc.py:168-169 | stripping the columns twice equals stripping once |
| QcRun.SortByLogprob | code/py/qc.py:171-173 | the review order is a permutation of the table with `avg_logprob` non-decreasing |
| QcRun.InsertByLogprobSorted | code/py/qc.py:172 | inserting into rows ordered by score keeps them ordered |
| QcRun.LabeledCount | code/py/qc.py:174 | the count is at most the row count, and zero exactly when every label strips to empty |
| QcRun.AskRevisit | code/py/qc.py:177-181 | the question is asked only when some row is labelled; then only "y" or "Y" revisits, an empty answer means no, and one answer is consumed; with nothing labelled the truthy "n" turns revisiting on |
| QcRun.NothingToLoadStops | code/py/qc.py:140-169 | without `qc.csv` and without new transcriptions the run reviews nothing and writes nothing |
| QcRun.QcTranscribed | code/py/qc.py:140-293 | a run that reaches the end leaves a `qc.csv`, and a `qc.csv` that existed is never deleted |
| QcRun.ReviewTableKeys | code/py/qc.py:159-173 | the reviewed table holds exactly the keys of the existing and the new rows |
| QcRun.RunWritesWholeTable | code/py/qc.py:159-293 | `qc.csv` ends up as it was or as a `(id, name)`-ordered table holding every existing and new key; a run that reaches the end always writes it |
| QcRun.FinishedRunSavesReview | code/py/qc.py:187-293 | a run that reaches the end saves the table the row loop finished with, labels included, in `(id, name)` order: the file is a permutation of that table, which differs from the table reviewed only in labels the prompt loop left on prompted rows; the clips kept are the loop's |
| QcRun.SaveIgnoresOrder | code/py/qc.py:292 | two orderings of the same rows with unique keys save the same file |

## Left out

- Audio is out of scope: reading MP3 durations, trimming clips, playing them
  and the context window. Each is a parameter: `audioLength` in
  `TrimSegments`, and `audio` in `Review`, which says whether a clip is
  missing, unplayable or played. `audioLength` is looked up by folder name
  and file name. "replay" and "context" therefore only ask
  again.
- Console output is not modelled: `print`, `print_row_label` and the
  `SequenceMatcher` similarity shown to the reviewer.
- The labelling dialog (`get_paragraph_input`) is one answer in the reply
  sequence. That answer is the raw text typed, and the model applies the
  dialog's `strip()` to it (`Review.DialogLabel`). A closed dialog and end
  of input both end the run as `Abandoned` (no final save).
- File I/O is modelled by values. `qc.csv` is an `Option` of rows. The
  clips kept in the QC folder are a set of uids that starts empty, because
  clip files left by earlier runs do not change any label. A stored label
  adds its row's uid to that set. `os.remove(temp_clip)` is not modelled.
- `uuid5` in the DNS namespace is the parameter `nameUuid`. Its hashing is
  not modelled.
- Two failures inside `json2segments` are not modelled: a `json.load`
  failure, and a `result.json` that parses but has no `segments` key or has
  segments without an `id`. The first raises a JSON decode error and the
  second a `KeyError` (lines 17-20 of `code/py/qc.py`); both end the run.
  In the model a folder either holds a transcription with a segment list or
  has no `result.json` at all.
- Columns of `result.json` beyond id, text, start, end and avg_logprob are
  not modelled (seek, tokens, temperature and so on).
- `transcriber.py` and `transcribed2queue.py` are not part of this model.
  They are the transcription side and the directory prompts of `main`.
- Floating point is not modelled: times and scores are reals.
- QcRun.SortByLogprob: modelled as a stable sort. pandas' default quicksort
  does not fix the relative order of rows with equal `avg_logprob`.
- Strings.Lower: exact on ASCII and on the two non-ASCII characters whose
  lower case contains ASCII letters (KELVIN SIGN and the dotted capital I). Every other character is left as it is, which cannot
  change a match against the ASCII command words.
- QcRun.QcTranscribed: when there is neither a `qc.csv` nor a new
  transcription, the script fails on an empty DataFrame at the strip step.
  This is modelled as a run that writes nothing.
- QcRun.QcTranscribed: uses the corrected ingest `QcTable.NewSegments`. As
  written, a new folder with an empty segment list makes the ingest raise
  before anything is merged (see "## Findings").
- TrimSegments.AfterTrim: the write of `result.json` is assumed to succeed.
  In the source, an exception from `open` or `json.dump` is reported and the
  folder is skipped. That leaves the old `result.json`, or a truncated one
  when `json.dump` fails midway. The same holds for `TrimDirectory`.
- Review.Settle: does not model the `FileNotFoundError` that `os.rename`
  raises when no clip was trimmed for the row and no clip is kept under its
  uid. Whether a clip file exists is file-system state the model does not
  carry. In the source the usual case is an unplayable clip after a failed
  trim: the forced "inaudible" then crashes the run before the final save,
  while the model labels the row inaudible and goes on.
- TrimSegments.TrimFolderAsWritten: a `segments` value that is not a list is
  treated like a missing key. As written, an empty dict or an empty string
  would instead pass the comprehension and be left unchanged.

## Findings

| source | as written | input that shows it | evidently intended | confidence | as-written member | corrected member |
|---|---|---|---|---|---|---|
| code/py/qc.py:18-20 | the uid column is computed from `segments["id"]`, but a DataFrame built from an empty list has no `id` column, so the ingest raises and the run stops | a new transcribed folder whose `result.json` has `"segments": []` | such a folder contributes no rows | not executed | QcTable.NewSegmentsAsWritten | QcTable.NewSegments |
| code/py/trim_segments.py:53-56 | the guard prints "Skipping" but then evaluates the name `ConnectionRefusedError` instead of `continue`, so line 61 raises on the missing key and the run stops | a folder whose `result.json` has no `segments` key, listed before a folder with a segment past the audio's end | skip that folder and go on with the rest | not executed | TrimSegments.TrimDirectoryAsWritten | TrimSegments.TrimDirectory |
