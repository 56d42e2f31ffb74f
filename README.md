# MIMIC temporal extraction, modelled in Dafny

This project models the two scripts that send MIMIC-III clinical notes
(rows of NOTEEVENTS.csv) to remote NLP services.

`extract_mimic_temporal.py` handles each note in turn:

- It strips the note's text.
- It skips the note when the text is blank or when `mimic_<ROW_ID>.json` already exists (resume).
- It splits the text into sentences and tokenizes each sentence. A sentence ending in a line break gets a `<cr>` token, and empty token lists are dropped.
- It posts the token lists to a temporal-relation service.
- It turns the token-indexed answer into a `temporal_info` document:
  - time expressions and events keyed by `Timex_Row-r_Sent-s_Ind-k` / `Event_Row-r_Sent-s_Ind-k`, with absolute character offsets and text re-sliced from the note;
  - relations whose `EVENT-i` / `TIMEX-i` arguments are resolved to those keys.
- Any exception inside the row's `try` drops that note and the loop moves on to the next one.

The script also defines `fix_simple_tokenize`, which glues a `'` token and a following `s` token into `'s`.

`process_mimic.py` sends each note's text to a cTAKES REST endpoint and writes the answer to `<ROW_ID>.<extension>`. The output formats are json, xmi, json-lite and fhir. That script has no `try`, so the first exception ends the run.

Modules:

- `Builtins` (builtins.dfy): the Python behaviour the scripts rely on, written out.
  - Negative list indexing and clamped slicing.
  - `str.strip` with Python's whitespace set.
  - `'%d'` formatting, `int()` on digit strings, `str.split` and `str.endswith`.
- `SimpleTokenize` (simple_tokenize.dfy): `fix_simple_tokenize`, as a loop proved against a recursive definition.
- `TemporalIds` (temporal_ids.dfy): the mention identifiers and the relation-argument references, with a decoder that reads an identifier back.
- `TemporalAssembly` (temporal_assembly.dfy): the sentence loop of lines 80-138, in two forms. The first is left-fold functions. The second is methods whose loops are proved equal to those folds.
- `AssemblyProperties` (assembly_properties.dfy): what the assembled document is.
  - When the note raises.
  - Where every record sits and what it holds.
  - That no identifier is used twice or overwritten.
  - Which relations are kept, what each holds, and that none dangles.
- `TemporalRows` (temporal_rows.dfy): the row loop.
  - Token-list preparation, the skip rules and the row outcome.
  - The run over all rows with resume and `doc_limit`.
  - That a run never overwrites a file and that resuming is idempotent.
- `ProcessMimic` (process_mimic.dfy): the format tables, the input-suffix check, the response selection, file naming and the row loop.

The sentence segmenter (RuSH), the tokenizer (`wordpunct_tokenize`), the aligner (`align_tokens`) and both HTTP services are not visible. They are function-typed parameters, called at the same points and with the same arguments as in the scripts. When the segmenter or the aligner raises, or the service's body cannot be read, the call gives an `Option` result of None. In extract_mimic_temporal.py the `except` at lines 150-152 then skips the row; in process_mimic.py the first exception ends the run. The tokenizer is total. The output directory is a map from file name to written content; "the file exists" is membership in its key set.

One consequence of the code, proved rather than assumed: a sentence that tokenizes to nothing is dropped from the token lists sent to the service, but the assembly still indexes those lists by the sentence's position among all sentences (`sent_tokens[sentence_ind]`, line 89 of `extract_mimic_temporal.py`). That lookup raises at the last sentence, so whatever the service answers, the note gets no output (`AssemblyProperties.ShortAnswerDropsNote`, `TemporalRows.EmptySentenceDropsRow`).

Neither script has a work queue, a worker pool, retries or a shutdown signal. Each processes rows one at a time, and a non-200 answer raises once.

## Model

| member | source | states |
|---|---|---|
| SimpleTokenize.FixSimpleTokenize | extract_mimic_temporal.py:16-27 | the while loop returns exactly the left-to-right rewrite `Fixed` of its input |
| SimpleTokenize.FixedKeepsText | extract_mimic_temporal.py:19-25 | the output tokens spell exactly the text the input tokens spell |
| SimpleTokenize.FixedLength | extract_mimic_temporal.py:19-25 | the output is never longer than the input, and equally long exactly when there is no `'` token directly before an `s` token |
| SimpleTokenize.FixedIdentity | extract_mimic_temporal.py:19-25 | a list with nothing to merge is returned unchanged |
| SimpleTokenize.FixedHasNoPair | extract_mimic_temporal.py:20-22 | the output never holds a `'` token directly before an `s` token |
| SimpleTokenize.FixedIdempotent | extract_mimic_temporal.py:19-25 | applying the rewrite twice gives what applying it once gives |
| SimpleTokenize.FixedHead | extract_mimic_temporal.py:20-24 | the first output token is the merged `'s` or the first input token |
| Builtins.StripSpec | extract_mimic_temporal.py:45 | stripping removes only whitespace, and only at the two ends: the note is the stripped text between two all-whitespace runs; the stripped text is empty exactly for an all-whitespace note, has no whitespace at either end, and stripping is idempotent |
| Builtins.StripBlank | extract_mimic_temporal.py:45-48 | stripping empties exactly the notes made only of whitespace |
| Builtins.ParseNatToString | extract_mimic_temporal.py:100-124 | `int()` reads back what `'%d'` wrote for every natural number |
| Builtins.SplitAtFirst | extract_mimic_temporal.py:119-120 | splitting at the first separator yields the part before it, then the split of the rest |
| TemporalIds.DecodeMentionId | extract_mimic_temporal.py:100-109 | an identifier decodes back to the sentence index and ordinal it was built from |
| TemporalIds.DecodeIdExact | extract_mimic_temporal.py:100-109 | any string that decodes to a sentence index and ordinal is exactly the identifier built from them, so decoding and building are inverse on identifiers |
| TemporalIds.MentionIdInjective | extract_mimic_temporal.py:100-109 | two identifiers of the same kind and row are equal only for the same sentence and ordinal |
| TemporalIds.ParseArgRoundTrip | extract_mimic_temporal.py:119-124 | a reference `<KIND>-<i>` splits into exactly that kind and index |
| TemporalIds.ResolveArg | extract_mimic_temporal.py:119-131 | a resolved argument is always one of the sentence's timex or event identifiers |
| TemporalIds.ResolveArgOfSentence | extract_mimic_temporal.py:119-131 | `EVENT-i` / `TIMEX-i` resolves to the i-th identifier of that kind in the sentence, and raises exactly when there is no i-th mention of that kind |
| TemporalAssembly.CollectMentions | extract_mimic_temporal.py:95-112 | the mention loop computes the fold `AddMentionsFrom`, and the identifier list it builds is the sentence's first n identifiers in order |
| TemporalAssembly.CollectRelations | extract_mimic_temporal.py:114-135 | the relation loop computes the fold `AddRelationsFrom` |
| TemporalAssembly.AssembleDoc | extract_mimic_temporal.py:80-138 | the sentence loop computes `Assemble`, giving up on the note at the first error |
| AssemblyProperties.AddMentionsFromSome | extract_mimic_temporal.py:95-112 | a mention loop succeeds exactly when every item's first and last token index is inside the span list |
| AssemblyProperties.AddRelationsFromSome | extract_mimic_temporal.py:114-135 | a relation loop succeeds exactly when every relation has a null argument or two resolvable ones |
| AssemblyProperties.SentenceStepSome | extract_mimic_temporal.py:83-135 | one sentence succeeds exactly when its three lists and its alignment exist and its mentions and relations are all in range |
| AssemblyProperties.AssembleSucceedsIff | extract_mimic_temporal.py:83-135 | a note produces output exactly when every sentence succeeds, so one bad index anywhere drops the whole note |
| AssemblyProperties.ShortAnswerDropsNote | extract_mimic_temporal.py:85-89 | if the service returns fewer lists than there are sentences, or fewer token lists were sent, the note never produces output |
| AssemblyProperties.FilledStep | extract_mimic_temporal.py:100-112 | the identifier stored by one pass of a mention loop is not already a key, so no earlier record is overwritten |
| AssemblyProperties.AddMentionsFromGrows | extract_mimic_temporal.py:103-112 | a mention loop only adds keys, and every item's identifier becomes a key; when every key is the identifier of an item of an earlier sentence or of an item of this sentence before the loop's position (as at the start of each loop in the source), every earlier key keeps its record unchanged |
| AssemblyProperties.KeyIsEarlierId | extract_mimic_temporal.py:100-112 | while a mention loop runs, every key of the id-to-record dictionary is the identifier of an item of an earlier sentence or of an item already visited in this one |
| AssemblyProperties.AddRelationsFromKeeps | extract_mimic_temporal.py:114-135 | the relation loop keeps earlier relations as a prefix and appends, in order, one record per relation item with two non-null arguments: same row and sentence index, the item's category, and as `arg1`/`arg2` the identifiers that the item's two references resolve to; every appended argument is one of the sentence's identifiers |
| AssemblyProperties.RelationsStep | extract_mimic_temporal.py:114-135 | after a sentence, the relations are those of the earlier sentences followed by exactly that sentence's kept and resolved relations |
| AssemblyProperties.SentenceStepKeeps | extract_mimic_temporal.py:83-135 | one sentence keeps the whole-note invariant: records of all earlier items under their identifiers, no other keys, one entry per item, the relations so far are exactly the kept and resolved relations of the sentences done, in order, and none dangles |
| AssemblyProperties.AssembleComplete | extract_mimic_temporal.py:95-138 | in the output, each identifier `Kind_Row-r_Sent-s_Ind-j` holds exactly the record of the j-th item of sentence s; every key is such an identifier; the maps have as many entries as the service returned items; the relations are, sentence after sentence and in the service's order, one per relation item with two non-null arguments, with that sentence's index, the item's category and the identifiers its two references resolve to within the sentence; no relation points at a missing key |
| AssemblyProperties.IdsUnique | extract_mimic_temporal.py:100-109 | timex and event identifiers never collide, and within a kind an identifier names a single sentence and ordinal |
| AssemblyProperties.MentionText | extract_mimic_temporal.py:96-98 | with ordered token spans, a record's offsets are the first token's start and the last token's end plus the sentence begin, and its text is that stretch of the note: it begins with the first token's text and ends with the last token's text |
| TemporalRows.PrepareSentTokens | extract_mimic_temporal.py:58-68 | the token-list loop computes the fold `SentTokensFrom` |
| TemporalRows.CrMarksLineBreak | extract_mimic_temporal.py:65-66 | a sentence ending in a line break gets `<cr>` as an extra last token, so its list is never empty; any other sentence keeps the tokenizer's list |
| TemporalRows.SentTokensShape | extract_mimic_temporal.py:58-68 | the loop raises exactly when some sentence's `text[end-1]` lookup is out of range (for an empty note, every lookup is); otherwise every kept list is non-empty and the kept count is the sentence count minus the empty ones |
| TemporalRows.SentTokensContents | extract_mimic_temporal.py:58-68 | the kept lists are the sentences' own token lists in sentence order: sentence j's non-empty list is at position j minus the number of sentences before j that were dropped as empty |
| TemporalRows.SegmenterRaisesSkips | extract_mimic_temporal.py:150-152 | when the segmenter call at line 53 raises on a non-blank, not yet written note, the row is skipped without a file |
| TemporalRows.ProcessRow | extract_mimic_temporal.py:45-138 | handling one row gives the outcome `RowOutcomeOf`: skipped as blank, resumed, without sentences, without token lists, or raised; or written with its `temporal_info` |
| TemporalRows.BlankRowSkipped | extract_mimic_temporal.py:45-48 | a note that is only whitespace is skipped before anything else |
| TemporalRows.ResumedRowSkipped | extract_mimic_temporal.py:49-51 | a non-blank note whose output file exists is skipped without calling the service |
| TemporalRows.FailingServiceWritesNothing | extract_mimic_temporal.py:74-76 | a service that never answers 200 yields no output for any row |
| TemporalRows.WrittenRow | extract_mimic_temporal.py:45-142 | a written row had non-blank text and no existing file, the service answered 200, and what is written is the complete assembly of that answer |
| TemporalRows.EmptySentenceDropsRow | extract_mimic_temporal.py:67-89 | a note with a sentence that tokenizes to nothing is never written, whatever the service answers: the lookup `sent_tokens[sentence_ind]` raises |
| TemporalRows.StepOfResumes | extract_mimic_temporal.py:45-51 | the row handling never writes a row whose file exists, and looks at the directory only through that row's own file |
| TemporalRows.Run | extract_mimic_temporal.py:42-152 | the row loop leaves the directory `RunFrom` describes: failed rows are skipped, later rows see earlier files, and a positive doc limit stops after a write |
| TemporalRows.RunKeepsFiles | extract_mimic_temporal.py:49-51 | every file present before the run is still there afterwards with the same content |
| TemporalRows.RunNamesFiles | extract_mimic_temporal.py:49-142 | every file the run adds is `mimic_<ROW_ID>.json` for one of its rows |
| TemporalRows.RunNeverOverwrites | extract_mimic_temporal.py:49-142 | the script's run never rewrites an existing file and adds only files named after its rows |
| TemporalRows.FinalDirectorySkipsAll | extract_mimic_temporal.py:43-152 | after a run with no early stop (doc_limit at most 0), handling any row again against the final directory writes nothing: a row that can be written already has its `mimic_<ROW_ID>.json` |
| TemporalRows.ResumeIdempotent | extract_mimic_temporal.py:49-51 | running again over the same rows and the directory a run produced changes nothing |
| ProcessMimic.ExtensionTable | process_mimic.py:13 | json and json-lite map to `json`, xmi to `xmi`, fhir to `fhir`, and only these four formats have an extension |
| ProcessMimic.InputAccepted | process_mimic.py:16-21 | a path is accepted exactly when it ends with `.csv.gz` or `.csv`, and is read as gzip exactly when it ends with `.csv.gz` |
| ProcessMimic.FormatParameter | process_mimic.py:23-27 | only json (`full`) and xmi (`xmi`) set the `format` parameter, and nothing else is set before the loop |
| ProcessMimic.SelectOutput | process_mimic.py:37-40 | json keeps only `_views._InitialView` and raises when it is missing; every other format keeps the whole body |
| ProcessMimic.PopText | process_mimic.py:33-34 | popping TEXT fails exactly when the column is missing; otherwise it yields the text, and the remaining columns are the row without TEXT, values unchanged |
| ProcessMimic.OutputFileName | process_mimic.py:47 | the name exists exactly for the four formats and is ROW_ID, a dot, then the format's extension |
| ProcessMimic.JsonAndLiteShareName | process_mimic.py:13-47 | json and json-lite output of a note go to the same `<ROW_ID>.json` |
| ProcessMimic.HandleRow | process_mimic.py:33-48 | one pass of the loop pops TEXT, makes the rest of the row the `metadata` parameter next to the fixed `format` parameter, and has the effect `RowEffectOf` |
| ProcessMimic.Process | process_mimic.py:15-48 | the script rejects a bad input suffix before reading, then writes row by row until the first exception, as `ProcessAll` describes |
| ProcessMimic.FhirWritesNothing | process_mimic.py:42-44 | with fhir output the run stops with an exception at its first row and writes nothing |
| ProcessMimic.UnknownFormatWritesNothing | process_mimic.py:46-48 | a format outside the table writes no file |
| ProcessMimic.WrittenNames | process_mimic.py:47 | every file the run adds is `<ROW_ID>.<extension>` for one of its rows |
| ProcessMimic.CleanRunWritesEveryRow | process_mimic.py:32-48 | a run in json, xmi or json-lite that ends without an exception has written a file for every row |
| ProcessMimic.WrittenStays | process_mimic.py:47-48 | a file once written stays in the directory for the rest of the run |

## Left out

- `wordpunct_tokenize` is assumed never to raise. It is a regular-expression split of a string.
- RuSH segmentation, `wordpunct_tokenize`, `align_tokens` and both HTTP services are function parameters. Nothing is assumed about what they return. In particular, nothing is said about how `align_tokens` handles the `<cr>` token.
- AssemblyProperties.MentionText: assumes the aligner returns ordered spans inside the sentence, which is what `align_tokens` promises but cannot be checked here.
- CSV reading, `json.dumps`, file writes and `os.path.exists` are not modelled. The output directory is a map and a row is a record or a column map.
- The output directory path in `join(args[1], ...)` is not modelled. File names are the base names.
- The argument-count check is left out.
- Timing and progress printing are left out.
- stderr messages are left out.
- `int(row['ROW_ID'])` at line 43 of extract_mimic_temporal.py runs outside the `try`, so a non-numeric ROW_ID ends that script. The model takes ROW_ID as an integer already.
- `int()` accepts surrounding whitespace, a sign and underscores. The model reads digit strings only, so a relation index written in one of those other forms counts as an error.
- A service body that lacks a key is the same failure as an unparseable body. The same holds for a list with the wrong type or an item without `begin`, `end`, `timeClass`, `dtr`, `arg1`, `arg2` or `category`. The model reads the answer as typed lists.
- A relation argument whose kind is neither EVENT nor TIMEX leaves `arg1`/`arg2` unbound or stale in the code. The model treats it as an exception.
- The `== -1` checks at lines 125-126 and 132-133 of extract_mimic_temporal.py can never hold, because the identifiers are strings. They have no counterpart.
- Each service is modelled as a deterministic function of its request.
- The services' own behaviour is not modelled: no retries, timeouts, concurrency or ordering between rows.
- TemporalRows.ResumeIdempotent: proved only for a doc limit of at most zero, which covers the script's -10. With a positive limit, a second run continues past the row where the first one stopped, so the property does not hold.
- process_mimic.py has runtime defects that are not modelled. The model writes the selected output under the intended name.
  - `gzip` and `join` are never imported.
  - The output file is opened without write mode.
  - A parsed dictionary is passed to `write`.
  - The gzip stream is opened in binary mode for the CSV reader.
  - The argument parser calls `add_arguments`, never calls `parse_args`, and reads `args.rest-url`.
- `--max-notes` and `--output-args` in process_mimic.py are declared but never read. They are left out.
- JSON numbers are integers in the model; floating point is not modelled.
