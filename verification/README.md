# Desensitisation service and Word document processor, modelled in Dafny

The system masks personal data in Chinese text. It has two parts.

The masking service (`/mask/custom`) finds entities in two ways:

- a pattern detector (`get_regex_entities`) finds fixed-format numbers: national ID, unified social credit code, mobile, landline, bank card, passport, Hong Kong/Macau permit and licence plate;
- a semantic recognizer (Taskflow) finds names and other semantic labels. It runs on the text cut into chunks of at most `max_chunk_len` characters.

The service reconciles both entity lists into one dictionary keyed by span. It searches for every semantic literal again over the whole text, ignoring case, then sorts the entities by start. Finally it merges overlapping entities and masks each merged span with its label's rule.

The document processor works on a `.docx` file. It flattens the `w:t` text nodes of `word/document.xml` into one text and calls the service. It derives character edits from the original and the masked text, splices those edits back into the text nodes and repacks the archive.

The model is a set of pure functions over immutable datatypes, one module per part of the program:

| module | file | models |
|---|---|---|
| `Entities` | `entities.dfy` | the label taxonomy, `MANDATORY_NUMERIC_SCHEMA`, the entity record, Python's character tests |
| `RegexEntities`, `RegexEntitiesSpec` | `regex_entities.dfy` | `get_regex_entities`: eight stages in priority order with the occupied-span check |
| `Chunking` | `chunking.dfy` | `split_into_chunks`, `str.find`, and the chunk loop of `get_taskflow_entities` with its offset shift |
| `OrderedMaps` | `ordered_maps.dfy` | Python dictionaries: insertion-ordered, assignment replaces the value in place |
| `Reconcile` | `reconcile.dfy` | the dictionary reconciliation of `mask_custom` and the final sort |
| `MaskPolicy` | `mask_policy.dfy` | the per-label masking rules of `apply_masking` |
| `Masking` | `masking.dfy` | `apply_masking`: sort, merge overlapping spans, render |
| `MergeGroups` | `merge_groups.dfy` | the merge loop of `apply_masking` against an account of its result by groups of overlapping entities |
| `MaskService` | `mask_service.dfy` | `mask_custom`: label selection, the 400 error, the response |
| `Replacements` | `replacements.dfy` | `_generate_replacements`: the equal-length path, the entity path and the merge |
| `WordXml` | `word_xml.dfy` | `_extract_text_from_xml` and the splice loop of `_apply_replacements_to_xml` |
| `Docx` | `docx.dfy` | the repacking loop of `process_document` |
| `Seqs`, `Wrappers` | `seqs.dfy`, `wrappers.dfy` | Python slicing, a stable sort, `Option`/`Result` |

The model stands in for the following parts of the program:

- **Regular expressions.** Each pattern's `finditer` output is a parameter, `Candidates`: one list of leftmost, non-overlapping matches per category. The model keeps the order of the stages, the `labels` test, the occupancy test (a match is dropped only when an occupied interval fully contains it), the 13–19 digit count of bank cards, and which stages record their spans.
- **The semantic recognizer.** It is a parameter, `Recognizer`: a chunk's text maps to the spans found in it, or to `None` when the model raises. `None` turns the whole result into `[]`, as the `except` branch does. Each span carries the label string it was reported under, and `ParseLabel` turns it into a label. So a recognizer label that spells a taxonomy label, such as `姓名`, is that label, as the service's string comparisons treat it.
- **Unicode character tests.** `str.isdigit`, `isalpha`, `isalnum`, `isspace` and the case fold used by `re.IGNORECASE` are parameters (`CharTests`).
- **Sorting.** Python's `sorted` and `list.sort` are stable. They are modelled by a stable insertion sort, `Seqs.SortBy`. `reverse=True` on `start` is the key `-start`, which keeps equal starts in input order. Python's reversed stable sort does the same.
- **XML.** The document is its sequence of `w:t` elements, each with a text and a tail (`TextElem`). Re-serialising and re-parsing the tree is the boolean `parses`. When it is false the original document is kept.

Some behaviour of the code is modelled as written:

- No `schemalist`, or an empty one, selects no label, so nothing is masked. This follows `req.schemalist or []` at `desensitive-service/app.py:314`.
- A `max_chunk_len` of 0 also means 300, because of the `or 300` at line 322.
- When a pattern entity overlaps a semantic span, the merged span takes the pattern label. A semantic entity never takes over a pattern span's label (`desensitive-service/app.py:220-221`).
- An archive with two entries of the same name writes both with the bytes of the later one. `zipfile` looks names up last-wins, and `zip_in.read(item.filename)` is called per entry (`document-processor/service.py:427`). `Docx.RepeatedName` shows this.
- An edit that crosses a fragment boundary is spliced whole into every fragment it touches (`document-processor/service.py:257-267`). `WordXml.StraddlingEdit` shows the text growing as a result.

## Model

| member | source | states |
|---|---|---|
| Entities.ParseLabel | desensitive-service/app.py:26-31 | Reading a label string and writing it back gives the same string. Unknown strings become `Other`. |
| Entities.TaxonomyCanonical | desensitive-service/app.py:26-31 | Every label of the fixed taxonomy is the one its own text parses to. |
| Entities.CanonicalText | desensitive-service/app.py:220 | Two canonical labels are equal exactly when their strings are, so comparing labels agrees with the service's string comparisons. |
| Entities.IsMandatory | desensitive-service/app.py:26-29 | The pattern labels are exactly the eight fixed-format categories: not names and not other semantic labels. |
| RegexEntities.ClaimOccupies | desensitive-service/app.py:61-66 | A checked stage's occupied set grows by exactly the spans of the entities it keeps. |
| RegexEntities.ClaimShape | desensitive-service/app.py:61-66 | Every entity a checked stage keeps carries the stage's label and is one of its matches. |
| RegexEntities.ClaimKeeps | desensitive-service/app.py:61-66 | For `finditer`-shaped matches, a match is kept iff it passes the stage's test and no interval occupied before the stage fully contains it. The stage's own claims never contain a later match. |
| RegexEntitiesSpec.StagesShape | desensitive-service/app.py:45-132 | The detector runs eight stages in priority order. The first five record their spans, and passport, permit and plate record nothing. |
| RegexEntitiesSpec.CheckedStep | desensitive-service/app.py:68-75 | One occupancy-checked stage keeps a match iff its label is requested, the match passes the test, and no earlier-ranked entity fully contains it. It appends only entities of its own rank. |
| RegexEntitiesSpec.UncheckedStep | desensitive-service/app.py:98-103 | An unchecked stage emits every match of a requested label. It changes the occupied set only when it records spans. |
| RegexEntitiesSpec.CheckedStage | desensitive-service/app.py:58-96 | In the final result, a checked stage's match appears iff its label is requested, it passes the test, and no entity of an earlier stage in that result fully contains it. |
| RegexEntitiesSpec.UncheckedStage | desensitive-service/app.py:98-130 | An unchecked stage's match appears in the final result iff its label is requested, whatever the other stages found. |
| RegexEntitiesSpec.IdCardNeverFiltered | desensitive-service/app.py:51-56 | A national-ID match is reported iff the label is requested. |
| RegexEntitiesSpec.CreditCodeOccupancy | desensitive-service/app.py:58-66 | A credit-code match is reported iff it is requested and no reported national ID fully contains it. A partial overlap does not drop it. |
| RegexEntitiesSpec.MobileOccupancy | desensitive-service/app.py:68-75 | A mobile match is reported iff it is requested and no reported national ID or credit code fully contains it. |
| RegexEntitiesSpec.LandlineOccupancy | desensitive-service/app.py:77-84 | A landline match is reported iff it is requested and no reported higher-priority entity fully contains it. |
| RegexEntitiesSpec.BankCardOccupancy | desensitive-service/app.py:86-96 | A bank-card match is reported iff it is requested, holds 13 to 19 digits, and no reported higher-priority entity fully contains it. |
| RegexEntitiesSpec.PassportBypass | desensitive-service/app.py:98-103 | A passport match is reported iff the label is requested, even inside another entity. |
| RegexEntitiesSpec.PermitBypass | desensitive-service/app.py:105-110 | A permit match is reported iff the label is requested, even inside another entity. |
| RegexEntitiesSpec.PlateBypass | desensitive-service/app.py:112-130 | A plate match is reported iff the label is requested, even inside another entity. |
| RegexEntitiesSpec.OccupiedAtEnd | desensitive-service/app.py:49-96 | The final occupied set is exactly the spans of the entities from the first five stages. |
| RegexEntitiesSpec.RunFrom | desensitive-service/app.py:45-132 | Every reported entity is a match of a requested stage, labelled with that stage's label. |
| RegexEntitiesSpec.RegexEntitiesFrom | desensitive-service/app.py:45-132 | Every reported entity has a requested label, method `regex`, and lies within the text when the matches do. |
| Chunking.SplitSentences | desensitive-service/app.py:147-154 | Splitting on the delimiter group gives sentences, each ending in its one delimiter, and a remainder without delimiters. Together they rebuild the text. |
| Chunking.SplitUnique | desensitive-service/app.py:147-154 | No other cut of the text into such sentences and remainder exists, so `SplitSentences` is the split. |
| Chunking.FindFirst | desensitive-service/app.py:158 | `str.find` returns the first occurrence at or after the start, and -1 exactly when there is none. |
| Chunking.LocatedAt | desensitive-service/app.py:156-158 | In a located chunk list, each chunk's offset is the total length of the chunks before it, and the joined text holds the chunk there. |
| Chunking.PackTextStep | desensitive-service/app.py:155-162 | One loop iteration keeps the invariant: flushed chunks, open chunk and unread sentences rebuild the text. The `find` calls land where the sentence actually starts. |
| Chunking.PackLongStep | desensitive-service/app.py:155-162 | One loop iteration keeps the invariant: only a chunk made of a single sentence can exceed `max_len`. |
| Chunking.PackDone | desensitive-service/app.py:153-162 | After the loop, the flushed chunks, the open chunk and the remainder rebuild the text. Offsets are exact, and the remainder sits right after the open chunk. |
| Chunking.FinishJoined | desensitive-service/app.py:164-172 | The code after the loop keeps the chunks rebuilding the text, in either branch. |
| Chunking.FinishLocated | desensitive-service/app.py:166-172 | After the final `find`, every chunk offset, including the remainder's, is where the chunk sits. |
| Chunking.FinishLong | desensitive-service/app.py:164-172 | After the code that follows the loop, a chunk longer than `max_len` is a single sentence or the remainder. |
| Chunking.SplitIntoChunks | desensitive-service/app.py:143-174 | The chunks rebuild the text and each offset is its chunk's position. Only a single sentence or the remainder may exceed `max_len`. |
| Chunking.ChunksLocate | desensitive-service/app.py:143-174 | For every chunk, `text[offset:offset+len(chunk)] == chunk`. |
| Chunking.Shift | desensitive-service/app.py:188-196 | Each item found in a chunk becomes one entity, in order, with both ends moved by the chunk offset and method `taskflow_chunk`. Its label is the label string the recognizer reported, parsed as the service's string comparisons read it. |
| Chunking.ShiftLocates | desensitive-service/app.py:192-193 | A span that holds its text inside a chunk holds the same text in the whole text once moved by the chunk's offset. |
| Chunking.RecognizeLocates | desensitive-service/app.py:179-197 | When the recognizer's spans are right within each chunk, every collected entity's span holds its text in the whole text. The shift adds each chunk's recorded offset, which is the joined length of the chunks before it. |
| Chunking.RecognizeMethod | desensitive-service/app.py:188-196 | Every collected entity is marked `taskflow_chunk`, and its label is canonical: a recognizer label spelling a taxonomy label becomes that label. |
| Chunking.RecognizeFails | desensitive-service/app.py:179-200 | If the recognizer fails on any non-blank chunk, the whole result is lost. Blank chunks are never passed to it. |
| Chunking.TaskflowLocates | desensitive-service/app.py:134-200 | Every entity `get_taskflow_entities` returns lies within the input and holds its own text there, given a recognizer that reports true spans. |
| Chunking.TaskflowCanonical | desensitive-service/app.py:188-194 | Every label `get_taskflow_entities` returns is canonical, for any recognizer: a reported label string that spells a taxonomy label is that label. |
| OrderedMaps.PutGet | desensitive-service/app.py:325-327 | Assigning `d[k] = v` changes the value found under `k` alone. |
| OrderedMaps.PutShape | desensitive-service/app.py:352-354 | Assigning an existing key keeps every key in its place, and a new key is appended at the end, as Python dictionaries keep insertion order. |
| OrderedMaps.PutUnique | desensitive-service/app.py:325-327 | Assignment never duplicates a key. |
| Reconcile.LastWithSpan | desensitive-service/app.py:325-327 | The entity a span-keyed dictionary keeps is an entity of the list with that span. None means no entity has it. |
| Reconcile.PutAllGet | desensitive-service/app.py:325-327 | After the loop, a span looks up to the last entity with that span, or to what was there before. |
| Reconcile.PutAllFresh | desensitive-service/app.py:329 | `tf_original_map` maps each span to the last semantic entity with that span, with one entry per span, each under its own span. |
| Reconcile.FirstLabelsGet | desensitive-service/app.py:330-334 | `tf_text_to_label` maps a literal to the label of the first semantic entity carrying it. The empty literal gets no label. |
| Reconcile.FirstLabelsUnique | desensitive-service/app.py:330-334 | The literal-to-label dictionary has each literal once. |
| Reconcile.OccurrencesSound | desensitive-service/app.py:337 | Every match reported by the rescan is a case-insensitive occurrence of the literal, and consecutive matches do not overlap. |
| Reconcile.OccurrencesLeftmost | desensitive-service/app.py:337 | The rescan skips no occurrence except one overlapping a reported match. |
| Reconcile.ScanKeeps | desensitive-service/app.py:337-350 | Scanning one literal keeps keys unique and each value under its own span. A span present only in the semantic map carries the semantic entity. |
| Reconcile.ScanSourced | desensitive-service/app.py:337-350 | Every value after scanning one literal is a pattern entity, a semantic entity, or a scanned occurrence of a literal. |
| Reconcile.ScanCovers | desensitive-service/app.py:337-350 | After scanning one literal, every occurrence's span is a key. Spans already present keep their value. |
| Reconcile.RescanKeeps | desensitive-service/app.py:336-350 | The whole rescan keeps keys unique, values under their own spans, and semantic-only spans carrying the semantic entity. |
| Reconcile.RescanSourced | desensitive-service/app.py:336-350 | Every value after the rescan has one of the three origins. |
| Reconcile.RescanCovers | desensitive-service/app.py:336-350 | After the rescan, every match that `re.finditer` reports for a literal is a key. These are leftmost, non-overlapping matches, so an occurrence overlapping an earlier match is not one of them. |
| Reconcile.AddMissingKeeps | desensitive-service/app.py:352-354 | The final loop adds every semantic span with its semantic entity and keeps the other invariants. |
| Reconcile.AddMissingSourced | desensitive-service/app.py:352-354 | The final loop adds only semantic entities. |
| Reconcile.FinalMapFacts | desensitive-service/app.py:325-354 | The final dictionary holds each pattern span with its last pattern entity, each other semantic span with its last semantic entity, and every match `re.finditer` reports for each literal, and nothing of any other origin. |
| Reconcile.ReconciledSorted | desensitive-service/app.py:356 | `global_ents` is sorted by start and is a permutation of the dictionary's values. |
| Reconcile.ReconciledMembers | desensitive-service/app.py:356 | An entity is in `global_ents` iff it is a value of the final dictionary. |
| Reconcile.ReconciledSpansDistinct | desensitive-service/app.py:325-356 | No two different reconciled entities share a span. |
| Reconcile.ReconciledSourced | desensitive-service/app.py:325-356 | Every reconciled entity is a pattern entity, a semantic entity, or a case-insensitive occurrence of a semantic literal carrying that literal's first label. |
| Reconcile.ReconciledKeepsRegex | desensitive-service/app.py:325-356 | Pattern entities win their span: the last pattern entity at each span is reconciled. |
| Reconcile.ReconciledKeepsTaskflow | desensitive-service/app.py:352-356 | Every semantic span that no pattern entity holds is reconciled with its last semantic entity. |
| Reconcile.ReconciledCovers | desensitive-service/app.py:336-356 | Every match that the case-insensitive `re.finditer` reports for a semantic literal is the span of a reconciled entity. |
| MaskPolicy.Positions | desensitive-service/app.py:233 | The comprehension lists, in increasing order, indices of the segment holding characters of the class. |
| MaskPolicy.PositionsCount | desensitive-service/app.py:233 | The comprehension lists as many indices as the segment has characters of the class. |
| MaskPolicy.PositionsRank | desensitive-service/app.py:233 | A character of the class is listed at its rank: the number of class characters before it. |
| MaskPolicy.PositionsRange | desensitive-service/app.py:236-257 | A position is in the index slice `[a:b]` iff it is of the class and its rank lies in `[a, b)`. |
| MaskPolicy.Masked | desensitive-service/app.py:229-301 | Every masking rule keeps the segment's length. |
| MaskPolicy.MaskedAt | desensitive-service/app.py:229-301 | Each masked position is `'*'` iff the label's rule hides it, and the original character otherwise. |
| MaskPolicy.MaskedPicked | desensitive-service/app.py:231-275 | For the index-list rules, a position is starred iff it is in the list the rule writes. |
| MaskPolicy.IdCardRule | desensitive-service/app.py:231-240 | A national ID hides its last six digits or `x`/`X` letters. With fewer than six, it hides them all. |
| MaskPolicy.MobileRule | desensitive-service/app.py:241-251 | A mobile number with at least eleven digits hides four consecutive digits: the 4th to 7th of eleven, else the 8th to 5th from the end. |
| MaskPolicy.LandlineRule | desensitive-service/app.py:252-259 | A landline hides the digits ranked from `n//2-2` up to, but not including, `n//2+2`. |
| MaskPolicy.CodeRule | desensitive-service/app.py:266-275 | Bank cards and credit codes hide all digits and letters but the last four. With four or fewer, they hide all of them. |
| MaskPolicy.NameRule | desensitive-service/app.py:260-265 | A name loses its first character only. |
| MaskPolicy.PassportRule | desensitive-service/app.py:276-282 | A passport longer than two characters keeps its first and last character and hides the rest. |
| MaskPolicy.PermitRule | desensitive-service/app.py:283-289 | A permit of at least nine characters hides characters 3 to 6. |
| MaskPolicy.PlateRule | desensitive-service/app.py:290-298 | A plate of at least seven characters hides the letters and digits from the third up to, but not including, the last. |
| MaskPolicy.OtherRule | desensitive-service/app.py:299-301 | Any other semantic label is masked completely. |
| MaskPolicy.ShortUnchanged | desensitive-service/app.py:245-293 | Short plates, permits and passports, and mobile numbers with fewer than eleven digits, pass through unchanged. |
| Masking.MergeDisjoint | desensitive-service/app.py:208-221 | The merged spans are ordered and do not overlap. |
| Masking.MergeAbsorbs | desensitive-service/app.py:205-221 | Every entity of the sorted list lies within one merged span, and that span carries a pattern label when the entity has one. |
| Masking.MergeSound | desensitive-service/app.py:208-221 | Every position of a merged span lies in some entity, so the merge never widens coverage. |
| Masking.MergeLabels | desensitive-service/app.py:211-221 | Every merged span's label is the label of some entity. |
| Masking.TouchingStaysApart | desensitive-service/app.py:212-215 | `[3,5]` and `[5,23]` only touch, so a name followed by an ID number stays two spans with two labels. |
| Masking.PatternLabelExample | desensitive-service/app.py:219-221 | Worked example: a pattern entity overlapping a name span takes over its label, and a name overlapping an ID span does not. |
| MergeGroups.LastOpen | desensitive-service/app.py:214 | Some entity opens the last group: it starts at or after every earlier entity's end, and no later entity does so. |
| MergeGroups.GroupLabelIs | desensitive-service/app.py:211-221 | A group's label is the last pattern label after its first entity, or the first entity's label when no later entity has one. So a semantic entity never changes the label of the span it joins. |
| MergeGroups.MaxEndIs | desensitive-service/app.py:218 | A group's furthest end is at least every member's end and is the end of one of them. |
| MergeGroups.MergeNewSpan | desensitive-service/app.py:207-215 | An entity that starts at or after every earlier entity's end opens a span of its own, and the earlier spans stay as they were. An entity that only touches the one before it is such an entity. |
| MergeGroups.JoinsLastGroup | desensitive-service/app.py:214-218 | In start order, an entity that opens no group starts before the furthest end of the group before it. |
| MergeGroups.MergeLastGroup | desensitive-service/app.py:205-221 | In start order, the last merged span is the last group's span: it starts at the group's first entity, reaches its furthest end and carries the group's label. The spans before it are those of the entities before that group. |
| MergeGroups.MergeGrouped | desensitive-service/app.py:205-221 | Merging start-sorted entities gives exactly one span per group of overlapping entities, in order, each with the group's start, furthest end and label. |
| MergeGroups.MergeOpensIff | desensitive-service/app.py:213-221 | In start order, a further entity adds a span if and only if it starts at or after every earlier entity's end. Otherwise the number of spans is unchanged. |
| Masking.PolicyRule | desensitive-service/app.py:229-301 | The masking rules keep every span's length and only ever write `'*'`. |
| Masking.RenderPointwise | desensitive-service/app.py:224-305 | For ordered disjoint spans, the output has the text's length. Each position holds its span's masked character, or the original outside every span. |
| Masking.ExpectedInSpans | desensitive-service/app.py:224-305 | An output character that differs from the original is `'*'` and lies in some span. |
| Masking.ExpectedInSpan | desensitive-service/app.py:226-303 | Inside a span, the output character is that span's masked character. |
| Masking.MaskingShape | desensitive-service/app.py:202-305 | `apply_masking` keeps the text's length, and each position is the original character or `'*'`. |
| Masking.MaskingOutside | desensitive-service/app.py:224-305 | A position outside every entity keeps its character. |
| Masking.MaskingAtSpan | desensitive-service/app.py:226-303 | Inside a merged span, the output holds the span's text masked by the span's label rule. |
| Masking.MaskingAbsorbs | desensitive-service/app.py:205-221 | Each entity lies within one merged span, which carries a pattern label whenever the entity does. |
| MaskService.SelectedLabels | desensitive-service/app.py:314 | No list selects nothing. A list selects its labels one for one, in order. |
| MaskService.ChunkLen | desensitive-service/app.py:322 | The chunk length is the requested one unless that is missing or 0, in which case it is 300. It is never 0. |
| MaskService.Keep | desensitive-service/app.py:317-321 | The filtered list holds exactly the selected labels of the requested kind. |
| MaskService.KeepAppend | desensitive-service/app.py:317-321 | The filter works label by label and keeps order and repeats: it keeps one label exactly when it is of the requested kind, and filtering a concatenation concatenates the filtered parts. |
| MaskService.KeepPartition | desensitive-service/app.py:317-321 | The pattern labels and the semantic labels split the selection: each selected label goes to exactly one list. |
| MaskService.MaskCustom | desensitive-service/app.py:310-365 | A blank text fails with 400 "text is empty", and only a blank text fails. Otherwise the response echoes the text and the pattern schema, and `optional_selected` is the list of selected semantic labels, in selection order and with repeats. |
| MaskService.NothingSelected | desensitive-service/app.py:314-322 | With no labels selected, nothing is found and the text comes back unmasked. |
| MaskService.FoundOrigin | desensitive-service/app.py:317-356 | A reported pattern entity has a selected pattern label. Every entity was found by a pattern, the recognizer or the rescan. |
| MaskService.FoundSorted | desensitive-service/app.py:325-356 | `entities_found` is sorted by start, and no two of its entities share a span. |
| MaskService.FoundWithin | desensitive-service/app.py:317-356 | Every reported entity lies within the text, given matches and recognizer spans that do. |
| MaskService.MaskedShape | desensitive-service/app.py:356-357 | The masked text has the original's length and differs from it only by `'*'`, only inside reported entities. |
| Replacements.RunEnd | document-processor/service.py:156-160 | The inner `while` stops at the first equal position or the end, after a run of differing positions. |
| Replacements.RunsMaximal | document-processor/service.py:152-168 | Every run is a maximal block of differing positions. |
| Replacements.RunsApart | document-processor/service.py:152-168 | Consecutive runs are separated by at least one equal position. |
| Replacements.RunsCover | document-processor/service.py:152-168 | Every differing position lies in a run. |
| Replacements.RunsPatch | document-processor/service.py:152-168 | Applying the runs to the original rebuilds the masked text. |
| Replacements.FastPathRuns | document-processor/service.py:152-168 | The equal-length path finds exactly the maximal differing runs, in order and apart. |
| Replacements.FastPathRoundTrip | document-processor/service.py:152-168 | Applying the equal-length edits to the original gives the masked text. |
| Replacements.FastPathInOrder | document-processor/service.py:152-168 | The equal-length edits are ordered, lie within the text and keep their length. |
| Replacements.FastPathEmpty | document-processor/service.py:152-168 | The equal-length path finds no edit iff the texts are identical. |
| Replacements.PatchFromPointwise | document-processor/service.py:161-165 | Edits that are ordered and keep their length give a text of the original length. Each edit's text sits inside its span and the original elsewhere. |
| Replacements.EntityEditsFrom | document-processor/service.py:174-189 | An edit comes from an entity iff the entity starts within the masked text and its masked segment differs from the original one. |
| Replacements.EntityEditsSorted | document-processor/service.py:172-189 | The entity path's edits come out sorted by start, each starting at an entity's start. |
| Replacements.MergeFoldSeparated | document-processor/service.py:195-204 | After the merge, every edit starts at or after the previous edit's end. |
| Replacements.MergeFoldSorted | document-processor/service.py:195-204 | Merging edits sorted by start keeps them sorted. |
| Replacements.MergeFoldKeeps | document-processor/service.py:195-204 | Sorted, separated edits pass the merge unchanged. |
| Replacements.MergeRepsShape | document-processor/service.py:193-204 | The merge step's output is sorted by start and separated. |
| Replacements.MergeRepsKeeps | document-processor/service.py:193-204 | Sorted, separated edits are left as they are by the sort and the merge. |
| Replacements.MergeOverlap | document-processor/service.py:194-203 | Any two edits where the second starts inside the first become one edit. It keeps the first edit's start, reaches the larger end and carries the later edit's text. |
| Replacements.MergeFoldBounded | document-processor/service.py:196-204 | The merged edits end no later than the input edits do. |
| Replacements.MergeFoldOpens | document-processor/service.py:197-198 | An edit that starts at or after every earlier edit's end, touching edits included, is appended as its own edit, and the earlier merged edits stay as they were. |
| Replacements.GenerateEqualLength | document-processor/service.py:133-207 | For texts of equal length, the generated edits are the runs and rebuild the masked text. They are empty iff nothing was masked. |
| Replacements.GenerateFallback | document-processor/service.py:169-207 | For texts of different lengths, the generated edits are sorted and separated. The entity path's edits are exactly the differing masked segments of entities. |
| WordXml.ExtractLayout | document-processor/service.py:53-102 | The fragments tile the flattened text, which is the document's text in order. Each fragment's text is the flattened text over its range. |
| WordXml.ExtractFields | document-processor/service.py:68-98 | Each fragment holds the text of the element field it names, in document order, with an element's text before its tail. |
| WordXml.ExtractComplete | document-processor/service.py:68-98 | Every non-empty text and every non-empty tail has its fragment. |
| WordXml.ExtractTailFollows | document-processor/service.py:84-98 | When an element has text, its tail fragment comes right after its text fragment. |
| WordXml.ExtractStep | document-processor/service.py:68-98 | One element adds its text fragment when the text is non-empty, then its tail fragment when the tail is non-empty. |
| WordXml.ExtractSameShape | document-processor/service.py:53-102 | Documents whose fields have the same lengths map to the same ranges. Only the texts differ. |
| WordXml.PatchUntouched | document-processor/service.py:253-267 | A fragment no edit reaches keeps its text. |
| WordXml.SpliceInside | document-processor/service.py:257-267 | Splicing a length-keeping edit inside the fragment writes the edit's text over its span only. |
| WordXml.PatchFragmentPointwise | document-processor/service.py:251-267 | Non-overlapping, length-keeping edits, each inside or outside the fragment, keep its length in any order. Each edit's text lands inside the edit and the original text stays elsewhere. |
| WordXml.CompareFragment | document-processor/service.py:251-267 | A fragment patched in any order agrees with the reference patch of the flattened text over its range. |
| WordXml.TilePatched | document-processor/service.py:233-267 | A fragment patched with the edits in descending start order holds the reference patch over its range. |
| WordXml.FragmentPatched | document-processor/service.py:233-267 | Every extracted fragment, patched in descending order, keeps its length and holds the reference patch over its range. |
| WordXml.AllFragmentsPatched | document-processor/service.py:233-267 | The same holds for all fragments at once. |
| WordXml.WriteAllAt | document-processor/service.py:269-274 | After the loop, each mapped field holds its fragment's patched text. |
| WordXml.WriteAllOther | document-processor/service.py:269-274 | Fields that no fragment names are left alone. |
| WordXml.WrittenAgrees | document-processor/service.py:239-274 | The written document, extracted again, has the same layout. Over every tile, it reads as the reference patch. |
| WordXml.ApplyReplacements | document-processor/service.py:209-303 | The document keeps its element count. No edits, or a result that does not parse, leave it unchanged. |
| WordXml.ApplyUntouched | document-processor/service.py:239-274 | A fragment no edit reaches keeps its text in the patched document. |
| WordXml.DocumentPatched | document-processor/service.py:209-303 | The patched document's text is the flattened text with the edits applied, when the edits are ordered, keep their length and each lie inside one fragment. |
| WordXml.DocumentMasked | document-processor/service.py:396-407 | For equal-length masking whose runs each fall inside one fragment, the patched document reads as the masked text. |
| WordXml.StraddlingEdit | document-processor/service.py:257-267 | An edit that crosses two fragments is spliced whole into each of them, so the document's text grows. |
| WordXml.TiledApart | document-processor/service.py:68-98 | The extracted fragments are non-empty, ordered and apart. |
| Docx.ReadLast | document-processor/service.py:427 | Reading a name finds the last entry with that name, and finds nothing exactly when no entry has it. |
| Docx.ReadAt | document-processor/service.py:427 | Reading the name of the last entry with that name gives that entry's bytes. |
| Docx.RepackEntries | document-processor/service.py:417-427 | The archive keeps its entries, names and order. Document entries get the new bytes. Every other entry gets the bytes of the last entry with its name, so the last entry of each name is copied as it is. |
| Docx.RepackRead | document-processor/service.py:417-427 | Reading the repacked archive gives the new bytes for the document, when there is one, and the old bytes for every other name. |
| Docx.RepackIdempotent | document-processor/service.py:417-427 | Repacking twice with the same bytes changes nothing more. |
| Docx.RepeatedName | document-processor/service.py:425-427 | Worked example: with two entries named `a`, both are written with the bytes of the later one. |
| Seqs.Slice | desensitive-service/app.py:227 | Python slicing clamps both ends to the length: a slice running past the end is the rest of the sequence, and an empty range gives the empty sequence. |
| Seqs.SortByProperties | desensitive-service/app.py:205 | The sort returns a sorted permutation of its input and leaves a sorted input as it is. |
| Seqs.InsertSorted | desensitive-service/app.py:356 | Inserting into a sorted list keeps it sorted. |
| Seqs.InsertPermutes | desensitive-service/app.py:356 | Inserting adds exactly the one element. |
| Seqs.InsertKeyed | desensitive-service/app.py:356 | Inserting into a sorted list places the new element after every element with the same key and keeps the order of the rest. |
| Seqs.SortByStable | desensitive-service/app.py:205 | The sort is stable: for every key, the elements with that key come out in the order they went in. So among entities with the same start, the first one listed opens the merged span. |

## Left out

- The regular expressions themselves are not modelled, because Dafny has no regex engine. Each category's `finditer` output is the `Candidates` parameter.
- The Taskflow model and `set_schema` are left out because they are a foreign call. The `Recognizer` parameter stands in for `ie_model(chunk)[0]`, and `None` stands for an exception.
- `re.escape` is folded into literal matching, and `re.IGNORECASE` is the `CharTests.fold` parameter. Unicode case folding is not modelled.
- Python's Unicode character classes are the `CharTests` parameter, not tables.
- FastAPI routing, request validation and the HTTP transport are left out. Only the 400 error of `mask_custom` is modelled.
- XML parsing and serialisation are left out: `ET.fromstring`, `ET.tostring`, namespaces, and keeping the XML declaration (`document-processor/service.py:283-292`). The document is its list of `w:t` elements. The re-parse check at lines 294-301 is the `parses` parameter.
- The exception handlers of `_extract_text_from_xml` and `_apply_replacements_to_xml` are left out, because they log and re-raise or return the input.
- Zip compression, archive metadata, UTF-8 encoding and the file I/O of `process_document` are left out. The model covers only the copy loop, over named byte entries.
- The blank-document copy (`document-processor/service.py:367-373`) and the HTTP call to the masking service are left out, because they are I/O.
- Logging, debug files, the PDF/markdown processor and the gradio front end are left out.
- WordXml.DocumentPatched: requires each edit to lie inside one fragment. An edit crossing fragments is copied whole into each fragment it touches (`WordXml.StraddlingEdit`), so the text does not round-trip in that case.
- WordXml.DocumentMasked: covers the equal-length path only. On the entity path, edits need not keep their length, and the document text is not promised to equal the masked text.
- Replacements.GenerateFallback: states the entity path's edits and the shape after the merge. It does not relate the merged edits to the masked text, because an entity path over texts of different lengths gives no such promise.
- Chunking.RecognizeLocates: assumes the recognizer's spans hold their text within the chunk (`Honest`), because that is the recognizer's promise, not the program's.
- MaskService.FoundWithin: assumes the pattern matches and the recognizer's spans lie within the text, for the same reason.
