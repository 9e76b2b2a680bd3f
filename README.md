# Bilingual document aligner — a verified model of its core

The system lines up an English document with its German translation.

- **The production path** (`src/`) works on Azure Document Intelligence JSON:
  - `process_document_json` reads the analysed text, looks up the page of every character offset, and keeps the paragraph records whose role is not ignored.
  - It then stitches fragments split across pages back into paragraphs.
  - `structure_toc` turns the text of a table-of-contents page into sections with start and end pages.
  - `align_content` scores every English/German pair. The score is a weighted blend of semantic similarity, type agreement and positional proximity. It keeps the mutual best matches above a threshold, adds omission and addition records for the rest, and sorts the records by English page.
  - `save_to_markdown` writes a content list as Markdown.
- **The two PDF prototypes** (`test1.py`, `test.py`) work on font-annotated text spans:
  - They turn font sizes into heading levels.
  - They group body text under headings with a stack of open headings.
  - They align headings, by embedding similarity or a string-similarity fallback.
  - They chunk each aligned section's text by sentences under a word limit, and store the padded chunk pairs under the English heading.

The model follows the code file by file:

- **Datatypes and functions** for the pure parts.
- **Methods with loops** where the source loops: the page lookup, the segment filter, the stitching pass, the ToC loops, the score-matrix loops (over `array2`), the mutual-best loop, the omission and addition loops, the font-level loop, the heading stack, the chunk packer and the dictionary builders.
- Each method is proved against a specification function. The properties the code promises are then proved about that function.

Modules:

- `common.dfy`: `Util`, `Text` (str.strip, split, join, the terminal punctuation test), `Matrices` (first argmax), `Config` (config.py as one `Settings` value), `Content`.
- `json_parser.dfy`: `JsonParser`.
- `semantic_aligner.dfy`: `SemanticAligner`.
- `toc_parser.dfy`: `TocParser`.
- `markdown_writer.dfy`: `MarkdownWriter`.
- `fonts.dfy`, `sections.dfy`, `heading_align.dfy`, `chunking.dfy`, `bilingual.dfy`: the prototype algorithms both scripts share. Their parameters cover the points where the scripts differ.
- `prototype_v1.dfy` (`PrototypeV1`, `test1.py`) and `prototype_v2.dfy` (`PrototypeV2`, `test.py`): each script's constants and the parts where it differs.

The stitching pass behaves as written, and the model keeps it that way:

- **The previous segment decides.** A new paragraph starts when the previous segment ends in terminal punctuation, not when the buffer does. That segment may be a heading.
- **A fragment can be emitted twice.** After a heading ending in `:`, the next fragment is emitted at once and also kept as the new buffer. `JsonParser.DuplicateAfterHeadingExample` shows this.
- **Stitching is not idempotent.** `JsonParser.StitchNotIdempotentExample` shows this.

## Model

| member | source | states |
|---|---|---|
| JsonParser.ReadFields | src/processing/json_parser.py:33-38 | The document is read exactly when 'content', 'paragraphs' and 'pages' of 'analyzeResult' are all present. Otherwise the error names a missing key, and every key read before it is present. |
| JsonParser.PageAt | src/processing/json_parser.py:40-45 | No page when no span of any page covers the offset. Otherwise the number of the last page whose spans cover it, so later pages overwrite earlier ones. |
| JsonParser.FillSpan | src/processing/json_parser.py:44-45 | Every offset of the span maps to the page number. Other offsets keep their old entry. |
| JsonParser.FillPage | src/processing/json_parser.py:43-45 | Every offset covered by one of the page's spans maps to the page number. Other offsets keep their old entry. |
| JsonParser.BuildPageLookup | src/processing/json_parser.py:40-45 | An offset is a key exactly when some span covers it, and it maps to the page PageAt gives. |
| JsonParser.SegmentOf | src/processing/json_parser.py:49-62 | Ignored roles and records without spans give nothing. Otherwise a segment exists exactly when the first span's slice is not all whitespace. The segment's text is that slice stripped, its type is the role (default 'paragraph'), and its page comes from the lookup (default 0). |
| JsonParser.Segments | src/processing/json_parser.py:48-62 | At most one segment per record. Every segment text is non-empty and stripped, and no segment has an ignored role. |
| JsonParser.FilterSegments | src/processing/json_parser.py:48-62 | Given the page lookup, the first pass returns exactly the segments of the records, in record order. |
| JsonParser.Stitch | src/processing/json_parser.py:67-98 | The stitching loop and its final flush compute Stitched of the segments. |
| JsonParser.ProcessDocument | src/processing/json_parser.py:12-100 | A missing key gives that key's error. Otherwise the result is the stitched segments of the paragraph records. |
| JsonParser.StitchedOrigin | src/processing/json_parser.py:71-98 | Every emitted item has non-empty text. It is either a structural segment passed through unchanged, or a 'paragraph' whose text is an increasing run of fragments joined by single spaces, on the first fragment's page. Inside a run no segment is structural and only the last can end a sentence. A segment skipped inside the run repeats the text stitched before it. A structural segment comes right after the buffer its step flushes, unless that buffer was empty or equal to the segment's text. The items come out in segment order: each starts at or after the first segment of the item before it, and strictly after a structural item. |
| JsonParser.StitchedInOrder | src/processing/json_parser.py:71-98 | The items' first segments never go backwards. Two paragraphs may share a first fragment, as with the duplicate after a heading, but an item after a structural segment starts strictly later. |
| JsonParser.FragmentRunAppend | src/processing/json_parser.py:92-94 | A segment that continues the run and differs from the buffer is added to the run's fragments. |
| JsonParser.FragmentRunSkip | src/processing/json_parser.py:93 | A segment that continues the run and equals the buffer is skipped, and the run still holds. |
| JsonParser.StitchKeepsStructural | src/processing/json_parser.py:80-85 | The structural items of the output are exactly the structural segments, unchanged and in order. Stitching only adds paragraphs. |
| JsonParser.StitchFlowingCount | src/processing/json_parser.py:88-98 | Without structural segments, the output has one paragraph per segment that follows terminal punctuation, plus the final flush (none for no segments). |
| JsonParser.MergeExample | src/processing/json_parser.py:92-94 | "A" then "B" are joined into the one paragraph "A B". |
| JsonParser.HeadingFlushesExample | src/processing/json_parser.py:80-85 | A heading emits the open paragraph, on its own page, just before itself. |
| JsonParser.RepeatedFragmentExample | src/processing/json_parser.py:93 | A fragment equal to the buffer is dropped. |
| JsonParser.DuplicateAfterHeadingExample | src/processing/json_parser.py:75-98 | After the heading "Scope:", the fragment "Body" is emitted twice. |
| JsonParser.StitchOnceExample | src/processing/json_parser.py:71-98 | The title "T:" then "x", "y" gives the title, "x", then "x y". |
| JsonParser.StitchNotIdempotentExample | src/processing/json_parser.py:71-98 | Stitching that output again changes it. |
| SemanticAligner.TypeScores | src/alignment/semantic_aligner.py:26-38 | An n×m matrix whose entry is the match bonus when the two 'type' fields agree and the penalty otherwise. |
| SemanticAligner.TypeMatrix | src/alignment/semantic_aligner.py:26-38 | The nested loops fill a fresh n×m array with exactly those type scores. |
| SemanticAligner.Proximities | src/alignment/semantic_aligner.py:40-49 | An n×m matrix of 1 - abs(i/n - j/m). |
| SemanticAligner.ProximityMatrix | src/alignment/semantic_aligner.py:40-49 | The nested loops fill a fresh n×m array with exactly those proximities. |
| SemanticAligner.ProximityRange | src/alignment/semantic_aligner.py:45-48 | Every proximity lies in (0, 1]. It is 1 exactly when the relative positions i/n and j/m coincide. |
| SemanticAligner.Blend | src/alignment/semantic_aligner.py:91-95 | Each entry is W_SEMANTIC·semantic + W_TYPE·type + W_PROXIMITY·proximity. |
| SemanticAligner.ScoresOf | src/alignment/semantic_aligner.py:102-103 | The best German per English row is the first argmax of the row. The best English per German column is the first argmax of the column. |
| SemanticAligner.RowPair | src/alignment/semantic_aligner.py:105-117 | Row i gives one pair exactly when it is accepted: its best column names i as best row and the blended score reaches the threshold. The pair reports the semantic score. |
| SemanticAligner.Pairs | src/alignment/semantic_aligner.py:105-117 | Every pair joins an English row below k to a valid German column. |
| SemanticAligner.MutualBestMeaning | src/alignment/semantic_aligner.py:102-109 | Row i is accepted with column j exactly when j is the first maximum of row i, i is the first maximum of column j, and the score reaches the threshold. |
| SemanticAligner.PairsSound | src/alignment/semantic_aligner.py:105-117 | Every pair belongs to an accepted row, sits in that row's best column and reports the semantic score. |
| SemanticAligner.PairsComplete | src/alignment/semantic_aligner.py:105-117 | Every accepted row contributes its pair. |
| SemanticAligner.PairsOrdered | src/alignment/semantic_aligner.py:105 | Pairs come in strictly increasing English order. |
| SemanticAligner.PairsInjective | src/alignment/semantic_aligner.py:102-109 | No English and no German item is in two pairs. |
| SemanticAligner.PairsCountEng | src/alignment/semantic_aligner.py:105-117 | English item i is in one pair if its row is accepted, and in none otherwise. |
| SemanticAligner.PairsCountGer | src/alignment/semantic_aligner.py:102-117 | German item j is in at most one pair: that of the best row of its column, when that row is accepted with j. |
| SemanticAligner.PairsThresholdMonotone | src/alignment/semantic_aligner.py:109 | Raising the threshold keeps a subset of the pairs. |
| SemanticAligner.MutualBestPairs | src/alignment/semantic_aligner.py:99-117 | The loop returns exactly the pairs, and `used` is the set of their German indices. |
| SemanticAligner.Omissions | src/alignment/semantic_aligner.py:120-123 | Each omission has an unmatched English index and no German item, and reports 0.0. |
| SemanticAligner.Additions | src/alignment/semantic_aligner.py:125-127 | Each addition has an unused German index and no English item, and reports 0.0. |
| SemanticAligner.OmissionsCount | src/alignment/semantic_aligner.py:120-123 | Each unmatched English index below n has exactly one omission, and omissions name no German item. |
| SemanticAligner.AdditionsCount | src/alignment/semantic_aligner.py:125-127 | Each unused German index below m has exactly one addition, and additions name no English item. |
| SemanticAligner.AppendUnmatched | src/alignment/semantic_aligner.py:119-127 | The loops append the omissions of the unmatched English items, then the additions of the unused German items. |
| SemanticAligner.SortProperties | src/alignment/semantic_aligner.py:130 | The sort returns a sequence sorted by English page (missing English last) with the same records. It keeps the order of records with equal keys and the count of every index. |
| SemanticAligner.InsertProperties | src/alignment/semantic_aligner.py:130 | One insertion step keeps the sequence sorted, adds exactly the new record, and keeps records with equal keys in order. |
| SemanticAligner.UnsortedCoverage | src/alignment/semantic_aligner.py:99-127 | Before sorting, each English and each German item is in exactly one record. |
| SemanticAligner.AlignmentCoverage | src/alignment/semantic_aligner.py:70-132 | An empty side gives []. Otherwise every English and every German item appears in exactly one record. |
| SemanticAligner.AlignmentSize | src/alignment/semantic_aligner.py:99-127 | At most min(n, m) pairs, and n + m - pairs records in all. |
| SemanticAligner.AlignmentOrder | src/alignment/semantic_aligner.py:129-130 | The records are sorted by English page, and the sort is stable. The records without an English item come last, as the additions in German order. |
| SemanticAligner.AlignmentRecords | src/alignment/semantic_aligner.py:105-127 | Every record has an English or a German item with a valid index. A pair comes from an accepted row and reports its semantic score. A one-sided record reports 0.0. |
| SemanticAligner.ThresholdMonotone | src/alignment/semantic_aligner.py:109 | Raising SIMILARITY_THRESHOLD never adds a pair. |
| SemanticAligner.Resolve | src/alignment/semantic_aligner.py:112-127 | One output record per index record. |
| SemanticAligner.AlignContent | src/alignment/semantic_aligner.py:51-132 | align_content returns the resolved, sorted records of the blended mutual-best alignment. |
| TocParser.Numeral | src/processing/toc_parser.py:57 | The decimal numeral of n is non-empty, all digits, and int() of it gives n back. |
| TocParser.ParseLineMatches | src/processing/toc_parser.py:40-48 | ParseLine accepts exactly the stripped lines that `^\s*(\d+)\s+(.*)` matches. |
| TocParser.ParseLineInverse | src/processing/toc_parser.py:40-49 | A number, whitespace and a title not starting with whitespace parse back to that number and title. |
| TocParser.MatchTokensSpan | src/processing/toc_parser.py:52 | The greedy token matcher only ends on strings of the pattern's language, and a final run stops where it cannot go on. |
| TocParser.MatchTokensComplete | src/processing/toc_parser.py:52 | On a pattern whose runs cannot swallow what follows them, every string of the pattern is found. The match reaches at least its end, and ends exactly there when the final run cannot go on. |
| TocParser.PagesPatternSeparated | src/processing/toc_parser.py:52 | In `\s+Pages\s+\d+\s*–\s*\d+` no run can swallow the first character of what follows it, and the last token consumes. |
| TocParser.PagesMatchAtFragment | src/processing/toc_parser.py:52 | PagesMatchAt(s, p) is Some(e) exactly when s[p..e] matches `\s+Pages\s+\d+\s*–\s*\d+` and e ends the final run of digits, as re's greedy `\d+` does. |
| TocParser.PagesMatchAtNone | src/processing/toc_parser.py:52 | PagesMatchAt(s, p) fails exactly when no fragment starts at p. |
| TocParser.RemovePagesNoFragment | src/processing/toc_parser.py:52 | A title without a "Pages N – M" fragment is left unchanged. |
| TocParser.RemovePagesLeftmost | src/processing/toc_parser.py:52 | When no fragment starts in [p, q) and one starts at q and ends at e, re.sub copies s[p..q], drops the fragment with its whole final number, and goes on at e. |
| TocParser.ItemOf | src/processing/toc_parser.py:45-58 | An item has a non-empty stripped title and no end page yet. |
| TocParser.ItemOfMatches | src/processing/toc_parser.py:46-58 | A line gives an item exactly when its stripped text matches the section pattern and the title, cleaned of page ranges and stripped, is non-empty. The item has that title, and its start page is the number plus page_offset. |
| TocParser.ParsedItemsFromLines | src/processing/toc_parser.py:45-58 | Every item comes from a line, and items keep the order of their lines. |
| TocParser.ParsedItemsEmpty | src/processing/toc_parser.py:45-61 | No item exactly when no line gives one, and then the result is []. |
| TocParser.CollectItems | src/processing/toc_parser.py:42-58 | The first loop returns exactly the items of the lines, in order. |
| TocParser.WithEndPagesKeeps | src/processing/toc_parser.py:60-69 | [] stays []. Otherwise every item keeps its title and start page, in order. |
| TocParser.WithEndPagesChain | src/processing/toc_parser.py:63-69 | Each section ends one page before the next one starts, and the last ends at 999. |
| TocParser.SetEndPages | src/processing/toc_parser.py:60-69 | The second loop and the final assignment compute WithEndPages. |
| TocParser.StructureToc | src/processing/toc_parser.py:26-71 | structure_toc splits on '\n', collects the items and sets their end pages. |
| TocParser.ExamplePagesRemoved | src/processing/toc_parser.py:52 | "Scope Pages 4 – 7" is cleaned to "Scope". |
| TocParser.ExampleLine | src/processing/toc_parser.py:26-58 | "3  Scope" with the default offset 2 gives "Scope" starting at page 5. |
| TocParser.ExampleNoNumber | src/processing/toc_parser.py:47-48 | A line without a leading number gives nothing. |
| MarkdownWriter.HeadingTypesAreStructural | src/reporting/markdown_writer.py:21 | The heading types are exactly the structural roles of config.py. |
| MarkdownWriter.ParagraphText | src/reporting/markdown_writer.py:21-24 | A paragraph is the item's text after "## " for a heading type and after nothing otherwise, followed by a blank line. |
| MarkdownWriter.MarkdownAppend | src/reporting/markdown_writer.py:19-24 | The document of two lists is the two documents one after the other. |
| MarkdownWriter.MarkdownLength | src/reporting/markdown_writer.py:19-24 | The length is the item texts plus two newlines per item plus three characters per heading marker. |
| MarkdownWriter.SaveToMarkdown | src/reporting/markdown_writer.py:8-24 | The loop writes the paragraphs of the items in order. |
| Fonts.SortDescending | test1.py:80 | sorted(..., reverse=True) of the size set: strictly descending, with exactly the set's members. |
| Fonts.DescendingUnique | test1.py:80 | Two descending enumerations of the same set are equal, so the sorted list is determined. |
| Fonts.Levels | test1.py:84-94 | One level per size. |
| Fonts.LevelsSteps | test1.py:84-94 | The first size is level 1. Each next level is one more exactly when the gap to the previous size breaks the tolerance, and the same otherwise. |
| Fonts.LevelsBounded | test1.py:84-94 | Levels never decrease along the list and stay between 1 and the number of sizes. |
| Fonts.AssignLevels | test1.py:83-95 | The loop maps every size to its level. |
| Fonts.HierarchyOn | test1.py:80-95 | The hierarchy's keys are the sizes, and each size has the level of its place in the descending list. |
| Fonts.HierarchyMonotone | test1.py:80-95 | A larger size never has a deeper level, and the largest size has level 1. |
| Fonts.InferFontHierarchy | test1.py:75-95 | Sorting then assigning levels computes the hierarchy. |
| Sections.MaxLevelOf | test1.py:107 | threshold + 1 without font levels, else the largest level. |
| Sections.MaxLevel | test1.py:107 | The pass over the keys computes MaxLevelOf. |
| Sections.PopWhile | test1.py:125-127 | Popping keeps a prefix of the stack. Its top is shallower than the new level, and every frame popped was as deep or deeper. |
| Sections.PopHeadings | test1.py:125-127 | The while loop pops exactly PopWhile. |
| Sections.PushIncreasing | test1.py:125-133 | Popping then pushing keeps the levels on the stack strictly increasing. |
| Sections.HierarchyHeadings | test1.py:98-146 | One section per heading element, in order, with the heading's text, level and page. |
| Sections.HierarchyContents | test1.py:98-146 | Each section's content is its group of body texts joined and stripped. The groups together are all body texts, in order: text before the first heading goes to the first section. |
| Sections.HierarchyNoHeadings | test1.py:138-146 | Without a heading the result is []: all text is dropped. |
| Sections.Below | test1.py:125-127 | The latest heading before q shallower than a level: every heading between them is at least that deep, and None means no earlier heading is shallower. |
| Sections.PopChain | test1.py:125-133 | Popping the headings at least as deep as the new level off the chain of open headings leaves the chain of the nearest shallower heading. |
| Sections.StepChain | test1.py:110-136 | One element keeps the invariant: the stack is the chain of nearest shallower ancestors of the latest heading, and each closed section's parent is the heading of its nearest shallower predecessor. |
| Sections.HierarchyParentHeading | test1.py:98-146 | Each section's parent is the heading of the nearest earlier heading of smaller level, or None when there is none. |
| Sections.HierarchyParents | test1.py:115-122 | The first section has no parent. A section has no parent exactly when no earlier section is shallower. Otherwise its parent is the heading of an earlier section p of strictly smaller level, and every section between p and it is at least as deep. |
| Sections.BuildHierarchy | test1.py:98-146 | The loop and the final flush compute Hierarchy with the classifying rules. |
| HeadingAlign.SimilaritySound | test1.py:193-206 | Every pair joins a row to its first maximum at a score of at least the threshold, in row order. |
| HeadingAlign.SimilarityComplete | test1.py:193-206 | A row is paired exactly when the maximum of its row reaches the threshold. |
| HeadingAlign.SimilarityReusesGerman | test1.py:193-206 | Two English headings can take the same German heading. |
| HeadingAlign.SimilarityAlign | test1.py:185-207 | No pairs when a side is empty, else SimilarityMatches. |
| HeadingAlign.BestUnusedMeaning | test1.py:216-224 | The scan finds the first unused column of strictly best positive ratio, or nothing when no unused column is positive. |
| HeadingAlign.FallbackInjective | test1.py:213-237 | `used` is the set of paired German indices. English indices increase, and no German index repeats. |
| HeadingAlign.FallbackPrefix | test1.py:215-236 | Earlier rows' pairs are kept as later rows are processed. |
| HeadingAlign.FallbackChoice | test1.py:215-236 | Each pair takes the best German heading not used before it, with a ratio of at least 0.3. |
| HeadingAlign.FallbackSkips | test1.py:225 | A row is unpaired exactly when its scan finds nothing or a ratio below 0.3. |
| HeadingAlign.FallbackNoGerman | test1.py:215-237 | With no German headings nothing is paired. |
| HeadingAlign.FallbackAlign | test1.py:212-237 | The loops compute Fallback. |
| Chunking.PackTexts | test1.py:160-172 | The packer loses no sentence and keeps their order. |
| Chunking.ChunksPartition | test1.py:160-173 | The chunk groups concatenate to the sentences, and there are no chunks exactly when there are no sentences. |
| Chunking.ChunksFit | test1.py:163-172 | No chunk is empty, and a chunk exceeds max_words only when it is a single sentence. |
| Chunking.ChunksGreedy | test1.py:165-168 | A chunk was closed only because the next sentence did not fit. |
| Chunking.PackCount | test1.py:163-170 | The running count is the number of words of the open chunk. |
| Chunking.ChunkText | test1.py:149-173 | The loop computes TextChunks: none for empty text, else the packed sentences joined by spaces. |
| Bilingual.Padded | test1.py:248-253 | As many pairs as the longer chunk list. |
| Bilingual.PaddedColumns | test1.py:248-253 | Each column reads back as its side's chunks in order, then blanks. |
| Bilingual.PadChunks | test1.py:248-253 | The loop computes Padded. |
| Bilingual.ByKeyLastWins | test1.py:254 | The keys are those assigned, and each holds its last assigned value. |
| Bilingual.BilingualLastWins | test1.py:240-261 | The keys are the English headings, and each holds the entry of the last aligned section with that heading. |
| Bilingual.KeyOrderFirst | test1.py:254 | Dictionary keys are listed in the order of their first assignment, so none repeats. |
| Bilingual.BilingualKeyOrder | test1.py:329-331 | The dumped dictionary lists each English heading once, in the order of its first aligned section, with the entry of its last aligned section. |
| Bilingual.BuildBilingual | test1.py:240-261 | The loop computes BilingualMap and the key order json.dump writes: each heading where it was first assigned. |
| PrototypeV1.InferFontHierarchy | test1.py:75-95 | Only positive sizes are keys. A larger size never has a deeper level, and the largest has level 1. |
| PrototypeV1.BuildHierarchy | test1.py:98-146 | build_hierarchy with the heading word limit as a parameter. |
| PrototypeV1.AlignSections | test1.py:176-237 | The embedding branch when similarities are present, else the fallback. Both give in-range pairs and one record per pair. |
| PrototypeV1.AlignNothing | test1.py:187-188 | No English or no German section gives no pairs, in both branches. |
| PrototypeV1.AlignOrdered | test1.py:193-236 | At most one record per English section, in English order. |
| PrototypeV2.InferFontHierarchy | test.py:69-81 | All sizes are keys, including zero and negative ones. A larger size never has a deeper level, and the largest has level 1. |
| PrototypeV2.BuildHierarchy | test.py:87-121 | build_hierarchy with the word limit 10. |
| PrototypeV2.ConfidenceMonotone | test.py:127-132 | A higher score never gets a lower band, and a band other than "Low" means a score of at least 0.55. |
| PrototypeV2.AlignSections | test.py:135-186 | An empty side gives []. Otherwise the embedding branch or the fallback, each record with the band of its score. |
| PrototypeV2.RecordsRated | test.py:148-162 | In the embedding branch at threshold 0.55 or above, every record is rated "High" or "Medium". |
| PrototypeV2.FallbackRatesLow | test.py:170-179 | The fallback accepts a ratio of 0.4 and rates it "Low". |

## Left out

- Reading files, PDF extraction (PyMuPDF), `get_toc_text_from_pdf`, progress bars and console output. The model starts from the loaded JSON value or the extracted spans.
- Embeddings. The sentence-transformer model, its cache, `cosine_similarity`/`util.cos_sim` and `SequenceMatcher.ratio` are inputs: a semantic matrix, an optional similarity matrix and a ratio matrix.
- A runtime failure of the embedding model in `test1.py` falls back to string similarity. The model covers this by passing no similarity matrix.
- Sentence splitting (`sent_tokenize` or the regex fallback) is an input function from text to sentences.
- Floating point. Scores and weights are exact reals, so rounding in the blend, in `i / num_eng` and in ties between argmax candidates is not modelled.
- `round(score, 3)` in `test.py`. PrototypeV2.AlignSections: records carry the unrounded score, and the band is computed from the unrounded score as in the source.
- Whitespace is the six ASCII whitespace characters space, \t, \n, \v, \f and \r. On ASCII, str.isspace also accepts \x1c–\x1f, and that is not modelled. `\d` is ASCII digits. Python's Unicode classes are wider.
- Object identity in `matched_english_indices` (semantic_aligner.py:120) is an item's index. This differs only when the same dictionary object occurs twice in the list.
- The sort in `align_content` is a stable insertion sort written as a function. The in-place list sort is not modelled.
- A page without 'spans' or 'pageNumber', a span without 'offset' or 'length', or a paragraph without 'spans' raises an uncaught KeyError in the source (json_parser.py:42-45, 55-57). The Page, Span and Paragraph datatypes always have these fields, so the model cannot express such records. Only the missing 'analyzeResult', 'content', 'paragraphs' and 'pages' keys are modelled, as the ValueError the source raises for them.
- json_parser.py:88 tests the previous segment's text for terminal punctuation, not the buffer, and the model does the same. The duplicated fragment and the non-idempotence this causes are kept and shown by example lemmas.
- Table and handwriting regions and an optimal-assignment strategy are not in these source files, so they are not modelled.
- Span offsets and lengths are `nat`, so they are taken as non-negative. A negative offset would make Python's slice at json_parser.py:58 count from the end of the content; that is not modelled.
- save_to_markdown writes to a file. SaveToMarkdown returns the text it would write.
- PrototypeV2.RecordsRated: only the embedding branch is covered. The fallback accepts ratios from 0.3, which can be rated "Low" (PrototypeV2.FallbackRatesLow).
- In the prototypes, a record's confidence band is attached when the records are built from the chosen pairs, which is where `test.py` computes it.
