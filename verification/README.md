# Physical AI textbook backend: chunking, ingestion, chat sources and chapters

This project models, in Dafny, the core of the backend that serves an AI
textbook. The backend has four parts, and the model covers each:

- **Chunking and section splitting.** `ChunkingService` splits a Markdown file
  into sections at its headings. It then cuts each section into overlapping
  windows of at most `chunk_size` characters. Each window ends just after the
  rightmost sentence, line or word break in its last `chunk_overlap`
  characters. Every non-empty stripped window becomes a `ContentChunk` with the
  id `chunk_<12 digest digits>_<index>`. This is modelled in `text.dfy`,
  `sections.dfy` and `chunking.dfy`.
- **Ingestion.** `POST /ingest` chunks every Markdown file, embeds the chunk
  texts and collects one vector-store point per chunk. It records a failing
  file as an error and upserts the points in one call. It then reports a status
  and a message (`ingest.dfy`).
- **Chat.** `POST /chat` has three parts that are modelled: the short answer
  when the search finds nothing, the 200-character source excerpts, and the
  session id (`chat.dfy`).
- **Chapters.** The chapter router does get, list, create, update and delete
  over the in-memory `chapters_db` dictionary. The model is a class whose
  methods update the dictionary in place (`textbook.dfy`).

`wrappers.dfy` holds `Option`, `Result` and the HTTP error value.

The MD5 digest, the embedding model, the vector search, the answer generator
and the fresh `uuid4` session id are outside the model. Each is a function
parameter of the operations that use it. A failing embedding, upsert, search or
generation call returns its exception text as an error value.

The break search looks only at the last `chunk_overlap` characters of a
window. With size 20 and overlap 5, the text "Sentence one. Sentence two.
Sentence three." is searched at positions 15 to 19 ("enten"). There is no break
character there, so the first window is cut at 20, inside a word
(`Chunking.SentenceWindowHardCut`). A file that cannot be read is only logged
(backend/src/api/ingest.py:48-49). It is not added to the errors, and file
reading is outside this model.

## Model

| member | source | states |
|---|---|---|
| Text.IsSpace | backend/src/services/chunking_service.py:54 | the whitespace set that `str.strip()` removes and that the heading pattern's `\s` matches: space, tab to carriage return, the separators `\x1c`-`\x1f`, `\x85`, no-break space and the Unicode space characters. It is a definition without a contract of its own: `LeadingSpaces`, `StripShape` and `HeadingTextMatches` state what depends on it |
| Text.LeadingSpaces | backend/src/services/chunking_service.py:54 | the count of leading whitespace characters that `str.strip` removes: all counted characters are whitespace, and the next one is not |
| Text.TrailingSpaces | backend/src/services/chunking_service.py:54 | the same for the trailing whitespace |
| Text.StripShape | backend/src/services/chunking_service.py:54 | `strip()` returns the contiguous middle of the string. Only whitespace lies around it, and it neither starts nor ends with whitespace. It is empty exactly when the string is all whitespace |
| Text.Strip | backend/src/services/chunking_service.py:54 | `str.strip()` never lengthens the string (its shape is in `StripShape`) |
| Text.StripUnchanged | backend/src/services/chunking_service.py:54 | a string that neither starts nor ends with whitespace is its own strip |
| Text.JoinLines | backend/src/services/chunking_service.py:107 | `'\n'.join(lines)`. It has no contract of its own: `SplitLines` and `SplitJoinLines` prove it the inverse of `split('\n')` |
| Text.SplitLines | backend/src/services/chunking_service.py:96 | `content.split('\n')` returns at least one piece, none of the pieces contains a newline, and joining them with newlines gives back the content |
| Text.SplitJoinLines | backend/src/services/chunking_service.py:96 | splitting the newline-join of newline-free lines gives back the same lines |
| Text.NatToString | backend/src/services/chunking_service.py:127-128 | `str(chunk_index)` is a non-empty string of decimal digits with no leading zero |
| Text.ParseNatToString | backend/src/services/chunking_service.py:128 | the decimal rendering of an index reads back as that index |
| Text.NatToStringInjective | backend/src/services/chunking_service.py:128 | different indices render differently |
| MarkdownSections.LeadingHashes | backend/src/services/chunking_service.py:95 | the length of the run of `#` that opens a line |
| MarkdownSections.HeadingText | backend/src/services/chunking_service.py:103-111 | a found heading title is non-empty and does not start with whitespace |
| MarkdownSections.HeadingTextMatches | backend/src/services/chunking_service.py:95-103 | a returned title is group 2 of a match of `^(#{1,6})\s+(.+)$` on the stripped line. With no title, the stripped line has no match whose whitespace run is taken whole, the split Python's greedy `\s+` makes |
| MarkdownSections.IsHeading | backend/src/services/chunking_service.py:102-103 | a stripped line opens a section exactly when the heading pattern matches it. It is defined as `HeadingText` finding a title and has no contract of its own: `HeadingLine` and `PlainLine` state which lines qualify |
| MarkdownSections.TitleOf | backend/src/services/chunking_service.py:99-111 | the title a group takes from its first line: the heading text, or the default "Introduction". It is a definition without a contract of its own: `SectionShape` and `FirstSectionStartsDocument` state it per section |
| MarkdownSections.HeadingLine | backend/src/services/chunking_service.py:95-111 | a line of one to six `#`, a space and a title with no surrounding whitespace is a heading, and its title is that text |
| MarkdownSections.PlainLine | backend/src/services/chunking_service.py:95-103 | a line that starts with neither `#` nor whitespace, and does not end in whitespace, is not a heading, so it joins the current section |
| MarkdownSections.SplitFixesHashes | backend/src/services/chunking_service.py:95 | any match of the pattern takes all of the line's leading hashes as group 1, followed by whitespace |
| MarkdownSections.Groups | backend/src/services/chunking_service.py:102-119 | grouping the lines at openers gives non-empty groups, and at least one group for at least one line |
| MarkdownSections.GroupsFlatten | backend/src/services/chunking_service.py:102-119 | concatenating the groups gives back the lines in order. No line is lost or repeated |
| MarkdownSections.GroupsOpenAtOpeners | backend/src/services/chunking_service.py:104-115 | every group after the first starts at a heading, and no group holds a heading after its first line |
| MarkdownSections.SectionsOf | backend/src/services/chunking_service.py:106-119 | one section per group, in order. Its title is the title of the group's first line and its body is the group's lines joined with newlines |
| MarkdownSections.Sections | backend/src/services/chunking_service.py:90-121 | `_split_markdown_sections` always returns at least one section |
| MarkdownSections.SplitMarkdownSections | backend/src/services/chunking_service.py:90-121 | the loop over the lines returns exactly `Sections(content)` |
| MarkdownSections.SectionsRejoin | backend/src/services/chunking_service.py:96-119 | joining the section bodies with newlines gives back the whole content |
| MarkdownSections.SectionsPartitionLines | backend/src/services/chunking_service.py:96-119 | the lines of the section bodies, in order, are exactly the lines of the content |
| MarkdownSections.SectionLines | backend/src/services/chunking_service.py:102-119 | the lines of section i's body are the i-th group of lines |
| MarkdownSections.SectionShape | backend/src/services/chunking_service.py:99-115 | each section after the first starts with a heading line and holds no other heading. Its title is that heading's text, or "Introduction" for a first section without a heading |
| MarkdownSections.FirstSectionStartsDocument | backend/src/services/chunking_service.py:99-115 | the first section starts at the first line of the content and is titled by it when it is a heading, "Introduction" otherwise |
| MarkdownSections.NoHeadingIsIntroduction | backend/src/services/chunking_service.py:99-119 | content without a heading is one "Introduction" section holding all of it |
| MarkdownSections.SectionsOfEmpty | backend/src/services/chunking_service.py:96-119 | empty content gives one empty "Introduction" section |
| Chunking.ChunkId | backend/src/services/chunking_service.py:123-128 | the id starts with "chunk_" and is 19 characters plus the index's digits long (the full format is in `ChunkIdFormat`) |
| Chunking.ChunkIdFormat | backend/src/services/chunking_service.py:123-128 | the id is "chunk_", then the first 12 digest digits of text + file + index, then "_" and the decimal index, which reads back as that index |
| Chunking.ChunkIdIndexInjective | backend/src/services/chunking_service.py:128 | chunks with different indices never share an id, whatever the digest |
| Chunking.RFind | backend/src/services/chunking_service.py:40-45 | `str.rfind` in `[lo, hi)`: -1, or a position whose occurrence of the substring lies inside the range |
| Chunking.RFindRightmost | backend/src/services/chunking_service.py:40-45 | a found position is an occurrence, and no later one fits in the range. -1 means there is no occurrence in the range |
| Chunking.BreakPoints | backend/src/services/chunking_service.py:39-46 | the six probes for `.`, `!`, `?`, blank line, newline and space |
| Chunking.BreakPointsInWindow | backend/src/services/chunking_service.py:38-46 | each probe is -1 or lies inside the search range |
| Chunking.ValidBreaks | backend/src/services/chunking_service.py:49 | the result is an order-preserving subsequence of the probes, no longer than them, and every kept value is neither -1 nor past `end` |
| Chunking.ValidBreaksMembers | backend/src/services/chunking_service.py:49 | a value is a valid break iff it is a probe, not -1, and at most `end` |
| Chunking.MaxOf | backend/src/services/chunking_service.py:51 | Python's `max` of a non-empty list. It has no contract of its own: `MaxOfIsMax` states it |
| Chunking.MaxOfIsMax | backend/src/services/chunking_service.py:51 | `max(valid_breaks)` is a member and not below any member |
| Chunking.ProbedCut | backend/src/services/chunking_service.py:38-51 | the cut of lines 38-51 as written is the window end or lies inside the search range. `CutPlacement` proves it equals `WindowCut` |
| Chunking.Cut | backend/src/services/chunking_service.py:33-51 | the window end is after `start` and at most `start + chunk_size`. It is the full size, or it falls inside the last `chunk_overlap` characters |
| Chunking.CutInWindow | backend/src/services/chunking_service.py:36-51 | when the window does not reach the end of the text, the end is the one chosen within `[end - overlap, end)` |
| Chunking.WindowCut | backend/src/services/chunking_service.py:49-51 | the chosen cut is the window end or a position inside the search range |
| Chunking.RightmostBreak | backend/src/services/chunking_service.py:39-49 | reference definition: the last break character in the range |
| Chunking.RightmostBreakIsRightmost | backend/src/services/chunking_service.py:48-51 | no break character follows it in the range. With none found, there is no break character in the range |
| Chunking.CutPlacement | backend/src/services/chunking_service.py:36-51 | the six probes plus `max + 1` cut exactly after the rightmost break character in the range. Without one they keep the window end |
| Chunking.ProbedCutAtBreak | backend/src/services/chunking_service.py:49-51 | with a rightmost break at k, the probes cut at k + 1 |
| Chunking.ProbedCutNoBreak | backend/src/services/chunking_service.py:49-51 | with no break character, the window end stays |
| Chunking.DoubleNewlineDominated | backend/src/services/chunking_service.py:43-44 | a blank-line probe always lies before the single-newline probe, so it never decides the cut |
| Chunking.AdvanceAsWritten | backend/src/services/chunking_service.py:68-70 | the written update always yields `end - overlap`. The `start == end` guard never changes it |
| Chunking.AsWrittenStalls | backend/src/services/chunking_service.py:68-70 | with size 5 and overlap 5, a ten-letter text moves the cursor from 0 back to 0 |
| Chunking.Advance | backend/src/services/chunking_service.py:68-70 | corrected update: the cursor always moves past the old start. It is `end - overlap` whenever that does |
| Chunking.AsWrittenRepeats | backend/src/services/chunking_service.py:31-70 | when the written update steps back to a non-negative cursor at or before the old start, the window there is cut at the same place, so the loop returns to that cursor for ever |
| Chunking.AdvanceAgrees | backend/src/services/chunking_service.py:68-70 | when `2 * overlap <= size`, as with the defaults 1000/200, the written update already progresses and equals the corrected one |
| Chunking.Piece | backend/src/services/chunking_service.py:54 | `text[start:end].strip()` is no longer than the slice, with the end clamped to the text |
| Chunking.Emitted | backend/src/services/chunking_service.py:55-65 | a window gives one chunk exactly when its stripped text is non-empty. The chunk carries that text, the file, the section and the window's index |
| Chunking.ChunksFrom | backend/src/services/chunking_service.py:31-71 | the loop from a cursor gives nothing once the cursor is past the text, and never more chunks than characters left |
| Chunking.Chunks | backend/src/services/chunking_service.py:19-74 | `chunk_text` gives at most one chunk per character of the text |
| Chunking.WindowEnd | backend/src/services/chunking_service.py:33-51 | the probing code computes `Cut` |
| Chunking.ChunkText | backend/src/services/chunking_service.py:19-74 | `chunk_text`'s loop returns the chunks of `Chunks`, that is, the windows from cursor 0 on, index 0 first |
| Chunking.ChunksFromWellFormed | backend/src/services/chunking_service.py:31-71 | every chunk is the stripped text of some window of at most `chunk_size` characters, non-empty, with its own id, file and section. Indices strictly increase |
| Chunking.EmittedWellFormed | backend/src/services/chunking_service.py:54-65 | one window gives at most one chunk: the non-empty stripped slice with the window's index |
| Chunking.ChunksOfEmpty | backend/src/services/chunking_service.py:23-24 | empty text gives no chunks |
| Chunking.ShortTextOneChunk | backend/src/services/chunking_service.py:31-71 | a text no longer than `size - overlap` gives exactly its stripped self as chunk 0, or nothing |
| Chunking.LastWindow | backend/src/services/chunking_service.py:36-71 | a window that reaches the end of the text emits the stripped rest, then continues from the advanced cursor |
| Chunking.FinalWindow | backend/src/services/chunking_service.py:31-71 | when the advanced cursor passes the end, that window is the last |
| Chunking.TwoWindows | backend/src/services/chunking_service.py:31-71 | a text longer than `size - overlap` but within `size` gives two windows: the whole text, then its tail from `size - overlap` |
| Chunking.LastTwoWindows | backend/src/services/chunking_service.py:31-71 | the two trailing windows of a text, with indices i and i + 1 |
| Chunking.IndexGap | backend/src/services/chunking_service.py:55-71 | an all-space window emits nothing but still takes an index: "a   b" with size 2 gives chunks 0 and 2 |
| Chunking.SentenceWindowHardCut | backend/src/services/chunking_service.py:33-54 | on "Sentence one. Sentence two. Sentence three." with size 20 and overlap 5, the first window is cut at 20 and its chunk text is "Sentence one. Senten" |
| Chunking.Windows | backend/src/services/chunking_service.py:31-70 | the windows `[start, end)` the loop visits from a cursor, in order. Each starts at or after the cursor and before the end of the text, and ends after it starts |
| Chunking.AdvanceWithinWindow | backend/src/services/chunking_service.py:68-70 | with a non-negative overlap, the next cursor is never past the cut, and it lies at most `chunk_overlap` before it |
| Chunking.WindowsChain | backend/src/services/chunking_service.py:31-70 | the run has a window exactly when the cursor is inside the text. It starts at the cursor, each window ends at its `Cut`, the next one starts at the advanced cursor, and after the last one the cursor is past the text |
| Chunking.WindowsTile | backend/src/services/chunking_service.py:31-70 | with a non-negative overlap, the windows from cursor 0 start at 0 and move forward. Each starts no later than the end of the one before, neighbours share at most `chunk_overlap` characters, and the last one reaches the end of the text |
| Chunking.WindowsCover | backend/src/services/chunking_service.py:31-70 | with a non-negative overlap, every position of the text from the cursor on lies inside some window of the run |
| Chunking.Pieces | backend/src/services/chunking_service.py:54 | the stripped slices of a list of windows, one per window, in order |
| Chunking.EmitPieces | backend/src/services/chunking_service.py:54-71 | the chunks of a list of stripped slices, numbered from `index`. It has no contract of its own: `ChunksFromWindows` and `EmitPiecesHas` are about it |
| Chunking.ChunksFromWindows | backend/src/services/chunking_service.py:31-71 | the loop from a cursor emits exactly the chunks of its windows' stripped slices, and window i gets index `index + i` |
| Chunking.EmitPiecesHas | backend/src/services/chunking_service.py:55-71 | whatever the slice at place i emits is among the emitted chunks, with index `index + i` |
| Chunking.PieceKeepsNonSpace | backend/src/services/chunking_service.py:54-55 | a window holding a non-whitespace character strips to something non-empty, so it is not skipped |
| Chunking.NoTextLost | backend/src/services/chunking_service.py:19-74 | with a non-negative overlap, `chunk_text` loses no text. Every non-whitespace character lies in the window of some chunk, and that chunk's text is the window stripped |
| Chunking.NegativeOverlapSkips | backend/src/services/chunking_service.py:36-70 | a negative overlap skips text: on "abcdef" with size 2 and overlap -1, the windows are `[0, 2)` and then `[3, 5)`, so position 2 is in no window |
| Chunking.ChunkSections | backend/src/services/chunking_service.py:76-88 | the chunks of each section in turn, tagged with its title. It has no contract of its own: `ChunkMarkdownFile` and `ChunkSectionsProvenance` are about it |
| Chunking.ChunkMarkdownFile | backend/src/services/chunking_service.py:76-88 | returns the chunks of every section in order, each tagged with the file and its section title |
| Chunking.ChunkSectionsProvenance | backend/src/services/chunking_service.py:76-88 | every chunk of a file names that file, has non-empty text, and comes from one section: its text is the stripped text of a window of at most `chunk_size` characters of that section's body, and it carries that section's title |
| Ingest.FileError | backend/src/api/ingest.py:99 | the message starts with "Error processing file " and the path, and ends with the exception text |
| Ingest.UpsertError | backend/src/api/ingest.py:110 | the message is "Error upserting vectors to Qdrant: " followed by the exception text |
| Ingest.FileStep | backend/src/api/ingest.py:66-101 | one file extends the points and the errors without changing what was there. The points grow by exactly the file's `FilePoints`: its chunks zipped with their vectors on success, nothing on failure. It adds exactly one to processed files plus errors, and no more points than chunks |
| Ingest.NoFilesResponse | backend/src/api/ingest.py:51-58 | with no files: SUCCESS, 0 files, 0 chunks, the single error "No markdown files found in" the path, and the message "No markdown files to process" |
| Ingest.Ingest | backend/src/api/ingest.py:51-128 | the status is never PROCESSING. No files gives the no-files response. Otherwise every file is counted as processed or as an error, plus at most one upsert error |
| Ingest.FileChunks | backend/src/api/ingest.py:71 | `chunk_markdown_file(content, file_path)`: every chunk of the file names that file and has non-empty text |
| Ingest.Texts | backend/src/api/ingest.py:75 | the chunk texts, one per chunk, in order |
| Ingest.ZipPoints | backend/src/api/ingest.py:79-94 | `zip` pairs up to the shorter list. Point i has chunk i's id, text, file, section and index and vector i |
| Ingest.PointOf | backend/src/api/ingest.py:81-93 | the Qdrant point of one chunk and its vector. It is a definition without a contract of its own: `ZipPoints` states each point's id, vector and payload |
| Ingest.AppendPoints | backend/src/api/ingest.py:79-94 | the loop appends exactly those points |
| Ingest.ProcessFiles | backend/src/api/ingest.py:61-101 | every file is counted once, as processed or as an error. There are never more points than counted chunks. The points themselves are stated by `ProcessFilesPoints` |
| Ingest.FilePoints | backend/src/api/ingest.py:71-94 | reference definition: the points one file contributes, its chunks zipped with the vectors when embedding succeeds and none when it fails |
| Ingest.AllPoints | backend/src/api/ingest.py:66-94 | reference definition: the points of every file, in file order and in chunk order within a file |
| Ingest.ProcessFilesPoints | backend/src/api/ingest.py:66-101 | after the loop, the collected points are exactly `AllPoints`. Each point of a succeeding file has its chunk's id, text, file, section and index and that chunk's vector (`ZipPoints`), and a failing file adds none |
| Ingest.ProcessAll | backend/src/api/ingest.py:61-101 | the loop over the files computes `ProcessFiles` |
| Ingest.FileStepAccounts | backend/src/api/ingest.py:66-101 | one file adds its error or its chunk count and one processed file, never both |
| Ingest.ProcessFilesAccounts | backend/src/api/ingest.py:61-101 | the errors are one "Error processing file …" message per failing file, in file order. The chunk total is the sum over succeeding files |
| Ingest.NoneProcessed | backend/src/api/ingest.py:96-101 | no file was processed iff every file failed |
| Ingest.EveryChunkAPoint | backend/src/api/ingest.py:76-97 | when the embedder returns one vector per text, there are exactly as many points as counted chunks |
| Ingest.ErrorsAfterUpsert | backend/src/api/ingest.py:103-112 | no upsert without points. A failed upsert appends one "Error upserting vectors to Qdrant" message, and a successful one leaves the errors alone |
| Ingest.Respond | backend/src/api/ingest.py:114-128 | the status is ERROR iff there are errors and nothing was processed, and never PROCESSING. Counts and errors pass through. With errors the message is "Processing completed with N errors. See errors list for details.", otherwise "Successfully processed P files and created C chunks." |
| Ingest.IngestEndpoint | backend/src/api/ingest.py:51-128 | the endpoint's body computes `Ingest`: the no-files response (SUCCESS, 0 files, 0 chunks, one "No markdown files found in" error), or `Respond` over the file loop and the upsert |
| Ingest.StatusErrorIffAllFailed | backend/src/api/ingest.py:51-119 | with at least one file, the status is ERROR exactly when every file failed |
| Ingest.UpsertFailure | backend/src/api/ingest.py:104-117 | a failed upsert is reported as the last error, and the status is still SUCCESS when some file was processed |
| Chat.Excerpt | backend/src/api/chat.py:58 | a text of at most 200 characters is kept. A longer one becomes its first 200 characters plus "..." |
| Chat.ExcerptBounded | backend/src/api/chat.py:58 | an excerpt has at most 203 characters and starts with the text |
| Chat.ExcerptIdempotent | backend/src/api/chat.py:58 | the excerpt of an excerpt is the same excerpt |
| Chat.SourceOf | backend/src/api/chat.py:57-62 | a source has the excerpt of the text, and `""` or `0.0` for a missing key |
| Chat.Sources | backend/src/api/chat.py:55-63 | one source per search result, in result order |
| Chat.BuildSources | backend/src/api/chat.py:55-63 | the loop computes `Sources` |
| Chat.SessionId | backend/src/api/chat.py:36 | the requested session id when it is a non-empty string, the fresh one otherwise |
| Chat.ChatError | backend/src/api/chat.py:74-75 | the 500 error "Error processing chat request: " plus the exception text. It is a definition without a contract of its own: `Chat.Chat` states that every failure is this 500 |
| Chat.Chat | backend/src/api/chat.py:32-75 | a success echoes the query and carries the chosen session id, and every failure is a 500. A search failure becomes "Error processing chat request: " with its text. With results, a generation failure becomes that same error, and a generated answer is returned as is, with `Sources` of the results |
| Chat.ChatEndpoint | backend/src/api/chat.py:32-75 | the endpoint computes `Chat`, so search and generation failures become a 500 "Error processing chat request", and with results the answer is the generator's with one source per result |
| Chat.NoResultsShortCircuit | backend/src/api/chat.py:41-49 | no search results give the fixed answer with no sources, and the answer generator is not consulted |
| Chat.ResponseShape | backend/src/api/chat.py:36-72 | a successful response echoes the query, carries the chosen session id, and has one source of at most 203 characters per result, in order |
| Textbook.TableInv | textbook-backend/app/models/textbook.py:14-33 | the invariant of `chapters_db`: each stored chapter's id is its key, and the insertion-order key list holds each stored key exactly once. It is a predicate with no contract of its own; the `ChapterTable` methods keep it |
| Textbook.MaxKey | textbook-backend/app/routers/textbook.py:23 | `max(chapters_db.keys())` is a key and not below any key |
| Textbook.NewId | textbook-backend/app/routers/textbook.py:23 | the new id is 1 for an empty table, otherwise the largest id plus one. It is above every id and so is not taken |
| Textbook.ApplyUpdate | textbook-backend/app/routers/textbook.py:39 | `copy(update=...)` replaces exactly the fields that were set and keeps the id |
| Textbook.EmptyUpdateIsIdentity | textbook-backend/app/routers/textbook.py:39 | an update with no field set changes nothing |
| Textbook.ApplyUpdateIdempotent | textbook-backend/app/routers/textbook.py:39-40 | applying the same update twice equals applying it once |
| Textbook.RemoveKey | textbook-backend/app/routers/textbook.py:49 | removing an id from the listing order keeps every other id |
| Textbook.RemoveKeyDistinct | textbook-backend/app/routers/textbook.py:49 | the order stays duplicate-free. It shrinks by one for a present id and is unchanged otherwise |
| Textbook.Listing | textbook-backend/app/routers/textbook.py:11 | `list(chapters_db.values())`: one chapter per key, in insertion order |
| Textbook.ListingComplete | textbook-backend/app/routers/textbook.py:11 | the listing has one entry per stored chapter and contains every stored chapter |
| Textbook.DeletedIdReused | textbook-backend/app/routers/textbook.py:23-49 | after deleting the highest id, the next create reuses it: 4 for {1,2,3}, 3 after deleting 3 |
| Textbook.CreateThenGet | textbook-backend/app/routers/textbook.py:13-31 | a created chapter is found under its new id, and every other chapter is unchanged |
| Textbook.ChapterTable.constructor | textbook-backend/app/models/textbook.py:14-33 | the table starts with the three sample chapters, ids 1, 2, 3 |
| Textbook.ChapterTable.GetChapters | textbook-backend/app/routers/textbook.py:8-11 | every stored chapter, once each, in insertion order |
| Textbook.ChapterTable.GetChapter | textbook-backend/app/routers/textbook.py:13-18 | the chapter stored under the id, or 404 "Chapter not found" |
| Textbook.ChapterTable.CreateChapter | textbook-backend/app/routers/textbook.py:20-31 | stores the chapter under the fresh id and returns it. It adds exactly that entry, appended last in the listing order |
| Textbook.ChapterTable.UpdateChapter | textbook-backend/app/routers/textbook.py:33-41 | 404 with nothing changed for an unknown id. Otherwise the stored chapter is replaced by its updated copy in place, and the order is unchanged |
| Textbook.ChapterTable.DeleteChapter | textbook-backend/app/routers/textbook.py:43-50 | 404 with nothing changed for an unknown id. Otherwise the entry is removed, the id leaves the order, and the success message comes back |

## Left out

- The MD5 digest is a function parameter returning 32 characters. That the characters are lower-case hex digits is not modelled, and nothing is assumed about collisions.
- `ContentChunk.embedding`, `metadata` and `created_at`, and the point payload's `metadata.created_at`, are not modelled. They are defaults or timestamps.
- Chunking.Chunks, Chunking.ChunkText and every member that takes a service require `chunk_size >= 1` and `chunk_overlap <= chunk_size`. Settings outside that range are not covered. Some of them hang the source (`size == overlap == 0`, or size 1 with overlap 2). Others end, for example size 0 with overlap -1, or size -1 with overlap -2, which rely on Python's handling of negative slice and search bounds.
- Chunking.Chunks: `ChunkingService.Valid` admits a negative `chunk_overlap`, because the source never rejects one. The request value (backend/src/models/ingest.py:18) reaches the service unchecked (backend/src/api/ingest.py:27). With a negative overlap, the source and the model both skip text: on "abcdef" with size 2 and overlap -1, the first window is cut at 2 and the next cursor is 3 (`Chunking.NegativeOverlapSkips`). `Chunking.WindowsTile`, `Chunking.WindowsCover` and `Chunking.NoTextLost` are therefore stated for `chunk_overlap >= 0` only.
- Chunking.ChunkText uses the corrected cursor update (see Findings). With `2 * chunk_overlap <= chunk_size`, which includes the defaults, it agrees with the code as written (`Chunking.AdvanceAgrees`). Otherwise the two differ only on runs where the written update does not move past the old start. When that step lands on a non-negative cursor, `Chunking.AsWrittenRepeats` proves the source then returns to that cursor for ever. When it lands below 0, Python reads the negative bounds from the end of the text. The model does not cover that case, so it does not prove the source repeats there.
- Python's `re` engine is not modelled. The heading pattern `^(#{1,6})\s+(.+)$` is written out as a predicate on the stripped line, and the `\s`/`str.strip` whitespace set is the Unicode one listed in `Text.IsSpace`.
- Reading the source directory at backend/src/api/ingest.py:32-49 (existence checks, the `*.md` walk, unreadable files) is not modelled: the files arrive as a list of path and content. The surrounding 500 handler at lines 130-134 is left out too.
- Service construction at backend/src/api/ingest.py:25-30 and backend/src/api/chat.py:33 is left out.
- The embedding call, the Qdrant upsert, the vector search and the answer generator are parameters. Embedding vectors are opaque sequences of reals.
- Ingest.ProcessFiles: an exception raised while chunking is not modelled, because the modelled chunker cannot fail. A file fails only through its embedding call.
- `ChatResponse.timestamp` (`datetime.now()`) and the `uuid4` value are left out or passed in as parameters.
- Chat.SourceOf: a result dictionary whose key is present but holds a non-string value is not modelled. Each key is either a value of its field's type or missing.
- Textbook.ApplyUpdate: a field sent explicitly as `null` is set in Pydantic's `exclude_unset` sense and would overwrite the chapter field with `None`. The model treats only unset fields as `None`.
- Pydantic validation of request bodies (types, missing fields → 422) happens before the handlers run and is not modelled.
- `backend/ingest.py`, the command-line duplicate of the ingest loop, is not part of this model.

## Findings

| source | as written | input that shows it | evidently intended | confidence | as-written member | corrected member |
|---|---|---|---|---|---|---|
| backend/src/services/chunking_service.py:68-70 | `start = end - overlap`, then `if start == end: start = end`. The guard can only hold when `overlap == 0`, and then it changes nothing, so the cursor can stay put or move back | `chunk_size=5, chunk_overlap=5`, text "abcdefghij": the first window ends at 5, and the cursor goes back to 0, so the loop repeats forever | when stepping back by the overlap does not move past the old start, continue from the window end | not executed | Chunking.AdvanceAsWritten, Chunking.AsWrittenStalls | Chunking.Advance, Chunking.AdvanceAgrees |
