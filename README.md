# Document chunking for a retrieval index

This project models the text-processing core of `index_documents.py`, a script that indexes documents for retrieval. The script reads a PDF or Word file, normalises its text and cuts the text into chunks by one of three strategies. It then embeds each chunk and stores the chunks in a `document_chunks` table. The model covers these parts:

- **Loading** (`load_text`). The file extension picks the reader: `.pdf` or `.docx`/`.doc`, in any letter case. Any other extension is refused. The text the reader returns is normalised:
  - carriage returns become newlines;
  - runs of two or more newlines become one blank line;
  - whitespace is stripped from both ends.
- **Chunking.**
  - `chunk_fixed` cuts fixed-size character windows that overlap.
  - `chunk_by_sentences` splits after `.`, `!` or `?` followed by whitespace, then packs the sentences greedily, joined by a space.
  - `chunk_by_paragraphs` splits at blank lines, then packs the paragraphs greedily, joined by a blank line.
  - `split_text` picks the strategy by name, using the defaults 800/200, 800 and 1000.
- **Persistence** (`save_chunks`). This is the check that there are as many embeddings as chunks, and the rows built for the insert.

Modules:

- `Common`: `Result` and error kinds.
- `Text`: Python's whitespace, `str.strip()`, `str.lower()`, joining, and the visible characters of a string.
- `Cleanup`: load_text.
- `FixedChunker`: chunk_fixed.
- `Packing`: the greedy packing shared by the sentence and paragraph chunkers. It is specified twice:
  - as the grouping the loop builds (`Groups`);
  - by the greedy rule alone (`GreedyGrouping`).
  
  The two are proved to be the same grouping.
- `Sentences`, `Paragraphs`: the two splitters and their chunkers.
- `Segmenter`: split_text.
- `Persistence`: the rows of save_chunks.

The chunker loops are methods. Each is proved equal to a specification function, and the properties are lemmas about that function.

## Model

| member | source | states |
|---|---|---|
| Text.Strip | index_documents.py:66 | str.strip() yields the empty string or a string with no whitespace at either end, no longer than its input |
| Text.IsWhitespace | index_documents.py:66 | space, tab, newline and carriage return are whitespace, as str.strip() and \s treat them; no visible ASCII character is, so the terminators .!? never are |
| Text.StripSlice | index_documents.py:66 | strip() keeps one contiguous slice of its input and removes only whitespace before and after it |
| Text.StripEmpty | index_documents.py:103-105 | a piece strips to the empty string exactly when it is all whitespace, which is when the chunkers skip it |
| Text.StripAfterWhitespace | index_documents.py:109 | (sep + unit).strip() is the unit when the current chunk is empty, as the first sentence or paragraph of a chunk is |
| Text.StrippedNonEmpty | index_documents.py:126 | [p.strip() for p in pieces if p.strip()] is no longer than the pieces and every kept item is stripped and non-empty |
| Text.StrippedNonEmptyOrigin | index_documents.py:126 | every kept item is some piece, stripped |
| Text.NonWsStrippedNonEmpty | index_documents.py:126 | stripping the pieces and dropping the blank ones loses no visible character and keeps their order |
| Text.Join | index_documents.py:109 | sep.join(xs); with an empty separator it is the plain concatenation of xs |
| Text.ToLower | index_documents.py:55 | lower-casing keeps the length and lowers each letter at its place |
| Cleanup.ReplaceCarriageReturns | index_documents.py:64 | text.replace("\r", "\n") keeps the length and leaves no carriage return |
| Cleanup.NewlineRun | index_documents.py:65 | the newline run at the front of a string is all newlines and is maximal |
| Cleanup.CollapseNewlines | index_documents.py:65 | after re.sub(r"\n{2,}", "\n\n", ...) no three newlines are in a row; the text does not grow; no carriage return is introduced; the first character of a text that does not start with a newline is kept |
| Cleanup.NewlineRunOf | index_documents.py:65 | the newline run at the front of k newlines followed by a non-newline is k long |
| Cleanup.CollapseNewlinesAppend | index_documents.py:65 | the substitution works piecewise: a text cut after a character other than a newline collapses as its two parts do |
| Cleanup.CollapseNewlinesRun | index_documents.py:65 | a run of two or more newlines becomes exactly "\n\n", and a single newline stays one newline, before whatever follows |
| Cleanup.CollapseNewlinesBreak | index_documents.py:65 | between two texts, a run of k >= 2 newlines becomes "\n\n" and a single newline stays; the texts on either side collapse independently |
| Cleanup.ReplaceCarriageReturnsAppend | index_documents.py:64 | the replacement works piecewise over a concatenation |
| Cleanup.CarriageReturnLineFeedBreak | index_documents.py:64-65 | a Windows line break "\r\n" between two lines becomes the blank line "\n\n", a paragraph break |
| Cleanup.ReplaceCarriageReturnsFixpoint | index_documents.py:64 | a text with no carriage return is left unchanged by the replacement |
| Cleanup.CollapseNewlinesFixpoint | index_documents.py:65 | a text with no run of three newlines is left unchanged by the collapse |
| Cleanup.NonWsReplaceCarriageReturns | index_documents.py:64 | the replacement changes no visible character |
| Cleanup.NonWsCollapseNewlines | index_documents.py:65 | the collapse changes no visible character |
| Cleanup.StripNormalized | index_documents.py:66 | stripping a text with no carriage return and no triple newline gives a normalised text |
| Cleanup.Clean | index_documents.py:64-66 | the cleanup never lengthens the text, and leaves it empty or with no whitespace at either end |
| Cleanup.CleanNormalized | index_documents.py:64-66 | the cleaned text has no carriage return, no run of three newlines and no whitespace at either end |
| Cleanup.CleanKeepsText | index_documents.py:64-66 | the cleanup keeps every visible character of the text, in order |
| Cleanup.CleanFixpoint | index_documents.py:64-66 | the cleanup leaves a text unchanged exactly when the text is already normalised |
| Cleanup.CleanIdempotent | index_documents.py:64-66 | cleaning twice is cleaning once |
| Cleanup.ReaderFor | index_documents.py:55-61 | ".pdf" is read as PDF and ".docx" or ".doc" as Word, whatever the letter case; every other extension is refused |
| Cleanup.ReaderForIgnoresCase | index_documents.py:55 | the extension test does not depend on letter case |
| Cleanup.LoadText | index_documents.py:53-66 | fails, with an unsupported-format error, exactly when the extension is refused, before any reader runs; otherwise returns the chosen reader's text after the cleanup, which is normalised, a fixed point of the cleanup and has the reader's visible characters |
| FixedChunker.FixedStep | index_documents.py:81-88 | one iteration leaves start non-negative and at most max(len - overlap, 0) |
| FixedChunker.StartAfter | index_documents.py:80-88 | start is 0 before the first iteration, and after any iteration lies between 0 and max(len - overlap, 0) |
| FixedChunker.FixedStepStaysInside | index_documents.py:81-88 | with a positive overlap, or an overlap of at least chunk_size from a start inside the text, one iteration of chunk_fixed's loop leaves start inside a non-empty text |
| FixedChunker.FixedLoopNeverExits | index_documents.py:80-88 | as written, the loop's guard start < len holds after any number of iterations on a non-empty text when overlap > 0 or overlap >= chunk_size |
| FixedChunker.FixedStepAdvances | index_documents.py:81-88 | with overlap <= 0 and overlap < chunk_size, an iteration from inside the text moves start strictly forward |
| FixedChunker.FixedLoopExits | index_documents.py:80-88 | with overlap <= 0 and overlap < chunk_size the loop exits: after some n <= len iterations start >= len, and the guard held after every earlier iteration |
| FixedChunker.FixedLoopExitsFrom | index_documents.py:80-88 | the same search from an iteration m whose start is at least m: the exit comes at or after m |
| FixedChunker.FixedStepFixpoint | index_documents.py:81-88 | with a positive overlap the loop stalls at max(len - overlap, 0) when chunk_size >= overlap, and at 0 when chunk_size < overlap: a fixed point of the step inside the text |
| FixedChunker.DefaultsStall | index_documents.py:71-88 | under the defaults 800/200, start runs 0, 600, 800, 800, ... on a 1000-character text |
| FixedChunker.Windows | index_documents.py:80-88 | the windows the loop cuts, stopping after the window that reaches the end, all lie in the text |
| FixedChunker.WindowsInsideText | index_documents.py:81 | each window ends at min(start + chunk_size, len), so it is at most chunk_size long |
| FixedChunker.WindowsLinked | index_documents.py:86-88 | each next window starts overlap characters before the previous one ended, clamped at 0, and strictly further on |
| FixedChunker.WindowsReachEnd | index_documents.py:80-88 | there are no windows exactly when the text is empty; the first starts at 0; with no negative overlap the last reaches the end |
| FixedChunker.FixedChunks | index_documents.py:71-90 | chunk_fixed's chunks: at most one per window, each stripped |
| FixedChunker.FixedChunksOfEmpty | index_documents.py:76-80 | an empty text gives no chunk |
| FixedChunker.FixedChunkShape | index_documents.py:81-84 | every chunk is text[lo:hi].strip() of one window, non-empty, stripped and at most chunk_size long |
| FixedChunker.FixedChunksBounded | index_documents.py:81-84 | every chunk is stripped and at most chunk_size long |
| FixedChunker.FixedWindowsOverlap | index_documents.py:81-88 | with 0 <= overlap < chunk_size every window but the last is chunk_size long, and the next starts exactly overlap characters before it ends |
| FixedChunker.WindowsTile | index_documents.py:80-88 | with no overlap the windows tile the text in order |
| FixedChunker.FixedChunksKeepText | index_documents.py:80-88 | with no overlap the chunks keep every visible character of the text, once and in order |
| FixedChunker.DefaultWindows | index_documents.py:71-88 | under the defaults a 1000-character text gives the windows [0, 800) and [600, 1000) |
| FixedChunker.WindowsUnfold | index_documents.py:81-88 | one iteration: the window at start, then the windows from the next start unless this one reached the end |
| FixedChunker.WindowsStep | index_documents.py:81-88 | the windows already cut and the windows from start make up all windows, before and after an iteration |
| FixedChunker.FixedLoopNext | index_documents.py:81-88 | an iteration that stops short of the end keeps the loop's state |
| FixedChunker.FixedLoopLast | index_documents.py:81-84 | the iteration that reaches the end cuts the last window, and the chunks are then complete |
| FixedChunker.FixedLoopPastEnd | index_documents.py:81-88 | with no positive overlap, the iteration that reaches the end takes start past it and keeps the loop's state |
| FixedChunker.ChunksStep | index_documents.py:82-84 | one window adds its stripped slice to the chunks, unless the slice is blank |
| FixedChunker.ChunkFixed | index_documents.py:71-90 | chunk_fixed, with the exit after the window that reaches the end: returns exactly the chunks of the windows, each stripped and at most chunk_size long |
| FixedChunker.ChunkFixedAsWritten | index_documents.py:71-90 | chunk_fixed as written, where its loop stops (empty text, or positive chunk size and no positive overlap): returns the same chunks |
| Packing.FitsWithin | index_documents.py:108 | a unit that passes len(current) + len(unit) + len(sep) <= max_chars leaves the chunk it joins within max_chars |
| Packing.Groups | index_documents.py:107-113 | the loop's grouping has no more groups than units, some when there are units, and no empty group |
| Packing.JoinEach | index_documents.py:109 | one joined chunk per group |
| Packing.GroupsAreGreedy | index_documents.py:107-116 | the loop's grouping holds the units in order; a group of two or more units is within max_chars; each group after the first starts with a unit that did not fit after the previous group |
| Packing.GreedyGroupingUnique | index_documents.py:107-116 | any grouping that follows that greedy rule is the loop's grouping |
| Packing.GreedyExtend | index_documents.py:108-109 | a greedy grouping with a fitting unit added to its last group is greedy |
| Packing.GreedyOpen | index_documents.py:110-113 | a greedy grouping with a new group for a unit that does not fit is greedy |
| Packing.GreedyDropLast | index_documents.py:110-113 | dropping the last group, which was opened for a unit that did not fit, leaves a greedy grouping of the earlier units |
| Packing.GreedyShortenLast | index_documents.py:108-109 | dropping the last unit of a last group of two or more leaves a greedy grouping in which that unit fits |
| Packing.UniqueOpen | index_documents.py:110-113 | uniqueness when the last group holds one unit |
| Packing.UniqueExtend | index_documents.py:108-109 | uniqueness when the last group holds several units |
| Packing.GroupsHoldUnits | index_documents.py:102-113 | every unit in a group is one of the units |
| Packing.PackedChunks | index_documents.py:107-116 | the chunks of the greedy loop: no more chunks than units, and no chunk exactly when there is no unit |
| Packing.PackedChunksStripped | index_documents.py:109-116 | chunks packed from stripped units are non-empty and stripped |
| Packing.PackedChunksBounded | index_documents.py:108-116 | a chunk is longer than max_chars only when it is one unit that is |
| Packing.PackedChunksGreedy | index_documents.py:108-113 | a chunk of two or more units is within max_chars, and a chunk was closed only when len(chunk) + len(sep) + len(next unit) > max_chars |
| Packing.JoinEachConcat | index_documents.py:109 | joining the joined groups is joining all their units |
| Packing.PackedChunksJoin | index_documents.py:107-116 | the chunks joined by the separator are the units joined by the separator: nothing is lost, duplicated or reordered |
| Packing.PackedChunksSnoc | index_documents.py:108-113 | one step on strings: a fitting unit makes the last chunk (current + sep + unit).strip(), and any other unit becomes a new chunk |
| Packing.AppendToLastChunk | index_documents.py:109 | (current + sep + unit).strip() is the last group joined once the unit is added |
| Packing.PackStepFits | index_documents.py:108-109 | a unit that fits keeps the loop's state, current becoming (current + sep + unit).strip() |
| Packing.PackStepOpens | index_documents.py:110-113 | a unit that does not fit keeps the loop's state, current being appended when non-empty and replaced by the unit |
| Packing.PackStateFinal | index_documents.py:115-118 | after the last unit, the chunks and a non-empty current are the packed chunks |
| Sentences.SentenceWindows | index_documents.py:98 | the scan for (?<=[.!?])\s+ yields at least one piece, each within the text |
| Sentences.SentencePieces | index_documents.py:98 | re.split yields at least one piece, and one empty piece for the empty text |
| Sentences.SentenceUnits | index_documents.py:98-105 | the kept sentences are no more than the pieces, each stripped and non-empty |
| Sentences.SentenceChunks | index_documents.py:93-118 | chunk_by_sentences's chunks: no more than the sentences, none exactly when there is no sentence, each stripped |
| Sentences.SentenceWindowsCover | index_documents.py:98 | the pieces of re.split run from the start of the text to its end |
| Sentences.SentenceWindowsGaps | index_documents.py:98 | between consecutive pieces lies exactly one match of (?<=[.!?])\s+: a terminator, then the whole whitespace run |
| Sentences.SentenceWindowsMaximal | index_documents.py:98 | no piece holds a place where the pattern matches |
| Sentences.SentenceWindowsKeepText | index_documents.py:98 | the pieces keep every visible character of the text, once and in order |
| Sentences.KeepTextAcrossGap | index_documents.py:98 | the whitespace dropped at a match holds no visible character |
| Sentences.GapInvisible | index_documents.py:98 | the text from a match on has the visible characters of the text after it |
| Sentences.SentenceUnitsKeepText | index_documents.py:98-105 | the stripped non-blank sentences keep every visible character of the text, in order |
| Sentences.SentenceChunksKeepText | index_documents.py:93-118 | the chunks keep every visible character of the text, once and in order |
| Sentences.KeptSentences | index_documents.py:102-105 | the sentences the loop has kept after k pieces are stripped and non-empty |
| Sentences.KeptSentencesPrefix | index_documents.py:102-105 | they are the first k pieces, stripped, with the blank ones dropped |
| Sentences.SentenceLoopStart | index_documents.py:99-100 | the loop's state holds before the first piece, with no chunk and current = "" |
| Sentences.SentenceStepSkips | index_documents.py:103-105 | a blank piece is skipped and the loop's state is kept |
| Sentences.SentenceStepFits | index_documents.py:108-109 | a sentence with len(current) + len(sent) + 1 <= max_chars is appended after a space |
| Sentences.SentenceStepOpens | index_documents.py:110-113 | any other sentence closes the current chunk and opens the next |
| Sentences.SentenceLoopEnd | index_documents.py:115-116 | after the last piece, appending a non-empty current gives the packed chunks |
| Sentences.PackSentence | index_documents.py:102-113 | one pass of the loop keeps its state, one piece further on |
| Sentences.PackSentences | index_documents.py:99-116 | the loop over the pieces and the final append return the packed chunks of the stripped non-blank pieces |
| Sentences.SentenceChunksProperties | index_documents.py:93-118 | each chunk is within max_chars or is one sentence; joined by spaces the chunks are the sentences joined by spaces; they keep the text's visible characters in order |
| Sentences.ChunkBySentences | index_documents.py:93-118 | chunk_by_sentences, splitting the text and running the loop of PackSentences: returns the packed sentences, each stripped and within max_chars unless it is one longer sentence; joined by spaces they are the sentences joined by spaces, and they keep the text's visible characters in order |
| Paragraphs.ParagraphPieces | index_documents.py:126 | text.split("\n\n") yields at least one piece, and one empty piece for the empty text |
| Paragraphs.ParagraphUnits | index_documents.py:126 | the kept paragraphs are no more than the pieces, each stripped and non-empty |
| Paragraphs.ParagraphChunks | index_documents.py:121-142 | chunk_by_paragraphs's chunks: no more than the paragraphs, none exactly when there is no paragraph, each stripped |
| Paragraphs.SplitWindows | index_documents.py:126 | the pieces of text.split("\n\n") are non-empty in number and lie in the text |
| Paragraphs.BlankLineIsWhitespace | index_documents.py:133 | the blank line that joins paragraphs is whitespace |
| Paragraphs.SplitWindowsJoin | index_documents.py:126 | joining the pieces with "\n\n" gives the text back, from the scan's current piece on |
| Paragraphs.JoinAcrossBlankLine | index_documents.py:126 | a piece, the separator and the rest join into the text from the piece on |
| Paragraphs.SplitWindowsMaximal | index_documents.py:126 | no piece holds the separator |
| Paragraphs.SplitWindowsLeftmost | index_documents.py:126 | separators are taken left to right: a piece other than the last does not end with a newline |
| Paragraphs.ParagraphPiecesJoin | index_documents.py:126 | "\n\n".join(text.split("\n\n")) == text |
| Paragraphs.ParagraphPiecesShape | index_documents.py:126 | no piece holds a blank line, and no piece but the last ends with a newline |
| Paragraphs.ParagraphUnitsKeepText | index_documents.py:126 | the stripped non-blank paragraphs keep every visible character of the text, in order |
| Paragraphs.ParagraphLoopStart | index_documents.py:127-128 | the loop's state holds before the first paragraph, with no chunk and current = "" |
| Paragraphs.PackParagraph | index_documents.py:130-137 | one pass of the loop keeps its state: a paragraph with len(current) + len(para) + 2 <= max_chars is appended after a blank line; any other paragraph closes the current chunk |
| Paragraphs.PackParagraphs | index_documents.py:127-140 | the loop over the paragraphs and the final append return the packed chunks of the paragraphs |
| Paragraphs.ParagraphChunksProperties | index_documents.py:121-142 | each chunk is within max_chars or is one paragraph; joined by blank lines the chunks are the paragraphs joined by blank lines; they keep the text's visible characters in order |
| Paragraphs.ChunkByParagraphs | index_documents.py:121-142 | chunk_by_paragraphs, splitting the text and running the loop of PackParagraphs: returns the packed paragraphs, each stripped and within max_chars unless it is one longer paragraph; joined by blank lines they are the paragraphs joined by blank lines, and they keep the text's visible characters in order |
| Segmenter.StrategyFor | index_documents.py:147-155 | "fixed", "sentence" and "paragraph", in any letter case, pick their chunker; any other name is refused as an invalid strategy |
| Segmenter.StrategyForIgnoresCase | index_documents.py:147 | the name test does not depend on letter case |
| Segmenter.StrategyChunks | index_documents.py:147-155 | the chosen chunker's chunks under its defaults are stripped, and at most 800 characters for fixed |
| Segmenter.SplitText | index_documents.py:145-155 | an unknown name fails; a known one returns that chunker's chunks under its defaults, stripped, at most 800 characters for fixed, and within 800 or 1000 unless a single sentence or paragraph is longer |
| Persistence.ChunkTexts | index_documents.py:207-210 | one chunk_text per row |
| Persistence.Embeddings | index_documents.py:207-210 | one embedding per row |
| Persistence.Rows | index_documents.py:206-210 | one row per chunk; the chunk_text column is the chunks and the embedding column the embeddings, in order; every row carries the file name and strategy; row i carries the i-th clock reading |
| Persistence.BuildRows | index_documents.py:201-210 | fails exactly when the counts differ, with a count mismatch; otherwise returns those rows |

## Left out

- Reading PDF and Word files (`read_pdf`, `read_docx`) is not modelled. `Cleanup.LoadText` takes what each reader returns as a parameter `extract`.
- Taking the extension of a path (`os.path.splitext`) and its base name (`os.path.basename`) is not modelled. The model starts from the extension and the file name.
- Computing embeddings (`embed_chunks`, a network call) is not modelled. An embedding is an opaque type parameter `E` of `Persistence.Rows`.
- The database is not modelled: `init_db`, the table definition, the insert, and the connection and commit.
- Reading the clock (`datetime.utcnow()`) is not modelled. It is a parameter `clock`, with `clock(i)` the time read for row `i`.
- The command line, the environment variables, the progress output and `main` are not modelled; they are I/O.
- Text.ToLower: lowers ASCII letters only. It decides membership in the fixed sets of extensions and strategy names exactly as `str.lower()` does, because no other character lowers to an ASCII letter those names contain. It is not `str.lower()` on arbitrary text.
- FixedChunker.ChunkFixed: requires an empty text, or a positive chunk size with the overlap below it. With no positive overlap it returns what the source's loop returns (`ChunkFixedAsWritten`). With a positive overlap it is the corrected loop of Findings, because the source's loop does not stop there.
- FixedChunker.ChunkFixedAsWritten: is proved for an empty text, or a positive chunk size with no positive overlap. On a non-empty text the source's loop stops exactly when overlap <= 0 and overlap < chunk_size (`FixedLoopExits`, `FixedStepAdvances`), and never stops otherwise (`FixedLoopNeverExits`); a method that does not stop cannot be written here.
- FixedChunker.ChunkFixedAsWritten: a chunk size of 0 or less is not modelled. Then `end = min(start + chunk_size, len)` can fall below start or below 0. Python's slice `text[start:end]` then counts a negative end from the end of the text, and the model's windows do not express that. split_text always passes 800 and 200.
- Segmenter.SplitText: for "fixed" it uses the corrected `ChunkFixed`. The source's own loop would not return for any non-empty text under the defaults 800/200.

## Findings

| source | as written | input that shows it | evidently intended | confidence | as-written member | corrected member |
|---|---|---|---|---|---|---|
| index_documents.py:80-88 | `start = end - overlap` after every window, with the loop exiting only when `start >= len`; once a window reaches the end, `start` returns to `len - overlap` when chunk_size >= overlap, or stalls at 0 when chunk_size < overlap, and the same window is cut again forever | any non-empty text with overlap > 0; e.g. 1000 characters with the defaults 800/200 used by split_text: start runs 0, 600, 800, 800, ... | stop after the window that reaches the end of the text, giving windows [0, 800) and [600, 1000) | not executed | FixedChunker.FixedLoopNeverExits | FixedChunker.ChunkFixed |
