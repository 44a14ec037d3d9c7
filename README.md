# CSEC tutor ingestion: a verified model of the text pipeline

`scripts/bulk_populate_vectors.py` fills the tutor's vector table. It reads past
papers and syllabi as PDFs, splits their text into overlapping chunks, tags each
chunk with the paper's subject, topics and file-name metadata, and inserts the
resulting rows in batches. This project models the deterministic part of that
pipeline in Dafny and proves what it does:

- `chunk_text` (`chunker.dfy`, module `Chunker`). The text is cleaned: every whitespace run
  becomes one space and the ends are stripped. A window of `chunk_size`
  characters then slides over it, each window starting `overlap` characters
  before the previous one ended. A window that does not reach the end of the text
  is cut at a sentence break in its final 100 characters. The break patterns are
  tried in list order, and the cut follows the last occurrence of the first
  pattern that has one there; a later pattern found nearer the window end does not
  win.
  Stripped pieces shorter than 50 characters are dropped. The loop is a `method`
  proved against a recursive specification of the windows it visits.
- `normalize_subject` and `SUBJECT_ALIASES` (`subjects.dfy`, module `Subjects`). The alias table is
  the ordered sequence of its 52 entries, because Python dicts keep insertion
  order. The normaliser tries an exact alias, then the first alias related to
  the key by containment, then the title-cased folder name.
- `detect_topics` (`topics.dfy`, module `Topics`). The per-subject keyword table,
  and the nested scan with its `break`.
- `extract_metadata_from_filename` (`filename_metadata.dfy`, module `FilenameMetadata`).
  The two regular expressions are written out as scanners, in the order the
  regex engine tries the alternatives. The metadata dict is filled in place.
- The record expansion of `process_pdf` and the OCR choice of
  `extract_text_from_pdf` (`records.dfy`, module `Records`).
- The batch slicing of `upsert_records` (`upload.dfy`, module `Upload`).
- `text.dfy` (module `Text`) holds the Python string operations the script uses,
  restricted to ASCII: `lower`, `strip`, `replace`, `re.sub(r'\s+', ' ', …)`,
  `in`, `rfind`, `str(int)`, `int(str)` and `title`. Each is stated against an
  independent definition; the whitespace substitution, for instance, is proved
  equal to a character-by-character rule.

Consequences the proofs bring out:
- Whitespace is collapsed before the loop, so the break patterns `".\n"` and
  `"!\n"` can never be found. Only `". "` and `"? "` ever cut a window, and a cut chunk
  ends in `.` or `?`.
- An empty or all-whitespace folder name gives an empty key. That key is
  contained in the first alias, `math`, so the subject is Mathematics.
- The key never contains a space, so the aliases `english a`, `english b` and
  `caribbean history` can never match exactly.
- The second alternative of the paper pattern, `paper[_\-\s]?([123])`, never matches
  where the first does not, so `group(2)` is never the one used.

## Model

| member | source | states |
|---|---|---|
| Text.Lower | scripts/bulk_populate_vectors.py:135 | `lower` keeps the length |
| Text.LowerAt | scripts/bulk_populate_vectors.py:135 | `lower` maps every character on its own, ASCII capitals to small letters |
| Text.LowerIdempotent | scripts/bulk_populate_vectors.py:264 | lower-casing twice equals lower-casing once |
| Text.ReplaceChar | scripts/bulk_populate_vectors.py:135 | `replace` of one character keeps the length and changes exactly the occurrences of that character |
| Text.SkipSpaces | scripts/bulk_populate_vectors.py:250 | the first non-whitespace index of a range: whitespace before it and none at it |
| Text.Strip | scripts/bulk_populate_vectors.py:228 | `strip` never lengthens, and its result neither begins nor ends with whitespace |
| Text.StripRange | scripts/bulk_populate_vectors.py:250 | `text[lo:hi].strip()` is no longer than the range |
| Text.StripRangeEnds | scripts/bulk_populate_vectors.py:250 | `text[lo:hi].strip()` neither begins nor ends with whitespace |
| Text.StripRangeEnd | scripts/bulk_populate_vectors.py:250 | what `strip` removes at the end of a range is whitespace only |
| Text.StripRangeSlice | scripts/bulk_populate_vectors.py:250 | `text[lo:hi].strip()` is the slice that starts after the leading whitespace of the range |
| Text.StripSlice | scripts/bulk_populate_vectors.py:228 | `strip` returns the slice between the leading and trailing whitespace |
| Text.StripCollapsed | scripts/bulk_populate_vectors.py:232 | a collapsed text loses at most one character at each end when stripped, and stays collapsed |
| Text.StripOfTrimmed | scripts/bulk_populate_vectors.py:232 | `strip` leaves a text without whitespace at its ends unchanged |
| Text.Collapse | scripts/bulk_populate_vectors.py:232 | `re.sub(r'\s+', ' ', s)` never lengthens, keeps emptiness and keeps whether each end is whitespace |
| Text.CollapseKeepsVisible | scripts/bulk_populate_vectors.py:232 | the substitution keeps every non-whitespace character, in order |
| Text.CollapseIsCollapsed | scripts/bulk_populate_vectors.py:232 | after the substitution, the only whitespace left is single spaces |
| Text.CollapseOfCollapsed | scripts/bulk_populate_vectors.py:232 | the substitution is the identity on collapsed text |
| Text.CollapseIsSqueezed | scripts/bulk_populate_vectors.py:232 | the substitution equals the character-by-character rule: every non-whitespace character is kept, the first character of each whitespace run becomes one space, and the rest of the run is dropped |
| Text.CollapsedSlice | scripts/bulk_populate_vectors.py:250 | every slice of a collapsed text is collapsed |
| Text.StripRangeCollapsed | scripts/bulk_populate_vectors.py:250 | a stripped range of a collapsed text loses at most one character at each end |
| Text.StripRangeKeepsLast | scripts/bulk_populate_vectors.py:250 | a range ending in a non-whitespace character keeps it as its last character when stripped |
| Text.MatchAtSlice | scripts/bulk_populate_vectors.py:245 | an occurrence at `i` is exactly a slice equal to the needle |
| Text.Contains | scripts/bulk_populate_vectors.py:309 | the scan for `needle in hay` is true exactly when the needle occurs somewhere in the haystack |
| Text.StartsWithAtMatch | scripts/bulk_populate_vectors.py:309 | the character-by-character comparison agrees with the definition of an occurrence |
| Text.RFind | scripts/bulk_populate_vectors.py:245 | `rfind(pat, lo, hi)` is -1 or an index whose occurrence lies inside `[lo, hi)` |
| Text.RFindSpec | scripts/bulk_populate_vectors.py:245 | `rfind` returns an occurrence and no later one lies in the range, or -1 when there is none |
| Text.LastMatchSpec | scripts/bulk_populate_vectors.py:245 | the backward scan finds the last occurrence at or below its start point |
| Text.DecimalString | scripts/bulk_populate_vectors.py:352 | `str(n)` is a non-empty string of digits without a leading zero |
| Text.ParseDecimalString | scripts/bulk_populate_vectors.py:157 | `int(str(n)) == n` |
| Text.DecimalStringInjective | scripts/bulk_populate_vectors.py:352 | distinct numbers get distinct decimal strings |
| Text.Title | scripts/bulk_populate_vectors.py:147 | `title` upper-cases a letter that starts a word, lower-cases the other letters and keeps every other character |
| Chunker.Clean | scripts/bulk_populate_vectors.py:232 | the cleaned text is collapsed and has no whitespace at its ends |
| Chunker.SentenceEndAt | scripts/bulk_populate_vectors.py:244 | each break pattern is `.`, `?` or `!` followed by whitespace |
| Chunker.CutEnd | scripts/bulk_populate_vectors.py:243-248 | the pattern loop either leaves `end` alone or moves it strictly after both `start + 1` and the search start; which break it moves to, and when it must move, are stated by `CutEndAtBreak` and `CutEndWhenBreak` |
| Chunker.CutEndAtBreak | scripts/bulk_populate_vectors.py:243-248 | a moved end sits just after the last occurrence in the search range, beyond `start`, of a pattern that no earlier pattern in the list precedes with an occurrence of its own |
| Chunker.CutEndWhenBreak | scripts/bulk_populate_vectors.py:243-248 | conversely, with patterns of two characters or more, any occurrence beyond `start` that lies wholly inside the search range forces a cut |
| Chunker.WindowEnd | scripts/bulk_populate_vectors.py:238-248 | a window ends within the last `Lookback` characters of `start + chunk_size`, and a cut window ends inside the text; that a window reaching the end of the text is never cut is stated by `WindowCutIsLast` |
| Chunker.WindowEndAtBreak | scripts/bulk_populate_vectors.py:241-247 | a window cut short ends just after a sentence break |
| Chunker.WindowCutWhenBreak | scripts/bulk_populate_vectors.py:241-248 | a window that stops short of the text end is cut whenever a break begins beyond its start and lies wholly inside its final 100 characters |
| Chunker.WindowCutIsLast | scripts/bulk_populate_vectors.py:241-248 | only a window with `start + chunk_size < len(text)` is cut, and a cut window ends after the last occurrence, in its final 100 characters and beyond its start, of the first pattern in list order that has one there |
| Chunker.NextStart | scripts/bulk_populate_vectors.py:254 | the next window starts more than `chunk_size - overlap - 100` characters after the current one, so the loop ends |
| Chunker.FindWindowEnd | scripts/bulk_populate_vectors.py:238-248 | the `for punct` loop with its `break` computes the window end |
| Chunker.SlideWindows | scripts/bulk_populate_vectors.py:234-258 | the `while` loop emits exactly the kept pieces of the windows it visits |
| Chunker.LoopStep | scripts/bulk_populate_vectors.py:237-256 | one turn of the loop keeps the loop invariant: the chunks so far followed by those still to come are all the chunks |
| Chunker.WindowsFrom | scripts/bulk_populate_vectors.py:237-256 | the loop visits a window exactly when `start` is inside the text, and never more windows than characters remain |
| Chunker.Pieces | scripts/bulk_populate_vectors.py:250-252 | each window contributes at most one chunk |
| Chunker.ChunksFromPieces | scripts/bulk_populate_vectors.py:237-256 | the loop's chunks are the stripped, long-enough pieces of its windows |
| Chunker.Chunks | scripts/bulk_populate_vectors.py:226-232 | a text that strips to fewer than 50 characters yields no chunk |
| Chunker.ChunkText | scripts/bulk_populate_vectors.py:226-258 | `[]` for an empty text or one whose stripped length is below 50; otherwise every chunk is well formed: 50..`chunk_size` long, collapsed, no whitespace at its ends |
| Chunker.ChunksWellFormed | scripts/bulk_populate_vectors.py:250-252 | every chunk is well formed and contains no newline |
| Chunker.PiecesWellFormed | scripts/bulk_populate_vectors.py:250-252 | the pieces of windows of at most `chunk_size` characters are well formed |
| Chunker.WindowsCover | scripts/bulk_populate_vectors.py:237-256 | the windows cover every character of the cleaned text |
| Chunker.ChainedCover | scripts/bulk_populate_vectors.py:254 | windows that each start no later than the previous one ended cover every position between them |
| Chunker.WindowShape | scripts/bulk_populate_vectors.py:237-256 | every window starts inside the text, is cut back by less than 100 characters, the next one starts `overlap` before it ends, and after the last one `start` is past the end of the text |
| Chunker.WindowStartsGrow | scripts/bulk_populate_vectors.py:254 | window starts strictly increase, by more than one when `overlap + 100 < chunk_size` |
| Chunker.PieceIsSlice | scripts/bulk_populate_vectors.py:250 | each kept chunk occurs in the text at its recorded start |
| Chunker.PieceStartsIncrease | scripts/bulk_populate_vectors.py:250-254 | chunk starts strictly increase when window starts are more than one apart |
| Chunker.ChunksAreOrderedSlices | scripts/bulk_populate_vectors.py:232-256 | every chunk is a contiguous piece of the cleaned text, and the chunk starts strictly increase when `overlap + 100 < chunk_size` |
| Chunker.NewlineBreaksNeverMatch | scripts/bulk_populate_vectors.py:232-245 | after the whitespace collapse, `rfind` never finds `".\n"` or `"!\n"` |
| Chunker.SentenceCutEndsChunk | scripts/bulk_populate_vectors.py:244-250 | a chunk cut at a sentence break ends in `.` or `?`, and a space follows it in the text |
| Chunker.BreakEndsChunk | scripts/bulk_populate_vectors.py:247-250 | a piece ending just after a break ends in `.` or `?` |
| Chunker.NoBreakNoCut | scripts/bulk_populate_vectors.py:241-247 | without `.` or `?` in the text, no window is cut short |
| Chunker.WindowsOf1200 | scripts/bulk_populate_vectors.py:237-256 | a 1200-character clean text without breaks has the windows [0,500), [400,900) and [800,1300) |
| Chunker.ThreeChunksOf1200 | scripts/bulk_populate_vectors.py:226-258 | such a text yields exactly three chunks: `text[0:500]`, `text[400:900]` and `text[800:1200]`, each stripped |
| Subjects.SubjectKey | scripts/bulk_populate_vectors.py:135 | the key contains neither a space nor an underscore |
| Subjects.FallbackName | scripts/bulk_populate_vectors.py:147 | the title-cased folder name keeps its length |
| Subjects.Lookup | scripts/bulk_populate_vectors.py:138-139 | the exact lookup finds a name exactly when the key is an alias, and then the name of the first such alias |
| Subjects.FirstRelated | scripts/bulk_populate_vectors.py:142-144 | the partial scan returns the name of the first alias that contains the key or is contained in it, and nothing when there is none |
| Subjects.NormalizeWith | scripts/bulk_populate_vectors.py:133-147 | the name is always one of the table's canonical names or the title-cased folder name |
| Subjects.NormalizeSubject | scripts/bulk_populate_vectors.py:56-147 | `normalize_subject` never returns an empty name |
| Subjects.ExactAliasWins | scripts/bulk_populate_vectors.py:133-139 | an alias equal to the key decides the name |
| Subjects.FirstRelatedWins | scripts/bulk_populate_vectors.py:133-144 | with no exact alias, the first related alias in table order decides the name |
| Subjects.FallbackWhenUnrelated | scripts/bulk_populate_vectors.py:133-147 | with no related alias, the name is the folder name with `-` and `_` as spaces, title-cased |
| Subjects.NormalizeWithNonEmpty | scripts/bulk_populate_vectors.py:133-147 | over a non-empty table the name is never empty |
| Subjects.EmptyKeyTakesFirst | scripts/bulk_populate_vectors.py:142-144 | an empty key is decided by the first alias |
| Subjects.BlankFolderEmptyKey | scripts/bulk_populate_vectors.py:135 | an empty or all-whitespace folder name gives an empty key |
| Subjects.EmptyKeyIsMathematics | scripts/bulk_populate_vectors.py:56-147 | an empty key is normalised to Mathematics, through the first alias `math` |
| Subjects.SpacedAliasNeverExact | scripts/bulk_populate_vectors.py:135-139 | aliases written with a space never equal the key |
| Topics.RulesFor | scripts/bulk_populate_vectors.py:306-307 | `subject in topic_keywords`: none exactly when no entry has that subject, and otherwise the rules of an entry with that subject |
| Topics.OnlyFourSubjectsHaveRules | scripts/bulk_populate_vectors.py:267-307 | only Mathematics, Biology, Chemistry and Physics have keyword rules; for any other subject nothing is detected |
| Topics.ListOf | scripts/bulk_populate_vectors.py:313 | `list(set)` has each element of the set exactly once |
| Topics.AnyKeyword | scripts/bulk_populate_vectors.py:308-311 | the keyword loop with its `break` finds a keyword exactly when one of them occurs in the text |
| Topics.DetectTopicsIn | scripts/bulk_populate_vectors.py:261-313 | never empty, no repeated topic, exactly `["General"]` when nothing is detected, otherwise exactly the topics with a keyword in the lower-cased text |
| Topics.DetectTopics | scripts/bulk_populate_vectors.py:261-313 | the same, over the script's own keyword table |
| Topics.MatchedTopicsSnoc | scripts/bulk_populate_vectors.py:307-311 | scanning one more rule adds its topic exactly when it is mentioned |
| Topics.DetectedIgnoresCase | scripts/bulk_populate_vectors.py:264 | lower-casing the text first detects the same topics |
| Topics.LowerKeepsOccurrence | scripts/bulk_populate_vectors.py:309 | an occurrence survives lower-casing of both strings |
| Topics.DetectedMonotone | scripts/bulk_populate_vectors.py:306-311 | the topics detected in a piece of a text are among those detected in the whole text |
| FilenameMetadata.YearInRange | scripts/bulk_populate_vectors.py:155-157 | a year match lies in 1900..2099 |
| FilenameMetadata.YearAt | scripts/bulk_populate_vectors.py:155 | the definition of a `(19\|20)\d{2}` match at an index: `19` or `20` followed by two digits, inside the name |
| FilenameMetadata.FindYear | scripts/bulk_populate_vectors.py:155-157 | no year exactly when no 19xx or 20xx occurs in the name, otherwise the value of the leftmost match, in 1900..2099 |
| FilenameMetadata.DigitAfter | scripts/bulk_populate_vectors.py:160 | `[_\-\s]?([123])` yields a digit in 1..3 |
| FilenameMetadata.FirstAlternative | scripts/bulk_populate_vectors.py:160 | a match of `p(?:aper)?[_\-\s]?([123])` starts with `p` inside the name and captures a digit in 1..3 |
| FilenameMetadata.SecondAlternative | scripts/bulk_populate_vectors.py:160-162 | where `paper[_\-\s]?([123])` matches, the first alternative matches with the same digit, so `group(2)` is never used |
| FilenameMetadata.PaperAt | scripts/bulk_populate_vectors.py:160-162 | a paper match starts with `p` inside the name and gives `group(1) or group(2)` in 1..3 |
| FilenameMetadata.PaperWaysExclusive | scripts/bulk_populate_vectors.py:160 | after `paper`, the short form `p` followed by a digit cannot also match |
| FilenameMetadata.FindPaper | scripts/bulk_populate_vectors.py:160-162 | no paper exactly when the pattern matches nowhere, otherwise the digit of the leftmost match, in 1..3 |
| FilenameMetadata.Session | scripts/bulk_populate_vectors.py:164-168 | January exactly when the name contains `jan`; May/June exactly when it does not but contains `may` or `jun`; no session otherwise |
| FilenameMetadata.FixedEntriesFrame | scripts/bulk_populate_vectors.py:152-168 | setting an optional key keeps `source` and `content_type` |
| FilenameMetadata.YearEntryFrame | scripts/bulk_populate_vectors.py:157-168 | setting a key other than `year` keeps the year entry |
| FilenameMetadata.PaperEntryFrame | scripts/bulk_populate_vectors.py:162-168 | setting the session keeps the paper entry |
| FilenameMetadata.ExtractMetadata | scripts/bulk_populate_vectors.py:150-170 | `source` and `content_type` always set; `year` present exactly when the name has a year, then the first one, in 1900..2099; `paper` likewise, in 1..3; `session` as above; no other key |
| Records.ChooseText | scripts/bulk_populate_vectors.py:188-194 | the result is the page text or the OCR text; it is never shorter than the page text; OCR wins only when the stripped page text has fewer than 100 characters and the OCR text is strictly longer, and then always |
| Records.ChunkLabel | scripts/bulk_populate_vectors.py:352 | the subtopic `f"Chunk {i + 1}"` of chunk `i` |
| Records.ChunkLabelReadsBack | scripts/bulk_populate_vectors.py:352 | the label is `Chunk ` followed by digits that read back as `i + 1` |
| Records.ChunkLabelInjective | scripts/bulk_populate_vectors.py:352 | different chunks get different `Chunk n` subtopics |
| Records.ChunkMetadata | scripts/bulk_populate_vectors.py:355 | the record's metadata is the file's metadata plus `chunk_index` and `total_chunks`, with every other entry unchanged |
| Records.Paired | scripts/bulk_populate_vectors.py:347 | `zip` stops at the shorter of chunks and embeddings |
| Records.RecordAt | scripts/bulk_populate_vectors.py:349-357 | the dict literal appended for chunk `i` and topic `t`, as a definition; what the records satisfy is stated by `Expansion` in `AssembleRecords` and `ProcessPdf` |
| Records.AssembleRecords | scripts/bulk_populate_vectors.py:347-357 | the nested loop yields the chunk-major expansion: record (i, t) at `i * len(topics) + t`, with topic `t`, subtopic `Chunk {i+1}`, `chunk_index` i and `total_chunks` `len(chunks)` |
| Records.Row | scripts/bulk_populate_vectors.py:348-357 | the inner loop's first `t` records are `t` records |
| Records.RowStartIsProduct | scripts/bulk_populate_vectors.py:347-348 | chunk `i`'s records start at `i * len(topics)` |
| Records.RowStartAfter | scripts/bulk_populate_vectors.py:347-348 | the records of a later chunk come after all those of an earlier one |
| Records.SlotOf | scripts/bulk_populate_vectors.py:347-348 | every position of the output is one topic's slot in one chunk's row |
| Records.RowAt | scripts/bulk_populate_vectors.py:348-357 | the inner loop appends chunk `i`'s records topic by topic |
| Records.RowsLength | scripts/bulk_populate_vectors.py:347-357 | the first `i` chunks yield `i * len(topics)` records |
| Records.RowsAt | scripts/bulk_populate_vectors.py:347-357 | within the first `i` chunks, each record sits at its chunk-major position |
| Records.RowsAreExpansion | scripts/bulk_populate_vectors.py:347-357 | the loop's output is the chunk-major expansion |
| Records.ExpansionCount | scripts/bulk_populate_vectors.py:345-357 | with one embedding per chunk there are exactly `len(chunks) * len(topics)` records |
| Records.ExpansionSlot | scripts/bulk_populate_vectors.py:347-357 | conversely, every record is the record of some chunk and topic |
| Records.ExpansionNoDuplicates | scripts/bulk_populate_vectors.py:347-357 | with distinct topics no two records are equal |
| Records.ProcessPdf | scripts/bulk_populate_vectors.py:316-359 | no records for an empty text or when no chunk survives; otherwise the expansion of the text's chunks over its detected topics, with the file name's metadata |
| Upload.Slice | scripts/bulk_populate_vectors.py:379 | `records[lo:hi]` is clamped to the list |
| Upload.Concat | scripts/bulk_populate_vectors.py:378-379 | the batches joined back together, in order; its properties are stated by `ConcatSnoc`, `FullConcatLength` and `Batches` |
| Upload.BatchAt | scripts/bulk_populate_vectors.py:378-379 | batch `b` holds at most 50 records, exactly 50 unless it reaches the end of the list, and none only when it starts at the end |
| Upload.Batches | scripts/bulk_populate_vectors.py:372-379 | nothing for an empty list; batch `b` is `records[50b:50b+50]`; the batches joined give back the records; `ceil(n/50)` batches, each non-empty and at most 50 long, all full but the last |
| Upload.BatchCount | scripts/bulk_populate_vectors.py:378 | `range(0, n, 50)` has `ceil(n/50)` steps |
| Upload.ConcatSnoc | scripts/bulk_populate_vectors.py:378-379 | sending one more batch sends its records after the others |
| Upload.FullConcatLength | scripts/bulk_populate_vectors.py:378-379 | full batches hold 50 records each |
| Upload.BatchingUnique | scripts/bulk_populate_vectors.py:378-379 | any list of non-empty batches of at most 50 records, all full but the last, that joins back to the records is exactly the list of slices |

## Left out

- Reading PDFs, OCR, the embedding model and Supabase. `extract_text_from_pdf` is
  modelled only by its final choice between page text and OCR text. The page
  reading, the `[Page n]` headers and the exception path that returns `""` are not
  modelled, nor are the skip messages `process_pdf` prints. The extracted text is a parameter of `Records.ProcessPdf`.
  `model.encode` is a function parameter, and embeddings are opaque vectors
  carried into the records.
- The inserts of `upsert_records`, including the one-by-one retry after a failed
  batch (lines 380-389). `clear_existing_content`, `get_supabase_client`,
  `load_embedding_model` and `main` (directory walking, flags, prompts and
  progress output) are also not modelled. Only the batch partition is modelled.
- Unicode: every string operation is ASCII-only. `lower` and `title` touch only
  `A`-`Z` and `a`-`z`. Whitespace is Python's ASCII whitespace, which is space,
  `\t` to `\r` and `\x1c` to `\x1f`.
- The two regular expressions of `extract_metadata_from_filename` are hand-written
  scanners for those exact patterns, not a general regex engine.
- Topics.ListOf: the order of `list(set)` is not fixed. The model picks
  elements in an arbitrary order, and the topic properties are stated without
  reference to order.
- Chunker.ChunkText: requires `0 <= overlap` and `overlap + 100 <= chunk_size`. The
  source does not check these, but the script only calls it with 500 and 100.
  Other parameters can make the Python loop run forever.
