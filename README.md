# SRT subtitle pipeline — a verified Dafny model

This project models the text-processing core of a small toolkit for SubRip (`.srt`)
subtitle files. The toolkit has three scripts that share the same logic:

- **Block parser** (`parse_srt_content` in `srt_analyzer_app.py`, `parse_srt_file` in
  `find_timestamp.py`). It cuts the file text at every blank line (`"\n\n"`). Each
  block of at least three lines becomes a `(number, timestamp, text)` entry. The
  number and timestamp are the stripped first and second lines. The text is the
  remaining lines joined with spaces, then stripped.
- **Transcript extractor** (`extract_text_from_srt_content` in `srt_analyzer_app.py`,
  `extract_text_from_srt` in `extract-srt-text.py`). It works in four steps:
  - Each captured caption body is flattened to one line.
  - Music and laughter captions are dropped.
  - The remaining lines are merged into segments. A new segment starts at a
    speaker dash, after a sentence end, or at a line longer than 50 characters.
  - The segments are grouped into paragraphs of at most 12. A segment that
    mentions a topic phrase closes its paragraph. Paragraphs are separated by a
    blank line.
- **Snippet search** (`find_timestamp_for_text`, two variants). It looks up the
  caption where a piece of transcript text occurs and returns its number, its start
  time and its text. If there is no exact hit, it falls back to the entry with the
  best similarity score, provided that score is above 0.3.
  - The web application (`srt_analyzer_app.py`) ignores case and refuses a blank
    snippet.
  - The command-line script (`find_timestamp.py`) is case-sensitive and has no blank
    guard. It first checks the snippet against all texts joined with spaces.

Modules:
- `Text` models Python's `strip`, `rstrip`, `split(sep)`, `split()`, `join`, `in`
  and ASCII `lower`.
- `SrtParser` models the block parser.
- `Segmenter` models flattening, the noise filter and the segment pass.
- `ParagraphBuilder` models the paragraph pass and the final join.
- `Transcript` chains the extractor's steps together.
- `Matching` holds what both search variants share:
  - the start time;
  - the exact-containment scan;
  - the score table;
  - the tuple order;
  - the maximum that stands for the sorted head;
  - the threshold.
- `SrtAnalyzerApp` and `FindTimestamp` model the two search variants.

Every loop of the source is a method with loop invariants. Each method is proved
equal to a specification function. The properties are then proved about those
functions:
- Segments and paragraphs are the unique groupings whose boundaries fall exactly
  where the source's triggers fire.
- No line is lost.
- Paragraphs hold 1 to 12 segments.
- Parsing undoes rendering.
- The first exact hit wins.
- The fuzzy fallback answers exactly when some score is above the threshold.

The model follows the code in three places where the code's behaviour is easy to
misremember:
- The command-line search has no empty-snippet guard. A blank snippet returns the
  first entry (`FindTimestamp.BlankSnippetFirstEntry`).
- Equal fuzzy scores are not broken by input order. Ties fall to Python's tuple
  comparison: entry number, then the timecode line, then the text, compared as
  strings (`Matching.ScoredLess`).
- An entry's own text used as the query is guaranteed to be found by the exact
  stage when that text is whitespace-normal (`OwnTextFound`); in the web
  application it must also be non-empty, since a blank query finds nothing. A text with a double
  space can miss: it is normalised to a query it does not contain, and the search
  falls to the fuzzy stage (`SrtAnalyzerApp.DoubleSpaceNotExact`).
  "Found" here means that entry or an earlier entry whose text contains it.

## Model

| member | source | states |
|---|---|---|
| Text.Strip | srt_analyzer_app.py:108-117 | the result has no whitespace at either end (Python's whitespace set), and it is empty exactly when the input is all whitespace |
| Text.Split | srt_analyzer_app.py:104 | `split(sep)` yields at least one piece; the pieces joined with the separator give the input back; no piece contains the separator; every cut is leftmost, so no separator starts inside a piece and runs on into the next separator |
| Text.SplitJoin | srt_analyzer_app.py:104 | splitting a join of pieces gives the pieces back when no separator starts inside a piece, not even one running on into the next separator |
| Text.Words | find_timestamp.py:66 | `split()` yields non-empty runs of non-whitespace, none exactly when the input is all whitespace (how the runs are cut is stated by `Text.WordsAppend`) |
| Text.WordsAppend | find_timestamp.py:66 | a run of whitespace separates words: `split()` of `a + spaces + b` is the words of `a` followed by the words of `b` |
| Text.WordsSpacePrefix | find_timestamp.py:66 | leading whitespace adds no word |
| Text.WordsSpaceSuffix | find_timestamp.py:66 | trailing whitespace adds no word |
| Text.StripWords | find_timestamp.py:66 | `strip()` before `split()` changes no word |
| Text.Normalize | find_timestamp.py:66 | the normalised snippet has single spaces between words, nothing at either end, is empty exactly when the input is blank, and has exactly the words of the input, in order |
| Text.NormalizeIdempotent | srt_analyzer_app.py:136 | normalising twice equals normalising once |
| Text.NormalFixpoint | srt_analyzer_app.py:136 | text that is already whitespace-normal is left unchanged by normalisation |
| Text.WordsJoin | find_timestamp.py:66 | `split()` of words joined by single spaces recovers the words |
| Text.NormalWords | find_timestamp.py:66 | splitting whitespace-normal text on whitespace and joining with single spaces gives the text back |
| Text.JoinContainsPart | find_timestamp.py:69-75 | a string contained in one part is contained in the join of all parts |
| Text.JoinAvoids | srt_analyzer_app.py:90 | a non-empty pattern absent from every part, with no separator character in it, is absent from the join |
| Text.Lower | srt_analyzer_app.py:147 | lowercasing keeps the length, leaves no ASCII capital, turns each capital into its small letter, and leaves every other character unchanged |
| Text.LowerIdempotent | srt_analyzer_app.py:147 | lowercasing twice is lowercasing once |
| SrtParser.BlockEntry | srt_analyzer_app.py:108-117 | a block gives no entry exactly when it is blank or has fewer than three lines; every field of an entry is a single line without surrounding whitespace |
| SrtParser.ParseSrtContent | srt_analyzer_app.py:93-121 | the parsing loop returns `Parse(content)`: the entries of the `"\n\n"`-blocks in block order (`parse_srt_file` in find_timestamp.py runs the same body after reading the file) |
| SrtParser.KeepBlock | srt_analyzer_app.py:111-119 | a kept block adds the entry (stripped first line, stripped second line, stripped space-join of the rest) |
| SrtParser.SkipBlock | srt_analyzer_app.py:108-113 | a blank block, or one with fewer than three lines, adds nothing |
| SrtParser.Collect | find_timestamp.py:37-49 | there are never more entries than blocks |
| SrtParser.CollectOrigins | find_timestamp.py:37-49 | each entry comes from its own block; the block indices strictly increase; every block without an entry is one the block test rejects |
| SrtParser.ParseOrigins | srt_analyzer_app.py:104-119 | the same for the whole file: entries trace back to distinct blocks in order, each block gives its entry, and every unused block gives none (so it is blank or has fewer than three lines) |
| SrtParser.CollectAppend | srt_analyzer_app.py:107-119 | blocks are parsed independently: parsing two runs of blocks concatenates their entries |
| SrtParser.MalformedBlockSkipped | srt_analyzer_app.py:111-113 | a block of only a number line and a timecode line gives no entry and leaves its neighbours' entries unchanged |
| SrtParser.EmptyBlockSkipped | srt_analyzer_app.py:108-109 | an empty block gives no entry |
| SrtParser.ParseNothing | srt_analyzer_app.py:104-121 | empty text, or a lone blank line, parses to no entries |
| SrtParser.BlockRoundTrip | srt_analyzer_app.py:111-117 | a well-formed entry rendered as a block parses back to itself |
| SrtParser.ParseRender | srt_analyzer_app.py:93-121 | parsing the rendering of well-formed entries gives those entries back, with or without a trailing blank line |
| SrtParser.BlockHasNoBlankLine | srt_analyzer_app.py:104 | a rendered well-formed block holds no `"\n\n"`, so it is never cut |
| Segmenter.FlattenLine | srt_analyzer_app.py:33 | a flattened caption line holds no newline and has no surrounding whitespace; it is the stripped body with each newline turned into a space and every other character kept in place |
| Segmenter.FlattenLines | extract-srt-text.py:42 | one flattened line per captured body, in order; no flattened line holds a line break or has whitespace at either end |
| Segmenter.NoiseMarkersReduce | extract-srt-text.py:51 | the four markers reduce to two: a line is noise exactly when it contains `[MUSIC` or `[LAUGHS]` |
| Segmenter.Remove | srt_analyzer_app.py:42-43 | the filter keeps at most as many lines as it is given, and none it keeps is dropped by the test |
| Segmenter.RemoveAppend | extract-srt-text.py:49-52 | the filter keeps the input order: the kept lines of `xs + ys` are those of `xs` followed by those of `ys` |
| Segmenter.RemoveOne | extract-srt-text.py:49-52 | a single line is kept exactly when the test does not drop it |
| Segmenter.KeptCount | extract-srt-text.py:51-52 | every noise line occurs zero times among the kept lines; every other line occurs as often as in the input |
| Segmenter.RemoveAll | srt_analyzer_app.py:40-43 | when every line is noise, nothing is kept |
| Segmenter.Segment | extract-srt-text.py:49-72 | the segments' line lists concatenate to the kept lines, every segment is non-empty, and there are none only for no lines |
| Segmenter.SegmentSegmented | srt_analyzer_app.py:52-59 | between every two consecutive segments the boundary test holds, and inside a segment it never does |
| Segmenter.SegmentUnique | extract-srt-text.py:61-68 | any split of the kept lines into non-empty groups with exactly those boundaries is the one the pass produces |
| Segmenter.SegmentLines | srt_analyzer_app.py:36-63 | the segmenting loop, with its flush after the loop, returns `Segments(lines)` |
| Segmenter.SegmentPrefix | extract-srt-text.py:45-72 | the loop over the first `n` lines returns the segments of those lines |
| Segmenter.TakeLine | extract-srt-text.py:54-68 | a non-noise line closes and emits the open segment and opens its own exactly when the open segment is non-empty and the boundary test fires; otherwise it is appended to the open segment |
| Segmenter.LineStep | extract-srt-text.py:49-68 | one iteration against the specification: a noise line changes neither the emitted segments nor the open one; any other line emits the open segment when the boundary test fires, and joins it otherwise |
| Segmenter.SegmentsKeepLines | extract-srt-text.py:49-72 | no kept line is lost, repeated or moved; every segment is non-empty; the first kept line opens the first segment |
| Segmenter.SegmentsNoiseFree | srt_analyzer_app.py:40-63 | no segment contains `[MUSIC` or `[LAUGHS]` |
| Segmenter.TwoLines | srt_analyzer_app.py:52-59 | two kept lines give two segments when the boundary test fires between them, one space-joined segment otherwise |
| Segmenter.SentenceEndExample | extract-srt-text.py:62 | a line ending in `.` closes its segment |
| Segmenter.LongLineExample | extract-srt-text.py:63 | a line longer than 50 characters opens a new segment |
| Segmenter.MusicOnlyExample | extract-srt-text.py:51-52 | a `[MUSIC PLAYING]` line leaves no segment |
| ParagraphBuilder.Chunk | extract-srt-text.py:81-96 | the paragraphs' segment lists concatenate to the segments, every paragraph is non-empty, and there are none only for no segments |
| ParagraphBuilder.ChunkPaged | srt_analyzer_app.py:72-87 | every paragraph has 1 to 12 segments; every paragraph but the last ends at 12 segments or at a topic segment; no topic segment sits before the end of its paragraph |
| ParagraphBuilder.ChunkUnique | extract-srt-text.py:81-96 | any grouping of the segments with those three properties is the one the pass produces |
| ParagraphBuilder.ParagraphsShape | srt_analyzer_app.py:72-87 | the same properties for the real topic test, together with order and conservation of segments |
| ParagraphBuilder.ThirteenPlainSegments | extract-srt-text.py:88-96 | thirteen segments without a topic phrase make two paragraphs, of 12 segments and of 1 |
| ParagraphBuilder.NasaIsTopic | extract-srt-text.py:78-89 | topic phrases match ignoring case: a segment mentioning `nasa` in any capitalisation closes its paragraph |
| ParagraphBuilder.BuildParagraphs | srt_analyzer_app.py:66-87 | the paragraph loop, with its counter and its flush after the loop, returns `Paragraphs(segments)` |
| ParagraphBuilder.GroupParagraphs | extract-srt-text.py:75-96 | the paragraph loop, for any topic test, returns the space-joined groups of `Chunk` |
| ParagraphBuilder.TakeSegment | extract-srt-text.py:82-92 | the segment joins the open paragraph; the paragraph is flushed, and the counter reset, exactly when it reaches 12 segments or the segment is a topic change; the counter always equals the open paragraph's length |
| ParagraphBuilder.ParagraphStep | extract-srt-text.py:81-92 | one iteration against the specification: the grown open paragraph is flushed exactly when it closes, and is otherwise kept open |
| ParagraphBuilder.Document | extract-srt-text.py:99 | no segments give the empty string |
| ParagraphBuilder.DocumentAvoids | srt_analyzer_app.py:87-90 | a non-empty string without spaces or newlines that no segment contains is absent from the document |
| Transcript.TranscriptText | srt_analyzer_app.py:33-90 | no captured bodies give the empty transcript |
| Transcript.ExtractText | extract-srt-text.py:42-99 | flatten, segment, paragraph and join compute `TranscriptText(bodies)` (the web application runs the same pipeline) |
| Transcript.TranscriptNoiseFree | extract-srt-text.py:51-99 | no `[MUSIC` or `[LAUGHS]` survives anywhere in the transcript, not even across a join |
| Transcript.AllNoiseIsEmpty | srt_analyzer_app.py:40-90 | captions that are all sound effects give an empty transcript |
| Matching.StartTime | find_timestamp.py:76 | the start time is a prefix of the timecode line that holds no `' --> '`; the arrow follows it when the line has one, and no arrow starts earlier, so the cut is at the first arrow; the whole line is returned when it has none |
| Matching.StartOfRange | find_timestamp.py:92 | for a line `a --> b` whose start `a` has no space, the start time is `a`, never part of the end time |
| Matching.StandardTimecode | srt_analyzer_app.py:148 | `00:00:01,000 --> 00:00:02,000` yields `00:00:01,000` |
| Matching.FirstHit | find_timestamp.py:74-77 | the index found is of an entry containing the snippet with none before it; there is none exactly when no entry contains it |
| Matching.FirstHitSnoc | find_timestamp.py:74-77 | with one more entry, the first hit stays where it was, or is the new entry when no earlier entry holds the snippet |
| Matching.StrLessTransitive | srt_analyzer_app.py:161 | Python's string order is transitive |
| Matching.StrLessTotal | srt_analyzer_app.py:161 | two different strings are ordered one way or the other |
| Matching.StrLessIrreflexive | srt_analyzer_app.py:161 | no string precedes itself |
| Matching.ScoredLessTransitive | find_timestamp.py:86 | the `(score, number, timestamp, text)` tuple order is transitive |
| Matching.ScoredLessTotal | find_timestamp.py:86 | two different score rows are ordered one way or the other |
| Matching.ScoredLessAsymmetric | find_timestamp.py:86 | no two rows precede each other |
| Matching.MaxScored | srt_analyzer_app.py:161-165 | the chosen row is one of the rows, and no row is greater |
| Matching.SortedHeadIsMax | find_timestamp.py:86-90 | for any descending arrangement of the rows, its head is `MaxScored` of the rows |
| Matching.BestOf | srt_analyzer_app.py:161-165 | the scan over the table returns `MaxScored` |
| Matching.ScoreEntries | find_timestamp.py:80-83 | the scoring loop returns `ScoresOf` |
| Matching.FuzzyMatch | find_timestamp.py:80-95 | the fallback as run returns `Fuzzy` |
| Matching.FuzzyThreshold | srt_analyzer_app.py:164-170 | the fallback finds something exactly when some entry scores above 0.3; what it finds is an entry whose score is above 0.3 and no lower than any other |
| FindTimestamp.AllText | find_timestamp.py:69 | every entry's text occurs in the joined text |
| SrtAnalyzerApp.Search | srt_analyzer_app.py:136-139 | a blank snippet, or no entries, gives no result |
| SrtAnalyzerApp.FindTimestampForText | srt_analyzer_app.py:124-170 | the search as run returns `Search` |
| SrtAnalyzerApp.CollectHits | srt_analyzer_app.py:145-149 | the exact-match loop builds the triples of the entries whose lowercased text contains the lowercased snippet, in order |
| SrtAnalyzerApp.Hits | srt_analyzer_app.py:145-149 | no more exact-match triples than entries |
| SrtAnalyzerApp.HitsHead | srt_analyzer_app.py:151-152 | the head of the exact-match list is the first entry containing the snippet, and the list is empty exactly when none does |
| SrtAnalyzerApp.FirstExactMatch | srt_analyzer_app.py:144-170 | for a non-blank snippet, the first entry containing it (ignoring case) is returned with its start time; with none, the lowercased fuzzy fallback decides |
| SrtAnalyzerApp.OwnTextFound | srt_analyzer_app.py:144-152 | an entry's own non-empty normal text as the query finds that entry or an earlier one containing it (an empty text is a blank query and finds nothing) |
| SrtAnalyzerApp.FuzzyAboveThreshold | srt_analyzer_app.py:154-170 | without an exact hit, a result comes back exactly when some lowercased score is above 0.3 |
| SrtAnalyzerApp.ResultIsEntry | srt_analyzer_app.py:124-170 | any result is the triple of one of the entries |
| SrtAnalyzerApp.NothingInCommon | srt_analyzer_app.py:144-170 | a snippet sharing no character with any entry is not found, when the ratio of such strings is 0 |
| SrtAnalyzerApp.DoubleSpaceNotExact | srt_analyzer_app.py:136-147 | a text `x  y` with two spaces, used as its own query, is normalised to `x y`, which it does not contain, so the fuzzy fallback decides |
| FindTimestamp.Search | find_timestamp.py:54-95 | no entries give no result |
| FindTimestamp.FindTimestampForText | find_timestamp.py:54-95 | the search as run, with its gate and early-return scan, returns `Search` |
| FindTimestamp.ScanEntries | find_timestamp.py:74-77 | the early-return scan finds nothing exactly when no entry contains the snippet, and otherwise returns the first such entry with its start time |
| FindTimestamp.GateNeverDecides | find_timestamp.py:69-77 | the `all_text` gate never changes the outcome: the first entry containing the snippet is returned, and with none the fuzzy fallback decides |
| FindTimestamp.AcrossBoundary | find_timestamp.py:69-77 | a snippet found only across the boundary of two entries passes the gate and still goes to the fuzzy fallback |
| FindTimestamp.BlankSnippetFirstEntry | find_timestamp.py:66-77 | a blank snippet, with at least one entry, returns the first entry |
| FindTimestamp.FuzzyAboveThreshold | find_timestamp.py:80-95 | when no entry contains the snippet, a result comes back exactly when some case-sensitive score is above 0.3 |
| FindTimestamp.ResultIsEntry | find_timestamp.py:54-95 | any result is the triple of one of the entries, with the start time of its timecode line |
| FindTimestamp.OwnTextFound | find_timestamp.py:72-77 | an entry's own normal text as the query finds that entry or an earlier one containing it |

## Left out

- Regular-expression block extraction (`re.findall` with `DOTALL`, lazy match and
  lookahead). The extractor starts from the captured caption bodies, given as a
  sequence. `TranscriptText` and `ExtractText` take those bodies rather than the file
  text.
- `difflib.SequenceMatcher.ratio`. It is foreign library code with a floating-point
  result. The fuzzy stage takes the ratio as a function parameter returning a
  real. The threshold is the real 0.3 compared with a strict `>`.
  `SrtAnalyzerApp.NothingInCommon` assumes one property of the ratio as a
  precondition: a non-empty string that shares no character with another scores 0
  against it. Two empty strings score 1, so the precondition leaves that pair out.
- Matching.BestOf: `scores.sort(reverse=True)` followed by `scores[0]` is modelled
  as a scan for the maximum under the same tuple order. The order of the rest of
  the list is not modelled, because the source reads only its head.
  `SortedHeadIsMax` shows that any descending arrangement has that maximum first.
- Text.Lower: it lowercases ASCII letters only. Python's full Unicode lowercasing
  is not modelled.
- SrtAnalyzerApp.FindTimestampForText: the web application computes `all_text`
  but never uses it. The model does not compute it.
- The generic loops: `GroupParagraphs` takes the topic test as a parameter, and
  `Segment` takes the boundary test. `BuildParagraphs` and the segment
  specification apply them to the real tests, so the model's behaviour is the
  same.
- File reads and file-existence checks. Every operation starts from a string.
- The Streamlit user interface, the command-line `main` functions and their
  interactive loops.
- The scripts that run external programs (`generate-transcript.py`,
  `generate-short-video.py`, `generate-whisper-compat-audio.py`) are not part of
  this model.
- Python's `None, None, None` triple is `Option.None`. A found triple is `Some(Match(number, start, text))`.
