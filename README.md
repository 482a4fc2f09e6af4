# BLOGOS corpus cleaning, modelled in Dafny

This project models the text-cleaning and deduplication pipeline that turns crawled
WARC archives of BLOGOS articles into a training corpus. Two entry points are
modelled:

- `process_and_save_data` of `data/cleaning_data.py`, the CSV exporter. For every
  HTML response record of every `.warc` file in a directory, it does the following:
  - extracts the text and links;
  - NFKC-normalises the text;
  - pulls out the publication date;
  - marks proper nouns with `<NE>…</NE>`;
  - tidies the whitespace, removes bracketed text, boilerplate sections and
    boilerplate phrases;
  - near-deduplicates the lines;
  - writes one numbered CSV row per distinct text. The md5 of the text is the
    dedup key.
- `process_and_save_data` of `cleaning_data.py`, the older exporter. It writes
  every distinct NFKC-normalised page to its own text file, named by
  `generate_filename`.

Every substitution of the source that deletes what it matches, `re.sub(p, '', s)`
(data/cleaning_data.py:85, 127, 136 and 172), is an instance of one left-to-right
scanner, `Scan.RemoveAll`. Its matcher gives the length of the match that starts at
a position, so the call is `RemoveAll(s, m_p)`. The two `re.sub(r'\s+', ' ', …)`
calls (lines 87 and 109) are `Strings.CollapseSpace`, and with the `strip()` after
them, `Strings.NormalizeSpace`. The URL rule of `clean_text` (line 108) is the
subject of `Cleaning.DoubledUrlNeverMatches`. HTML extraction, NFKC, the Sudachi
tokenizer, `fuzz.ratio`, md5 and `remove_image_links` are given as parameters
(`Corpus.Collaborators`).

Modules and files:

| file | module | models |
|---|---|---|
| wrappers.dfy | Wrappers | the `Option` type used for searches and parses that can fail |
| strings.dfy | Strings | `str.isspace`, `strip`, `re.sub(r'\s+', ' ', s)`, `split` / `join` |
| scan.dfy | Scan | `re.sub(pattern, '', text)` and `re.search` over a matcher |
| dates.dfy | Dates | `convert_date_format`, `extract_date` |
| entity_tagger.dfy | EntityTagger | `mark_proper_nouns` |
| cleaning.dfy | Cleaning | `clean_text`, `remove_text_in_square_brackets`, `remove_multiple_links` |
| boilerplate.dfy | Boilerplate | `remove_unwanted_sections`, `remove_unwanted_phrases_from_end` |
| near_dedup.dfy | NearDedup | `remove_duplicates_and_keep_last` |
| archive.dfy | Archive | the record filter and the stream of processed records |
| corpus.dfy | Corpus | the CSV exporter's per-record chain and its run (`Writer` holds `seen_texts`, `counter`, the rows) |
| legacy_export.dfy | LegacyExport | `generate_filename` and the older exporter's run |

What the code does, in the places where it is easy to misread:

- `extract_date` is defined twice in `data/cleaning_data.py`. The second definition
  (lines 130-138) replaces the first before any call. It removes every date match
  (`re.sub` at line 136), not only the one it reports, and does not strip the
  text. The sentinel is `'Неизвестно'`.
- `remove_duplicates_and_keep_last`, despite its name, keeps the earlier of two
  similar lines and drops the later one: the first pass records the later
  position against the earlier line (line 33), and the second pass keeps that
  earlier line and skips up to the recorded position (lines 41-43). The skip also
  drops unrelated lines that lie between them. Lemmas
  `NearDedup.KeepsEarlierOfPair` and `NearDedup.SkipsUnrelatedText` show both on
  three lines.
- Each rule of `remove_unwanted_sections` (lines 142-168) is lazy and ends in a
  lookahead for whitespace or the end of the text. It therefore removes the
  keyword and the rest of its whitespace-free word and stops there. A rule fires
  inside words too: `ID` turns "video" into "v".
- The first rule of `clean_text` (line 108) can never match, so `clean_text` only
  tidies whitespace (`Cleaning.DoubledUrlNeverMatches`).
- The near-dedup stage of the CSV exporter (line 217) sees a single line. The
  text reaching it has already been whitespace-collapsed, so it holds no `'\n'`
  (`Corpus.PipelineSingleLine`).
- A response record with no `Content-Type` header makes `'text/html' in None`
  (line 191) raise. That ends the whole run, and rows or files already written
  stay. `Archive.Classify` returns `Crash` for such records, and both exporters
  report `aborted`.

## Model

| member | source | states |
|---|---|---|
| Strings.NormalizeSpace | data/cleaning_data.py:109 | `re.sub(r'\s+', ' ', t).strip()` is the words of the text joined by single spaces (`' '.join(t.split())`); it is tidy and keeps exactly the non-whitespace characters in order |
| Strings.CollapseIsCollapsed | data/cleaning_data.py:87 | after `\s+` -> ' ' every whitespace character is a lone ' ' |
| Strings.CollapseSpace | data/cleaning_data.py:87 | `re.sub(r'\s+', ' ', s)` is empty exactly when the input is, and starts and ends with whitespace exactly when the input does |
| Strings.CollapseKeepsText | data/cleaning_data.py:87 | collapsing whitespace keeps every non-whitespace character in order |
| Strings.CollapseFixpoint | data/cleaning_data.py:87 | a text already collapsed is left unchanged by the collapse |
| Strings.StripCollapsed | data/cleaning_data.py:87 | stripping a collapsed text gives a tidy text |
| Strings.NormalizeSpaceFixpoint | data/cleaning_data.py:109 | a tidy text is its own normalisation |
| Strings.NormalizeSpaceIdempotent | data/cleaning_data.py:109 | normalising twice is normalising once |
| Strings.Strip | data/cleaning_data.py:128 | `strip()` leaves no whitespace at either end and keeps every non-whitespace character in order |
| Strings.StripSlice | data/cleaning_data.py:128 | `strip()` cuts only at the ends: the result is one contiguous slice of the text, everything before and after it is whitespace, and whitespace inside it is kept |
| Strings.StripKeepsInnerSpace | data/cleaning_data.py:128 | "a b" strips to "a b", not to "ab" |
| Strings.Words | data/cleaning_data.py:109 | `str.split()` with no argument: every piece is a non-empty run of non-whitespace characters |
| Strings.CollapseTrimmed | data/cleaning_data.py:87 | on a text that does not start with whitespace, `\s+` -> ' ' gives the words joined by ' ', plus one ' ' if the text ends in whitespace |
| Strings.CollapseSpaceWords | data/cleaning_data.py:87 | `\s+` -> ' ' gives an optional leading ' ', the words joined by ' ', and an optional trailing ' ' |
| Strings.CollapseStripWords | data/cleaning_data.py:87 | `re.sub(r'\s+', ' ', t).strip()` equals `' '.join(t.split())` |
| Strings.StripSubseq | data/cleaning_data.py:128 | `strip()` only deletes characters |
| Strings.StripIdempotent | data/cleaning_data.py:128 | `strip()` twice is `strip()` once |
| Strings.TrimLeft | data/cleaning_data.py:128 | the result is a suffix of the input that does not start with whitespace, and everything cut is whitespace |
| Strings.TrimRight | data/cleaning_data.py:128 | the result is a prefix of the input that does not end with whitespace, and everything cut is whitespace |
| Strings.TrimLeftKeepsText | data/cleaning_data.py:128 | cutting leading whitespace keeps every non-whitespace character in order |
| Strings.SplitOn | data/cleaning_data.py:216 | `split('\n')` gives at least one piece and no piece contains the separator |
| Strings.JoinSplit | data/cleaning_data.py:216-217 | joining the pieces of a split with the same separator gives back the text |
| Strings.SplitWithoutSeparator | data/cleaning_data.py:216 | a text without the separator splits into itself alone |
| Strings.NatToString | cleaning_data.py:30 | `str(index)` is a non-empty string of decimal digits |
| Strings.NatToStringValue | cleaning_data.py:30 | `str(index)` reads back as the decimal value index, with a leading '0' only for 0 |
| Scan.FirstMatch | data/cleaning_data.py:132 | `re.search` finds the leftmost position where the pattern matches; None exactly when it matches nowhere |
| Scan.RemoveAll | data/cleaning_data.py:127 | `re.sub(p, '', s)` only deletes characters: the result is a subsequence of the input, no longer than it |
| Scan.RemoveEach | data/cleaning_data.py:171-172 | applying a list of substitutions in order only deletes characters |
| Scan.RemoveAllSkip | data/cleaning_data.py:127 | a prefix at none of whose positions a match starts is kept whole, and the scan goes on after it |
| Scan.RemoveAllUnchanged | data/cleaning_data.py:136 | the substitution leaves the text unchanged exactly when the pattern matches nowhere |
| Scan.RemoveAllKeeps | data/cleaning_data.py:172 | a pattern whose matches never contain a class of characters keeps all of them in order |
| Scan.RemoveEachKeeps | data/cleaning_data.py:171-172 | the same holds for a list of such patterns |
| Dates.DateMatcher | data/cleaning_data.py:131 | the date pattern matches 17 characters or none |
| Dates.Parse | data/cleaning_data.py:121 | strptime with `%Y年%m月%d日 %H:%M` succeeds only on exactly 17 characters that form a valid date and time |
| Dates.FormatIso | data/cleaning_data.py:122 | strftime with `%Y-%m-%d %H:%M` gives the ISO shape, each field reading back as the date's own value |
| Dates.ParseFormatJapanese | data/cleaning_data.py:121 | every valid date written in the Japanese format parses back to itself |
| Dates.ConvertDateFormat | data/cleaning_data.py:119-124 | the result is an ISO date-time or the sentinel |
| Dates.ExtractDate | data/cleaning_data.py:130-138 | the date is an ISO date-time or the sentinel, the sentinel when no date occurs, and the text only loses characters |
| Dates.ConvertKeepsFields | data/cleaning_data.py:119-122 | a valid `YYYY年MM月DD日 HH:MM` becomes `YYYY-MM-DD HH:MM` with the same digits in every field |
| Dates.ConvertRejects | data/cleaning_data.py:119-124 | the sentinel comes back exactly when strptime rejects the string: extra text, or a field out of range |
| Dates.ConvertExample | data/cleaning_data.py:119-122 | "2023年06月21日 14:30" becomes "2023-06-21 14:30" |
| Dates.ConvertLeapDay | data/cleaning_data.py:119-122 | 29 February of a leap year is accepted |
| Dates.ConvertCommonYearLeapDay | data/cleaning_data.py:123-124 | 29 February of a common year gives the sentinel |
| Dates.ConvertOutOfRange | data/cleaning_data.py:123-124 | month 13, hour 24, minute 60 and year 0 give the sentinel |
| Dates.Pad2Num2 | data/cleaning_data.py:122 | two digits parsed and printed with `%m`/`%d`/`%H`/`%M` come back unchanged |
| Dates.Pad4Year | data/cleaning_data.py:122 | a four-digit year parsed and printed with `%Y` comes back unchanged |
| Dates.DateShapePrefix | data/cleaning_data.py:134 | `group(1)` of a match is the 17 characters where it starts |
| Dates.ExtractDateNoMatch | data/cleaning_data.py:130-138 | without a date the text comes back unchanged with the sentinel; the text changes exactly when a date occurs |
| Dates.ExtractDateLeftmost | data/cleaning_data.py:132-134 | the date reported is the conversion of the leftmost match |
| Dates.ExtractDateRemovesWholeMatches | data/cleaning_data.py:136 | removing the date matches shortens the text by a multiple of 17 characters: every removal takes a whole date |
| Dates.ExtractDateRemovesEveryDate | data/cleaning_data.py:130-138 | two dates in a row are both removed and the first one is reported |
| EntityTagger.MarkProperNouns | data/cleaning_data.py:15-23 | the loop builds exactly the marked text of the token sequence |
| EntityTagger.Marked | data/cleaning_data.py:19-22 | the marked text is the surfaces plus 9 characters of tags per proper noun |
| EntityTagger.AppendRendered | data/cleaning_data.py:19-22 | one token appends `<NE>surface</NE>` when it is a proper noun and its surface otherwise |
| EntityTagger.MarkedAppend | data/cleaning_data.py:18-22 | marking distributes over concatenation of token sequences |
| EntityTagger.MarkedWithoutProperNouns | data/cleaning_data.py:21-22 | with no proper noun the text is the surfaces unchanged |
| EntityTagger.MarkedExample | data/cleaning_data.py:19-22 | a proper noun is wrapped in `<NE>…</NE>`, a common noun is not, order is kept |
| Cleaning.DoubledUrlNeverMatches | data/cleaning_data.py:108 | no position of any text satisfies the doubled-URL rule |
| Cleaning.CleanText | data/cleaning_data.py:107-110 | the result is the words of the input joined by single spaces; it is tidy and keeps the non-whitespace characters of the input in order |
| Cleaning.CleanTextIdempotent | data/cleaning_data.py:107-110 | cleaning twice is cleaning once |
| Cleaning.BracketMatcher | data/cleaning_data.py:127 | a match of `\[[^\]]*\]` is `[`, no `]`, then `]`; no match means no such pair starts here |
| Strings.IndexOf | data/cleaning_data.py:127 | `[^\]]*\]` looks for the first `]`: None exactly when there is none, else its position with no `]` before it |
| Cleaning.NoPairAfterRemoval | data/cleaning_data.py:127 | after the substitution no `[` is followed by a `]` |
| Cleaning.NoPairNoMatch | data/cleaning_data.py:127 | a text with no such pair has no match |
| Cleaning.NoPairSlice | data/cleaning_data.py:128 | cutting a text keeps it free of pairs |
| Cleaning.StripNoPair | data/cleaning_data.py:128 | stripping keeps a text free of pairs |
| Cleaning.RemoveTextInSquareBrackets | data/cleaning_data.py:126-128 | the result has no `[…]` pair left and only loses characters |
| Cleaning.RemoveTextInSquareBracketsIdempotent | data/cleaning_data.py:126-128 | a second application changes nothing |
| Cleaning.RemoveTextInSquareBracketsPlain | data/cleaning_data.py:126-128 | without `[` the function is just `strip()` |
| Cleaning.RemoveTextInSquareBracketsUnclosed | data/cleaning_data.py:126-128 | without `]` nothing is removed: the result is `strip()` of the text |
| Cleaning.RemoveTextInSquareBracketsSegment | data/cleaning_data.py:126-128 | the first `[…]` pair is removed whole, the text before it survives, and the scan goes on after it |
| Cleaning.RemoveMultipleLinks | data/cleaning_data.py:116-117 | `links[:1]`: empty for no links, else the first link alone |
| Boilerplate.NonSpaceRun | data/cleaning_data.py:142 | `[\s\S]*?(?=\s\|$)` takes the longest whitespace-free run: it ends at whitespace or the end of the text |
| Boilerplate.SectionMatch | data/cleaning_data.py:142-172 | a rule matches exactly where the text starts with its keyword, ignoring case; with the `[\s\S]*?(?=\s\|$)` tail the match goes on to the first whitespace or the end of the text and no further |
| Boilerplate.SectionMatchStopsAtSpace | data/cleaning_data.py:142-163 | a rule with the lookahead stops exactly at the next whitespace |
| Boilerplate.FoldKeepsSpace | data/cleaning_data.py:172 | case-insensitive comparison never equates whitespace and non-whitespace |
| Boilerplate.SectionMatcherAvoidsSpace | data/cleaning_data.py:142-168 | a rule whose keyword has no whitespace never removes whitespace |
| Boilerplate.SpaceFreeRulesKeepSpaces | data/cleaning_data.py:171-172 | a list of such rules keeps every whitespace character in order |
| Boilerplate.SectionRuleCutsWord | data/cleaning_data.py:155 | the rule `ID` turns "video" into "v" |
| Boilerplate.SectionRuleStopsAtSpace | data/cleaning_data.py:147 | the rule `コメント` removes "コメント欄" and keeps " 本文" |
| Boilerplate.RemoveUnwantedSections | data/cleaning_data.py:140-174 | the result is the 27 rules applied in list order |
| Boilerplate.RemoveSections | data/cleaning_data.py:171-172 | the loop applies each rule of the list once, in order |
| Boilerplate.SectionsOnlyDelete | data/cleaning_data.py:140-174 | removing the sections only deletes characters |
| Boilerplate.SectionMatchers | data/cleaning_data.py:171 | one matcher per rule, in order |
| Boilerplate.PhraseMatchers | data/cleaning_data.py:84 | one matcher per pattern, in order |
| Boilerplate.Compile | data/cleaning_data.py:59-79 | reading a phrase pattern gives at most one atom per character |
| Boilerplate.AtomsMatch | data/cleaning_data.py:84-85 | a match of a compiled pattern never runs past the end of the text |
| Boilerplate.PhraseMatch | data/cleaning_data.py:84-85 | the length removed at a position never runs past the end of the text |
| Boilerplate.CompileLiteralPrefix | data/cleaning_data.py:59-79 | characters other than `\` are read as themselves, one atom each |
| Boilerplate.CompileEscape | data/cleaning_data.py:59-61 | `\(`, `\)` and `\+` are read as the literal character |
| Boilerplate.CompileDigits | data/cleaning_data.py:79 | `\d+` is read as one digit-run atom |
| Boilerplate.LiteralThen | data/cleaning_data.py:84-85 | literal atoms match exactly their own text, and the rest of the pattern goes on after it |
| Boilerplate.LiteralAtomsMatch | data/cleaning_data.py:84-85 | a pattern of literal atoms matches exactly its text at the start of the text, and nothing otherwise |
| Boilerplate.DigitsThen | data/cleaning_data.py:79 | `\d+` needs at least one digit and takes the whole digit run |
| Boilerplate.EscapedParensMatch | data/cleaning_data.py:59-60 | `a\(m\)` matches exactly the text `a(m)` |
| Boilerplate.EscapedPlusMatch | data/cleaning_data.py:61 | `a\+` matches exactly the text `a+` |
| Boilerplate.EscapedPhrases | data/cleaning_data.py:59-61 | the three escaped phrases are of those two forms, with backslash-free parts |
| Boilerplate.TweetCompiles | data/cleaning_data.py:79 | `Tweet \d+ コメント` is read as "Tweet ", a digit run, then " コメント" |
| Boilerplate.TweetCountMatch | data/cleaning_data.py:79 | `Tweet \d+ コメント` matches exactly when the text starts with "Tweet ", a non-empty digit run and " コメント", and then removes those 11 characters plus the digits |
| Boilerplate.LiteralMatch | data/cleaning_data.py:59-79 | a pattern without escapes matches exactly its own text |
| Boilerplate.LiteralRemovedAnywhere | data/cleaning_data.py:84-85 | a phrase is removed wherever it occurs, not only at the end of the text |
| Boilerplate.InsertByLength | data/cleaning_data.py:82 | inserting keeps every element and adds x |
| Boilerplate.InsertKeepsOrder | data/cleaning_data.py:82 | inserting into a longest-first list keeps it longest first |
| Boilerplate.InsertOfLength | data/cleaning_data.py:82 | the inserted element comes after every element of its own length |
| Boilerplate.SortByLength | data/cleaning_data.py:82 | `sort(key=len, reverse=True)` keeps the number of patterns and puts them longest first |
| Boilerplate.SortByLengthPermutes | data/cleaning_data.py:82 | the sorted list has the same elements with the same counts |
| Boilerplate.SortByLengthStable | data/cleaning_data.py:82 | the sort is stable: patterns of one length keep their list order |
| Boilerplate.RemoveUnwantedPhrasesFromEnd | data/cleaning_data.py:57-89 | the result is the sorted patterns applied in order, then whitespace normalised; it is tidy |
| Boilerplate.RemovePhrases | data/cleaning_data.py:84-85 | the loop applies each pattern once, in order |
| NearDedup.LastSeenIndex | data/cleaning_data.py:26-35 | the map built is `Record` of some choice sequence that a set iteration order can produce: for each line, nothing when no earlier line is similar, else one similar earlier line; the last position recorded for a key wins |
| NearDedup.Record | data/cleaning_data.py:30-35 | the positions recorded are positions of lines |
| NearDedup.RecordChosen | data/cleaning_data.py:31-34 | a text is a key exactly when some line chose it; its value is the last line that chose it |
| NearDedup.RecordFirstPass | data/cleaning_data.py:30-35 | every map built from choices is sound (each entry pairs an earlier line with a later similar one) and complete (every line similar to an earlier one is covered by a skip) |
| NearDedup.Walk | data/cleaning_data.py:37-43 | the second pass keeps at most the remaining lines, and keeps line i when it is past the skip |
| NearDedup.KeepUnskipped | data/cleaning_data.py:37-45 | the lines kept are a subsequence of the input and include the first line |
| NearDedup.SkipPass | data/cleaning_data.py:37-43 | the second loop yields exactly the lines the skip rule keeps |
| NearDedup.WalkSubseq | data/cleaning_data.py:37-43 | the kept lines are a subsequence of the input |
| NearDedup.WalkKeepsAll | data/cleaning_data.py:37-43 | with no recorded line nothing is skipped |
| NearDedup.NoSimilarPairEmpty | data/cleaning_data.py:26-35 | the map is empty exactly when no line is similar to an earlier one |
| NearDedup.RemoveDuplicatesAndKeepLast | data/cleaning_data.py:25-45 | the result is the second pass over a map some iteration order builds; it is a subsequence, keeps the first line, and keeps everything when no two lines are similar |
| NearDedup.KeepsEarlierOfPair | data/cleaning_data.py:25-45 | for lines [A, A', B] with only A' similar to A, every iteration order gives [A, B] |
| NearDedup.SkipsUnrelatedText | data/cleaning_data.py:37-43 | for [A, B, A'] with only A' similar to A, every iteration order gives [A]: the skip from A drops B too |
| NearDedup.ThreeSimilarTexts | data/cleaning_data.py:25-45 | three mutually similar lines [A, B, C] give [A] or [A, C], depending on the iteration order |
| NearDedup.ThreeSimilarKeepsFirst | data/cleaning_data.py:30-43 | when B and C both choose A, the result is [A] |
| NearDedup.ThreeSimilarKeepsFirstAndLast | data/cleaning_data.py:30-43 | when B chooses A and C chooses B, the result is [A, C] |
| NearDedup.OnlyEntry | data/cleaning_data.py:30-35 | when only the pair (line p, text a) is similar and line p's text is unique, the map is exactly `{a: p}` if a occurs before p, and empty otherwise, whatever the iteration order |
| Archive.Classify | data/cleaning_data.py:191 | a record is taken iff it is a response whose Content-Type contains text/html; it crashes iff it is a response without Content-Type |
| Archive.PicksSound | data/cleaning_data.py:190-191 | each processed record is the record at its enumerate() index, is taken, and has no crash before it; the indexes increase |
| Archive.Picks | data/cleaning_data.py:190-191 | no more records are processed than the file holds |
| Archive.PicksComplete | data/cleaning_data.py:190-191 | every taken record with no crash before it is processed |
| Archive.PicksStop | data/cleaning_data.py:191 | nothing after a crash is processed |
| Archive.PicksNext | data/cleaning_data.py:190-191 | one more record adds itself when taken and nothing otherwise |
| Archive.ItemsOf | data/cleaning_data.py:190 | each processed record is paired with its file |
| Archive.ItemsNext | data/cleaning_data.py:190-191 | the same one-record step, over the whole stream so far |
| Archive.StreamSound | data/cleaning_data.py:185-191 | every processed record comes from an accepted file and is one of its processed records |
| Archive.Stream | data/cleaning_data.py:185-191 | every processed record comes from a file that the `.warc` filter accepts |
| Archive.StreamStops | data/cleaning_data.py:185-191 | after a file that crashes, no later file contributes |
| Archive.StreamNext | data/cleaning_data.py:185-187 | one more file adds its processed records when accepted |
| Corpus.Prepare | data/cleaning_data.py:196-214 | the cleaned text of a record is tidy and at most one link is kept |
| Corpus.TidyIsOneLine | data/cleaning_data.py:216 | a tidy text splits on '\n' into itself alone |
| Corpus.CleanDocument | data/cleaning_data.py:196-217 | the per-record chain, near-dedup of lines included, yields exactly the prepared document |
| Corpus.PipelineSingleLine | data/cleaning_data.py:216-217 | the text reaching the line dedup is a single line |
| Corpus.LinksColumn | data/cleaning_data.py:210-224 | the links column is the first extracted link or empty |
| Corpus.StepKeepsGood | data/cleaning_data.py:219-225 | admitting a document keeps rows numbered 0, 1, …; counter, seen set and rows agree; the seen set holds exactly the row hashes, all distinct |
| Corpus.Step | data/cleaning_data.py:219-225 | the text's hash joins the seen set; a row is added exactly when the hash is new, it is `[counter, date, text, links]` and the counter advances by one; otherwise nothing else changes |
| Corpus.StepAll | data/cleaning_data.py:177-225 | at most one row per document, and the counter equals the number of rows |
| Corpus.RowHashesAppend | data/cleaning_data.py:222-224 | writing a row adds its hash to the row hashes |
| Corpus.DistinctAppend | data/cleaning_data.py:220-224 | a row with a new hash keeps all row hashes distinct |
| Corpus.StepAllGood | data/cleaning_data.py:177-225 | that invariant holds after any sequence of documents |
| Corpus.StepAllSeen | data/cleaning_data.py:219-222 | the seen set is the set of hashes of all documents admitted |
| Corpus.RepeatDropped | data/cleaning_data.py:220-221 | a document whose hash was seen before writes nothing |
| Corpus.FreshWritten | data/cleaning_data.py:222-225 | a document with a new hash is written as the next numbered row |
| Corpus.Documents | data/cleaning_data.py:190-217 | one document per processed record |
| Corpus.DocumentsAt | data/cleaning_data.py:190-217 | the k-th document is the cleaning of the k-th processed record's payload |
| Corpus.Writer.constructor | data/cleaning_data.py:177-178 | an empty seen set, counter 0, no rows |
| Corpus.Writer.Admit | data/cleaning_data.py:219-225 | the writer's state advances by exactly one step and keeps the invariant |
| Corpus.ProgressNext | data/cleaning_data.py:190-225 | one more record of a file: the run steps by its cleaned document when it is taken, stays put when it is skipped, and stops when it crashes |
| Corpus.ProcessRecord | data/cleaning_data.py:190-225 | one iteration of the record loop advances the run by that record, or reports the crash |
| Corpus.ProcessArchive | data/cleaning_data.py:189-225 | the record loop of one file advances the run by the file's processed records and reports a crash |
| Corpus.ProcessAndSaveData | data/cleaning_data.py:176-227 | the rows written are those of the run over the listing, and the run aborts exactly when an accepted file crashes |
| Corpus.ExportNumbered | data/cleaning_data.py:224-225 | the rows of a run are numbered 0, 1, … and there are as many as hashes seen |
| LegacyExport.Basename | cleaning_data.py:30 | `os.path.basename` is the part after the last '/' and holds no '/' |
| LegacyExport.BasenameAfterSlash | cleaning_data.py:30 | the basename of `dir/name` is `name` |
| LegacyExport.ReplaceAbsent | cleaning_data.py:30 | replacing a character that does not occur changes nothing |
| LegacyExport.DeadBranches | cleaning_data.py:30-32 | the `replace('/', '_')` finds nothing, and the name is never empty, so the md5 fallback for an empty name never runs |
| LegacyExport.GenerateFilenameShort | cleaning_data.py:30-36 | a name of at most 100 characters is `basename_i_i.txt`: the index appears twice and the slice cuts nothing |
| LegacyExport.GenerateFilename | cleaning_data.py:28-37 | every name ends in `_<index>.txt`; its stem is at most 100 characters unless it is `md5(url)` |
| LegacyExport.GenerateFilenameLong | cleaning_data.py:33-34 | a longer name becomes `md5(url)_i.txt` |
| LegacyExport.GenerateFilenameExample | cleaning_data.py:28-37 | "https://blogos.com/article/12" at index 3 becomes "12_3_3.txt" |
| LegacyExport.OutputNameIsGenerated | cleaning_data.py:68-70 | the `.txt` fix-up never fires |
| LegacyExport.WriteRecord | cleaning_data.py:57-74 | one processed record: a seen hash is skipped; otherwise its hash is added and its file written |
| LegacyExport.LegacyStep | cleaning_data.py:63-74 | the text's hash joins the seen set; one file, that of the record, is written exactly when the hash is new |
| LegacyExport.LegacyAll | cleaning_data.py:45-74 | at most one file per processed record, and one seen hash per file written |
| LegacyExport.HandleRecord | cleaning_data.py:56-74 | one iteration of the record loop advances the run by that record, or reports the crash |
| LegacyExport.LegacyProgressNext | cleaning_data.py:56-74 | one more record of a file: the run takes one step when the record is taken, stays put when it is skipped, and stops when it crashes |
| LegacyExport.ProcessArchive | cleaning_data.py:55-74 | the record loop of one file advances the run by the file's processed records and reports a crash |
| LegacyExport.ProcessAndSaveData | cleaning_data.py:44-75 | the files written are those of the run over the walk, and the run aborts exactly when a `.warc` file crashes |
| LegacyExport.HashesMembers | cleaning_data.py:63-66 | a hash is in the set exactly when some processed text has it |
| LegacyExport.LegacyAllCounts | cleaning_data.py:45-74 | the shared seen set holds exactly the hashes of all processed texts |
| LegacyExport.RepeatWritesNothing | cleaning_data.py:64-65 | a text whose hash matches an earlier text, from any directory, writes no file |
| LegacyExport.WrittenFrom | cleaning_data.py:68-74 | every file written is the file of one processed record |
| LegacyExport.WrittenNames | cleaning_data.py:47-74 | every file written is named by `generate_filename` from its record's URI and enumerate() index, and goes to the directory of its source file |

## Left out

- HTML extraction (`clean_html_and_extract_links`, data/cleaning_data.py:94-105) is a parameter, and so is the UTF-8 decoding with errors ignored. BeautifulSoup cannot be stated here.
- NFKC normalisation (`normalize_text`) is a parameter. Unicode tables are outside the model.
- The Sudachi tokenizer is a parameter. Only its token stream (surface and the first two part-of-speech fields) is modelled.
- `remove_image_links` is a parameter. Its lazy `.*?` pattern with `\b` is not modelled.
- md5 is a parameter. Distinct texts are not assumed to have distinct hashes, just as in the source.
- NearDedup.RemoveDuplicatesAndKeepLast: `fuzz.ratio(text, seen) > 90` is a parameter `similar`. The edit-distance ratio and the threshold are not modelled.
- NearDedup.LastSeenIndex: the source iterates over a set in hash order. The model lets the loop pick any similar earlier line, so its contract holds for every iteration order.
- Boilerplate.RemoveUnwantedSections: the model folds case for ASCII letters only. Python's `re.IGNORECASE` also lets `[a-z]` match 'İ' (U+0130) and 'ı' (U+0131), which NFKC keeps, so the source removes "İD" or "lıvedoor" where the model keeps them.
- Boilerplate.RemoveUnwantedPhrasesFromEnd: `\d+` matches ASCII digits only, where Python's `\d` also matches other Unicode decimal digits.
- Dates.ConvertDateFormat: defined only on strings that begin with the date shape. Those are the only strings `extract_date` passes it; strptime on other strings is not modelled.
- Dates.DateMatcher: `\d` matches ASCII digits only. Python's `\d` also matches other Unicode decimal digits, and NFKC keeps many of them, so a date written in such digits is found by the source and not by the model.
- Dates.FormatIso: `%Y` is printed as four digits. Some C libraries print years below 1000 without padding.
- The first `extract_date` (data/cleaning_data.py:48-55) is not modelled. The second definition of the same name replaces it before any call.
- File and CSV I/O, the CSV header and quoting, `print`, `main` and the `os.makedirs` calls are not modelled. A run returns its rows or its list of files written.
- The directory listing is a parameter: the `os.listdir` order, and for the older exporter the `os.walk` traversal flattened to a sequence of files. Each file carries the name of the subdirectory that lists it.
- LegacyExport.ProcessAndSaveData: a directory entry named `*.warc` that is not a regular file would make `open` raise. The model takes every entry's records as given.
- LegacyExport.ProcessAndSaveData: two files with the same name in one target directory overwrite each other on disk. The model records every write in order and does not compute the final directory contents.
- A record without a `WARC-Target-URI` header (a `None` URL) is not modelled; the URI is a string.
- Reading the WARC archive (`ArchiveIterator`) is outside the model. A file is given as its sequence of records.
- Archive.Picks: its own contract states only the length bound; which records are processed, and in what order, is stated by `Archive.PicksSound`, `PicksComplete` and `PicksStop`.
- Boilerplate.SortByLength: its own contract states length and order; that it is a permutation is `Boilerplate.SortByLengthPermutes`.
