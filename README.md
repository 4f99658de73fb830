# TextProcessor, modelled in Dafny

This project models `TextProcessor`, the text toolkit of a document-to-podcast
application. Every function in it takes a string and returns strings, lists or
booleans:

- `clean_text` normalises text pulled from documents.
- `chunk_text` packs sentences into chunks of a bounded size.
- `extract_keywords` ranks the frequent content words.
- `detect_language` guesses English, Spanish or French from function words.
- `validate_text_length` gates the input size.
- `extract_structure` and `format_for_summary` find headings, bullet points and
  paragraphs and lay them out as a summary prompt.

Each regular expression of the source is written out by hand over `seq<char>`.
That includes its backtracking and the way `re.findall` and `re.split` resume
after a match.

- Python's `\s` and `str.strip` use Python's whitespace set, stated concretely
  in `TextBasics.IsSpace`.
- Python's `\w` is `[A-Za-z0-9_]` on ASCII. Above ASCII it is Unicode-aware, so
  that part is a parameter `wc: WordClass`. It is assumed never to hold a
  whitespace character.
- `str.lower()` is modelled on ASCII letters only.

The form follows the source:

- The substitution chains and comprehensions are functions.
- The loops are methods proved against specification functions:
  - the sentence-packing loop of `chunk_text`;
  - the frequency dictionary of `extract_keywords`;
  - the score dictionary and the `max` of `detect_language`;
  - the string accumulation of `format_for_summary`.

Modules:

- `Config`: the two size constants, `MAX_TEXT_LENGTH = 5000` and `CHUNK_SIZE = 1000` (config.py:61-62).
- `TextBasics`: character classes, strip, whitespace-free content, joins.
- `Cleaning`: `clean_text`.
- `Chunking`: `chunk_text`.
- `Keywords`: `extract_keywords`.
- `LanguageDetection`: `detect_language`.
- `Validation`: `validate_text_length`.
- `Structure`: `extract_structure` and `format_for_summary`.

Observations that follow from the code as written:

- In `clean_text`, step 2 is `[^\w\s.,!?;:'"-]`. It already deletes the curly
  quotes and the prime sign, so the quote and apostrophe substitutions after it
  never change anything (`Cleaning.NormalizationsIdle`).
- The apostrophe pattern `r'[''′]'` is two adjacent literals. Its class
  therefore holds only U+2032.
- `clean_text` can leave two spaces in a row, for example when a removed symbol
  stood between two spaces. The model does not claim otherwise.
- In `extract_structure`, `\s*` in the bullet pattern crosses newlines:
  - a bullet on a line of its own takes its text from the next non-blank line
    (`Structure.BulletPointsOfMarkerLine`);
  - when only whitespace follows the bullet up to the end of the text, the regex
    backtracks and captures a single whitespace character
    (`Structure.BulletPointsOfTrailingMarker`).

  The model follows the regex, not the line-by-line reading.
- Headings keep their newline, but paragraphs are stripped. So
  `format_for_summary` drops a paragraph from "Content:" only when it equals a
  heading written on the text's last line with no newline after it
  (`Structure.HeadingParagraphOverlap`).

## Model

| member | source | states |
|---|---|---|
| TextBasics.ToLower | text_utils.py:194 | ASCII capitals map to the lower-case letter 32 code points up; every other character is unchanged |
| TextBasics.Lower | text_utils.py:194 | `lower()` keeps the length and maps each character by `ToLower`, so no ASCII capital is left |
| TextBasics.TrimLeft | text_utils.py:28 | `lstrip` keeps a suffix; everything it drops is whitespace; what remains does not start with whitespace |
| TextBasics.TrimRight | text_utils.py:28 | `rstrip` keeps a prefix; everything it drops is whitespace; what remains does not end with whitespace |
| TextBasics.Strip | text_utils.py:28 | `strip()` is a contiguous slice of its input whose ends are not whitespace |
| TextBasics.NonSpaceConcat | text_utils.py:19-28 | the non-whitespace content of a concatenation is that of each part, in order |
| TextBasics.NonSpaceOfSpaces | text_utils.py:19 | a whitespace run has no non-whitespace content |
| TextBasics.NonSpaceSplitAt | text_utils.py:19-28 | the non-whitespace content splits at any position |
| TextBasics.NonSpaceTrimLeft | text_utils.py:28 | left-stripping loses no character other than whitespace |
| TextBasics.NonSpaceTrimRight | text_utils.py:28 | right-stripping loses no character other than whitespace |
| TextBasics.NonSpaceStrip | text_utils.py:28 | stripping loses no character other than whitespace |
| TextBasics.JoinSpaceAppend | text_utils.py:59 | `' '.join` of two non-empty lists is the two joins with one space between them |
| Cleaning.CollapseWhitespace | text_utils.py:19 | `re.sub(r'\s+', ' ')` equals the character-by-character reading `SqueezeSpaces`: non-whitespace is kept, the first character of each whitespace run becomes `' '`, the rest of the run is dropped. Also: no longer than the input, empty exactly when the input is, only `' '` as whitespace, never two spaces in a row, and a leading space exactly when the input starts with whitespace |
| Cleaning.SqueezeAfterSpace | text_utils.py:19 | inside a whitespace run, the rest of the run produces nothing |
| Cleaning.CollapseWhitespaceKeepsText | text_utils.py:19 | collapsing changes only whitespace: the non-whitespace characters are the same, in the same order |
| Cleaning.RemoveDisallowed | text_utils.py:21 | the result keeps only `\w`, whitespace and `.,!?;:'"-`. Its characters all come from the input. An input already inside the class is returned unchanged |
| Cleaning.RemoveDisallowedConcat | text_utils.py:21 | the substitution acts on each part of a concatenation separately, so the kept characters stay in text order |
| Cleaning.RemoveDisallowedCounts | text_utils.py:21 | every allowed character is kept as many times as the input holds it |
| Cleaning.NormalizeQuotes | text_utils.py:23 | `"`, U+201C and U+201D become `"`; every other character is kept in place |
| Cleaning.NormalizeApostrophes | text_utils.py:25 | U+2032, the only member of the class as written, becomes `'`; every other character is kept in place |
| Cleaning.NormalizationsIdle | text_utils.py:21-25 | when `\w` does not hold the curly quotes or the prime, the two normalising substitutions leave step 2's output unchanged |
| Cleaning.TightenPunctuation | text_utils.py:27 | `re.sub(r'\s+([.,!?;:])', r'\1')` equals the character-by-character reading `DropSpaceBeforePunctuation`: a whitespace character is dropped exactly when its run is directly followed by one of `. , ! ? ; :`, and every other character is kept in order. Also: no longer than the input, no whitespace right before that punctuation, and a non-space first character survives |
| Cleaning.DropOverRun | text_utils.py:27 | over one whole whitespace run, the character-by-character reading drops the run when punctuation follows it and keeps the run otherwise |
| Cleaning.DropRunStep | text_utils.py:27 | one character of such a run is handled like the rest of the run |
| Cleaning.RunHead | text_utils.py:27 | a run ending where the stripped text starts: its first character, and whether punctuation follows it |
| Cleaning.RunFollow | text_utils.py:27 | the run at the start of the text is followed by `. , ! ? ; :` exactly when the character where the stripped text starts is one of them |
| Cleaning.LeadingRun | text_utils.py:27 | the whitespace run the text starts with is dropped when `. , ! ? ; :` follows it and kept otherwise; the punctuation itself is kept |
| Cleaning.DropRunBeforePunctuation | text_utils.py:27 | a leading run followed by `. , ! ? ; :` disappears and the tightening facts hold for the result |
| Cleaning.KeepRunBeforeOther | text_utils.py:27 | a leading run followed by anything else stays and the tightening facts hold for the result |
| Cleaning.KeepFirst | text_utils.py:27 | a first character that is not whitespace stays and the tightening facts hold for the result |
| Cleaning.TrimLeftOfRun | text_utils.py:27 | stripping a whitespace run leaves exactly what follows the run |
| Cleaning.DropKeepsText | text_utils.py:27 | tightening removes only whitespace |
| Cleaning.KeepHead | text_utils.py:27 | one character kept in front of a tightened tail keeps the tightening facts |
| Cleaning.KeepRun | text_utils.py:27 | a whitespace run kept in front of a tail that starts with no tight punctuation keeps the tightening facts |
| Cleaning.NoSpaceBeforeConcat | text_utils.py:27 | two tightened strings stay tightened when joined, unless whitespace meets punctuation at the seam |
| Cleaning.CleanText | text_utils.py:12-28 | empty in gives empty out. Otherwise the result is no longer than the input and has no whitespace at either end. Its only whitespace is `' '`, with none before `. , ! ? ; :`. Every character is a word character, a space or one of `.,!?;:'"-`. Its non-whitespace characters are exactly the input's allowed non-whitespace characters, quote-normalised, in input order |
| Cleaning.CleanTextAll | text_utils.py:19-28 | the cleaning steps after the empty-text check give a result no longer than the input, with no whitespace at either end, `' '` as its only whitespace and none before `. , ! ? ; :`; only allowed characters; and the input's allowed non-whitespace characters, quote-normalised, in order |
| Cleaning.CleanTextKeepsText | text_utils.py:19-28 | across the whole pipeline, the non-whitespace content is the input's allowed non-whitespace characters, normalised, in order |
| Cleaning.NonSpaceRemoveDisallowed | text_utils.py:21 | removing disallowed characters commutes with dropping whitespace |
| Cleaning.NormalizeQuotesConcat | text_utils.py:23 | quote normalisation acts on each part of a concatenation separately |
| Cleaning.NormalizeApostrophesConcat | text_utils.py:25 | apostrophe normalisation acts on each part of a concatenation separately |
| Cleaning.NonSpaceNormalizeQuotes | text_utils.py:23 | quote normalisation commutes with dropping whitespace |
| Cleaning.NonSpaceNormalizeApostrophes | text_utils.py:25 | apostrophe normalisation commutes with dropping whitespace |
| Cleaning.CleanTextFacts | text_utils.py:19-28 | the stage-to-stage facts that give `CleanText` its character and spacing guarantees |
| Cleaning.NormalizedChars | text_utils.py:21-25 | after steps 1-4 every character is allowed and every whitespace character is a blank |
| Cleaning.StripKeeps | text_utils.py:28 | stripping invents no character and keeps "no whitespace before punctuation" |
| Chunking.NextBreak | text_utils.py:50 | the first position at or after `k` where `(?<=[.!?])\s+` can match, or the end of the text; no match starts before it |
| Chunking.SplitSentences | text_utils.py:50 | `re.split(r'(?<=[.!?])\s+')` gives at least one piece, and the first piece is a prefix of the text |
| Chunking.SplitSentencesRebuild | text_utils.py:50 | the text is the sentences put back together with one non-empty whitespace run between each two consecutive sentences |
| Chunking.BreakGap | text_utils.py:50 | at a split point the text is the sentence, a non-empty whitespace run, and the rest with its leading whitespace stripped |
| Chunking.SplitSentencesShape | text_utils.py:50 | every piece but the last ends with `.`, `!` or `?`. Every piece after the first starts with non-whitespace or is empty. No piece contains a split point. With `SplitSentencesRebuild`, this fixes where the text is cut |
| Chunking.HeadUnbroken | text_utils.py:50 | the text before the first split point holds none, and ends with sentence punctuation when a split follows |
| Chunking.ConsPieces | text_utils.py:50 | a sentence in front of a valid split keeps the split valid |
| Chunking.SplitSentencesKeepsText | text_utils.py:50 | joining the sentences with spaces loses and invents no non-whitespace character |
| Chunking.NonSpaceJoinHead | text_utils.py:50-59 | the joining space adds no non-whitespace character |
| Chunking.PackStep | text_utils.py:56-64 | one loop iteration: the sentence ends up as the last member of a non-empty current group |
| Chunking.PackAll | text_utils.py:55-64 | after the loop over a list of sentences, the current group is empty exactly when the list is |
| Chunking.Groups | text_utils.py:55-67 | the chunks' sentence groups, concatenated, are exactly the sentences in order; there are groups exactly when there are sentences |
| Chunking.Chunks | text_utils.py:55-67 | one chunk per group; no chunks exactly when no sentences; the chunks joined with spaces equal the sentences joined with spaces, so no sentence is lost, repeated or moved |
| Chunking.PackStepInvariant | text_utils.py:55-64 | one loop iteration keeps the packing invariant. Flushed groups plus the current one are the sentences so far. `current_length` is the current group's length. Each group is one sentence or fits `chunk_size`. Each flushed group, with the next sentence added, would have overflowed |
| Chunking.FlushInvariant | text_utils.py:58-61 | the flushing branch keeps the packing invariant |
| Chunking.ExtendInvariant | text_utils.py:63-64 | the appending branch keeps the packing invariant |
| Chunking.PackAllInvariant | text_utils.py:55-64 | the invariant holds after any number of sentences |
| Chunking.PackAllPrefix | text_utils.py:55 | the loop state after `i+1` sentences is one step from the state after `i` |
| Chunking.TotalLengthAppend | text_utils.py:56-64 | `current_length += len(sentence)` tracks the sum of the sentence lengths |
| Chunking.JoinEachAppend | text_utils.py:59-67 | appending a joined group extends the chunk list by that one chunk |
| Chunking.GroupsFit | text_utils.py:56-64 | every chunk is non-empty and is a single sentence or has a total sentence length of at most `chunk_size` |
| Chunking.GroupsGreedy | text_utils.py:58 | packing is greedy: each chunk, with the first sentence of the next chunk added, would exceed `chunk_size` |
| Chunking.JoinGroups | text_utils.py:59-67 | joining the joined chunks equals joining all their sentences |
| Chunking.FlattenNonEmpty | text_utils.py:59-67 | groups whose first group is non-empty hold at least one sentence |
| Chunking.FinalFlush | text_utils.py:66-67 | appending the last current group, when there is one, completes the chunk list |
| Chunking.ChunkText | text_utils.py:34-69 | empty text gives no chunks. Otherwise the loop's result is the packing of the split sentences, has at least one chunk, and joined with spaces equals the sentences joined with spaces |
| Chunking.ChunkTextDefault | text_utils.py:34 | `chunk_text(text)` with the default `chunk_size=CHUNK_SIZE` (1000): no chunks for empty text, otherwise the packing at size 1000 |
| Keywords.WordPrefixLength | text_utils.py:219 | the length of the run of word characters at the start; the next character, if any, is not a word character |
| Keywords.Words | text_utils.py:219 | `\b\w+\b` finds non-empty runs of word characters; in lower-cased text they hold no capital |
| Keywords.WordsRebuild | text_utils.py:219 | the text is the words put back together with the non-word text around them, and between two consecutive words that text is not empty: every word is a maximal run |
| Keywords.WordGapsSkip | text_utils.py:219 | a non-word character in front joins the first gap |
| Keywords.WordGapsWord | text_utils.py:219 | a word in front comes after an empty gap |
| Keywords.WordsKeepWordChars | text_utils.py:219 | the words, concatenated, are exactly the text's word characters in order |
| Keywords.WordCharsSplit | text_utils.py:219 | a leading run of word characters is kept whole by the word-character filter |
| Keywords.Candidates | text_utils.py:213-220 | the filter keeps exactly the words that are not stop words and are longer than 3 characters, each as many times as it occurs |
| Keywords.CandidatesStep | text_utils.py:220 | the occurrence counts of the filter carry over from the tail to the whole list |
| Keywords.CandidatesConcat | text_utils.py:220 | the filter acts on each part of a concatenation separately, so the candidates stay in text order |
| Keywords.TextCandidates | text_utils.py:219-220 | every candidate of a text is one of its lower-cased words, not a stop word, longer than 3 characters, and without a capital |
| Keywords.Occurrences | text_utils.py:223-225 | a count is at most the list's length, and zero exactly when the word is absent |
| Keywords.OccurrencesConcat | text_utils.py:223-225 | counts add over concatenation |
| Keywords.OccurrencesOne | text_utils.py:223-225 | a one-word list counts that word once and nothing else |
| Keywords.FirstIndex | text_utils.py:223-225 | the index of the first occurrence: the word is there, and not before |
| Keywords.Dedup | text_utils.py:223-225 | the dictionary's key order: no repeats, the same words as the input, in order of first occurrence |
| Keywords.FirstIndexOfInit | text_utils.py:223-225 | a word already seen keeps its first occurrence when the list grows |
| Keywords.FirstIndexAt | text_utils.py:223-225 | a position with no earlier copy of its word is that word's first occurrence |
| Keywords.DedupStep | text_utils.py:223-225 | a new word goes last in first-occurrence order |
| Keywords.CountFrequencies | text_utils.py:223-225 | the counting loop: the keys are exactly the candidates, each mapped to its number of occurrences, with key order `Dedup` |
| Keywords.TallyStep | text_utils.py:225 | `keyword_freq[word] = keyword_freq.get(word, 0) + 1` keeps the dictionary equal to the counts of the words seen so far |
| Keywords.DedupPrefixStep | text_utils.py:224-225 | one more word adds it to the key order exactly when it is new |
| Keywords.CountPrefixStep | text_utils.py:224-225 | one more word adds it to the keys and raises its count by one |
| Keywords.FrequencyTable | text_utils.py:229 | `items()`: the distinct candidates in insertion order, each paired with its count |
| Keywords.Insert | text_utils.py:228-232 | inserting into the sorted list adds exactly one entry |
| Keywords.SortByRank | text_utils.py:228-232 | the sort is a permutation |
| Keywords.InsertRanked | text_utils.py:228-232 | insertion keeps the list in non-increasing (count, length) order |
| Keywords.InsertPastHead | text_utils.py:228-232 | an entry with a smaller key goes behind the head |
| Keywords.RankedTail | text_utils.py:228-232 | the tail of a ranked list is ranked |
| Keywords.RankedCons | text_utils.py:228-232 | an entry that ranks at least as high as all of a ranked list can go in front of it |
| Keywords.SortByRankRanked | text_utils.py:228-232 | the sorted list is in non-increasing (count, length) order |
| Keywords.InsertWithKey | text_utils.py:228-232 | insertion puts the new entry first among the entries with its key |
| Keywords.WithKeyPastHead | text_utils.py:228-232 | the insertion step behind an entry with a greater key |
| Keywords.WithKeyCons | text_utils.py:228-232 | the entries with a key, for a list with one more entry in front |
| Keywords.SortByRankStable | text_utils.py:228-232 | `sorted(..., reverse=True)` is stable: entries with the same key stay in dictionary order |
| Keywords.Names | text_utils.py:234 | `[word for word, freq in ...]` keeps the words in order |
| Keywords.InsertNamesDistinct | text_utils.py:228-232 | inserting a new word keeps the words distinct |
| Keywords.NamesCons | text_utils.py:234 | the words of a list with one more entry in front |
| Keywords.DistinctCons | text_utils.py:223-225 | a list with a new first element is distinct exactly when the element is new and the rest is distinct |
| Keywords.NamesMembers | text_utils.py:234 | a word is among the names exactly when some entry has it |
| Keywords.InsertNames | text_utils.py:228-232 | insertion adds exactly the new entry's word to the names |
| Keywords.SortByRankNamesDistinct | text_utils.py:228-232 | sorting keeps the words distinct |
| Keywords.PrefixSlice | text_utils.py:234 | `[:n]` keeps a prefix: `min(n, len)` entries for `n >= 0`, and `len + n` (at least 0) for negative `n` |
| Keywords.TopEntriesFacts | text_utils.py:228-234 | the kept entries have distinct words, each a candidate with its count. They are in rank order, and each ranks at least as high as every candidate left out |
| Keywords.TopKeepsOrder | text_utils.py:234 | the first entries of a ranked list with distinct words are ranked and have distinct words |
| Keywords.TopAreEntries | text_utils.py:228-234 | every kept entry is a candidate with its count |
| Keywords.RankedEntriesAreTable | text_utils.py:228-232 | every sorted entry is a candidate with its count |
| Keywords.TopBeatsOmitted | text_utils.py:234 | every kept entry ranks at least as high as every candidate left out |
| Keywords.PositionOf | text_utils.py:228-232 | every candidate appears in the sorted list with its count |
| Keywords.KeywordsFacts | text_utils.py:206-234 | the promises of `extract_keywords` for the words it returns |
| Keywords.NamesAreCandidates | text_utils.py:219-234 | the words of entries drawn from the candidates are lower-case words of the text, not stop words and longer than 3 characters |
| Keywords.ExtractKeywords | text_utils.py:206-234 | empty text gives `[]`. Otherwise the result is the sorted, truncated frequency table's words: at most `max_keywords` when that is non-negative, and distinct. Each one is a lower-case word of the text, not a stop word and longer than 3 characters. They are in non-increasing (frequency, length) order, and each ranks at least as high as every candidate left out |
| Keywords.ExtractKeywordsDefault | text_utils.py:206 | `extract_keywords(text)` with the default `max_keywords=10`: at most 10 words, `[]` for empty text |
| LanguageDetection.MatchCount | text_utils.py:186-194 | the `\b(...)\b` match count is the number of positions whose word is in the language's list; hence at most the number of words, zero exactly when no word is in the list, and all words exactly when every word is |
| LanguageDetection.MatchCountStep | text_utils.py:194 | one more word adds one to the count exactly when it is in the list |
| LanguageDetection.Scores | text_utils.py:186-195 | one score per language of `language_patterns`, in insertion order, each that language's match count over the lower-cased text |
| LanguageDetection.FirstMaximumUnique | text_utils.py:199 | the first greatest count is unique, so `max` is well defined |
| LanguageDetection.FirstMaximumStep | text_utils.py:199 | one step of `max`: only a strictly greater count replaces the current best |
| LanguageDetection.CodesDistinct | text_utils.py:186-190 | the three language codes are distinct dictionary keys |
| LanguageDetection.CountMatches | text_utils.py:192-195 | the filled `detected_languages` maps each language code to its match count over the words |
| LanguageDetection.DetectLanguage | text_utils.py:179-200 | empty text gives `'unknown'`. Otherwise the result is the code of a language whose count is at least every other count, and strictly greater than the counts of the languages before it (en, es, fr) |
| Validation.ValidateTextLength | text_utils.py:113-115 | true exactly when the text has at most 5000 characters |
| Validation.CleanedStaysValid | text_utils.py:12-28 | a text that passes the length gate still passes it after cleaning |
| Structure.LineEnd | text_utils.py:128 | the first newline, or the end of the text |
| Structure.LineEndFrom | text_utils.py:128 | the first newline at or after a position, or the end of the text |
| Structure.LineEndFromNoNewline | text_utils.py:128 | no newline lies between the position and the line end |
| Structure.LineEndFromAt | text_utils.py:128 | the line end is the first newline |
| Structure.LineEndNoNewline | text_utils.py:128 | the text before the first newline holds no newline |
| Structure.LineEndOfLine | text_utils.py:128 | for a line followed by a newline, the first newline comes right after the line |
| Structure.LineHeading | text_utils.py:128 | the first line yields at most one heading, one exactly when it is a capital followed by at least one more character; that heading is the first line itself, with its newline when it has one |
| Structure.Headings | text_utils.py:128-129 | every heading starts with an ASCII capital and has at least 2 characters. It holds no newline except a final one. A heading without a final newline ends the text. With `HeadingsOfLine` and `HeadingsOfLastLine` this fixes the list line by line |
| Structure.SuffixOfSuffix | text_utils.py:128 | a suffix of a suffix is a suffix |
| Structure.SuffixHeadingForm | text_utils.py:128 | heading forms found in later lines hold for the whole text |
| Structure.HeadingsOfLine | text_utils.py:128-129 | a text's headings are its first line with its newline, if that line is a heading line, followed by the headings of the rest |
| Structure.LineEndOfLast | text_utils.py:128 | a text with no newline is a single line |
| Structure.HeadingsOfLastLine | text_utils.py:128-129 | the last line, with no newline after it, is a heading as it stands exactly when it is a heading line (the `$` alternative) |
| Structure.BulletAt | text_utils.py:132 | a bullet match at a line start captures non-empty text without a newline, and the search resumes strictly later |
| Structure.ContentAt | text_utils.py:132 | `\s*([^\n]+)` after the bullet. When non-whitespace follows, the capture is the rest of that line (`RestOfLine`). When only whitespace follows up to the end of the text, the capture is the last character of it that is not a newline, with only newlines after it. There is no match exactly when only newlines follow |
| Structure.RestOfLine | text_utils.py:132 | `[^\n]+` at a non-newline character captures the whole rest of the line: the text is the capture alone, or the capture, a newline and what the search goes on with |
| Structure.LastNotNewline | text_utils.py:132 | the last character that is not a newline, where the backtracking `\s*` stops: everything after it is a newline |
| Structure.ResumeAt | text_utils.py:132-133 | after a match the search goes on with the text after the line the capture ends on; after a failure, with the text after the current line, or nothing when it is the last line |
| Structure.BulletPoints | text_utils.py:132-133 | every bullet point is non-empty and lies within one line. The per-line lemmas `BulletPointsOf...` fix the list |
| Structure.TrimLeftConcat | text_utils.py:132 | a leading `\s*` stops inside the first part when that part has non-whitespace |
| Structure.TrimLeftOfLine | text_utils.py:132 | the same, for a line followed by a newline |
| Structure.TrimLeftNoNewline | text_utils.py:132 | the rest of a line after its leading whitespace holds no newline |
| Structure.TailNoNewline | text_utils.py:132 | the rest of a line after its first character holds no newline |
| Structure.RestOfLineOfLine | text_utils.py:132 | `[^\n]+` captures exactly the rest of the line and resumes on the next line |
| Structure.ContentAtOfLine | text_utils.py:132 | after the bullet, the text of the same line, past its leading whitespace, is captured |
| Structure.BulletAtOfBulletLine | text_utils.py:132 | a line `  - text` matches with capture `text`, and the search resumes on the next line |
| Structure.BulletPointsOfBulletLine | text_utils.py:132-133 | such a line contributes exactly its text, followed by the bullet points of the following lines |
| Structure.BulletPointsOfPlainLine | text_utils.py:132-133 | a line whose first non-whitespace character is not a bullet contributes nothing; the result is that of the lines after it |
| Structure.BulletPointsOfLastPlainLine | text_utils.py:132-133 | such a line, last and without a newline, gives no bullet points |
| Structure.BulletPointsOfLastBulletLine | text_utils.py:132-133 | a bullet line that is last and has no newline contributes exactly its text after the bullet and the whitespace |
| Structure.RestOfLastLine | text_utils.py:132 | on the last line, `[^\n]+` captures the whole line |
| Structure.BulletPointsOfBlankLine | text_utils.py:132-133 | a blank line contributes nothing of its own: a match may start there, but it captures what the next line alone would, so the result is that of the lines after it |
| Structure.BulletPointsOfBlank | text_utils.py:132-133 | a text of whitespace only has no bullet points |
| Structure.BulletAtOfMarkerLine | text_utils.py:132 | a bullet with only whitespace after it on its line captures the first line of the next text that is not blank |
| Structure.BulletPointsOfMarkerLine | text_utils.py:132-133 | such a bullet contributes that next non-blank line, and the search goes on after it |
| Structure.BulletPointsOfTrailingMarker | text_utils.py:132-133 | when only whitespace follows the bullet up to the end of the text, the one bullet point is the last whitespace character that is not a newline, or there is none when only newlines follow |
| Structure.TrailingSpace | text_utils.py:132-133 | with some whitespace other than newlines after the bullet, the capture is the last such character and nothing follows |
| Structure.TrailingNewlines | text_utils.py:132-133 | with only newlines after the bullet, no line start matches |
| Structure.BulletPointsStep | text_utils.py:133 | `findall` is the match tried at the start, if any, followed by the matches from where the search resumes |
| Structure.TrailOfMarker | text_utils.py:132 | past a newline after the bullet, such a text holds only whitespace |
| Structure.MarkerTail | text_utils.py:132 | the `\s*` after a bullet with a blank rest of line runs on into the next line |
| Structure.TrimLeftOfSpaces | text_utils.py:132 | a leading `\s*` skips a whitespace prefix |
| Structure.BlankIsSpace | text_utils.py:132 | stripping leaves nothing exactly from whitespace |
| Structure.TrimLeftOfSuffix | text_utils.py:132 | a match tried inside the leading whitespace reaches the same first non-whitespace character |
| Structure.RunEnd | text_utils.py:136 | the end of the whitespace run at `i` |
| Structure.LastNewline | text_utils.py:136 | the last newline, where the backtracking `\s*` of the separator gives way to `\n`: no newline after it |
| Structure.NextSeparator | text_utils.py:136 | the first place where `\n\s*\n` matches, or the end of the text; no match starts before it |
| Structure.SeparatorEnd | text_utils.py:136 | the separator spans at least two characters, ends with a newline and is all whitespace |
| Structure.SplitParagraphs | text_utils.py:136 | `re.split` returns at least one piece, and the first piece is a prefix of the text |
| Structure.SplitParagraphsRebuild | text_utils.py:136 | the text is the pieces joined by the breaks that were cut out, each a full match of `\n\s*\n` |
| Structure.SplitParagraphsShape | text_utils.py:136 | no piece holds a break; the whitespace next to a break holds no newline; a piece between two breaks is not blank. So the cuts are the leftmost, longest matches |
| Structure.SeparatorFrom | text_utils.py:136 | two newlines with only whitespace between them start a separator at the first |
| Structure.NotSeparator | text_utils.py:136 | where no separator starts, two newlines have something other than whitespace between them |
| Structure.HeadNoSeparator | text_utils.py:136 | the text before the first separator holds none |
| Structure.HeadTrailingSpace | text_utils.py:136 | the whitespace ending the first piece holds no newline |
| Structure.NoNewlineFrom | text_utils.py:136 | a tail with no newline character holds no newline |
| Structure.SpaceBeforeHead | text_utils.py:136 | a newline in that trailing whitespace would start an earlier separator |
| Structure.AfterBreak | text_utils.py:136 | the whitespace after a break holds no newline |
| Structure.StartAfterBreak | text_utils.py:136 | the piece after a break starts with whitespace that holds no newline |
| Structure.NoNewlinePrefix | text_utils.py:136 | the first `n` characters hold no newline when none of them is one |
| Structure.NoNewlineAtStartPrefix | text_utils.py:136 | a prefix of a text whose leading whitespace holds no newline has the same property |
| Structure.FirstAfterBreak | text_utils.py:136 | the first piece after a break starts with whitespace holding no newline, and is not blank when another break follows |
| Structure.NextNotBlank | text_utils.py:136 | a piece between two breaks is not blank |
| Structure.BreakAt | text_utils.py:136 | the text a separator match spans is a break, and cutting it out leaves the text on either side |
| Structure.ParagraphPiecesCons | text_utils.py:136 | the first piece and the rest of the split keep the shape together |
| Structure.ShapeStep | text_utils.py:136 | one step of the split keeps the shape |
| Structure.StripAndDropEmpty | text_utils.py:137 | every kept paragraph is non-empty with no whitespace at either end |
| Structure.StripAndDropEmptyOne | text_utils.py:137 | one piece is kept, stripped, exactly when it is not blank |
| Structure.StripAndDropEmptyConcat | text_utils.py:137 | the pieces are handled one by one, in order |
| Structure.StripAndDropEmptyKeepsText | text_utils.py:137 | stripping the pieces and dropping the blank ones loses no character other than whitespace |
| Structure.SplitParagraphsKeepsText | text_utils.py:136 | the pieces of the split together hold every non-whitespace character of the text, in order |
| Structure.SeparatorIsSpace | text_utils.py:136 | cutting out a whitespace separator loses no character other than whitespace |
| Structure.NonSpaceSkipSpaces | text_utils.py:136 | skipping a whitespace run loses no character other than whitespace |
| Structure.Paragraphs | text_utils.py:136-137 | every paragraph is non-empty and stripped, and together they hold every non-whitespace character of the text, in order: only whitespace is lost |
| Structure.ExtractStructure | text_utils.py:118-144 | each heading has the heading form. Each paragraph is non-empty and stripped. Each bullet point is non-empty and on one line |
| Structure.HeadingParagraphOverlap | text_utils.py:170 | a paragraph equal to a heading can only be a heading on the text's last line with no newline after it |
| Structure.ItemLines | text_utils.py:156-157 | the item lines are empty exactly when there are no items, and otherwise open with the item prefix |
| Structure.Section | text_utils.py:154-165 | a section is present exactly when it has items, and then opens with its title |
| Structure.ContentLines | text_utils.py:168-171 | the content lines are empty exactly when every paragraph is also a heading |
| Structure.SummaryDraft | text_utils.py:151-171 | the draft opens with "Main Topics:" when there are headings, else "Key Points:" when there are bullet points, else "Content:" |
| Structure.TitleOfSection | text_utils.py:155-162 | a section opening with its title line opens with its title |
| Structure.PrefixOfConcat | text_utils.py:173 | a prefix stays a prefix when text is appended |
| Structure.StripKeepsPrefix | text_utils.py:173 | `strip()` keeps a leading part that has no whitespace at its ends |
| Structure.AppendItemLine | text_utils.py:156-165 | one loop iteration appends one item line |
| Structure.AppendContentLine | text_utils.py:169-171 | one loop iteration appends a paragraph and a blank line exactly when the paragraph is not a heading |
| Structure.OpeningTitleLeads | text_utils.py:153-173 | after the final `strip()`, the summary still opens with the title of its first section |
| Structure.FormatStructure | text_utils.py:151-173 | the loops build the sections in order, then strip: the result is the stripped draft, with "Main Topics:" and one `- ` line per heading, "Key Points:" and one `• ` line per bullet, and "Content:" with each paragraph that is not a heading. It starts with the first section present |
| Structure.FormatForSummary | text_utils.py:147-173 | `format_for_summary` lays out the extracted structure as `FormatStructure` does, opening with the first section present |

## Left out

- The document readers are left out: PDF, Word and image OCR (text_utils.py:75-110). They are calls into PyPDF2, python-docx, PIL and pytesseract.
- The web front end, the chat-model calls and the speech synthesis are left out (app.py, tts_utils.py, GoogleCloud_TTs.py). They are network and user-interface code.
- The `except` fallbacks (text_utils.py:29-31, 70-72, 139-142, 174-176, 201-203, 235-237) are left out. The hand-written matching cannot raise, so every operation is total.
- The non-`str` guard of `clean_text` (text_utils.py:14) is left out: a Dafny string is always a string. Its empty-input branch is modelled.
- Non-ASCII case mapping in `lower()` (text_utils.py:194, 219) is not modelled. `TextBasics.Lower` changes only `A`-`Z`.
- `\w` above ASCII is a parameter, not Unicode's categories.
- `LanguageDetection.MatchCount` counts the maximal word runs that equal a listed word. The `\b` reasoning that justifies this reading is not proved.
- `LanguageDetection.DetectLanguage`: the `'unknown'` return on line 200 is unreachable, because the dictionary always has three entries. The model has no such branch.
- The dictionaries `keyword_freq` and `detected_languages` are a `map` plus an insertion-order sequence. Hashing and resizing are not modelled.
- The configuration's environment handling, directory creation and floating-point temperatures (config.py) are left out. Only the two size constants are kept.
- The stop-word set (text_utils.py:213-216) and the language word lists (text_utils.py:186-190) are the constants `Keywords.StopWords` and `LanguageDetection.Languages`. They have no row of their own because they are constants, not operations.
- SplitSentences: its own contract ties only the first piece to the text. Where the text is cut is stated by `SplitSentencesRebuild` and `SplitSentencesShape`.
- Words: its own contract gives only the shape of the words. That each word is a maximal run is stated by `WordsRebuild`.
- SplitParagraphs: its own contract ties only the first piece to the text. Where the text is cut is stated by `SplitParagraphsRebuild` and `SplitParagraphsShape`.
- StripAndDropEmpty: its own contract gives only the shape of the kept paragraphs. Which paragraphs are kept, and in what order, is stated by `StripAndDropEmptyOne` and `StripAndDropEmptyConcat`.
- PackStep: its own contract gives only where the sentence goes. The full effect of a step on the loop state is stated by `PackStepInvariant`.
- PackAll: its own contract gives only when the current group is empty. The full loop state is stated by `PackAllInvariant`.
- `Structure.ExtractStructure`: its contract states shape facts only. The lists are `Headings`, `BulletPoints` and `Paragraphs`. Per-line lemmas cover each kind of line: headings on terminated lines and on the last line; bullet lines, lines that are not bullets, blank lines and bullets with only whitespace after them, both followed by more text and at the end of the text.
- `Structure.FormatForSummary`: Python's `f"..."` formatting is modelled as plain concatenation, which is what it does for strings.
