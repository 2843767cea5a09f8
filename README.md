# AJT Japanese: furigana notation, reading adjustment and the pitch-accent database

This project models three pieces of the AJT Japanese add-on in Dafny and
proves properties of them.

- **Furigana notation** (`helpers/mingle_readings.py`). A word is written as
  `head[reading]suffix`, for example `辛[から]い`, and several such groups can
  follow each other (`南[みなみ]千[ち]秋[あき]`).
  - `find_head_reading_suffix` locates the first group.
  - `iter_split_parts` and `decompose_word` split a notation into its head,
    reading and suffix.
  - `tie_inside_furigana` and `whitespace_split` cut a phrase into tokens,
    leaving spaces inside brackets alone.
  - `strip_non_jp_furigana` removes bracket groups that hold no kana.
  - `word_reading` turns a phrase into its written word and its reading.
  - `mingle_readings` merges several notations of one phrase into one, with
    the different readings of each token joined by a separator.
- **Reading adjustment** (`helpers/common_kana.py`). `adjust_reading` carries
  the inflected ending of a word over to the reading of its dictionary form.
  The katakana normaliser the source imports is a function parameter.
- **The accent database** (`database.py`).
  - `make_accent_entry` reads one corpus line into the 19-field
    `AccentEntry`. First it escapes commas inside `{..,..}` and `(..,..)`
    groups.
  - `format_nasal_or_devoiced_positions` decodes the corpus's position codes.
  - `format_entry` renders a katakana reading as pitch-accent html.
  - `build_database` and `read_derivative` build the derivative
    tab-separated file and read it back into a dict of lists. Both are
    modelled in memory.

Modules:
- `Text`: the Python string built-ins the core uses, with their edge cases written out.
- `Furigana`: parsing a notation.
- `Brackets`: the two regular expressions, as scanners.
- `Mingle`: `word_reading`, `pairs` and `mingle_readings`.
- `MingleExamples`: the examples from the module's own `main`, proved in general form.
- `CommonKana`: `adjust_reading`.
- `Positions`: position codes.
- `Accent`: the record and its parser.
- `PitchHtml`: `format_entry`.
- `AccentDatabase`: the two dictionary builders.

Where the source loops, the model is a method with a loop. Each such method is
proved equal to a specification function, and the properties are proved
about that function. A Python exception (`IndexError`, `ValueError`, or the
`TypeError` of a record built from the wrong number of fields) is modelled
as `None`.

Three behaviours of the code worth knowing:
- `adjust_reading("言い方", "言い方", "いいかた")` returns `"いいかた"`
  under a normaliser that leaves kanji unchanged, as
  `CommonKana.SampleKatakana` does, because the second guard fires
  (`CommonKana.AdjustExampleIikata`).
- A `NoFurigana` part has head and reading both equal to its text
  (`Furigana.Part.Head`/`Reading`); they are not empty.
- `mingle_readings` never compares the heads of the notations it merges. It
  uses the first notation's head and suffix for every column.

## Model

| member | source | states |
|---|---|---|
| Text.SplitOn | database.py:36 | `str.split(c)` gives at least one piece, no piece holds `c`, and joining the pieces with `c` gives the input back |
| Text.SplitOnCount | database.py:36 | the number of pieces is one more than the number of occurrences of the separator |
| Text.SplitOnOfJoin | database.py:124 | splitting a join of separator-free pieces gives those pieces back |
| Text.SplitOnAround | database.py:33-36 | splitting `a + e + b` with a separator-free `e` glues `e` between the last piece of `a` and the first piece of `b` |
| Text.SplitWhitespace | helpers/mingle_readings.py:90 | `str.split()` gives non-empty, whitespace-free tokens whose concatenation is the input with its whitespace removed |
| Text.SplitWhitespaceOfJoin | helpers/mingle_readings.py:90 | splitting a single-space join of non-empty, whitespace-free tokens gives the tokens back |
| Text.TrimStart | database.py:29 | the result is a suffix of the input that starts with a non-space, and everything removed is whitespace |
| Text.TrimEnd | database.py:29 | the result is a prefix of the input that ends with a non-space, and everything removed is whitespace |
| Text.ReplaceAllFirst | database.py:34 | `str.replace` rewrites the first occurrence of the pattern and continues right after it |
| Text.ReplaceAllNone | database.py:34 | `str.replace` leaves a string that has no occurrence of the pattern unchanged |
| Text.DedupSpec | helpers/mingle_readings.py:128 | `dict.fromkeys` keeps each value once, keeps exactly the input's members, and orders them by first occurrence |
| Text.IndexOf | helpers/mingle_readings.py:42-48 | the first index of a character, or -1 exactly when it is absent |
| Text.LastIndexOf | helpers/mingle_readings.py:43-45 | the last index of a character, or -1 exactly when it is absent |
| Furigana.HeadReadingSuffix | helpers/mingle_readings.py:37-52 | `NoFurigana` keeps the text; a split reassembles as `head[reading]suffix` to the text, with a non-empty head free of `]` and a bracket-free reading |
| Furigana.FindHeadReadingSuffix | helpers/mingle_readings.py:42-52 | the scanning loop computes `HeadReadingSuffix` |
| Furigana.HeadReadingSuffixAt | helpers/mingle_readings.py:49-52 | helper of `FindHeadReadingSuffix`: unfolds `HeadReadingSuffix` at the two bracket positions the scan finds |
| Furigana.NoFuriganaIffMalformed | helpers/mingle_readings.py:49-52 | the result is `NoFurigana` exactly when there is no `]`, no `[`, the first `]` precedes the first `[`, or the only `[` before it is the first character |
| Furigana.ParseAnnotated | helpers/mingle_readings.py:37-52 | a notation `h[r]s` with a non-empty, `]`-free `h` and a bracket-free `r` splits into exactly `(h, r, s)` |
| Furigana.SplitParts | helpers/mingle_readings.py:55-60 | the parts are empty exactly for empty text, every part but the last is a split, and the parts' sources concatenate to the text |
| Furigana.IterSplitParts | helpers/mingle_readings.py:55-60 | the generator loop yields `SplitParts(text)` |
| Furigana.SplitPartsStep | helpers/mingle_readings.py:56-60 | a `NoFurigana` part ends the parts; a split part is followed by the parts of its strictly shorter suffix |
| Furigana.DecomposeWord | helpers/mingle_readings.py:63-76 | the loop over the parts computes `Decompose(text)` |
| Furigana.GatherParts | helpers/mingle_readings.py:69-76 | the writer loop gathers heads and readings of the split parts and a trailing `NoFurigana` as the suffix |
| Furigana.GatherCons | helpers/mingle_readings.py:70-75 | a leading split part prefixes its head and reading to those gathered from the rest, and the suffix comes from the rest |
| Furigana.DecomposeAnnotated | helpers/mingle_readings.py:63-76 | a run of well-formed groups followed by a `]`-free tail decomposes into the concatenated heads, the concatenated readings and the tail |
| Furigana.DecomposeMalformed | helpers/mingle_readings.py:70-75 | a non-empty text that `find_head_reading_suffix` returns as `NoFurigana` decomposes into head and reading both equal to the text and an empty suffix |
| Furigana.DecomposeOne | helpers/mingle_readings.py:63-76 | `h[r]tail` with one well-formed group and a `]`-free tail decomposes into `(h, r, tail)` |
| Furigana.DecomposeExampleKarai | helpers/mingle_readings.py:66 | `辛[から]い` decomposes into `(辛, から, い)` |
| Furigana.DecomposeExampleKokyou | helpers/mingle_readings.py:142 | `故郷[こきょう]` decomposes into `(故郷, こきょう, "")` |
| Furigana.DecomposeExampleAri | helpers/mingle_readings.py:143 | `有[あ]り` decomposes into `(有, あ, り)` |
| Furigana.DecomposeExampleHiragana | helpers/mingle_readings.py:144 | `ひらがな` decomposes into `(ひらがな, ひらがな, "")` |
| Furigana.DecomposeExampleMinami | helpers/mingle_readings.py:145 | `南[みなみ]千[ち]秋[あき]` decomposes into `(南千秋, みなみちあき, "")` |
| Brackets.GroupEnd | helpers/mingle_readings.py:83 | a match of `\[[^\[\]]+?]` at the front ends at the group's closing bracket, and at no other place |
| Brackets.TiePointwise | helpers/mingle_readings.py:79-83 | `tie_inside_furigana` keeps the length and replaces exactly the spaces inside a bracket group by `・` |
| Brackets.TieRender | helpers/mingle_readings.py:79-83 | on a phrase of plain runs and bracket groups, only the spaces inside the groups' contents are replaced |
| Brackets.TiePlain | helpers/mingle_readings.py:83 | text with no `[` is passed through unchanged and the scan continues after it |
| Brackets.TieGroup | helpers/mingle_readings.py:80-83 | a bracket group at the front is replaced by the group with its spaces tied |
| Brackets.TieOfPlain | helpers/mingle_readings.py:83 | text with no `[` is unchanged |
| Brackets.TieWhitespace | helpers/mingle_readings.py:86-90 | a character of the tied text is whitespace exactly when it was whitespace and not a space inside a group |
| Brackets.WhitespaceSplit | helpers/mingle_readings.py:86-90 | every token is non-empty and whitespace-free |
| Brackets.WhitespaceSplitPhrase | helpers/mingle_readings.py:79-90 | a phrase whose tied text reads as an optional leading space plus tokens joined by single spaces splits into exactly those tokens; its groups may hold spaces |
| Brackets.WhitespaceSplitSpaceless | helpers/mingle_readings.py:86-90 | a phrase whose groups hold no spaces and which reads as an optional leading space plus tokens joined by single spaces splits into exactly those tokens |
| Brackets.WhitespaceSplitSpacedGroup | helpers/mingle_readings.py:79-90 | ` p h[r1 r2]` splits into `p` and `h[r1・r2]`: the space between two readings is tied, and the space before the head separates tokens |
| Brackets.WhitespaceSplitSpacedExample | helpers/mingle_readings.py:79-90 | ` お 前[まい まえ]` splits into `お` and `前[まい・まえ]` |
| Brackets.WhitespaceSplitExample | helpers/mingle_readings.py:138 | ` 有[あ]り 得[う]る` splits into `有[あ]り` and `得[う]る` |
| Brackets.StripRender | helpers/mingle_readings.py:32-34 | corrected form: stripping removes exactly the bracket groups that hold no kana and keeps everything else |
| Brackets.StripKanaFreeGroup | helpers/mingle_readings.py:34 | corrected form: a kana-free group at the front is dropped |
| Brackets.StripKanaGroup | helpers/mingle_readings.py:34 | corrected form: a group with kana at the front is kept |
| Brackets.StripExample | helpers/mingle_readings.py:140 | corrected form: `悪[わる][1223]い[2]` strips to `悪[わる]い` |
| Brackets.RegexEnd | helpers/mingle_readings.py:34 | as written: a match at the front runs from `[` to the last `]` before the first kana, and only kana-free text lies between |
| Brackets.RegexPlain | helpers/mingle_readings.py:34 | as written: text with no `[` is kept and the scan continues after it |
| Brackets.RegexKanaAfterOpen | helpers/mingle_readings.py:34 | as written: a `[` followed by kana starts no match and is kept |
| Brackets.RegexEndWithoutKana | helpers/mingle_readings.py:34 | as written: with no kana after `[`, the match runs to the last `]` of the text |
| Brackets.StripRegexExample | helpers/mingle_readings.py:140 | as written: `悪[わる][1223]い[2]` strips to `悪[わる]い` |
| Brackets.StripRegexSwallowsKanji | helpers/mingle_readings.py:34 | as written, `東京[1]大阪[2]` strips to `東京`; the corrected form gives `東京大阪` |
| Brackets.StripRegexKanjiAsWritten | helpers/mingle_readings.py:34 | as written, the kanji between two kana-free groups are removed with them |
| Brackets.StripKanjiIntended | helpers/mingle_readings.py:34 | corrected form: `東京[1]大阪[2]` strips to `東京大阪` |
| Mingle.WordReadingOf | helpers/mingle_readings.py:93-102 | with W the tokens' head+suffix and R their reading+suffix, both concatenated: the result is `WordReading(W, R)` when R is non-empty and differs from W, and `WordReading(text, "")` otherwise; a non-empty reading never equals the word |
| Mingle.ComputeWordReading | helpers/mingle_readings.py:93-102 | the method computes `WordReadingOf(text)` |
| Mingle.ReadTokens | helpers/mingle_readings.py:97-101 | the loop collects head+suffix and reading+suffix of every token, in token order |
| Mingle.WordReadingPlain | helpers/mingle_readings.py:102 | a text without brackets gives `WordReading(text, "")` |
| Mingle.Pairs | helpers/mingle_readings.py:105-106 | `pairs` yields one pair fewer than there are elements, each made of neighbouring elements |
| Mingle.MismatchedIff | helpers/mingle_readings.py:122 | the mismatch test is false exactly when every notation has as many tokens as the first |
| Mingle.MingleReadings | helpers/mingle_readings.py:109-130 | the method computes `Mingled(words, sep)` |
| Mingle.PackColumns | helpers/mingle_readings.py:126-129 | the loop builds one pack per token column, in column order |
| Mingle.MingledAligned | helpers/mingle_readings.py:120-130 | helper of `MismatchedIff`: unfolds `Mingled` to the column packs when the token counts agree |
| Mingle.MingleCountMismatch | helpers/mingle_readings.py:122-124 | when any two notations have different token counts, the output is the first notation unchanged |
| Mingle.PackOfOneReading | helpers/mingle_readings.py:127-129 | a column whose readings all agree packs to its first token's own notation, with a single reading |
| Mingle.MingleAgreeing | helpers/mingle_readings.py:120-130 | when every column's readings agree, the output is the first notation re-packed token by token |
| Mingle.PacksAgreeing | helpers/mingle_readings.py:126-129 | when every column's readings agree, the packs are the single-reading packs of the first notation's tokens |
| MingleExamples.MingleOneColumn | helpers/mingle_readings.py:120-130 | two one-token notations give the pack of that one column |
| MingleExamples.MingleTwoColumns | helpers/mingle_readings.py:120-130 | two two-token notations give the two column packs concatenated |
| MingleExamples.PackTwoReadings | helpers/mingle_readings.py:127-129 | a two-entry column with different readings packs both readings, in order, joined by the separator |
| MingleExamples.PackSameReading | helpers/mingle_readings.py:127-129 | a two-entry column with equal readings packs that reading once |
| MingleExamples.MingleTwoReadings | helpers/mingle_readings.py:120-130 | one-token notations with different readings mingle to the first head with both readings |
| MingleExamples.MingleSharedThenTwo | helpers/mingle_readings.py:120-130 | a shared first token and a differing second token give the first token alone, then the merged second |
| MingleExamples.MingleOneGroupTwoReadings | helpers/mingle_readings.py:160 | ` h[r1]` and ` h[r2]` mingle to ` h[r1<sep>r2]` |
| MingleExamples.MingleExampleKokyou | helpers/mingle_readings.py:160 | ` 故郷[こきょう]` and ` 故郷[ふるさと]` mingle to ` 故郷[こきょう, ふるさと]` |
| MingleExamples.MinglePlainThenTwoReadings | helpers/mingle_readings.py:161 | `p h[r1]` and `p h[r2]` mingle to `p h[r1<sep>r2]` |
| MingleExamples.MingleExampleOmae | helpers/mingle_readings.py:161 | `お 前[まえ]` and `お 前[めえ]` mingle to `お 前[まえ, めえ]` |
| MingleExamples.MingleExampleMismatch | helpers/mingle_readings.py:162 | ` 言[い]い 分[ぶん]` and ` 言い分[いーぶん]` have different token counts, so the first is returned |
| MingleExamples.SplitLeadingGroup | helpers/mingle_readings.py:90 | ` h[r]` splits into the one token `h[r]` |
| MingleExamples.SplitPlainThenGroup | helpers/mingle_readings.py:90 | `p h[r]` splits into `p` and `h[r]` |
| MingleExamples.SplitTwoGroups | helpers/mingle_readings.py:90 | ` h1[r1]s1 h2[r2]` splits into `h1[r1]s1` and `h2[r2]` |
| MingleExamples.WordReadingExampleAru | helpers/mingle_readings.py:148 | `有る` gives `WordReading("有る", "")` |
| MingleExamples.SplitTwoAnnotated | helpers/mingle_readings.py:90 | `h1[r1]s1 h2[r2]s2`, with or without a leading space, splits into `h1[r1]s1` and `h2[r2]s2` |
| MingleExamples.NotationOfPair | helpers/mingle_readings.py:96-101 | a notation of two tokens spells the word and the reading of the first token followed by those of the second |
| MingleExamples.AnnotatedTokenOf | helpers/mingle_readings.py:49-52 | the token `h[r]s` has the word `h s` and the reading `r s` |
| MingleExamples.WordReadingTwoAnnotated | helpers/mingle_readings.py:93-102 | `h1[r1]s1 h2[r2]s2` spells the word `h1 s1 h2 s2` and the reading `r1 s1 r2 s2`, and gives that pair when the two differ |
| MingleExamples.WordReadingPlainThenAnnotated | helpers/mingle_readings.py:93-102 | `p h[r]` spells the word `p h` and the reading `p r`, and gives that pair when `h` and `r` differ |
| MingleExamples.WordReadingExampleAriuru | helpers/mingle_readings.py:147 | `有[あ]り 得[う]る` gives `WordReading("有り得る", "ありうる")` |
| MingleExamples.WordReadingExampleOmae | helpers/mingle_readings.py:149 | `お 前[まい<br>まえ<br>めえ]` gives `WordReading("お前", "おまい<br>まえ<br>めえ")` |
| CommonKana.AdjustReading | helpers/common_kana.py:10-19 | the method, with its two guards, cursor loop and slices, computes `Adjust` |
| CommonKana.RoundsStop | helpers/common_kana.py:16-18 | the loop stops after exactly `m` rounds when every earlier test matches and test `m` fails |
| CommonKana.AdjustSameReading | helpers/common_kana.py:11-12 | a headword that normalises like its reading returns the raw word |
| CommonKana.AdjustRawIsHeadword | helpers/common_kana.py:13-14 | otherwise, a raw word that normalises like the headword returns the reading |
| CommonKana.AdjustStrips | helpers/common_kana.py:15-19 | when the last `n` characters match pairwise and the next pair does not, the result is the reading without its last `n` characters followed by the raw word from the headword's cut onwards |
| CommonKana.AdjustZeroSteps | helpers/common_kana.py:16-19 | when the last characters differ, the whole reading is followed by the raw word past the headword's length |
| CommonKana.AdjustSplices | helpers/common_kana.py:19 | every result is a prefix of the reading followed by a suffix of the raw word |
| CommonKana.AdjustEmptyHeadword | helpers/common_kana.py:16 | an empty headword that passes neither guard raises `IndexError` |
| CommonKana.AdjustExampleHizamazuku | helpers/common_kana.py:23 | `跪いた`, `跪く`, `ひざまずく` gives `ひざまずいた` |
| CommonKana.AdjustExampleIikata | helpers/common_kana.py:26 | `言い方`, `言い方`, `いいかた` gives `いいかた` |
| CommonKana.AdjustExampleTabeta | helpers/common_kana.py:29 | `たべた`, `たべる`, `たべる` gives `たべた` under every normaliser, through the first guard |
| CommonKana.AdjustExampleShinu | helpers/common_kana.py:28 | `死ん`, `死ぬ`, `しぬ` gives `しん` |
| CommonKana.AdjustExampleKatakana | helpers/common_kana.py:30 | `カタカナ`, `カタカナ`, `かたかな` gives `カタカナ` |
| Positions.DecodePositions | database.py:39-47 | every decoded position is at least 1, and the empty code decodes to no positions |
| Positions.PiecesPositive | database.py:47 | pieces between `0` digits that convert are at least 1 |
| Positions.ParseEmpty | database.py:47 | the single empty piece gives no positions |
| Positions.Decimal | database.py:47 | the decimal spelling of a positive number is non-empty, all digits, and `int()` of it is the number |
| Positions.ParseDecimals | database.py:47 | converting the decimal spellings of zero-free numbers gives those numbers back |
| Positions.EncodeEnd | database.py:41 | a code written for zero-free positions never ends in `10` |
| Positions.DecodeEncode | database.py:39-47 | decoding the `0`-separated code of zero-free positions gives the positions back |
| Positions.DecodeEncodeTen | database.py:41-47 | a trailing `10` decodes to position 10, which comes first |
| Positions.DecodeExampleTwo | database.py:47 | `304` decodes to positions 3 and 4 |
| Positions.DecodeExampleTen | database.py:41-47 | `210` decodes to positions 10 and 2 |
| Accent.Fields | database.py:17-25 | an entry has 19 fields, in column order |
| Accent.EntryOf | database.py:17-25 | an entry built from 19 values has exactly those fields |
| Accent.EntryOfFields | database.py:17-25 | rebuilding an entry from its fields gives it back |
| Accent.Scan | database.py:32 | the lazy `.*?` before a character stops at its first occurrence, never across a line break |
| Accent.GroupMatch | database.py:32 | a match starts at the opener, ends at a closer, and holds a comma strictly inside; which comma and closer is stated by `Accent.GroupMatchIsLazy` |
| Accent.ScanFirst | database.py:32 | the lazy `.*?` before a character stops at the first occurrence when no line break comes first |
| Accent.GroupMatchIsLazy | database.py:32 | the match at an opener ends right after the first closer that follows the first comma after the opener, with no line break before it; there is a match exactly when such a comma and closer exist |
| Accent.FindAll | database.py:32 | `re.findall` finds only groups with a comma inside; that it misses none is stated by `Accent.FindAllSkip` and `Accent.FindAllNone` |
| Accent.FindAllSkip | database.py:32 | `re.findall` skips the indices where no match starts, returns the leftmost match first, and resumes at its end, so matches do not overlap |
| Accent.FindAllNone | database.py:32 | when no match starts at or after an index, `re.findall` finds nothing there |
| Accent.SubEntries | database.py:32 | the groups to escape are non-empty and each holds a comma |
| Accent.SubEntriesOfGroupLine | database.py:32 | in a line of plain text with one `(x,y)` or `{x,y}` group, the groups to escape are exactly that group |
| Accent.EscapedGroupLine | database.py:29-34 | stripping and escaping such a line replaces the group's comma by `;` and changes nothing else |
| Accent.ParseEntryWithGroup | database.py:28-36 | a line of 19 comma-separated fields, one of them a `(x,y)` or `{x,y}` group and the others plain, gives the entry of those 19 fields, with the group as one field whose comma is `;` |
| Accent.EscapeCommas | database.py:34 | `replace(',', ';')` keeps the length, leaves no comma, and changes commas only |
| Accent.MakeAccentEntry | database.py:28-36 | the method, with its replacement loop, computes `ParseEntry(line)` |
| Accent.ParseEntryFields | database.py:36 | a line gives an entry exactly when its escaped form has 18 commas, and the entry's fields are then its comma-separated pieces |
| Accent.EscapeOneGroup | database.py:33-36 | a group occurring once is replaced in place, and its escaped text lies inside a single field |
| PitchHtml.Zeros | database.py:55 | `"0" * n` is `n` zeros, or empty for negative `n` |
| PitchHtml.AccentPattern | database.py:55 | the padded pattern is as long as the longer of the kana and the accent |
| PitchHtml.AccentPatternPads | database.py:55 | the padded pattern ends with the accent and starts with zeros only |
| PitchHtml.HtmlAppend | database.py:63-93 | the html of a sequence of pieces is the concatenation of the pieces' html |
| PitchHtml.FormatEntry | database.py:50-93 | the method, with its loop over the morae, computes `FormatEntryOf(e)` |
| PitchHtml.EmitMora | database.py:67-87 | one loop round appends exactly the html of that round's pieces and sets the overline flag |
| PitchHtml.FlagAfterDigit | database.py:68-73 | the overline is open after a mora exactly when its digit is neither 0 nor 2 |
| PitchHtml.WellFormedSnoc | database.py:66-91 | one more piece keeps the markup well formed exactly when it is allowed, and changes the span depth by that piece's step |
| PitchHtml.WellFormedRound | database.py:66-87 | a round keeps the spans well nested, with an open span exactly when the flag says so |
| PitchHtml.WellFormedOverline | database.py:68-73 | opening or closing the overline keeps the spans well nested |
| PitchHtml.WellFormedEmit | database.py:75-87 | the mora, nasal mark and downstep keep the spans well nested |
| PitchHtml.RunWellFormed | database.py:66-87 | after any number of rounds the spans are well nested, and one is open exactly when the flag is set |
| PitchHtml.RunMarks | database.py:66-87 | the rounds emit each mora once, in order, marked devoiced, nasal and downstepped exactly as the positions and digits say, and under the overline exactly where its digit is not 0 |
| PitchHtml.MarksRound | database.py:66-87 | one round adds exactly one mora mark, with a downstep exactly for digit 2 and under the overline exactly for a nonzero digit |
| PitchHtml.PiecesProperties | database.py:50-93 | the finished markup is well formed with every span closed, and holds each mora once, in order, with its devoiced, nasal and downstep marks, and under the overline exactly where its digit is not 0 |
| PitchHtml.DepthCounts | database.py:69-91 | the span depth is the number of openings minus the closings and downsteps |
| PitchHtml.BalancedCounts | database.py:69-91 | in a balanced result the overline openings equal the closings plus the downsteps |
| PitchHtml.FormatEntryExampleHashi | database.py:50-93 | `ハシ` with accent `2` renders as `ハ<span class="overline">シ</span>&#42780;` |
| AccentDatabase.RegisterAllSpec | database.py:103-111 | the dict's keys are the registered keys in first-seen order, and each key's list holds its registered values once each, in first-seen order |
| AccentDatabase.RegisterAllLists | database.py:108-111 | each list has no duplicates, holds exactly the values registered under its key, and orders them by first registration |
| AccentDatabase.RegisterAllTwo | database.py:108-111 | one entry registers its value under the first key, then the second |
| AccentDatabase.Put | database.py:109-111 | one registration adds a new key at the end and appends a new value, and changes nothing else |
| AccentDatabase.PutBoth | database.py:108-111 | registering one value under both keys is two registrations in order |
| AccentDatabase.ParseLines | database.py:100-101 | parsing every line computes `EntriesOf(lines, ParseEntry)` |
| AccentDatabase.EntriesOfSticky | database.py:101 | a line that fails to parse makes the whole build fail |
| AccentDatabase.Tabulate | database.py:103-111 | the registration loop builds the dict of the entries' registrations, or fails when an entry does not render |
| AccentDatabase.RegistrationsSticky | database.py:103-105 | an entry that fails to render makes the whole build fail |
| AccentDatabase.RegistrationsSucceed | database.py:103-105 | the registrations succeed exactly when every entry renders |
| AccentDatabase.RegistrationsLayout | database.py:103-108 | entry `i` registers `(katakana reading, html)` under its NHK expression at place `2i` and under its kanji expression at place `2i+1` |
| AccentDatabase.WriteRows | database.py:113-116 | the write loop produces one row per key and list element, key by key in insertion order |
| AccentDatabase.BuildDatabase | database.py:96-116 | the whole build computes `BuildDatabaseOf(lines)` |
| AccentDatabase.ReadDerivative | database.py:119-130 | the reading loop computes `ReadDerivativeOf(lines)` |
| AccentDatabase.DerivativeSticky | database.py:124 | a line without exactly three fields makes the whole read fail |
| AccentDatabase.DerivativeSucceeds | database.py:124 | the read succeeds exactly when every line has three fields |
| AccentDatabase.DerivativeLayout | database.py:124-128 | line `i` registers its html under its word at place `2i` and under its kana at place `2i+1` |
| AccentDatabase.StripRow | database.py:116 | stripping a written row removes its line break, when the key and html have no outer whitespace |
| AccentDatabase.RowRoundTrip | database.py:116 | a row written by `build_database` is read back exactly by `read_derivative`'s split, when the fields hold no tabs and the key and html have no outer whitespace |

## Left out

- File I/O is not modelled: opening the corpus and derivative files, the pickle cache, `init`, the module's `test` and its `diff` subprocess. The corpus is a sequence of lines, and the derivative file is the string of its rows.
- `to_katakana` (the MeCab controller) is not part of this model. `adjust_reading` takes the normaliser as a parameter. `CommonKana.SampleKatakana` is a length-preserving stand-in used only by the example lemmas.
- Python's negative indexing in `adjust_reading` is modelled explicitly: indices wrap from the end, and running past the front raises `IndexError`.
- `int()` is modelled on ASCII digits only. Other Unicode decimal digits, signs, surrounding whitespace and underscores between digits, which Python's `int` also accepts, are not modelled: for example `int("1_2")` is 12 in Python, so the position list `1_20` decodes to `[12]` in Python and to `None` in `Positions.DecodePositions`.
- Python exceptions are modelled as `None`, with no distinction between `IndexError`, `ValueError` and `TypeError`.
- PitchHtml.PiecesProperties: span balance and the mora marks are proved on the sequence of html pieces. Counts of `<span` substrings in the final string are not proved.
- Accent.EscapeOneGroup: covers one group occurring once. `Accent.ParseEntryWithGroup` covers a whole line with one group among plain fields. A line with several groups, or in which one group's text occurs several times, is covered by `ParseEntry` only, with no separate lemma about its fields.
- The remaining `main` examples of `helpers/mingle_readings.py` are not restated as example lemmas: the three-notation 有り得る merge at lines 157-158, and the two longer `word_reading` sentences at lines 150-155. Notations of two tokens are covered in general by `MingleExamples.WordReadingTwoAnnotated` and `MingleExamples.WordReadingPlainThenAnnotated`; notations of more tokens only by `Mingle.WordReadingOf` itself.
- The `adjust_reading` prints at `helpers/common_kana.py` lines 24, 25 and 27 are not restated: their results depend on the real katakana normaliser.
- `AccentDatabase.Registrations`, `EntriesOf` and `DerivativeRegistrations` take the renderer and the line parser as parameters so that their lemmas hold for any parser. The database itself instantiates them with `PitchHtml.FormatEntryOf`, `Accent.ParseEntry` and `AccentDatabase.ParseRow`.
- The default `sep=", "` of `mingle_readings` is a parameter of `Mingle.Mingled`. The examples instantiate it with `", "`.
- The `assert len(words_furigana) > 1` of `mingle_readings` is modelled as the precondition `|words| >= 2`.

## Findings

| source | as written | input that shows it | evidently intended | confidence | as-written member | corrected member |
|---|---|---|---|---|---|---|
| helpers/mingle_readings.py:34 | the class `[^ぁ-ゖァ-ヺｧ-ﾝ]` also matches `]`, so a kana-free match runs greedily to the last `]` before the next kana and swallows the text between two groups | `東京[1]大阪[2]` strips to `東京` | remove each kana-free bracket group on its own, giving `東京大阪` | not executed | Brackets.StripRegexSwallowsKanji | Brackets.StripKanjiIntended |
