# Multilingual news word cloud: the text-processing core

The application searches a news feed for a query, keeps the headline of
each result and counts the words of all headlines to draw a word cloud.
It tokenizes each headline according to its detected language. This
project models the part of `app.py` that turns search terms into a query
and headlines into a word-frequency table:

- `build_query`: include terms are joined by spaces (AND mode) or by " OR "
  inside parentheses (OR mode). The mode is compared upper-cased. Each
  exclude term becomes `-term`, stripped of surrounding white space.
  Parts are joined by one space.
- `get_text_before_dash`: the headline up to its first `-`.
- `tokenize_korean`: the maximal runs of Hangul syllables (U+AC00 to
  U+D7A3) that are not Korean stop words.
- `tokenize_and_clean`: the language code picks one of four policies
  ("ko", "ja", "zh", anything else English). Every token is then
  lower-cased and stripped, and blank tokens are dropped.
- `run_pipeline` after the fetch: detect each headline's language
  ("en" when detection raises), tokenize, gather all tokens, and count
  them like `collections.Counter`. It also returns the number of headlines.
- The four stop-word sets, with their exact members.

Modules: `Wrappers` (Option), `Strings` (join, split, strip, lower/upper,
isalpha), `Stopwords`, `Query`, `Headline`, `Hangul` (the regex),
`Tokenize`, `Pipeline`. The Japanese analyser, the Chinese segmenter and
the English word tokenizer are function-valued fields of
`Tokenize.Tokenizers`. The language detector is a parameter
`string -> Option<string>`, where `None` stands for a detection
exception. `build_query`, the pipeline loop and the counting loop are
methods with loops, proved against specification functions.

Behaviour of the code that is proved as written:

- Language codes are compared exactly. "zh-cn" and "zh-tw", the codes a
  language detector reports for Chinese, therefore take the English policy
  (`Tokenize.QualifiedCodesTakeEnglish`). Only detected codes reach the
  policy choice: the form's "zh-CN" is passed to the fetch alone.
- The Chinese length test runs before stripping. A segment " a" passes it
  and yields the one-letter token "a" (`Tokenize.ChineseLengthBeforeStrip`).
  So "Chinese tokens are longer than one character" holds only for segments
  without surrounding white space (`Tokenize.ChineseBranch`).
- An empty exclude field, split on commas by the form, gives `[""]`. That
  list is truthy, so the query ends in a lone "-" (`Query.QueryExamples`).

## Model

| member | source | states |
|---|---|---|
| Query.BuildQuery | app.py:49-58 | the loop that builds the parts returns exactly the query layout `QueryString`: include part, one space, exclude part, with no space when a part is absent |
| Query.JoinParts | app.py:50-58 | joining the list of present parts with single spaces gives that layout for every combination of present and absent parts |
| Query.ModeIgnoresCase | app.py:52-54 | two modes equal after upper-casing give the same query |
| Query.UnknownModeDropsInclude | app.py:51-55 | a mode other than AND/OR (any case) gives the query built without include terms |
| Query.IncludeTermAtAnd | app.py:52-53 | in AND mode include term i appears unstripped at its offset in the space-join of the terms |
| Query.OrBlockAt | app.py:54-55 | in the OR block followed by any text, the text opens with "(" and term i follows it at its offset in the " OR "-join |
| Query.IncludeTermAtOr | app.py:54-55 | in OR mode the query opens with "(" and include term i follows at its offset in the " OR "-join |
| Query.ExcludeBlockAt | app.py:56-57 | in the joined exclude part after any prefix, term i appears as "-" plus the stripped term, followed by one space unless it is the last, and the last ends the text |
| Query.ExcludeTermAt | app.py:56-58 | in the query, exclude term i appears as "-" plus the stripped term after the include part and a space, with single spaces between terms and the last one ending the query |
| Query.QueryExamples | app.py:49-58 | "a b", "(a OR b)", "a -b -c", "" with no terms (None or empty), and "a -" for an exclude list holding one empty term |
| Headline.TextBeforeDash | app.py:61-64 | the result is a dash-free prefix of the title; it is the whole title when there is no dash, and otherwise it is followed in the title by a dash |
| Headline.TextBeforeDashIdempotent | app.py:61-64 | applying the cut twice gives the same as once |
| Headline.TextBeforeDashIsFirstDash | app.py:62-63 | the result is the title up to its first dash |
| Headline.TextBeforeDashExamples | app.py:61-64 | "Title - Source" gives "Title " and "NoDash" is kept |
| Strings.Split | app.py:63 | `str.split` on one character: at least one piece, exactly one iff the separator is absent, no piece contains it, and the first piece is the prefix up to the first separator |
| Strings.JoinSplit | app.py:63 | joining the pieces of a split with the separator gives back the text |
| Strings.JoinAt | app.py:53 | part i of `str.join` sits at its offset, and the last part ends the result |
| Strings.JoinSepAt | app.py:57 | between parts i and i+1 of a join lies exactly the separator |
| Strings.StripLeftSpec | app.py:57 | `lstrip` drops exactly the leading white space: the result is a suffix, everything before it is white space, and it does not start with white space |
| Strings.StripRightSpec | app.py:93 | `rstrip` drops exactly the trailing white space: the result is a prefix, everything after it is white space, and it does not end with white space |
| Strings.StripSlice | app.py:57 | `strip` leaves a slice of the text with only white space around it and no white space at either end |
| Strings.StripIdempotent | app.py:93 | stripping twice strips nothing more |
| Strings.LowerIsLowerCase | app.py:93 | lower-casing gives lower-case text and is idempotent |
| Strings.LowerStrip | app.py:93 | lower-casing and stripping commute |
| Strings.NormalizeFixed | app.py:93 | `w.lower().strip()` of a non-blank token is non-empty and is a fixed point of the clean-up |
| Strings.AlphaNormalize | app.py:92-93 | an alphabetic word has no surrounding white space, so the clean-up only lower-cases it, and the result is still alphabetic |
| Stopwords.JapaneseStopwordsHiragana | app.py:26 | every Japanese stop word is a non-empty Hiragana word |
| Stopwords.EnglishStopwordsParts | app.py:29-42 | the English table holds words of the base list and the four custom additions "said", "one", "like", "also" |
| Stopwords.ChineseStopwordsUnspaced | app.py:27 | no Chinese stop word contains a space |
| Hangul.HangulPrefixLengthSpec | app.py:46 | the scanner's match at the start of the text is all Hangul and is not followed by a Hangul character |
| Hangul.HangulRunsSplit | app.py:46 | the runs `re.findall` returns cut the text into non-empty Hangul runs and Hangul-free gaps, with a non-empty gap between two runs |
| Hangul.HangulRunsUnique | app.py:46 | any such cut of the text has exactly the scanner's runs, so the runs are the maximal Hangul substrings |
| Hangul.HangulRuns | app.py:46 | every match `re.findall` returns is a non-empty run of Hangul syllables |
| Hangul.NoHangulNoRuns | app.py:46 | text without Hangul syllables has no matches |
| Tokenize.Filter | app.py:47 | a list comprehension with a condition keeps exactly the elements that satisfy it and is no longer than its input |
| Tokenize.FilterOne | app.py:47 | a one-element list keeps its element iff it satisfies the condition |
| Tokenize.FilterAppend | app.py:47 | the comprehension keeps order: filtering a concatenation concatenates the filtered pieces |
| Tokenize.FilterCount | app.py:47 | the comprehension keeps repeats: an element that passes occurs as often as in the input, any other not at all |
| Tokenize.TokenizeKorean | app.py:45-47 | every Korean token is a non-empty Hangul run that is not a Korean stop word |
| Tokenize.KoreanTokens | app.py:45-47 | Korean tokens are exactly the maximal Hangul runs that are not Korean stop words, each occurring as often as among the runs; text without Hangul gives none |
| Tokenize.KoreanTokensOfCut | app.py:45-47 | for any cut of the text into maximal Hangul runs, the Korean tokens are those runs, in order of appearance and with their repeats, less the stop words |
| Tokenize.KoreanStopwordsHangul | app.py:25 | every Korean stop word is a non-empty Hangul run, so the filter can meet it |
| Tokenize.JapaneseTokens | app.py:86-88 | the Japanese tokens are no more than the morphemes and none is a Japanese stop word |
| Tokenize.ChineseTokens | app.py:90 | a segment is a Chinese token iff it is not a Chinese stop word and is longer than one character |
| Tokenize.ChineseTokensCount | app.py:90 | kept Chinese segments occur as often as the segmenter returned them |
| Tokenize.EnglishTokens | app.py:92 | a word is an English token iff it is alphabetic and its lower-case form is not an English stop word |
| Tokenize.EnglishTokensCount | app.py:92 | kept English words occur as often as the word tokenizer returned them |
| Tokenize.BranchTokens | app.py:81-92 | before the clean-up, no token is a stop word of the chosen language; Korean tokens are Hangul runs, Chinese ones longer than one character and English ones alphabetic |
| Tokenize.SelectBranch | app.py:81-91 | the Korean, Japanese and Chinese policies are chosen iff the code is exactly "ko", "ja" or "zh" |
| Tokenize.Clean | app.py:93 | every cleaned token is non-empty and in normal form |
| Tokenize.TokenizeAndClean | app.py:79-93 | every token returned is non-empty, lower-cased and stripped |
| Tokenize.CleanAppend | app.py:93 | the clean-up keeps order: cleaning a concatenation concatenates the cleaned pieces |
| Tokenize.CleanMember | app.py:93 | a token comes out of the clean-up iff it is the lower-cased, stripped form of a non-blank input token |
| Tokenize.CleanKeepsNormal | app.py:93 | tokens already non-blank and in normal form pass unchanged |
| Tokenize.CleanOne | app.py:93 | a single token is dropped when blank and normalised otherwise |
| Tokenize.HangulRunNormal | app.py:93 | a Hangul run is unchanged by lower-casing and stripping |
| Tokenize.KoreanBranch | app.py:81-84 | for "ko" the result is exactly `tokenize_korean`, in order, as the clean-up changes nothing |
| Tokenize.JapaneseTokensMember | app.py:86-88 | the Japanese policy keeps the surfaces of the morphemes tagged noun or adjective that are not Japanese stop words |
| Tokenize.JapaneseBranch | app.py:85-88 | for "ja" a token is the normal form of a non-blank surface of a noun or adjective that is not a stop word, and every such surface gives one |
| Tokenize.ChineseBranch | app.py:89-90 | for "zh" a token is the normal form of a non-blank segment that is not a stop word and is longer than one character, and vice versa; if no segment has surrounding white space, every token is longer than one character |
| Tokenize.EnglishBranch | app.py:91-92 | for every other code a token is the lower-cased form of an alphabetic word whose lower-case form is not an English stop word, and vice versa; each token is alphabetic, lower-case and not a stop word |
| Tokenize.EnglishAllDropped | app.py:91-93 | text whose every word is non-alphabetic or a stop word in any case yields no tokens |
| Tokenize.QualifiedCodesTakeEnglish | app.py:81-91 | "zh-cn" and "zh-tw", as a detector reports Chinese, take the English policy, and so would "zh-CN" |
| Tokenize.ChineseOneSegment | app.py:90 | a single segment is kept iff it is not a stop word and longer than one character, and it then goes through the clean-up |
| Tokenize.ChineseLengthBeforeStrip | app.py:90-93 | a segment " a" passes the length test and comes out as the token "a" |
| Pipeline.Count | app.py:105 | `Counter`: the keys are exactly the distinct tokens, each maps to its number of occurrences, and the counts sum to the number of tokens |
| Pipeline.RunPipeline | app.py:96-105 | the table counts every token of every headline, in the tokenizer's language for that headline; the second result is the number of headlines; the table is empty iff no headline gave a token |
| Pipeline.GatherEmpty | app.py:98-104 | no token is gathered iff no headline gave one |
| Pipeline.GatherAppend | app.py:98-104 | headlines contribute their tokens in order: gathering two batches concatenates their tokens |
| Pipeline.TotalOfCounts | app.py:105 | a table holding a multiset's counts sums to the multiset's size |
| Pipeline.DetectionSuccessUsesDetected | app.py:100-101 | `DetectedLanguage`: a headline whose language is detected is tokenized with the detected code |
| Pipeline.DetectionFailureUsesEnglish | app.py:100-104 | a headline whose detection raises is tokenized by the English policy, so its tokens are alphabetic, lower-case and not English stop words |

## Left out

- `fetch_news` (app.py:67-76): URL quoting, the feed request and parsing, and the log line are network I/O. `run_pipeline` is modelled from the fetched headlines on. `get_text_before_dash`, which the fetcher applies to each title, is modelled.
- The Streamlit interface (app.py:107 onward): the form, comma splitting of the term fields, the word-cloud image, the font and the plot are user interface and rendering.
- `langdetect.detect` is an uninterpreted parameter. Its exception becomes `None`, which the pipeline maps to "en". The parameter is one function, so two equal headlines always get the same language in the model. The program never fixes langdetect's random seed, so it may detect two equal headlines differently.
- The janome analyser, `jieba.cut` and `nltk.word_tokenize` are uninterpreted functions. Their dictionaries and the `nltk.download` call at start-up are not modelled. The Japanese part-of-speech test is a prefix test on the tag string, as in the code.
- Strings.Lower: lower-cases only the Basic Latin and Latin-1 capitals. Python's full Unicode case mapping, including mappings that change the length, is not modelled.
- Strings.Upper: upper-cases only Basic Latin. This is exact for comparing the mode with "AND" and "OR", because no other code point upper-cases to those letters.
- Strings.IsAlpha: the letters are Basic Latin, Latin-1, Hiragana, Katakana, CJK Unified Ideographs U+4E00 to U+9FA5 and Hangul syllables. Python's `isalpha` accepts every Unicode letter, so the modelled English policy drops alphabetic words the program keeps. Examples are a Cyrillic word in a headline detected as "ru" (kept by the program as its lower-case form), Katakana words with the prolonged sound mark U+30FC, and CJK ideographs after U+9FA5.
- The regular expression engine: `[가-힣]+` is modelled as a code-point range test with a leftmost-longest scanner. Both are exact for this pattern.
- Python list aliasing and the in-place `append`/`extend`: the loops build sequences by value.
- `Counter` ordering (insertion order, `most_common`) is not modelled. The table is a map from token to count.
