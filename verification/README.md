# google-tts-cli: voice selection and filename synthesis in Dafny

This project models the decision logic of `tts.py`, a command-line tool that turns text into
an MP3 file using a cloud text-to-speech service. The model covers four parts:

- **Voice catalog query** (`get_available_voices`). The service's voice list is an input
  sequence of `Voice(name, languageCodes, gender)`. The tool keeps a voice's name once for
  each of its language codes that starts with the language prefix, and only when the voice's
  gender is the requested one. Catalog order and duplicates are kept. An empty result is a
  usage error.
- **Voice disambiguation** (`select_voice`). A candidate matches when the voice type occurs
  in its lowercased name. One match is returned directly. With no match, the first candidate
  is the fallback. With several matches, the user's menu answer `choice` (a plain integer
  parameter) picks entry `choice` of the 1-based menu; any other integer is a usage error.
- **Filename synthesis** (`generate_filename_from_text`). The text is lowercased, then
  everything outside `[a-zA-Z\s]` is deleted. The rest is split at whitespace, and the
  stopwords of the base language (the code before its first `-`) are dropped. The first three
  surviving tokens are joined with `_`. When none survive, the stem is `speech`. Then `.mp3`
  is appended.
- **The command's resolution steps** (`tts`). `--text` wins over `--file`; having neither is
  a usage error. A missing `--output` is replaced by the synthesised filename. Then come the
  catalog query, the disambiguation and the gender mapping, which together give the
  synthesis request.

Modules: `Text` (ASCII case mapping, substring search, `split`/`join`, the whitespace
tokenizer), `Outcomes` (`Option`, `Result`, the failure kinds), `Voices` (the catalog's
entities), `Catalog`, `Selection`, `Filename` and `Cli`.

Three points of `tts.py` shape the model:

- The name list can hold duplicates. The loop appends a voice's name once per matching
  language code (tts.py:24-27).
- Only the voice name is lowercased, never the voice type (tts.py:37). So a voice type with a
  capital letter never matches; the command line only offers the lowercase choices
  `standard` and `wavenet`.
- `available_voices[0]` on an empty list raises an uncaught `IndexError` (tts.py:59). The
  model returns the failure `IndexError`, and `Cli.PlanSelectsEligibleVoice` proves that the
  command can never reach it.

## Model

| member | source | states |
|---|---|---|
| `Voices.ToSsml` | tts.py:119-124 | The requested gender is always sent as one of the three concrete service genders, never as unspecified |
| `Voices.ToSsmlInjective` | tts.py:18-22 | Distinct requested genders map to distinct service genders |
| `Catalog.AvailableVoices` | tts.py:24-32 | The query fails, with the prefix and gender in the error, exactly when no catalog voice has the gender and a code starting with the prefix; a success is non-empty and holds exactly the names of such voices |
| `Catalog.GetAvailableVoices` | tts.py:13-32 | The nested loop over voices and their language codes computes the same result as the query, name list and error alike |
| `Catalog.CodeHitsMembership` | tts.py:25-27 | For one voice, the inner loop appends only that voice's name, and appends something exactly when the gender matches and some code starts with the prefix |
| `Catalog.HitsMembership` | tts.py:24-27 | A name is in the collected list exactly when some catalog voice with that name is eligible |
| `Catalog.HitsAppend` | tts.py:24-27 | Catalog order is kept: the list for a concatenated catalog is the list for its first part followed by the list for its second part |
| `Catalog.VoiceContribution` | tts.py:25-27 | A voice contributes its name once per language code that starts with the prefix, and nothing when its gender differs |
| `Catalog.CountPrefixedSnoc` | tts.py:25-26 | Adding a code adds one to the count of prefixed codes exactly when that code starts with the prefix |
| `Catalog.SingleVoiceHits` | tts.py:24-27 | A one-voice catalog yields its name repeated once per matching code, or nothing |
| `Text.Lower` | tts.py:37 | Lowercasing keeps the length, turns each capital into its own lowercase letter (code point plus 32) and leaves every other character unchanged |
| `Text.LowerIdempotent` | tts.py:68 | Lowercasing twice is the same as lowercasing once |
| `Text.StartsWith` | tts.py:26 | The empty prefix matches every code, and a match needs the code to be at least as long as the prefix |
| `Text.StartsWithChars` | tts.py:26 | A code starts with the prefix exactly when it agrees with the prefix character by character over the prefix's length |
| `Text.ContainsIsSubstring` | tts.py:37 | The executable substring search is true exactly when the needle occurs at some position of the haystack |
| `Selection.Matched` | tts.py:37 | The menu is no longer than the candidate list, and every entry is a candidate whose lowercased name contains the voice type |
| `Selection.MatchedCharacterised` | tts.py:37 | A name is on the menu exactly when it is a candidate containing the voice type; the menu is empty exactly when no candidate matches |
| `Selection.MatchedAppend` | tts.py:37 | The menu keeps candidate order: the menu of a concatenation is the concatenation of the menus |
| `Selection.SelectVoice` | tts.py:35-59 | A selected voice is always one of the candidates; the only failures are an invalid menu choice and the empty-list index error |
| `Selection.SelectSingle` | tts.py:39-40 | With exactly one matching candidate, that candidate is returned whatever the prompt answer |
| `Selection.SelectNone` | tts.py:57-59 | With no matching candidate, the first candidate is returned |
| `Selection.SelectMany` | tts.py:42-55 | With two or more matches, a choice in 1..n returns menu entry choice-1 and any other integer is an invalid-choice error |
| `Selection.SelectedMatches` | tts.py:37-53 | When some candidate matches, the selected voice's lowercased name contains the voice type |
| `Selection.EveryEntryReachable` | tts.py:45-53 | Every menu entry k is returned for the prompt answer k+1 |
| `Filename.Strip` | tts.py:68 | Stripping never lengthens the text, and a character survives exactly when it occurred and is an ASCII letter or whitespace |
| `Filename.StripAppend` | tts.py:68 | Stripping works piecewise, so the surviving characters keep their order |
| `Filename.StripKeepsKept` | tts.py:68 | Text made only of letters and whitespace is left unchanged |
| `Filename.Clean` | tts.py:68 | After lowercasing and stripping, only lowercase ASCII letters and whitespace remain |
| `Text.Words` | tts.py:68 | Every token is a non-empty run without whitespace |
| `Text.WordsChars` | tts.py:68 | Every character of every token comes from the tokenized text |
| `Text.RemoveSpacesAppend` | tts.py:68 | Deleting whitespace works piecewise over concatenation |
| `Text.RemoveSpacesOfRun` | tts.py:68 | A run without whitespace is left unchanged by deleting whitespace |
| `Text.WordsKeepAllText` | tts.py:68 | For every input, the tokens laid end to end are the input with its whitespace deleted, whatever whitespace (tabs, newlines, runs, leading or trailing) separates them |
| `Text.WordsInOrder` | tts.py:68 | Token k is a maximal run at position ps[k], and each token ends, with whitespace in between, before the next starts; together with `Text.WordsKeepAllText` this fixes the split completely |
| `Text.WordsAreMaximalRuns` | tts.py:68 | Every token occurs in the input with whitespace or an end of the input on both sides, so no token is part of a longer run |
| `Text.MaximalRunShift` | tts.py:68 | A maximal run of a suffix stays maximal in the whole input when it is preceded by whitespace or starts the input |
| `Text.WordsOfJoin` | tts.py:68 | Tokenizing words separated by single spaces gives those words back |
| `Filename.Tokens` | tts.py:68 | Every token of the cleaned text is a non-empty run of lowercase ASCII letters |
| `Text.Split` | tts.py:72 | A split always has at least one piece, and no piece contains the separator |
| `Text.Join` | tts.py:79 | A join starts with its first piece, and with a second piece the separator follows the first; `Text.JoinSplit` and `Text.SplitJoin` pin it down as the inverse of `Text.Split` |
| `Text.JoinSplit` | tts.py:72 | Joining the pieces of a split with the separator restores the original string |
| `Text.SplitJoin` | tts.py:79 | Splitting a join of at least one separator-free piece gives the pieces back |
| `Text.JoinSeparatorCount` | tts.py:79 | A join of n separator-free pieces contains exactly n-1 separators |
| `Filename.BaseLanguage` | tts.py:72 | The base language is the prefix of the code that contains no `-` and is either the whole code or followed by `-` |
| `Filename.Stopwords` | tts.py:71-74 | The stopword set is the corpus list of the base language, or empty when the corpus has no list for it |
| `Filename.RemoveStopwords` | tts.py:76 | No stopword survives, and a word survives exactly when it is a token and not a stopword |
| `Filename.RemoveNothing` | tts.py:73-76 | An empty stopword set drops no token |
| `Filename.RemoveKeepsAll` | tts.py:76 | When no token is a stopword, every token survives |
| `Filename.RemoveStopwordsAppend` | tts.py:76 | Filtering works piecewise, so surviving tokens keep their original order |
| `Filename.Keywords` | tts.py:68-76 | Every surviving token is a lowercase ASCII word outside the stopword set, and a word survives exactly when it is a token and not a stopword |
| `Filename.Stem` | tts.py:79 | The stem is non-empty and made only of lowercase ASCII letters and underscores |
| `Filename.StemKeywords` | tts.py:79 | With no surviving token the stem is `speech`; otherwise splitting the stem at `_` gives back the first min(3, n) surviving tokens in order, and the stem holds min(3, n)-1 underscores |
| `Filename.GenerateFilename` | tts.py:81 | The filename is longer than `.mp3` and ends with `.mp3` |
| `Filename.FilenameShape` | tts.py:62-81 | The filename is a non-empty stem plus `.mp3`; the stem has only lowercase letters and at most two underscores; it is `speech` when nothing survives and otherwise lists the first at most three surviving tokens |
| `Filename.UnsupportedLanguage` | tts.py:71-76 | A base language without a stopword list filters nothing and raises no error |
| `Filename.RegionIgnored` | tts.py:72 | Adding a region suffix to a base language without `-` does not change the filename |
| `Filename.NoKeywordsFallback` | tts.py:76-81 | When every token is a stopword, the filename is `speech.mp3` |
| `Filename.EmptyTextFallback` | tts.py:62-81 | Empty text is named `speech.mp3` for every language code |
| `Filename.CleanOfPlainWords` | tts.py:68 | Lowercase words separated by single spaces pass through cleaning unchanged |
| `Filename.PlainWordsKeywords` | tts.py:68-76 | Lowercase non-stopwords separated by single spaces all survive cleaning, tokenizing and filtering, in their order |
| `Filename.PlainWordsFilename` | tts.py:68-81 | Lowercase words separated by single spaces, none a stopword, are named by their first three words joined with `_`, then `.mp3` |
| `Cli.ResolveText` | tts.py:103-106 | Given text is used as-is; otherwise the file contents are used; having neither is the missing-input error, and only then is there an error |
| `Cli.ResolveOutput` | tts.py:109-110 | An explicit output path is kept; otherwise the path is the name synthesised from the resolved text and language |
| `Cli.Plan` | tts.py:102-131 | A request uses the requested language code and the service gender mapped from the requested gender |
| `Cli.MissingInputFirst` | tts.py:103-106 | With neither text nor file, the command fails with the missing-input error whatever the catalog, corpus or prompt answer |
| `Cli.PlanSelectsEligibleVoice` | tts.py:112-116 | The selected voice names a catalog voice with the requested gender and a code starting with the language prefix, and the empty-list index error never surfaces |
| `Cli.PlanFailures` | tts.py:102-116 | The command fails only with the missing-input, no-voices or invalid-choice usage errors |
| `Cli.PlanUsesResolvedInputs` | tts.py:102-110 | The request carries the resolved text and the resolved output path |
| `Cli.NoEligibleVoice` | tts.py:112-113 | When input is present but no catalog voice fits, the command fails with the no-voices error naming the prefix and gender |

## Left out

- NLTK resource downloads at import (tts.py:9-10): network and filesystem side effects.
- The word tokenizer's internals: the model splits the cleaned text at whitespace. This
  assumes that on text of letters and whitespace the tokenizer only splits at whitespace. The
  Treebank tokenizer also splits a few contractions written without an apostrophe
  (`cannot` into `can` and `not`, and likewise `gonna`, `gotta`, `wanna`, `gimme`, `lemme`).
  The model does not do this.
- The stopword corpus contents: the corpus is a map from base language to word set, and a
  missing language stands for the reader's `OSError`. NLTK names its stopword lists by
  language name (`english`, `spanish`), so for the two-letter codes `--lang` takes (default
  `es`) `stopwords.words` fails with `OSError` and in practice nothing is filtered. The model
  covers this case as a corpus without that key; it does not fix the corpus keys. Other corpus failures, such as an
  uninstalled corpus raising `LookupError`, are not caught by the code and are not modelled.
- The speech service client: `list_voices` becomes the catalog parameter.
  `synthesize_speech` (tts.py:142-144) is a foreign network call; the model stops at the
  request it would receive. Service failures propagate uncaught and are not modelled.
- Terminal output and the prompt (tts.py:44-49): the menu answer is the integer `choice`.
  Click re-prompts on non-integer input, which is library behaviour.
- Command-line validation by Click: `--gender` is the `Gender` datatype. `--voice-type`
  is any string, which covers the two offered choices.
- `pitch` and `rate` (tts.py:134-138): floating-point values passed straight to the service.
  The audio encoding is a fixed constant.
- Writing the audio file and echoing its path (tts.py:147-149).
- Unicode: lowercasing is ASCII-only, and `\s` is the ASCII whitespace Python matches (space,
  9-13, 28-31). Non-ASCII characters that Python lowercases to ASCII letters (for example
  KELVIN SIGN to `k`) and non-ASCII whitespace (for example U+00A0) are outside the model.
- Selection.SelectVoice: on an empty candidate list the code raises an uncaught
  `IndexError`. The model returns the failure `IndexError` instead of crashing.
