# Pinyin romanization engine, modelled in Dafny

This project models the core of the `Overtrue.Pinyin` C# library: the `Pinyin` class
that turns Chinese text into pinyin by a fixed sequence of string-rewriting passes.

- `Prepare` shrinks every run of ASCII letters, digits, `_` and `-` to a tab and the
  run's first character, then drops characters outside the allowed Unicode categories
  and every character above U+FFFF.
- `Romanize` optionally replaces a leading surname (`ConvertSurname`, first match in
  enumeration order), then applies `String.Replace(key, value)` for every entry of every
  dictionary segment, segment after segment.
- `SplitWords` splits on runs of characters outside the pinyin class and, outside
  `UNICODE` mode, overwrites every piece with `Format` of the whole input.
- `Format` runs the 28-row tone table over the string, appending tone digits at the end.
- `Convert`, `Name`, `Permalink`, `Abbr`, `Phrase` and `Sentence` compose these.
- `SetLoader`/`GetLoader` hold the loader field.

Layout:

- `text.dfy` (module `Text`): the .NET string operations the core relies on:
  - ordinal `IndexOf` as a prefix and a substring test;
  - `String.Replace` (non-overlapping, left to right, non-empty pattern);
  - character filtering for the regex deletions;
  - `String.Join` and `String.Trim`;
  - the runtime's character tables (`CharTables`), kept abstract.
- `tones.dfy` (module `Tones`): the tone table and `Formatted`, the value `Format` returns.
- `preprocess.dfy` (module `Preprocess`): `Prepare`.
- `dictionaries.dfy` (module `Dictionaries`): the loader as data (`DictLoader`), the
  surname and segment passes, and `Romanized`.
- `words.dfy` (module `Words`): the `Regex.Split` of `SplitWords` as `Tokens`.
- `sentences.dfy` (module `Sentences`): the punctuation map, the slash-stripping regex,
  the replace-and-trim loop and `Sentenced`.
- `facade.dfy` (module `Facade`): the values `SplitWords`, `Convert`, `Name`, `Permalink`,
  `Abbr` and `Phrase` return.
- `engine.dfy` (module `Engine`): class `Pinyin`, with the loader field and every
  operation written as the source's loops. Each method is proved equal to the value
  the other modules define and reason about.

Where the code and its comments or documentation differ, the model follows the code:

- the tone table has 28 rows;
- tone digits go at the end of the whole string, not after each vowel;
- outside `UNICODE` mode every element of `SplitWords` is the whole formatted input, so
  `Abbr` repeats one letter;
- the surname rule is first match in enumeration order, not longest match;
- the `SplitWords` class is case-sensitive, so upper-case letters separate words.

## Model

| member | source | states |
|---|---|---|
| Tones.TableWellFormed | Pinyin.cs:224-226 | The table has 28 rows. Each marked vowel is non-ASCII and as long as its plain spelling, which uses only a, e, i, o, u, v; each tone is a digit 1-4 |
| Engine.Pinyin.Format | Pinyin.cs:222-237 | Returns `Formatted(pinyin, tone)`: the loop run over the 28-row table |
| Engine.Pinyin.FormatRows | Pinyin.cs:228-234 | The loop over any well-formed table returns `FormatSteps`: each row whose marked vowel occurs replaces it everywhere, in table order, appending its digit when `tone` |
| Tones.FormatToneSuffix | Pinyin.cs:228-234 | `Format(p, true)` is `Format(p, false)` followed by at most 28 digits 1-4, one per row found, in table order, all at the end of the string |
| Tones.FormatKeepsShape | Pinyin.cs:228-234 | `Format(p, false)` has the length of `p`; each character is unchanged or became a plain vowel letter |
| Tones.FormatRemovesAllKeys | Pinyin.cs:228-234 | `Format(p, false)` contains none of the 28 marked vowels |
| Tones.FormatRemovesMarkedChars | Pinyin.cs:228-234 | Every one-character marked vowel of the table is non-ASCII and absent from `Format(p, false)` |
| Tones.FormatIdentity | Pinyin.cs:228-236 | A string with none of the 28 marked vowels is returned unchanged, for either `tone` |
| Tones.FormatIdempotent | Pinyin.cs:228-236 | Formatting `Format(p, false)` again, with or without tone, changes nothing |
| Preprocess.MarkRuns | Pinyin.cs:149-152 | The first pass is empty exactly when the input is, and never starts with a character of `[A-Za-z0-9_-]`: each run begins with its tab. Each run is rewritten where it stands (`MarkRunsSplit`, `MarkRunsWord`) |
| Preprocess.MarkRunsSplit | Pinyin.cs:149-151 | A character outside `[A-Za-z0-9_-]` stays in place and cuts the pass in two: the pass over `x + [c] + y` is the pass over `x`, then `c`, then the pass over `y` |
| Preprocess.MarkRunsWord | Pinyin.cs:149-151 | A whole run of `[A-Za-z0-9_-]` becomes exactly a tab followed by its first character |
| Preprocess.MarkRunsRun | Pinyin.cs:149-151 | A run at the front of the text, ended by the end or by a character outside the class, is replaced by its tab and first character, and the rest of the text follows unchanged by it |
| Preprocess.MarkRunsKeepsFirst | Pinyin.cs:149-152 | The `[A-Za-z0-9_-]` characters left by the first pass are exactly the first characters of the maximal runs, in order, and the pass adds one tab per run |
| Preprocess.MarkRunsSeparated | Pinyin.cs:149-152 | After the first pass no two neighbouring characters are both in `[A-Za-z0-9_-]`, and each such character follows a tab |
| Preprocess.MarkRunsKeepsOthers | Pinyin.cs:149-152 | The first pass keeps every character outside the class and other than tab, in order, and adds no such character |
| Preprocess.Prepare | Pinyin.cs:147-155 | `Prepare` is no longer than the first pass and holds only tabs, `[A-Za-z0-9_-]` and characters of the allowed categories up to U+FFFF. It keeps every such character (`PrepareKeepsAllowed`), turns each run into its tab and first character (`PrepareWord`) and keeps or deletes every other character in place (`PrepareSplit`) |
| Preprocess.PrepareKeepsAllowed | Pinyin.cs:154 | Each tab or allowed character occurs in `Prepare` exactly as often as in the first pass: the deletion removes nothing else |
| Preprocess.PrepareWord | Pinyin.cs:147-155 | A non-empty run of `[A-Za-z0-9_-]` comes out of `Prepare` as exactly a tab followed by its first character |
| Preprocess.PrepareSplit | Pinyin.cs:147-155 | A character outside `[A-Za-z0-9_-]` cuts `Prepare` in two: it stays in place when it is a tab or allowed, is deleted otherwise, and each side is prepared on its own |
| Preprocess.PrepareKeepsTabs | Pinyin.cs:147-155 | `Prepare` returns a subsequence of the first pass made of allowed characters only, keeping every tab of the first pass |
| Preprocess.PrepareUnchanged | Pinyin.cs:147-155 | Text of allowed characters and no `[A-Za-z0-9_-]` passes through `Prepare` unchanged |
| Dictionaries.FirstPrefix | Pinyin.cs:189-196 | Finds the first key in enumeration order that starts the string: that key is a prefix and no earlier one is; `None` means no key is a prefix |
| Dictionaries.SurnameStep | Pinyin.cs:187-197 | With no key as prefix the string is unchanged. Otherwise it becomes the first matching key's value followed by the untouched rest after that key: one substitution at most |
| Dictionaries.SurnameFirstMatch | Pinyin.cs:189-196 | First match, not longest: with 单 listed before 单于, the name 单于明 becomes "shan\t于明" |
| Engine.Pinyin.ConvertSurname | Pinyin.cs:185-200 | The nested loop with `break` applies `SurnameStep` for each surname dictionary in turn |
| Dictionaries.ApplySegmentsInOrder | Pinyin.cs:171-177 | The segment pass is one sequence of `Replace` calls: the first segment's entries in key order, then the second's, and so on |
| Dictionaries.ApplySegmentsKeepsForeignChar | Pinyin.cs:171-177 | A character in no key and no value of any segment occurs exactly as often after the pass |
| Dictionaries.RomanizeWithoutMatches | Pinyin.cs:160-180 | When no segment key occurs, `Romanize` returns `Prepare(str)`, or its surname conversion for a name: unknown characters pass through verbatim |
| Engine.Pinyin.Romanize | Pinyin.cs:160-180 | Prepares, converts the surname when `isName`, applies every segment entry in order, giving `Romanized` with the loader in force. The loader is then stored |
| Words.Tokens | Pinyin.cs:207 | Every piece of the split is non-empty and made of class characters only |
| Words.TokensCover | Pinyin.cs:207 | The pieces, concatenated, are exactly the class characters of the input, in order |
| Words.UpperCaseSeparates | Pinyin.cs:207 | An upper-case letter A-Z is outside the class, so it separates words |
| Words.TokensSplit | Pinyin.cs:207 | A character outside the class cuts the split there: the pieces of `x + [c] + y` are those of `x` followed by those of `y` |
| Words.TokensWord | Pinyin.cs:207 | A non-empty string of class characters only is a single piece |
| Words.TokensCut | Pinyin.cs:207 | The split of a non-empty all-class string is that string, and cutting at any separator splits the pieces there: every piece is a maximal run |
| Words.TokensOfJoin | Pinyin.cs:207 | Splitting undoes joining, for non-empty class words and a non-empty delimiter without class characters |
| Facade.SplitResultNonEmpty | Pinyin.cs:205-216 | No element of `SplitWords` is empty, in any mode, so `pinyin[0]` in `Abbr` never fails |
| Facade.SplitWordsUnicode | Pinyin.cs:205-216 | In `UNICODE` mode the elements are non-empty, made of class characters only, and together exactly the class characters of the input. A non-empty all-class input is one element, and the result splits at every separator (`Words.TokensCut`), so the elements are the maximal class runs |
| Facade.SplitWordsUpperCase | Pinyin.cs:205-216 | An upper-case letter separates words in every mode: the element count of `x + [c] + y` is the sum for `x` and `y`, in `UNICODE` mode the split is theirs concatenated, and no `UNICODE` element contains A-Z |
| Facade.SplitWordsFormatted | Pinyin.cs:205-216 | Outside `UNICODE` there is one element per run, each the whole formatted input. With `ASCII` that is the tone-less text plus digits; otherwise it is as long as the input and free of marked vowels |
| Engine.Pinyin.SplitWords | Pinyin.cs:205-217 | The array is the split, overwritten in place outside `UNICODE` mode by the loop calling `Format` on the whole input |
| Engine.Pinyin.Convert | Pinyin.cs:47-52 | Returns the split of the romanized text (`Converted`); the loader is stored |
| Engine.Pinyin.Name | Pinyin.cs:57-62 | Returns the split of the text romanized as a name (`Named`); the loader is stored |
| Facade.PermalinkShape | Pinyin.cs:67-75 | Fails exactly when the delimiter is none of "_", "-", ".", "", with the fixed message. Otherwise the result is `n` copies of the tone-less formatted text joined by the delimiter, with `n` the number of runs. It has length `n * |f| + (n - 1) * |delimiter|`, uses only characters of that text and the delimiter, and contains no marked vowel |
| Facade.JoinedCopies | Pinyin.cs:74 | For any text and any ASCII delimiter, the joined `NONE` split is the copies of the formatted text joined, with that length and alphabet, and without marked vowels |
| Engine.Pinyin.Permalink | Pinyin.cs:67-75 | Returns `PermalinkOf`. On a rejected delimiter it fails before romanizing, so the loader field is unchanged |
| Facade.AbbrShape | Pinyin.cs:80-87 | `Abbr` has one character per run plus the delimiters between them. Every initial is the same character: the first of the formatted text, which is the first romanized character or its plain vowel |
| Engine.Pinyin.Abbr | Pinyin.cs:80-87 | Joins the first character of each word of `Convert(str)` (`AbbrOf`) |
| Facade.PhraseSplitsBack | Pinyin.cs:92-95 | Splitting a `UNICODE` phrase, joined with a non-empty delimiter without class characters, gives back `Convert(str, UNICODE)` |
| Engine.Pinyin.Phrase | Pinyin.cs:92-95 | Joins the words of `Convert(str, option)` with the delimiter (`PhraseOf`) |
| Sentences.ExtendedMap | Pinyin.cs:107-109 | A map of single non-ASCII marks with ASCII values, followed by tab and space, has only non-empty keys, so every `Replace` of the loop is defined |
| Sentences.SlashNotAllowed | Pinyin.cs:105 | The slash is outside the class of the strip regex |
| Sentences.StripSlashRuns | Pinyin.cs:104-106 | Deleting slash runs never lengthens the text and brings in no character |
| Sentences.StripLeavesNoSlashRun | Pinyin.cs:104-106 | After stripping, each remaining slash is last or is followed by a character of the class |
| Sentences.StripKeepsAllowed | Pinyin.cs:104-106 | Every character of the class occurs exactly as often after stripping |
| Sentences.StripWithoutSlash | Pinyin.cs:104-106 | Text without a slash is unchanged |
| Sentences.StepKeepsClean | Pinyin.cs:113 | One replace-and-trim step removes its own mark (or the tab) and brings back none of the earlier ones; the result does not start or end with white space |
| Sentences.PunctuateStepsClean | Pinyin.cs:111-114 | After each replace-and-trim step none of the marks (or the tab) handled so far is left, and the text does not start or end with white space |
| Sentences.PunctuateStepsKeepCount | Pinyin.cs:111-114 | For a map of single non-ASCII marks with ASCII values, followed by tab and space, a non-ASCII character that is not white space and is not one of the marks occurs exactly as often after each replace-and-trim step |
| Engine.Pinyin.Punctuate | Pinyin.cs:111-114 | The `foreach` loop of `Sentence`, over the map's entries in order, returns `PunctuateSteps` for all of them |
| Sentences.PunctuateClean | Pinyin.cs:107-114 | After the whole loop, for any map of single non-ASCII marks with ASCII values, no mark of the map and no tab is left, and there is no white space at either end |
| Sentences.FormatKeepsClean | Pinyin.cs:116 | `Format(p, false)` keeps a text free of marks and tabs and keeps it trimmed |
| Sentences.SentenceClean | Pinyin.cs:100-117 | `Sentence` output has none of the map's full-width marks and no tab, and no white space at either end. Without tone it also has none of the 28 marked vowels |
| Sentences.SentenceKeepsMarkedLetters | Pinyin.cs:100-117 | With tone, each tone-marked letter of the class occurs in `Sentence`'s output exactly as often as in the romanized text: none is lost |
| Engine.Pinyin.Sentence | Pinyin.cs:100-117 | Romanizes, strips, runs the replace-and-trim loop over the object's map plus tab and space, and formats unless `withTone` (`SentencedWith`). With the nine-mark map that is `Sentenced`. The loader is stored |
| Engine.Pinyin.SetLoader | Pinyin.cs:122-126 | Stores the loader and returns the object itself; the loader in force is then the one given |
| Engine.Pinyin.GetLoader | Pinyin.cs:131-142 | Returns the loader set, or else the default one, which it stores; a loader already set is returned unchanged |
| Engine.Pinyin.constructor | Pinyin.cs:24-42 | A new object has no loader set and holds the nine-entry punctuation map |

## Left out

- The file-based loaders and the loader interface are not part of this model. `FileDictLoader.cs` and `MemoryFileDictLoader.cs` read files: they probe `words_0..99.txt` and `surnames.txt`, split `key:value` lines and cache surnames. `DictLoaderInterface.cs` has no behaviour. Their output is modelled as data: ordered segments and surname dictionaries.
- The default loader is created by reflection from `Environment.CurrentDirectory` (`Type.GetType`, `Activator.CreateInstance`). It is modelled as a value given to the constructor, which `GetLoader` stores on first use.
- Engine.Pinyin.constructor: models only the call without a loader name. With no name (`null`) the constructor sets the default loader name, and the model's default loader stands for the loader built from it. A non-null name is never stored: the field stays `null`, so `GetLoader` would throw in `Type.GetType(null)` unless `SetLoader` ran first. That path is not modelled.
- The Unicode tables stay abstract parameters, not encoded:
  - the classes of the `Prepare` deletion: the general categories `\p{P}\p{Z}\p{M}\p{N}\p{L}` and `\p{Han}`;
  - `Char.IsWhiteSpace` for `\s` and `Trim`;
  - `\d`.
  The only facts assumed about them are that a-z, `/` and the characters U+00C0-U+02AF are not white space, and that A-Z are not decimal digits. The `Prepare` deletion class also lists A-Z, a-z, 0-9, `_` and `-` outright, since their categories are L, Nd, Pc and Pd.
- Preprocess.Prepare: `\p{Han}` is a script name, not a general category, and .NET may reject it as an unknown block name when the pattern is built. The model assumes the pattern is accepted and treats Han characters as covered by `\p{L}`.
- `IndexOf` is culture-sensitive in .NET (at the surname test and in `Format`). Both are modelled as ordinal prefix and substring tests.
- Preprocess.MarkRuns: treats IgnoreCase as adding A-Z only. It leaves out culture-dependent case matches such as the Kelvin sign.
- Sentences.StripSlashRuns: as used by `Sentence`, the class treats IgnoreCase as adding A-Z only. Upper-case forms of the tone-marked vowels, which the regex also accepts, count as outside the class.
- The strip regex of `Sentence` is built from the object's punctuation map; the model writes its class with the marks of the nine-entry map, which is the only map an object holds (the field is initialised once and never reassigned).
- `Dictionary` enumeration order is taken to be insertion order, modelled as a sequence; hashing is not modelled.
- Dictionaries.DictLoader: segment keys are required to be non-empty. .NET `String.Replace` throws on an empty key, and that exception path is not modelled.
- Strings are sequences of Unicode scalar values, not UTF-16 code units. A character outside the Basic Multilingual Plane is one character here, not a surrogate pair. The regular expressions of the source test one code unit at a time, and both surrogate halves have category Cs. The model writes that out (`Text.IsCodeUnit`):
  - the `Prepare` deletion removes every character above U+FFFF, such as the Han character U+20BB7;
  - the `\d` of the `SplitWords` class matches no character above U+FFFF, so such a character separates words.
  `\s`, `Trim` and the strip regex of `Sentence` test white space through the tables as written. No character above U+FFFF is white space in Unicode, so this agrees with the source's per-code-unit test.
- Facade.Initials: takes the whole first character of each word. The source's `pinyin[0]` at Pinyin.cs:84 is one UTF-16 code unit, so for a word starting above U+FFFF `Abbr` yields a lone high surrogate where the model yields the whole character. `Prepare` deletes all such characters, so only a dictionary value can bring one in.
- `null` arguments are not modelled. In the source most of them raise exceptions. These do not:
  - `SetLoader(null)` clears the loader, so the next `GetLoader` rebuilds the default one;
  - a `null` `option` in `Convert`, `Name` or `Phrase` equals neither `UNICODE` nor `ASCII` (Pinyin.cs:208, 212), so it acts as `NONE`;
  - a `null` delimiter in `Abbr` or `Phrase` acts as `""` in `String.Join`;
  - a `null` delimiter in `Permalink` is not in the accepted list, so it is rejected with the fixed message (Pinyin.cs:69-71).
- The default arguments are not modelled as such: the model's functions and methods take every argument explicitly. The defaults are `option = NONE` for `Convert` and `Name`, `delimiter = "-"` for `Permalink`, `""` for `Abbr`, `" "` with `option = NONE` for `Phrase`, and `withTone = false` for `Sentence` (Pinyin.cs:47, 57, 67, 80, 92, 100).
- `Permalink`'s `ArgumentException` is modelled as an `Err` result carrying the same message.
