# Text utilities and record validation, modelled in Dafny

This project models the logic of a small collection of Python utilities and proves properties of the model:

- **The declarative record validator** (`Field`, `Schema`).
  - A `Field` checks one value in a fixed order. An absent value gives "required" or nothing. A value of the wrong type gives exactly one type error. Otherwise the field's validators run in list order.
  - A `Schema` folds its fields over a record into a report that maps each field name to its errors. `is_valid` asks whether that report is empty. `apply_defaults` fills in the defaults of absent fields on a copy of the record.
- **Value validators**: the Luhn credit-card check, after spaces and hyphens are stripped, and the inclusive number-range check.
- **Case converters**: `to_snake_case`, `to_camel_case` and `to_title_case`.
- **Text transformers**: `slugify`, `truncate` and `replace_all`.
- **Text analysis**: `word_frequency`, `get_top_words` and `sentence_count`.
- **Text processing**: `extract_hashtags`, the "text too short" guard of `calculate_readability`, and `summarize`.

Every regular expression of the modelled functions is written out as an explicit character class and a recursive scan over ASCII text (the patterns of `is_email`, `is_url` and `extract_emails` are not, see "Left out"):

- `re.sub` with `[^a-zA-Z0-9]+`, `([a-z0-9])([A-Z])`, `_+` and `[^a-zA-Z0-9]` in the case converters;
- `re.sub` with `[^a-z0-9]` and `\s+` in `slugify`, and with `[^a-zA-Z0-9\s]` in `word_frequency`;
- `#(\w+)` with `findall`;
- `[.!?]+` and `(?<=[.!?])\s+` with `split`.

Python's own semantics are modelled where they matter:

- A `Counter` keeps keys in first-insertion order.
- `sorted(..., reverse=True)` is stable.
- The slice `s[:k]` counts a negative `k` from the end.
- `str.replace` with an empty pattern inserts the replacement around every character.
- `isinstance(True, int)` holds.
- An exception other than `ValueError` raised by a validator propagates out of `validate`. An `Outcome` datatype carries either the value returned or the exception raised.

Modules:

| module | file | models |
|---|---|---|
| `Wrappers` | wrappers.dfy | `Option` and `Result` |
| `Chars` | chars.dfy | ASCII character classes, `str.lower`, `str.capitalize` |
| `Words` | words.dfy | `str.split()`, `join`, `strip`, the slice `s[:k]` |
| `Validation` | validation.dfy | `Field` and `Schema` (classes whose methods are proved against specification functions) |
| `Validators` | validators.dfy | `is_credit_card` (a method with the Luhn loop), `is_number_in_range` |
| `CaseConversion` | case_convert.dfy | the three case converters and their documented examples |
| `TextTransform` | text_transform.dfy | `slugify`, `truncate`, `str.replace`, and `replace_all` (a method with its loop) |
| `TextTransformExamples` | text_transform_examples.dfy | the documented `slugify` and `replace_all` examples |
| `TextAnalysis` | text_analysis.dfy | `word_frequency`, `get_top_words`, `sentence_count` |
| `TextAnalysisExamples` | text_analysis_examples.dfy | their documented examples |
| `TextProcessing` | text_processing.dfy | `extract_hashtags`, the readability guard, `summarize` |

Where the documentation and the code disagree, the model follows the code. The type-mismatch message is one example: the f-string is continued with a backslash, so the text holds the continuation line's twenty spaces of indentation before ", got". `Validation.Message` renders it that way.

## Model

| member | source | states |
|---|---|---|
| Validation.Field.constructor | src/dataval/validation/summarizer.py:10-29 | the four attributes are stored as given; a missing validator list becomes the empty list |
| Validation.Message | src/dataval/validation/summarizer.py:44-66 | the definition: the four error texts, the type mismatch with its twenty embedded spaces; the loops below produce these errors |
| Validation.Field.Evaluate | src/dataval/validation/summarizer.py:44-68 | the definition Field.Validate is proved against: None first, then the isinstance check, then the validators; RunValidatorsReports and RunValidatorsRaises state what the validators contribute |
| Validation.RunValidators | src/dataval/validation/summarizer.py:59-66 | the definition of the validator loop, a fold over the validators in list order; RunValidatorsReports, RunValidatorsRaises and ReportedLength state its meaning |
| Validation.Field.Validate | src/dataval/validation/summarizer.py:31-68 | An absent value gives exactly "Field is required" when the field is required, and nothing otherwise. A present value that fails the isinstance check gives exactly one type-mismatch error, and no validator runs. A well-typed value gives the result of running the validators in order. |
| Validation.RunValidatorsReports | src/dataval/validation/summarizer.py:59-66 | When no validator raises anything but ValueError, every validator runs in list order. A falsy result adds "Failed validation with <name>"; a ValueError adds "Validation error: <msg>", and later validators still run. |
| Validation.RunValidatorsRaises | src/dataval/validation/summarizer.py:59-66 | the loop raises exactly when some validator raises an exception other than ValueError, and then it raises the first such exception, after every earlier validator ran |
| Validation.RunValidatorsRaisedPrefix | src/dataval/validation/summarizer.py:59-66 | once a validator has raised, the validators after it do not change the outcome |
| Validation.ReportedLength | src/dataval/validation/summarizer.py:59-66 | at most one message per validator; one for each exactly when every validator fails |
| Validation.Schema.constructor | src/dataval/validation/summarizer.py:74-81 | the fields are stored in declaration order; their names are distinct, as dict keys are |
| Validation.ReportOf | src/dataval/validation/summarizer.py:93-101 | the definition Schema.Validate is proved against, a fold over the fields in declaration order; ReportOfSound, ReportOfComplete, ReportOfOrdered and ReportOfRaises state its meaning |
| Validation.Schema.Validate | src/dataval/validation/summarizer.py:83-101 | The loop computes the report of the fields in declaration order, and the report's keys are distinct (the schema's class invariant, distinct field names, is its precondition). Two calls on the same schema and record give the same result, and no state changes. |
| Validation.ReportOfRaises | src/dataval/validation/summarizer.py:96-99 | validate returns exactly when every field returns; otherwise the first field that raises decides the exception |
| Validation.ReportOfSound | src/dataval/validation/summarizer.py:96-99 | each report entry is a declared field with the non-empty list that its Field gives for data.get(name) |
| Validation.ReportOfComplete | src/dataval/validation/summarizer.py:96-99 | every declared field whose error list is non-empty appears in the report, with that list |
| Validation.ReportOfOrdered | src/dataval/validation/summarizer.py:96-99 | the report's keys are a subsequence of the declared names: they come in declaration order |
| Validation.ReportOfEmpty | src/dataval/validation/summarizer.py:93-101 | the report is empty exactly when every declared field gives an empty list |
| Validation.ReportKeys | src/dataval/validation/summarizer.py:96-99 | a declared name is a key of the report exactly when its field's list is non-empty |
| Validation.ReportKeysDistinct | src/dataval/validation/summarizer.py:93-99 | the report's keys are distinct, so the report reads as a dict |
| Validation.ReportOfRaisedPrefix | src/dataval/validation/summarizer.py:96-97 | once a field has raised, the remaining fields do not change the outcome |
| Validation.ReportOfDeclaredOnly | src/dataval/validation/summarizer.py:96-97 | the report depends on the record only through data.get of the declared names |
| Validation.ReportMissingIsNone | src/dataval/validation/summarizer.py:97 | a missing key is treated exactly like a key mapped to None |
| Validation.ReportIgnoresUndeclared | src/dataval/validation/summarizer.py:96-97 | keys that no field declares are ignored, whatever value they hold |
| Validation.Schema.IsValid | src/dataval/validation/summarizer.py:103-113 | is_valid raises exactly when validate raises, and then with the same exception; otherwise it is true exactly when every declared field gives no error |
| Validation.Schema.ApplyDefaults | src/dataval/validation/summarizer.py:115-131 | the loop returns a new record: the copy of the input with defaults filled in, as Defaulted specifies; the input is a value and is not changed |
| Validation.Defaulted | src/dataval/validation/summarizer.py:125-131 | the definition Schema.ApplyDefaults is proved against, a fold over the fields in declaration order; DefaultedEntries states its meaning |
| Validation.DefaultedEntries | src/dataval/validation/summarizer.py:125-131 | Every key of the input keeps its value, including keys mapped to None. Each declared field that is absent and has a non-None default is added with that default. Nothing else is added. |
| Validation.DefaultedKeepsComplete | src/dataval/validation/summarizer.py:127-129 | a record that already holds every field with a default is returned unchanged |
| Validation.DefaultedComplete | src/dataval/validation/summarizer.py:125-131 | afterwards every declared field is present or has no default |
| Validation.DefaultedIdempotent | src/dataval/validation/summarizer.py:127-129 | applying defaults twice is applying them once |
| Validation.PositiveIntFieldExample | tests/test_module2.py:84-89 | Field(int, [x > 0]) gives no error for 5, one failed validation for -5 and one type error for "not an int" |
| Validation.UserSchemaExample | tests/unittest_example.py:121-138 | the user schema accepts {"name": "John", "age": 25} and rejects the short name "Jo" |
| Validation.UserSchemaRejectsExample | tests/unittest_example.py:140-145 | the user schema rejects an age of 16 and a missing name |
| Validators.StripSeparators | src/mypackage2/module1.py:46 | the result holds no space and no hyphen and is no longer than the input; StripAppend, StripNoSeparators and StripOnlySeparators together say that every other character is kept, in order |
| Validators.StripAppend | src/mypackage2/module1.py:46 | stripping works piecewise: the result for a + b is the result for a followed by the result for b |
| Validators.StripNoSeparators | src/mypackage2/module1.py:46 | a string with no space and no hyphen is kept exactly as it is |
| Validators.StripOnlySeparators | src/mypackage2/module1.py:46 | a string of spaces and hyphens only is deleted entirely |
| Validators.LuhnSum | src/mypackage2/module1.py:57-64 | the definition of the checksum, read left to right with the parity of the position from the right; IsCreditCard's loop is proved equal to it |
| Validators.CardAccepted | src/mypackage2/module1.py:45-66 | the definition of the verdict: stripped, all digits, 13 to 19 of them, checksum a multiple of 10; IsCreditCard is proved equal to it |
| Validators.IsCreditCard | src/mypackage2/module1.py:35-66 | The loop over the reversed digits computes the specified verdict. After stripping, a string that is not all digits (the empty string included) is rejected, and so is a length outside 13..19. |
| Validators.LuhnTerm | src/mypackage2/module1.py:60-64 | each contribution lies in 0..9; an undoubled digit counts as itself; a doubled one is congruent to twice the digit modulo 9 |
| Validators.SeparatorIgnored | src/mypackage2/module1.py:46 | inserting a space or hyphen anywhere never changes the verdict |
| Validators.NonDigitRejected | src/mypackage2/module1.py:46-50 | any character other than a space, a hyphen or a digit, anywhere in the value, makes it invalid |
| Validators.LuhnSumReplace | src/mypackage2/module1.py:57-66 | changing one digit changes the checksum by exactly the difference of the two digits' contributions |
| Validators.LuhnTermInjective | src/mypackage2/module1.py:60-64 | at a given position, different digits contribute differently |
| Validators.SingleDigitErrorDetected | src/mypackage2/module1.py:57-66 | changing one digit of an accepted card number gives a rejected one |
| Validators.IsNumberInRange | src/mypackage2/module1.py:87-107 | true exactly when value >= min (or min is absent) and value <= max (or max is absent) |
| Validators.RangeBoundsExtremes | src/mypackage2/module1.py:103-107 | with both bounds absent every number is in range; with min > max none is |
| Validators.RangeExamples | tests/test_module1.py:73-79 | 1, 5 and 10 lie in [1, 10]; 0 and 11 do not |
| Chars.Lower | src/mypackage2/module2.py:26 | str.lower keeps the length and lowers each character |
| Chars.Capitalize | src/mypackage2/module2.py:51 | str.capitalize keeps the length, upper-cases the first character and lowers the rest |
| Words.Split | src/mypackage2/module2.py:47 | every word of str.split() is non-empty and holds no whitespace; with SplitSpaceFront and SplitWordFront this fixes the words as the maximal runs of non-whitespace |
| Words.ConcatSplit | src/mypackage2/module2.py:47 | str.split() drops exactly the whitespace: the words, concatenated, are the non-whitespace characters |
| Words.SplitEmpty | src/mypackage2/module2.py:47-49 | str.split() gives no word exactly when the text is all whitespace |
| Words.SplitSpaceFront | src/mypackage2/module2.py:47 | whitespace before the text adds no word |
| Words.SplitWordFront | src/mypackage2/module2.py:47 | a word followed by whitespace or by the end of the text comes out whole, as one word: words are maximal runs |
| Words.SplitJoin | src/mypackage2/module2.py:64 | joining words with single spaces and splitting again gives the same words |
| Words.SliceTo | src/mypackage1/module1.py:35 | s[:k] is a prefix of s, of length min(k, len(s)) for k >= 0 and max(len(s) + k, 0) for k < 0 |
| Words.StripLeading | src/mypackage2/module2.py:26 | lstrip removes exactly the leading run of the character |
| Words.StripTrailing | src/mypackage2/module2.py:26 | rstrip removes exactly the trailing run of the character |
| CaseConversion.UnderscoreRuns | src/mypackage2/module2.py:20 | the first character is kept if alphanumeric and becomes "_" otherwise |
| CaseConversion.UnderscoreRunsShape | src/mypackage2/module2.py:20 | the result holds only letters, digits and single underscores, and keeps every letter and digit in order |
| CaseConversion.UnderscoreRunsFixpoint | src/mypackage2/module2.py:20 | letters, digits and single underscores are left as they are |
| CaseConversion.UnderscoreRunsAppend | src/mypackage2/module2.py:20 | the substitution works piecewise at any cut next to a letter or digit |
| CaseConversion.SeparateHumps | src/mypackage2/module2.py:23 | the first character is kept |
| CaseConversion.SeparateHumpsShape | src/mypackage2/module2.py:23 | only underscores are added, and no double underscore is created |
| CaseConversion.SeparateHumpsAlnums | src/mypackage2/module2.py:23 | the letters and digits are kept, in order |
| CaseConversion.SeparateHumpsFixpoint | src/mypackage2/module2.py:23 | where no capital follows a lower-case letter or digit, nothing changes |
| CaseConversion.SeparateHumpsAppend | src/mypackage2/module2.py:23 | at a cut, an underscore is inserted exactly when a lower-case letter or digit ends the left part and a capital starts the right part |
| CaseConversion.CollapseUnderscores | src/mypackage2/module2.py:29 | the result has no two underscores in a row, keeps the first character, and leaves text without double underscores unchanged; CollapseKeepsOthers, CollapseRun and CollapseAppend say which characters survive |
| CaseConversion.CollapseKeepsOthers | src/mypackage2/module2.py:29 | only underscores are deleted: every other character is kept, in order |
| CaseConversion.CollapseRun | src/mypackage2/module2.py:29 | a run of underscores becomes exactly one underscore |
| CaseConversion.CollapseAppend | src/mypackage2/module2.py:29 | collapsing works piecewise at any cut that does not fall inside a run of underscores |
| CaseConversion.StripKeepsShape | src/mypackage2/module2.py:26 | stripping underscores from lower-case letters, digits and single underscores gives a snake_case identifier with the same letters and digits |
| CaseConversion.ToSnakeCase | src/mypackage2/module2.py:9-31 | the definition: the four steps of to_snake_case in order; SnakeCaseShape, SnakeCaseContent, SnakeCaseFixpoint and SnakeCaseEmpty state its meaning |
| CaseConversion.SnakeStages | src/mypackage2/module2.py:20-26 | before the final strip and collapse, the text holds only lower-case letters, digits and single underscores |
| CaseConversion.SnakeCaseShape | src/mypackage2/module2.py:9-31 | the output holds only [a-z0-9_], never starts or ends with "_", and never has two "_" in a row |
| CaseConversion.SnakeCaseContent | src/mypackage2/module2.py:9-31 | the output's letters and digits are the input's, in order and lower-cased |
| CaseConversion.SnakeCaseFixpoint | src/mypackage2/module2.py:9-31 | a snake_case identifier is returned unchanged |
| CaseConversion.SnakeCaseIdempotent | src/mypackage2/module2.py:9-31 | converting twice is converting once |
| CaseConversion.SnakeCaseEmpty | src/mypackage2/module2.py:9-31 | the output is "" exactly when the input has no letter and no digit |
| CaseConversion.SnakeFinish | src/mypackage2/module2.py:26-29 | the final strip and collapse leave a snake_case identifier unchanged |
| CaseConversion.SnakeCaseHumpExample | tests/test_module2.py:56 | "HelloWorld" becomes "hello_world" |
| CaseConversion.SnakeCaseSpaceExample | tests/test_module2.py:57 | "API Response" becomes "api_response" |
| CaseConversion.SnakeCaseHyphenExample | tests/test_module2.py:58 | "user-name" becomes "user_name" |
| CaseConversion.SpaceOutNonAlnum | src/mypackage2/module2.py:45 | same length; letters and digits kept, every other character a space |
| CaseConversion.NonSpaceOfSpacedOut | src/mypackage2/module2.py:45-47 | the words after spacing out hold exactly the input's letters and digits |
| CaseConversion.CapitalizeAll | src/mypackage2/module2.py:51 | one capitalized word per word, in order |
| CaseConversion.ToCamelCase | src/mypackage2/module2.py:34-51 | the definition: split after spacing out, then the first word lower-cased and the rest capitalized; CamelCaseRuns, CamelCaseContent and CamelCaseShape state its meaning |
| CaseConversion.AlnumRuns | src/mypackage2/module2.py:45-47 | a reference definition: the maximal runs of letters and digits, each non-empty and made of letters and digits only |
| CaseConversion.AlnumRunsGapFront | src/mypackage2/module2.py:45-47 | characters other than letters and digits before the text start no run |
| CaseConversion.AlnumRunsFront | src/mypackage2/module2.py:45-47 | a run followed by a non-alphanumeric character or by the end comes out whole |
| CaseConversion.SpacedOutRuns | src/mypackage2/module2.py:45-47 | the words to_camel_case splits off are exactly the maximal runs of letters and digits |
| CaseConversion.CamelCaseRuns | src/mypackage2/module2.py:34-51 | the output is "" when there is no run; otherwise the first run lower-cased, then every later run capitalized: its first character upper-cased, the rest lower-cased |
| CaseConversion.LowerConcatCapitalized | src/mypackage2/module2.py:51 | capitalizing words changes no character but its case |
| CaseConversion.CamelCaseContent | src/mypackage2/module2.py:34-51 | the output's characters are the input's letters and digits, in order; only their case changes |
| CaseConversion.CamelCaseShape | src/mypackage2/module2.py:34-51 | The output is "" exactly when the input has no letter or digit. Otherwise it starts with the first of them in lower case and holds only letters and digits. |
| CaseConversion.CamelCaseSpaceExample | tests/test_module2.py:62 | "hello world" becomes "helloWorld" |
| CaseConversion.CamelCaseUnderscoreExample | tests/test_module2.py:63-64 | "snake_case_example" becomes "snakeCaseExample", and "" stays "" |
| CaseConversion.CapitalizeWord | src/mypackage2/module2.py:64 | capitalizing a word gives a word |
| CaseConversion.CapitalizeWords | src/mypackage2/module2.py:64 | capitalizing a list of words gives words |
| CaseConversion.ToTitleCase | src/mypackage2/module2.py:54-64 | the definition: the words of str.split(), each capitalized, joined by single spaces; TitleCaseWords, TitleCaseContent and TitleCaseIdempotent state its meaning |
| CaseConversion.TitleCaseWords | src/mypackage2/module2.py:54-64 | the words of the result are the input's words, each capitalized, so the word count is kept |
| CaseConversion.CapitalizeIdempotent | src/mypackage2/module2.py:64 | capitalizing twice is capitalizing once |
| CaseConversion.TitleCaseIdempotent | src/mypackage2/module2.py:54-64 | converting twice is converting once |
| CaseConversion.TitleCaseContent | src/mypackage2/module2.py:54-64 | only the case of non-whitespace characters and the whitespace between words change |
| CaseConversion.TitleCaseExample | tests/test_module2.py:68 | "hello world" becomes "Hello World" |
| CaseConversion.TitleCaseShoutingExample | tests/test_module2.py:69 | "SHOUTING TEXT" becomes "Shouting Text" |
| TextTransform.SpaceOutNonSlug | src/textkit/transformers.py:18 | same length; [a-z0-9] kept, every other character a space |
| TextTransform.HyphenateSpaceRuns | src/textkit/transformers.py:20 | the first character is kept, or becomes "-" if it is whitespace |
| TextTransform.HyphenateShape | src/textkit/transformers.py:18-20 | after spacing out, hyphenation leaves only [a-z0-9-] with no two hyphens in a row |
| TextTransform.HyphenateAlnums | src/textkit/transformers.py:20 | hyphenating whitespace runs keeps the letters and digits |
| TextTransform.SlugStripShape | src/textkit/transformers.py:21 | stripping hyphens then gives a slug with the same letters and digits |
| TextTransform.SpacedOutAlnums | src/textkit/transformers.py:16-18 | on lower-cased text, spacing out keeps the letters and digits |
| TextTransform.Slugify | src/textkit/transformers.py:6-21 | the definition: lower, space out, hyphenate whitespace runs, strip hyphens; SlugifyShape, SlugifyContent, SlugifyEmpty and SlugifyFixpoint state its meaning |
| TextTransform.SlugifyShape | src/textkit/transformers.py:6-21 | the output holds only [a-z0-9-], never starts or ends with "-", and never has two "-" in a row |
| TextTransform.SlugifyContent | src/textkit/transformers.py:6-21 | the output's letters and digits are the input's, in order and lower-cased |
| TextTransform.SlugifyEmpty | src/textkit/transformers.py:6-21 | the output is "" exactly when the input has no letter and no digit |
| TextTransform.HyphenateRestores | src/textkit/transformers.py:18-20 | spacing out a slug's hyphens and hyphenating again gives the slug back |
| TextTransform.SlugifyFixpoint | src/textkit/transformers.py:6-21 | a slug is returned unchanged |
| TextTransform.SlugifyIdempotent | src/textkit/transformers.py:6-21 | slugifying twice is slugifying once |
| TextTransform.Truncate | src/textkit/transformers.py:24-44 | A length under 5 is the ValueError "Length must be at least 5", and only then. A text that fits is returned as is. Otherwise the result is text[:length - len(suffix)] plus the suffix, with a negative bound counting from the end. |
| TextTransform.TruncateFits | src/textkit/transformers.py:42-44 | With a suffix no longer than the limit, the result never exceeds the limit. When the text is cut, the result is exactly the limit long, ends with the suffix, and starts with a prefix of the text. |
| TextTransform.TruncateExamples | tests/test_module2.py:30-33 | "Hello World" becomes "He..." at 5 and "Hello..." at 8; "Short" stays "Short" at 10; a length of 4 is an error |
| TextTransform.Replace | src/textkit/transformers.py:59 | the definition of str.replace, a left-to-right scan that replaces non-overlapping occurrences, and for an empty pattern inserts the replacement around every character; ReplaceLength, ReplaceAbsent, ReplaceSkip and ReplaceMatch state its meaning |
| TextTransform.ReplaceLength | src/textkit/transformers.py:59 | each replaced occurrence changes the length by the difference of the two strings |
| TextTransform.ReplaceEmptyPatternLength | src/textkit/transformers.py:59 | an empty pattern inserts the replacement len(s) + 1 times |
| TextTransform.ReplaceAbsent | src/textkit/transformers.py:59 | a pattern that does not occur leaves the text unchanged |
| TextTransform.ReplaceBySelf | src/textkit/transformers.py:59 | replacing a string by itself changes nothing |
| TextTransform.ReplaceEach | src/textkit/transformers.py:58-59 | the definition ReplaceAll is proved against: the pairs applied one after the other, in dict order; ReplaceEachAppend and ReplaceEachIdentity state its meaning |
| TextTransform.ReplaceAll | src/textkit/transformers.py:47-60 | the loop applies the pairs one after the other, in order |
| TextTransform.ReplaceEachAppend | src/textkit/transformers.py:58-59 | later pairs see the results of earlier ones: the pairs compose left to right |
| TextTransform.ReplaceEachIdentity | src/textkit/transformers.py:58-59 | no pairs, or pairs mapping strings to themselves, leave the text as it is |
| TextTransformExamples.ReplaceSkip | src/textkit/transformers.py:59 | a stretch holding no first character of the pattern is copied unchanged |
| TextTransformExamples.ReplaceMatch | src/textkit/transformers.py:59 | an occurrence at the front is replaced, and the scan resumes after it |
| TextTransformExamples.ReplaceAllExample | tests/test_module2.py:35-39 | "The quick cat jumped" with cat->dog and quick->slow becomes "The slow dog jumped" |
| TextTransformExamples.SlugifyExamples | tests/unittest_example.py:51-61 | "Hello World" becomes "hello-world", "Testing 123" becomes "testing-123", and "Python 3.9" becomes "python-3-9" |
| TextTransformExamples.SlugifySymbolsExample | tests/test_module2.py:28 | "Special@#$% Characters" becomes "special-characters" |
| TextAnalysis.RemovePunctuation | src/mypackage1/module1.py:18 | only letters, digits and whitespace remain; RemovePunctuationAppend, RemovePunctuationKeeps and RemovePunctuationDrops together say that those are all kept, each where it stood |
| TextAnalysis.RemovePunctuationAppend | src/mypackage1/module1.py:18 | cleaning works piecewise: the result for a + b is the result for a followed by the result for b |
| TextAnalysis.RemovePunctuationKeeps | src/mypackage1/module1.py:18 | letters, digits and whitespace are all kept, each where it stood, so the whitespace between words survives |
| TextAnalysis.RemovePunctuationDrops | src/mypackage1/module1.py:18 | every other character is deleted |
| TextAnalysis.CleanWords | src/mypackage1/module1.py:18-19 | the definition: clean, lower-case, split; CleanWordsShape and CleanWordsContent state its meaning |
| TextAnalysis.CleanWordsShape | src/mypackage1/module1.py:18-19 | every cleaned word is non-empty and made of [a-z0-9] |
| TextAnalysis.CleanWordsContent | src/mypackage1/module1.py:18-19 | the cleaned words, concatenated, are the input's letters and digits, lower-cased |
| TextAnalysis.Tally | src/mypackage1/module1.py:20 | a Counter update adds one entry exactly when the word is new |
| TextAnalysis.TallyKeys | src/mypackage1/module1.py:20 | the keys stay as they are when the word is already a key; otherwise the word is appended at the end |
| TextAnalysis.TallyLookup | src/mypackage1/module1.py:20 | the updated word's count goes up by one and no other count changes |
| TextAnalysis.TallyTotal | src/mypackage1/module1.py:20 | an update raises the total by one |
| TextAnalysis.Count | src/mypackage1/module1.py:20 | the definition of Counter over a word list, one Tally per word in order; CountKeys, CountLookup, CountTotal and CountPositive state its meaning |
| TextAnalysis.WordFrequency | src/mypackage1/module1.py:7-20 | the definition of word_frequency: Count of the cleaned words; WordFrequencyProperties states its meaning |
| TextAnalysis.CountKeys | src/mypackage1/module1.py:20 | the keys are distinct and in first-occurrence order |
| TextAnalysis.CountLookup | src/mypackage1/module1.py:20 | each word's count is its number of occurrences |
| TextAnalysis.CountTotal | src/mypackage1/module1.py:20 | the counts sum to the number of words |
| TextAnalysis.CountPositive | src/mypackage1/module1.py:20 | every count is at least 1 |
| TextAnalysis.WordFrequencyProperties | src/mypackage1/module1.py:7-20 | The keys are distinct, non-empty [a-z0-9] words in first-occurrence order. Each count is the word's number of occurrences and at least 1. The counts sum to the number of cleaned words. |
| TextAnalysis.InsertByCount | src/mypackage1/module1.py:35 | insertion adds exactly one element |
| TextAnalysis.InsertByCountPerm | src/mypackage1/module1.py:35 | insertion is a permutation of the element plus the list |
| TextAnalysis.InsertByCountSorted | src/mypackage1/module1.py:35 | insertion into a list of non-increasing counts keeps the counts non-increasing |
| TextAnalysis.InsertByCountStable | src/mypackage1/module1.py:35 | insertion keeps the relative order of pairs with equal counts |
| TextAnalysis.SortByCount | src/mypackage1/module1.py:35 | the sort keeps the length |
| TextAnalysis.SortByCountSorted | src/mypackage1/module1.py:35 | the sort gives non-increasing counts and is a permutation of its input |
| TextAnalysis.SortByCountStable | src/mypackage1/module1.py:35 | pairs with equal counts keep their input order, as Python's stable sort keeps them under reverse=True |
| TextAnalysis.GetTopWords | src/mypackage1/module1.py:23-35 | the definition: the stable sort by descending count, then the slice [:n]; GetTopWordsLength, GetTopWordsSorted, GetTopWordsPairs, GetTopWordsBest and GetTopWordsStable state its meaning |
| TextAnalysis.GetTopWordsLength | src/mypackage1/module1.py:23-35 | for n >= 0 there are min(n, distinct words) pairs; for n < 0 the last -n are dropped |
| TextAnalysis.GetTopWordsSorted | src/mypackage1/module1.py:35 | the counts are non-increasing |
| TextAnalysis.GetTopWordsPairs | src/mypackage1/module1.py:34-35 | every pair returned is a (word, count) pair of word_frequency; none is invented or altered |
| TextAnalysis.GetTopWordsBest | src/mypackage1/module1.py:34-35 | no pair left out has a higher count than a pair returned |
| TextAnalysis.GetTopWordsStable | src/mypackage1/module1.py:35 | among equal counts, the pairs returned are the first ones in first-occurrence order |
| TextAnalysis.SentenceCount | src/mypackage1/module1.py:54-65 | the count is at most the length of the text |
| TextAnalysis.SentenceCountAppend | src/mypackage1/module1.py:65 | the count of a concatenation is the sum of the counts |
| TextAnalysis.SentenceCountZero | src/mypackage1/module1.py:54-65 | the count is 0 exactly when there is no '.', '!' or '?' |
| TextAnalysisExamples.WordFrequencyExample | tests/test_module1.py:21-25 | "hello world hello" gives {"hello": 2, "world": 1} |
| TextAnalysisExamples.GetTopWordsExample | tests/test_module1.py:27-31 | "a b c a b a" with n = 2 gives [("a", 3), ("b", 2)] |
| TextAnalysisExamples.SentenceCountExample | tests/test_module1.py:39-45 | the three-sentence text counts 3; "" counts 0 |
| TextProcessing.FrontTag | src/mypackage1/subpackage/module3.py:16 | a tag matched after "#" is non-empty and is the text right after the "#" |
| TextProcessing.ExtractHashtags | src/mypackage1/subpackage/module3.py:6-17 | every tag is non-empty and made of word characters |
| TextProcessing.ExtractHashtagsByPosition | src/mypackage1/subpackage/module3.py:6-17 | the left-to-right scan equals the reference definition: the maximal word run after each "#" that starts a match, in order of appearance |
| TextProcessing.TagsByPosition | src/mypackage1/subpackage/module3.py:16-17 | a reference definition: for each position, in order, the tag of a "#" whose match starts there; ExtractHashtagsByPosition equates the scan with it |
| TextProcessing.FrontTagMaximal | src/mypackage1/subpackage/module3.py:16 | a tag is a maximal run: the character after it is not a word character |
| TextProcessing.SplitAtTerminators | src/mypackage1/subpackage/module3.py:31 | the split gives at least one piece, and no piece holds '.', '!' or '?' |
| TextProcessing.SplitAtTerminatorsCount | src/mypackage1/subpackage/module3.py:31 | the split gives one more piece than there are maximal runs of '.', '!', '?' |
| TextProcessing.TerminatorRunsZero | src/mypackage1/subpackage/module3.py:31 | there are no runs exactly when there is no terminator |
| TextProcessing.TerminatorRunsAtMost | src/mypackage1/subpackage/module3.py:31 | there are no more runs than terminators |
| TextProcessing.ReadabilityCounts | src/mypackage1/subpackage/module3.py:30-35 | the definition of the guard and the integer counts of calculate_readability; ReadabilityTooShort states its meaning |
| TextProcessing.ReadabilityTooShort | src/mypackage1/subpackage/module3.py:30-35 | The guard answers "too short" exactly when the text has no whitespace-separated word or no terminator. Otherwise the sentence count is the number of terminator runs and the word count is positive. |
| TextProcessing.Sentences | src/mypackage1/subpackage/module3.py:61 | the split gives at least one piece |
| TextProcessing.SentencesShape | src/mypackage1/subpackage/module3.py:61 | every piece but the last ends with '.', '!' or '?', and no piece contains a break |
| TextProcessing.SentencesLead | src/mypackage1/subpackage/module3.py:61 | the first piece is a prefix of the text; every later piece starts with a non-space |
| TextProcessing.SentencesJoin | src/mypackage1/subpackage/module3.py:61 | where every break is a single space, joining the pieces with spaces gives the text back |
| TextProcessing.SentencesOfJoin | src/mypackage1/subpackage/module3.py:61-67 | splitting pieces of that shape, joined by single spaces, gives the pieces back |
| TextProcessing.Summarize | src/mypackage1/subpackage/module3.py:50-67 | the definition: the text itself when it has no more pieces than asked for, otherwise the first sentence_count pieces joined by spaces; SummarizeSentences and SummarizePrefix state its meaning |
| TextProcessing.SummarizePrefix | src/mypackage1/subpackage/module3.py:50-67 | where every break is a single space, the summary is a prefix of the text |
| TextProcessing.SummarizeSentences | src/mypackage1/subpackage/module3.py:50-67 | With no more pieces than the count, the text is returned unchanged. Otherwise, for a positive count, splitting the summary gives exactly the first sentence_count pieces. |

## Left out

- `average_word_length` and the numeric scores of `calculate_readability`: these use floating-point division, rounding and the Flesch-Kincaid coefficients. Only the "text too short" guard and the integer counts it uses are modelled.
- `is_email`, `is_url`, `extract_emails`, `is_date`, `format_date`, `dict_to_json`: these depend on a full regular-expression engine, `datetime` or `json`. Validators are modelled as named functions from a value to a verdict, so such predicates can appear only as opaque validators.
- The command-line front ends, the console rendering, file and stdin reading, and the packaging scripts: these are I/O and metadata.
- Unicode: every character class and case mapping is ASCII. Non-ASCII characters are neither letters, digits, word characters nor whitespace, and the case mappings leave them alone.
- Python types beyond None, bool, int and str: a record value is one of these four, and a field demands bool, int or str.
- Validators.IsNumberInRange: models integer values and bounds only, not floats.
- The validator's `__name__` is a stored string (lambdas are "<lambda>"). Runtime introspection is not modelled.
- TextAnalysis.SentenceCount: its own contract states only a bound. Its meaning (the number of '.', '!' and '?') is stated by SentenceCountZero, SentenceCountAppend and the examples.
- TextProcessing.SummarizeSentences: states the split of the summary only for a positive sentence_count. With a negative count the summary drops that many pieces from the end, as Python's negative slice does; with 0 it is "".
- TextProcessing.SummarizePrefix: states the prefix property only for texts whose every sentence break is a single space. Wider whitespace between sentences is replaced by one space.
