# Documentation example verifier and crypto-tracker helpers, in Dafny

This project models three pieces of the repository:

- `scripts/verify_docs.py` checks the code examples embedded in Markdown documentation. The model covers four parts:
  - the extraction of fenced code blocks with the pattern ```` ```(\w+)\n(.*?)\n``` ```` (DOTALL, `re.finditer`), with each example's line number and five-line context;
  - the per-language strategies, whose skip heuristics are decided before any external call;
  - the dispatch on the lower-cased tag;
  - the `DocVerifier` accumulator, which sorts examples into `passed`, `failed` and `skipped`, and the exit code of its summary.
- `examples/crypto-tracker/scripts/validate_data.py`: `validate_price_data` builds an ordered list of errors for a price snapshot.
- `examples/crypto-tracker/scripts/analyze_data.py`: `calculate_statistics` computes count, total, average, highest and lowest price.

Modules:

| file | module | what it holds |
|---|---|---|
| `Wrappers.dfy` | `Wrappers` | `Option`, `Result` |
| `Text.dfy` | `Text` | the Python `str` operations used: `in`, `count`, `split`/`join` on one separator, `strip`, `lower` |
| `Extraction.dfy` | `Extraction` | `CodeExample`, the scanner for the pattern, and a reference definition of a match with soundness and completeness lemmas |
| `Strategies.dfy` | `Strategies` | the bash, Python and TOML strategies and `verify_example` |
| `Verifier.dfy` | `Verifier` | the class `DocVerifier` with its list fields, `extract_examples`, `verify_file` and the summary |
| `PriceValidation.dfy` | `PriceValidation` | `validate_price_data`, a loop that appends errors |
| `PriceStatistics.dfy` | `PriceStatistics` | `calculate_statistics` over exact reals |

The shell run, the `py_compile` run and `tomllib.loads` are foreign calls. Each one is a parameter: a function from the snippet's code to its outcome, bundled in `Strategies.Oracles`. The outcomes are:

- shell: completed with some exit status, timed out, or raised;
- compile: finished with a return code and stderr, timed out, or raised;
- TOML: parsed or rejected with a message.

A file's content is `Option<string>`, where `None` means the file does not exist.

The model follows the code, not its comments or the surrounding documentation, in these places:

- A skip heuristic answers `(True, None)`, so a skipped example lands in `passed`.
- No strategy answers `(False, None)` or `(False, "")`. So the `else` branch of `verify_file` is never taken and `skipped` stays empty. `Verifier.Buckets` proves this.
- The documentation describes blocks as delimited by fence lines. The regex also accepts a closing ```` ``` ```` that is not alone on its line, e.g. `` x\n```more ``.
- A block with no body line (```` ```bash\n``` ````) does not match on its own. The opener's newline is consumed, so the three backticks right after it are not a closing sequence. If a later newline + fence follows, the match runs on to it and the body begins with those backticks.
- Tags outside the table (and the declarative tags yaml, json, md, …) pass without any check.

## Model

| member | source | states |
|---|---|---|
| Text.LowerIdempotent | scripts/verify_docs.py:181 | lower-casing is idempotent, so the dispatch sees the same tag however often it is lowered |
| Text.Lower | scripts/verify_docs.py:181 | ASCII lowering, as `lower()` acts on ASCII text: it keeps the length, turns each of 'A'..'Z' into its lower-case letter ('a'..'z', 32 code points on), leaves no upper-case ASCII letter, and keeps every other character in place |
| Text.Contains | scripts/verify_docs.py:97 | `sub in s` holds for the empty `sub`, and only when `sub` is no longer than `s` |
| Text.ContainsIff | scripts/verify_docs.py:97 | Python's `sub in s` holds exactly when `sub` occurs at some index of `s` |
| Text.ContainsTransitive | scripts/verify_docs.py:132 | a substring of a substring of `s` is a substring of `s` |
| Text.CountChar | scripts/verify_docs.py:75 | `count('\n')` is at most the length, and zero exactly when no newline occurs |
| Text.CountCharConcat | scripts/verify_docs.py:75 | `count('\n')` of a concatenation is the sum of the counts |
| Text.CountCharSlice | scripts/verify_docs.py:75 | a slice has no more newlines than the whole text |
| Text.Split | scripts/verify_docs.py:79 | `split` always returns at least one piece |
| Text.SplitPiecesFree | scripts/verify_docs.py:79 | no piece of `split(sep)` contains the separator |
| Text.Join | scripts/verify_docs.py:80 | `'\n'.join(parts)` starts with the first piece and is at least `len(parts) - 1` long |
| Text.JoinSplit | scripts/verify_docs.py:79-80 | `sep.join(s.split(sep)) == s` |
| Text.JoinCount | scripts/verify_docs.py:80 | joining n separator-free pieces yields exactly n-1 separators |
| Text.LastN | scripts/verify_docs.py:79 | `[-5:]` keeps at most five pieces, and all of them when there are fewer |
| Text.LastNSuffix | scripts/verify_docs.py:79 | what `[-5:]` keeps is a suffix of the list |
| Text.Strip | scripts/verify_docs.py:80 | `strip()` is no longer than its input and neither begins nor ends with white space |
| Text.SkipSpaceStops | scripts/verify_docs.py:80 | leading stripping stops at the first non-whitespace character and skips only whitespace |
| Text.TrimEndStops | scripts/verify_docs.py:80 | trailing stripping stops after the last non-whitespace character and drops only whitespace |
| Text.StripIsSlice | scripts/verify_docs.py:80 | `strip()` is a slice `s[i:j]` of its input, and everything before `i` and from `j` on is white space |
| Extraction.MatchSpan | scripts/verify_docs.py:67-72 | a match spans exactly fence + tag + newline + body + newline + fence |
| Extraction.FenceAtIff | scripts/verify_docs.py:67 | the character test for three backticks agrees with substring occurrence |
| Extraction.CloseAtIff | scripts/verify_docs.py:67 | the character test for the closing newline and fence agrees with substring occurrence |
| Extraction.WordRun | scripts/verify_docs.py:67 | `(\w+)` is greedy: the run holds only word characters and is followed by a non-word character or the end |
| Extraction.WordRunExact | scripts/verify_docs.py:67 | a word run that a newline follows is the greedy run |
| Extraction.FindClose | scripts/verify_docs.py:67 | the lazy `(.*?)` stops at the first closing newline and fence; none stands between the start and it |
| Extraction.MatchAt | scripts/verify_docs.py:67-68 | a match found at `p` starts at `p` and ends after it, within the text |
| Extraction.BodyWithoutClose | scripts/verify_docs.py:67 | a body cut before the first closing sequence contains none |
| Extraction.NoCloseBefore | scripts/verify_docs.py:67 | a body free of the closing sequence has no closing sequence across its end |
| Extraction.FirstClose | scripts/verify_docs.py:67 | the lazy body ends at the closing sequence of any valid match |
| Extraction.MatchAtSound | scripts/verify_docs.py:67-72 | every match found satisfies the reference definition of the pattern (fence, non-empty word tag, newline, body free of the closing sequence, closing sequence) |
| Extraction.MatchTag | scripts/verify_docs.py:67 | in a match, the tag is exactly the greedy word run after the opening fence |
| Extraction.MatchBody | scripts/verify_docs.py:67 | in a match, the lazy body ends at the match's closing sequence |
| Extraction.MatchAtComplete | scripts/verify_docs.py:67-72 | every match of the reference definition at `p` is the one found there, so the two agree exactly |
| Extraction.Scan | scripts/verify_docs.py:68-70 | every match returned from position `p` lies within the text at or after `p` |
| Extraction.ScanOrdered | scripts/verify_docs.py:68-70 | `finditer`'s matches come in document order and do not overlap |
| Extraction.ScanSound | scripts/verify_docs.py:67-72 | every returned match is a match of the pattern at its start |
| Extraction.CoveringMatch | scripts/verify_docs.py:68-70 | any position where the pattern matches lies inside some returned match (with its index) |
| Extraction.ScanMissesNothing | scripts/verify_docs.py:68-70 | the scan misses no position where the pattern matches |
| Extraction.ScanWithoutFence | scripts/verify_docs.py:67-70 | without three backticks from `p` on, the scan returns nothing |
| Extraction.ContextLines | scripts/verify_docs.py:78-80 | the context (last five lines before the block, joined and stripped) holds at most four newlines |
| Extraction.Context | scripts/verify_docs.py:78-80 | the context is stripped: it neither begins nor ends with white space |
| Extraction.ToExample | scripts/verify_docs.py:71-88 | the example keeps the file path and both groups; its line number lies between 1 and the number of lines of the text; its context holds at most four newlines |
| Extraction.ExamplesOf | scripts/verify_docs.py:70-89 | one example per match, each carrying the file's path |
| Extraction.ExamplesOfAt | scripts/verify_docs.py:70-89 | the i-th example is built from the i-th match |
| Extraction.Extracted | scripts/verify_docs.py:56-92 | a missing file yields no example; otherwise one example per match of the scan, each carrying the file's path |
| Extraction.ExtractedAt | scripts/verify_docs.py:70-89 | the i-th extracted example is built from the i-th match of the scan |
| Extraction.ExtractedWellFormedAt | scripts/verify_docs.py:71-88 | for each example: 1 ≤ line number ≤ lines of the file; the tag is a non-empty run of word characters; the body has no newline + fence; the context has at most four newlines; the path is the file's |
| Extraction.ExtractedWellFormed | scripts/verify_docs.py:71-88 | the same facts for every extracted example |
| Extraction.ExtractedSpans | scripts/verify_docs.py:67-72 | the text of each match is fence + language + newline + code + newline + fence |
| Extraction.ExtractedInOrder | scripts/verify_docs.py:70-89 | line numbers of the extracted examples strictly increase, since each match holds the newline after its tag |
| Extraction.NoFenceNoExamples | scripts/verify_docs.py:67-70 | a document without three backticks yields no example |
| Strategies.NameRun | scripts/verify_docs.py:101 | `[A-Z_]+` is greedy: the run holds only placeholder characters and stops at the first other one |
| Strategies.PlaceholderAtIff | scripts/verify_docs.py:101 | the placeholder test at one index holds exactly when some `${NAME}` starts there |
| Strategies.PlaceholderFromIff | scripts/verify_docs.py:101 | the search from an index finds a placeholder exactly when one starts at or after it |
| Strategies.HasPlaceholder | scripts/verify_docs.py:101 | `re.search(r'\${[A-Z_]+}', code)` succeeds exactly when the code contains `$` `{` one or more of A-Z or `_` `}` |
| Strategies.VerifyBash | scripts/verify_docs.py:94-127 | success exactly when a skip heuristic applies or the run completes (whatever its exit status); success exactly when there is no message; a failure always carries a non-empty message |
| Strategies.VerifyPython | scripts/verify_docs.py:129-161 | success exactly when skipped or the syntax check finishes with return code 0; success exactly when there is no message; a failure always carries a non-empty message |
| Strategies.VerifyToml | scripts/verify_docs.py:163-177 | success exactly when the parser accepts; otherwise the message is "TOML parsing error: " + the parser's message |
| Strategies.VerifyExample | scripts/verify_docs.py:179-194 | a shell tag succeeds exactly when a shell skip applies or the run completes; a Python tag exactly when a Python skip applies or the syntax check returns 0, and always when the code holds "..."; a TOML tag exactly when the parser accepts, else with the parser's prefixed message; declarative and unknown tags pass; success exactly when there is no message, and a failure always carries a non-empty one |
| Strategies.DispatchIgnoresCase | scripts/verify_docs.py:181 | the strategy for a tag and for its lower-case form are the same |
| Strategies.StrategyFor | scripts/verify_docs.py:181-194 | a tag goes to bash exactly when its lower case is bash/sh/shell/console, to Python exactly for python/py, to TOML exactly for toml, to the declarative branch exactly for yaml/yml/json/markdown/md/text, and every other tag is unrecognized |
| Strategies.ShellSkipRunsNothing | scripts/verify_docs.py:97-106 | when a skip heuristic applies, the verdict is `(True, None)` whatever the shell would do |
| Strategies.ShellPlaceholderSkipped | scripts/verify_docs.py:100-102 | a `${NAME}` placeholder makes a shell snippet pass unrun |
| Strategies.ShellOutcomes | scripts/verify_docs.py:108-127 | a completed run passes; a timeout gives "Command timed out after 10 seconds"; an exception gives "Execution error: " + its text |
| Strategies.PartialPythonIsEllipsis | scripts/verify_docs.py:132 | the partial-code test is equivalent to `'...' in code` |
| Strategies.EllipsisPythonSucceeds | scripts/verify_docs.py:132-133 | Python code containing "..." passes without being compiled |
| Strategies.PythonOutcomes | scripts/verify_docs.py:146-161 | for a snippet that is not skipped, a syntax check that times out gives "Verification timed out after 5 seconds", and one that raises gives "Verification error: " + the exception's text |
| Strategies.PythonSyntaxOutcome | scripts/verify_docs.py:153-156 | a compiled snippet passes exactly on return code 0; otherwise the message is "Syntax error: " + stderr |
| Strategies.UnknownEmptySucceeds | scripts/verify_docs.py:192-194 | an empty example under an unknown tag passes |
| Verifier.PassedOf | scripts/verify_docs.py:209-212 | at most one entry per example, and each entry's verdict is a success |
| Verifier.FailedOf | scripts/verify_docs.py:214-215 | at most one entry per example, and each entry is an example whose verdict is a failure with exactly that non-empty message |
| Verifier.SkippedOf | scripts/verify_docs.py:217-218 | at most one entry per example, and each entry is a failed example with "Unknown reason" |
| Verifier.Buckets | scripts/verify_docs.py:209-219 | every succeeding example is in passed; every failing example is in failed with its verdict's message; the two lists together are exactly as long as the examples; skipped stays empty |
| Verifier.BucketsFromExamples | scripts/verify_docs.py:209-216 | passed and failed hold nothing but the file's own examples |
| Verifier.LandsInBucket | scripts/verify_docs.py:209-216 | the i-th example is in the list its verdict selects, with its message when it failed |
| Verifier.Preview | scripts/verify_docs.py:244 | the preview is a prefix of the code: the whole code when it has at most 100 characters, otherwise exactly its first 100 |
| Verifier.DocVerifier.constructor | scripts/verify_docs.py:37-42 | all four lists start empty |
| Verifier.DocVerifier.ExtractExamples | scripts/verify_docs.py:56-92 | the loop over `finditer` returns exactly the extracted examples; a missing file gives none |
| Verifier.DocVerifier.VerifyFile | scripts/verify_docs.py:196-219 | `examples` grows by the file's examples in order; `passed` and `failed` grow by exactly the passed and failed examples of the file in order (which Verifier.Buckets shows is every example of the file, each once); `skipped` is unchanged |
| Verifier.DocVerifier.VerifyAll | scripts/verify_docs.py:201-219 | after extraction: `examples` grows by the examples; the append loop makes `passed` and `failed` grow by exactly the passed and failed examples in order; `skipped` is unchanged; the four lists keep their counts in step |
| Verifier.DocVerifier.Summarize | scripts/verify_docs.py:221-251 | the counts of the four lists; one detail per failure in order; exit code 1 exactly when some example failed, 0 exactly when all passed |
| PriceValidation.EntryErrors | examples/crypto-tracker/scripts/validate_data.py:24-33 | one entry yields at most three errors, and none exactly when it has symbol, timestamp and a positive price |
| PriceValidation.EntryErrorsShape | examples/crypto-tracker/scripts/validate_data.py:23-33 | every error of one entry names that entry, and the errors come in the order symbol, price, timestamp |
| PriceValidation.ErrorsOf | examples/crypto-tracker/scripts/validate_data.py:23-33 | n checked entries yield at most 3·n errors |
| PriceValidation.ValidatePriceData | examples/crypto-tracker/scripts/validate_data.py:11-35 | no `prices` field gives exactly one "missing field" error and no entry is examined; otherwise the errors are those of all entries in order; the flag is true exactly when the list is empty |
| PriceValidation.ErrorSource | examples/crypto-tracker/scripts/validate_data.py:23-33 | every reported error names a checked entry and is one of that entry's own errors |
| PriceValidation.ErrorsIncluded | examples/crypto-tracker/scripts/validate_data.py:23-33 | every error of a checked entry is reported |
| PriceValidation.ErrorsOfMembership | examples/crypto-tracker/scripts/validate_data.py:23-33 | an error is reported exactly when some checked entry produces it |
| PriceValidation.ErrorsOrdered | examples/crypto-tracker/scripts/validate_data.py:23-33 | errors are strictly ordered by entry index, then by check (symbol, price, timestamp); the missing-field error never appears among them |
| PriceValidation.MissingPriceReported | examples/crypto-tracker/scripts/validate_data.py:27-30 | an entry without a price is reported as missing its price and never as having an invalid one |
| PriceValidation.NonPositivePriceReportedOnce | examples/crypto-tracker/scripts/validate_data.py:29-30 | a price ≤ 0 gives exactly one price error for its entry: an invalid-price error with that price, at the returned position |
| PriceValidation.PositivePriceNotReported | examples/crypto-tracker/scripts/validate_data.py:27-30 | a positive price gives no price error |
| PriceValidation.NoErrorsIffAllValid | examples/crypto-tracker/scripts/validate_data.py:23-35 | the list validates with no errors exactly when every entry has symbol, timestamp and a positive price; the empty list validates |
| PriceValidation.NatToString | examples/crypto-tracker/scripts/validate_data.py:25 | the f-string renders an index as a non-empty string of decimal digits |
| PriceValidation.NatToStringRoundTrip | examples/crypto-tracker/scripts/validate_data.py:25 | reading the digits back gives the index, so distinct entries get distinct texts |
| PriceValidation.Message | examples/crypto-tracker/scripts/validate_data.py:17-33 | the missing-field text is "Missing 'prices' field"; every entry error's text starts with "Entry <idx>: " |
| PriceStatistics.Prices | examples/crypto-tracker/scripts/analyze_data.py:14 | the list of prices has one value per record, each that record's price |
| PriceStatistics.Max | examples/crypto-tracker/scripts/analyze_data.py:18 | `max` is one of the values and at least every value |
| PriceStatistics.Min | examples/crypto-tracker/scripts/analyze_data.py:19 | `min` is one of the values and at most every value |
| PriceStatistics.FirstPriced | examples/crypto-tracker/scripts/analyze_data.py:21-22 | `next(...)` gives the first record with the price, and no earlier record has it |
| PriceStatistics.CalculateStatistics | examples/crypto-tracker/scripts/analyze_data.py:12-36 | fails exactly on the empty list |
| PriceStatistics.Mean | examples/crypto-tracker/scripts/analyze_data.py:17 | the average times the count gives back the total |
| PriceStatistics.SumBounds | examples/crypto-tracker/scripts/analyze_data.py:16 | `sum` (Sum) lies between n·lo and n·hi when every value lies between lo and hi |
| PriceStatistics.MeanBounds | examples/crypto-tracker/scripts/analyze_data.py:17 | bounds on the total carry over to the average |
| PriceStatistics.MeanBetweenExtremes | examples/crypto-tracker/scripts/analyze_data.py:16-19 | min ≤ average ≤ max |
| PriceStatistics.CountTotalAverage | examples/crypto-tracker/scripts/analyze_data.py:14-27 | the count is the number of records, the total is the sum of the prices, and the average is that total divided by the count |
| PriceStatistics.Extremes | examples/crypto-tracker/scripts/analyze_data.py:18-35 | the highest price is ≥ every price and is some record's; the lowest is ≤ every price and is some record's |
| PriceStatistics.AverageBetweenExtremes | examples/crypto-tracker/scripts/analyze_data.py:16-35 | lowest price ≤ average price ≤ highest price |
| PriceStatistics.ExtremeSymbols | examples/crypto-tracker/scripts/analyze_data.py:21-35 | the reported symbols are those of the first record at the highest and at the lowest price |

## Left out

- `log` and every `print` in `scripts/verify_docs.py`. They are console output; only the returned values and the exit decision are modelled.
- `find_documentation_files` and `main` in `scripts/verify_docs.py`. They are a filesystem glob and command-line handling. A file's existence and content are a parameter (`Option<string>`).
- Verifier.DocVerifier.ExtractExamples: the `Some` content stands for the result of `file_path.read_text()` (`scripts/verify_docs.py:62`), and its failures are not modelled. That call decodes with the locale's encoding and translates `\r\n`. It can raise, for example `UnicodeDecodeError`, or `IsADirectoryError` for a directory that the `*.md` glob matches. Nothing catches that error, so it aborts the whole run.
- The shell run through `subprocess.run`, `tempfile.TemporaryDirectory`, `py_compile` and `tomllib`/`tomli`. They are foreign calls, modelled only by their outcomes in `Strategies.Oracles`.
- Extraction.WordRun: `\w` is taken as ASCII letters, digits and `_`, while Python's `\w` also accepts non-ASCII letters and digits. Tags with such characters match in Python but not in the model.
- Text.Lower: only ASCII letters are lowered. Python's `lower()` also lowers non-ASCII capitals (`'É'` to `'é'`), maps the Kelvin sign to ASCII `'k'`, and turns `'İ'` into two characters, while the model leaves every non-ASCII character as it is. No verdict changes. A tag that the two lowerings treat differently holds a non-ASCII character, so the model calls it unrecognized. Python calls it unrecognized too, except a "markdown" spelled with the Kelvin sign, which Python calls declarative. Both branches pass.
- Strategies.DispatchIgnoresCase: `lower()` is modelled on ASCII letters only. Tags are compared against ASCII names, but a non-ASCII tag whose Python lower case is ASCII (such as the Kelvin sign) would dispatch differently.
- Verifier.DocVerifier.Summarize: the printed text is not modelled, including the "..." appended after each code preview. `sys.exit` is modelled as the returned `exitCode`.
- `examples/crypto-tracker/scripts/fetch_prices.py` and `generate_report.py`. They are HTTP, JSON and HTML output with float formatting.
- The `main` functions of `validate_data.py` and `analyze_data.py`. They do JSON file loading, printing and timestamps.
- PriceValidation.Message: Python's rendering of a float in "Invalid price {…}" is a parameter, not modelled.
- PriceValidation.ValidatePriceData: an entry is a record with optional fields, so an entry that is not a dict is not representable. In Python, a list or string entry does not raise at `validate_data.py:24`: the `in` tests become membership or substring tests. An entry such as `[]` or `"abc"` gets the three "Missing …" errors. Only such an entry that contains `"price"` raises, when it is indexed at `validate_data.py:29`. A non-numeric price, which raises at the `<= 0` comparison, is not representable either.
- PriceStatistics.CalculateStatistics: prices are exact reals, so floating-point rounding of the sum and the average is not modelled. The empty list, which raises in Python, is the `EmptyPriceList` failure. A record without `symbol` or `price` is not representable. In Python, a missing `price` always raises `KeyError` while the prices are collected (`analyze_data.py:14`). A missing `symbol` raises only when the record is the first one at the highest or the lowest price (`analyze_data.py:29`, `:33`); otherwise Python returns the statistics normally.
- PriceValidation.ValidatePriceData: a price is a real number, so NaN and ±infinity are not modelled. They can reach the validator, since `float(...)` in `fetch_prices.py` accepts "nan" and "inf" and `json` writes and reads them back. In Python `nan <= 0` is false, so an entry priced NaN gets no price error and can validate. In the model every price is a real number, so `PriceValidation.NoErrorsIffAllValid`'s "positive price" does not cover that case.
- PriceStatistics.CalculateStatistics: NaN and ±infinity prices are not modelled. With a NaN among the prices, Python's `sum` and the average are NaN, and `max`/`min` may return NaN. The `next(...)` search for a record equal to NaN then raises `StopIteration`, because NaN equals nothing. So in Python a non-empty list can also fail, while in the model it fails only when empty.
- `tests/conftest.py`. It holds test fixtures only.
