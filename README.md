# Apple offer-code reservoir: a Dafny model

The repository collects Apple Entertainment offer codes. A browser clicks a service's redeem
button, and the code is read off the redirect URL (`...code=XXXX...`). Several front ends use this:

- **Generator service** (`key_generator_service.py`): one worker per service keeps a reservoir
  file of codes topped up to `MAX_CODES`, and a monitor folds the workers' depth reports into a
  status map.
- **Generator bot** (`telegram_bot_with_generator.py`): serves codes out of those reservoirs. It
  falls back to acquiring codes on the spot when a reservoir runs dry.
- **Stand-alone bot** (`simple_app_telegram.py`): acquires fresh codes for every request and
  appends each one to the service's file.
- **One-shot extractors** (`ubuntu_app.py`, `app.py`): find the code in a redirect URL and
  append it to the service's file. `app.py` looks in the `returnPath` query parameter first.
- **Reader** (`example_usage.py`): lists the codes saved for a service.

What the model covers:

- Each reservoir is a text file in a directory, modelled by `Files.FileSystem`. It holds a
  map from path to contents and the open faults: the paths whose `open(..., 'r')` raises and,
  separately, those whose `open(..., 'a')` and `open(..., 'w')` raise. A file can therefore be
  readable but read-only.
- `TextLines.Lines` is Python's `readlines`, and `TextLines.Concat` is `writelines`.
- The queue laws are proved over these: FIFO order, depth +1 on save and -1 on pop, and the file
  staying newline-terminated.
- The URL scan `re.search(r'code=([A-Z0-9]+)', url)` is `CodeExtraction.SearchCode`. It is proved
  leftmost and maximal.
- The bots' allow-list, count clamp, take-or-fallback and drain/fallback loops are modelled as
  written. The browser is an input:
  - `Option<string>` for one acquisition;
  - `nat -> Option<string>` for the i-th of several;
  - the redirect URL, for the scripts whose extraction is in view.
- Random waits are inputs bounded by the `randint` range the source draws from.

Modules:

| module | models |
|---|---|
| `Wrappers` | `Option` and Python truthiness of `Optional[str]` |
| `Text` | `str.strip`, `str.lower`, `in` on strings, `str.split(",")` and the `[x for x in xs if x]` filter |
| `PyInt` | `int(s)` on decimal text, and `str(n)` |
| `TextLines` | `readlines`, `writelines` |
| `Files` | the directory of code files and `open(..., 'a' / 'w')` |
| `CodeExtraction` | `re.search(r'code=([A-Z0-9]+)', s).group(1)` |
| `KeyGeneratorService` | `key_generator_service.py` |
| `BotCommon` | the allow-list and count clamp shared word for word by both bots |
| `TelegramBotWithGenerator` | `telegram_bot_with_generator.py` |
| `SimpleAppTelegram` | `simple_app_telegram.py` |
| `UbuntuApp` | `ubuntu_app.py` |
| `Config`, `App` | `config.py` (constants only), `app.py` |
| `ExampleUsage` | `example_usage.py` |

## Model

| member | source | states |
|---|---|---|
| Files.FileSystem.Append | key_generator_service.py:190-191 | Opening a path in append mode and writing text adds exactly that text at the end, creating the file if needed. A path whose writing modes raise leaves the directory unchanged and reports failure. Read faults play no part. |
| Files.FileSystem.Overwrite | key_generator_service.py:219-220 | Opening in write mode replaces the whole file with the new text, or fails with no change when the writing modes raise. |
| TextLines.Lines | key_generator_service.py:210 | `readlines` is a cut of the text: its pieces concatenate back to the text, and there are none exactly when the text is empty. `LinesWellFormed` and `LinesOfConcat` state the rest. |
| TextLines.LinesWellFormed | key_generator_service.py:210 | `readlines` gives non-empty pieces. Each ends in `"\n"`, except possibly the last. All of them end in `"\n"` when the text does. |
| TextLines.LinesOfConcat | key_generator_service.py:210-220 | Writing well-formed lines with `writelines` and reading them back with `readlines` gives the same lines. |
| TextLines.LinesOfTail | key_generator_service.py:219-220 | Rewriting a file with all lines but the first reads back as exactly those lines. |
| TextLines.LinesOfAppendedLine | key_generator_service.py:190-191 | Appending `x + "\n"` to an empty or terminated text adds exactly one line, and the text stays terminated. |
| TextLines.ConcatAppend | key_generator_service.py:220 | `writelines` of two parts is the two texts one after the other. |
| Text.Strip | key_generator_service.py:216 | `strip` gives no longer a string, with no whitespace at either end. `StripDropsOnlySpace` says exactly what it removes. |
| Text.StripDropsNewline | key_generator_service.py:216 | Stripping a line ignores its newline. |
| Text.StripDropsOnlySpace | key_generator_service.py:216 | `strip` keeps one contiguous piece of its input and removes only whitespace before and after it. |
| Text.StripOfTrimmed | example_usage.py:52 | `strip` leaves a string without whitespace at either end unchanged. |
| Text.Split | telegram_bot_with_generator.py:34 | `split(",")` gives at least one piece, no piece holds a comma, and joining the pieces with commas restores the input. |
| Text.SplitJoin | telegram_bot_with_generator.py:34 | `split` undoes `join` on comma-free pieces. |
| Text.NonEmptyKept | telegram_bot_with_generator.py:34 | The `if x` filter keeps only non-empty strings, and only strings of the input. |
| Text.NonEmptyOfAppend | example_usage.py:52 | The filter works element by element across concatenation. |
| Text.Lower | telegram_bot_with_generator.py:177 | `lower` maps each ASCII capital to its small letter and leaves every other character alone. |
| PyInt.ParseInt | telegram_bot_with_generator.py:188 | `int(s)` succeeds only on optional surrounding whitespace around an optional sign and at least one decimal digit. Every other text raises `ValueError`, here `None`. |
| PyInt.ParseIntOfIntToString | telegram_bot_with_generator.py:188 | `int(str(n)) == n` for every integer `n`. |
| CodeExtraction.SearchCode | ubuntu_app.py:83 | A match is a non-empty run of A–Z/0–9. There is no match exactly when no `code=` is followed by such a character. |
| CodeExtraction.SearchCodeIsLeftmostMaximal | ubuntu_app.py:83-85 | The search returns `v` iff `code=` + `v` starts at the leftmost `code=` followed by a code character, and `v` runs to the first non-code character or the end. |
| CodeExtraction.SearchCodeNeedsKey | ubuntu_app.py:82 | A match implies that `"code="` occurs in the string. |
| CodeExtraction.SearchCodeExample | ubuntu_app.py:83 | `code=AB1cd` gives `AB1`. |
| CodeExtraction.RunEndUnique | ubuntu_app.py:83 | There is exactly one end of the maximal `[A-Z0-9]+` run that starts at a given index. |
| Wrappers.TruthyValues | telegram_bot_with_generator.py:200-203 | `if code: codes.append(code)` keeps at most one code per attempt. |
| Wrappers.TruthyValuesKept | telegram_bot_with_generator.py:200-203 | No kept code is empty, and every attempt's code is kept, in order, when every attempt is truthy. |
| Wrappers.TruthyValuesAppend | telegram_bot_with_generator.py:200-203 | The kept codes of two runs of attempts, one after the other, are the kept codes of each run in that order. |
| KeyGeneratorService.SaveCode | key_generator_service.py:186-193 | `save_code` appends `code + "\n"` to the service's file and keeps every existing character. A failed open raises and changes nothing. |
| KeyGeneratorService.CountCodes | key_generator_service.py:195-201 | `count_codes`: a count of 0 means exactly that the file is missing or empty. `None` is the `OSError` of an existing unreadable file. |
| KeyGeneratorService.PopStored | key_generator_service.py:203-226 | What `get_stored_code` returns and leaves behind: no code means no file changed. `PopStoredNothing` and `PopStoredTakesHead` give both cases in full. |
| KeyGeneratorService.GetStoredCode | key_generator_service.py:203-226 | `get_stored_code` returns the stripped first line and rewrites the file with the remaining lines. The result is `None`, and nothing changes, when the file is missing, unreadable or empty, or when the rewrite's open raises. |
| KeyGeneratorService.CountCodesIsLineCount | key_generator_service.py:195-201 | A readable reservoir written as any well-formed lines counts every one of them, blank lines included. |
| KeyGeneratorService.CountAfterSave | key_generator_service.py:190-201 | Saving a newline-free code to an empty or terminated file raises the count by exactly 1. The file keeps its old lines, gains the new one, and stays terminated. |
| KeyGeneratorService.PopStoredNothing | key_generator_service.py:205-226 | A pop yields `None` exactly when the file is missing, unreadable, read-only or empty, and then changes nothing. |
| KeyGeneratorService.PopStoredTakesHead | key_generator_service.py:215-220 | A non-empty usable file yields its stripped first line, even a blank one (as `""`). The remaining lines read back in order, one fewer than before, and a terminated file stays terminated. Other files are untouched. |
| KeyGeneratorService.PopAfterSaveToEmpty | key_generator_service.py:186-226 | Saving then popping on an empty reservoir returns the saved code, stripped, and leaves the reservoir empty. |
| KeyGeneratorService.PopAfterSaveToNonEmpty | key_generator_service.py:186-226 | On a non-empty, newline-terminated reservoir that opens in every mode, saving a newline-free code does not change what the next pop returns. The saved line stays at the tail. |
| KeyGeneratorService.SaveToUnterminatedGlues | key_generator_service.py:186-226 | Without the terminator the law fails: after `save_code("B")` on a file holding `A`, the pop returns `AB`, not `A`. |
| KeyGeneratorService.StripOfCode | key_generator_service.py:191-216 | A redemption code survives a save followed by a strip unchanged. |
| KeyGeneratorService.FifoLaw | key_generator_service.py:186-226 | `save(A)`, `save(B)`, `pop`, `pop` returns A, then B, and leaves the file empty with count 0. |
| KeyGeneratorService.WorkerStep | key_generator_service.py:232-254 | One worker pass publishes `(service, count)` whenever the count succeeds. It calls the acquirer only below `MAX_CODES` (20). It appends only a truthy result. It sleeps 60 at capacity, 30 after an exception, and the drawn 5–15 otherwise. |
| KeyGeneratorService.WorkerPass | key_generator_service.py:232-254 | On any reservoir, one pass is exactly `WorkerStep`'s pass. It publishes the real `count_codes`, calls the acquirer exactly when that count is below `MAX_CODES`, and sleeps 30/60/the drawn delay. It appends `code + "\n"` exactly when the acquirer was called, gave a truthy code and the append opened; otherwise no file changes. From a valid reservoir (terminated, at most `MAX_CODES`), the report is at most `MAX_CODES`, and a newline-free code keeps the reservoir valid. |
| KeyGeneratorService.SaveKeepsValid | key_generator_service.py:235-246 | A save made below `MAX_CODES` keeps the reservoir terminated and at most `MAX_CODES`. |
| KeyGeneratorService.RunWorker | key_generator_service.py:228-254 | On any reservoir, including one over `MAX_CODES` or not newline-terminated, pass `i` is the pass the loop body makes on the reservoir as passes `0..i-1` left it. That is its real count, an acquisition exactly below `MAX_CODES`, and the sleep rule. The directory ends as it began, with the saved codes appended one per line in acquisition order; no other file changes. From a valid reservoir and an acquirer of newline-free codes, the reservoir stays valid and every report is at most `MAX_CODES`. |
| KeyGeneratorService.WorkerDeterministic | key_generator_service.py:228-254 | Two records of the same number of passes with the same start, faults, acquirer results and pauses are equal. So `RunWorker`'s contract fixes every pass and, with it, the final file. |
| KeyGeneratorService.InitialStatus | key_generator_service.py:258 | The monitor starts with one entry per service in `SERVICE_BUTTONS`, each 0. |
| KeyGeneratorService.LastReportOfReported | key_generator_service.py:263-265 | A service has a last report exactly when it appears in the drained queue. |
| KeyGeneratorService.DrainStatus | key_generator_service.py:263-265 | Draining the queue sets each reported service to the count of its last report. It leaves unreported entries as they were and adds no other key. |
| KeyGeneratorService.DrainedStatusKeys | key_generator_service.py:258-265 | Starting from the initial map, worker reports keep exactly one entry per service. |
| BotCommon.ParseAllIff | telegram_bot_with_generator.py:34 | `int()` of every piece succeeds exactly when each piece parses, and the results are those values in order. |
| BotCommon.AllowedUsersOfEmpty | telegram_bot_with_generator.py:34 | An empty `ALLOWED_USERS` gives the empty allow-list. |
| BotCommon.AllowedUsersRoundTrip | simple_app_telegram.py:77 | A non-empty list of ids written comma-separated is read back as exactly that list. |
| BotCommon.ParseAllowedUsers | telegram_bot_with_generator.py:34 | `ALLOWED_USERS` parsed as the comprehension does: at most one id per comma-separated piece, or `None` for the `ValueError` of a piece that is not an integer. |
| BotCommon.AllowListAdmitsExactly | telegram_bot_with_generator.py:34-40 | A variable holding a non-empty comma-separated list of ids admits exactly the users with those ids. The stand-alone bot's check (simple_app_telegram.py:205) is the same. |
| BotCommon.SeparatorsAdmitEveryone | telegram_bot_with_generator.py:34-40 | A variable holding only commas has only empty pieces, so it gives the empty allow-list, and that admits every user. |
| BotCommon.RequestedCount | telegram_bot_with_generator.py:185-194 | The count is always in [1,5]. It is 1 without a second argument or when `int` raises. Otherwise it is the value in [1,5] nearest the requested one. The stand-alone bot clamps by the same rule (simple_app_telegram.py:310-319). |
| BotCommon.RequestedCountInRange | telegram_bot_with_generator.py:185-194 | A requested count already in [1,5] is used as written. |
| TelegramBotWithGenerator.Button | telegram_bot_with_generator.py:63-111 | Users not on the allow-list and unknown buttons are refused with no pop. Otherwise exactly one pop happens. A truthy stored code is delivered with no acquirer call. Otherwise the acquirer is called exactly once and its truthy result is delivered, or failure is reported. |
| TelegramBotWithGenerator.DrainReservoir | telegram_bot_with_generator.py:198-203 | `get_stored_code` is called exactly `count` times, and the truthy results are kept in pop order. |
| TelegramBotWithGenerator.Fallback | telegram_bot_with_generator.py:208-214 | The fallback makes exactly the given number of acquirer calls and keeps the truthy results in call order. |
| TelegramBotWithGenerator.GenerateCommand | telegram_bot_with_generator.py:158-228 | Unauthorized users, missing arguments and unknown (lower-cased) services get their replies with no pop and no acquisition. Otherwise it makes `count` pops then exactly `count - len(stored)` acquirer calls, and replies with the codes in that order or failure. |
| TelegramBotWithGenerator.GeneratedCodesBounded | telegram_bot_with_generator.py:206-214 | The final list never exceeds `count`. If storage supplied all `count` codes, the fallback adds nothing. |
| TelegramBotWithGenerator.PopManyOfLines | telegram_bot_with_generator.py:198-203 | Draining `n` codes from a file written as well-formed lines `ls` returns the stripped first `n` of `ls`, then `None`, and leaves the rest of `ls`. |
| TelegramBotWithGenerator.PopManyTakesFirstLines | telegram_bot_with_generator.py:198-203 | Draining `n` codes returns the first `n` stored lines, stripped, in file order, then `None` once empty. The file is left with the remaining lines. |
| TelegramBotWithGenerator.StatusCounts | telegram_bot_with_generator.py:150 | The counts map has exactly one entry per service in `SERVICE_BUTTONS`, each equal to `count_codes`. It is absent exactly when some count raises. |
| KeyGeneratorService.ReservoirUnderCodes | key_generator_service.py:50-55 | Every reservoir is its file name under the `codes` directory. The other front ends use the same names. |
| SimpleAppTelegram.OutputPathsAreTheGenerators | simple_app_telegram.py:49-55 | Every offered service has a file. The four services the generator also serves map to the generator's reservoir files. |
| SimpleAppTelegram.GetCode | simple_app_telegram.py:157-177 | `get_code` after the redirect: the guard, the search and the append of `code + "\n"`. Every failure, including `.group` on no match and a failed open, is `None` with no change. |
| SimpleAppTelegram.FetchedIsSearch | simple_app_telegram.py:160-174 | The result is the URL's leftmost-maximal code unless the browser step or the open failed. A returned code is A–Z/0–9 and non-empty and has been appended with a newline. No code means no write. |
| SimpleAppTelegram.NoKeyNoCode | simple_app_telegram.py:160-174 | A redirect URL without `"code="` gives `None` and writes nothing. |
| SimpleAppTelegram.Waits | simple_app_telegram.py:193-196 | There is one wait after each attempt but the last, so there are `max(count - 1, 0)` waits. |
| SimpleAppTelegram.GetMultipleCodes | simple_app_telegram.py:182-198 | `get_code` is called exactly `max(count, 0)` times. The non-`None` results are returned in call order, with a wait in [3,7] between consecutive attempts and none after the last. |
| SimpleAppTelegram.FetchManyCodes | simple_app_telegram.py:182-198 | At most `count` codes come back, each a non-empty run of A–Z/0–9. |
| SimpleAppTelegram.FetchManyAppendsCodes | simple_app_telegram.py:164-198 | The service's file grows by exactly the returned codes, each followed by a newline, in order. Nothing else changes. |
| SimpleAppTelegram.GenerateCommand | simple_app_telegram.py:283-338 | Unauthorized users, missing arguments and unknown services are turned away before any acquisition. Otherwise it makes exactly `count` attempts and replies with their codes or failure. |
| UbuntuApp.ExtractCodeFromUrl | ubuntu_app.py:77-91 | A returned code is non-empty A–Z/0–9 and the URL contains `"code="`. |
| UbuntuApp.ExtractCodeFromUrlIsSearch | ubuntu_app.py:82-85 | The `"code="` guard changes nothing: the result is the leftmost-maximal search on the URL. |
| UbuntuApp.ExtractCodeFromUrlNone | ubuntu_app.py:82-88 | The result is `None` without `"code="`, and when no `code=` is followed by a code character. |
| UbuntuApp.SaveCode | ubuntu_app.py:137-154 | `save_code` appends `code + "\n"` and returns True. An unknown key or failed open returns False with no change. |
| App.ExtractCodeFromUrl | app.py:84-104 | Any returned code is non-empty A–Z/0–9. A query parse that raised gives `None`. |
| App.ReturnPathCode | app.py:88-93 | The code taken from the first `returnPath` value is the leftmost-maximal search on it: the `"code="` guard never changes the result. |
| App.ReturnPathTakesPrecedence | app.py:88-93 | A code in the first `returnPath` value is returned, whatever the rest of the URL holds. |
| App.OnlyFirstReturnPath | app.py:89 | Only the first `returnPath` value is examined. |
| App.FallsBackToWholeUrl | app.py:95-98 | Without a usable `returnPath` code the result is the same leftmost-maximal match on the whole URL. |
| App.ExtractCodeFromUrlNone | app.py:84-104 | The result is `None` iff parsing raised, `returnPath` has no value, or neither search matches. |
| App.SaveCode | app.py:162-186 | `save_code` appends `code + "\n"` and returns True. Any exception (unknown key, failed open) returns False with no change. |
| ExampleUsage.ReadCodes | example_usage.py:11-56 | `[]` for an unknown service, a missing file or a read that raised. Otherwise at most one code per line, none empty, none with surrounding whitespace. |
| ExampleUsage.CleanLines | example_usage.py:52 | The comprehension keeps at most one code per line. `CleanLinesAreStripped`, `CleanLinesOfAppend` and `CleanLinesOfOne` state which codes. |
| ExampleUsage.CleanLinesAreStripped | example_usage.py:52 | No kept line is empty, and stripping a kept line again changes nothing. |
| ExampleUsage.CleanLinesOfAppend | example_usage.py:52 | The filter works line by line, so file order is kept. |
| ExampleUsage.CleanLinesOfOne | example_usage.py:52 | A line is kept, stripped, exactly when it is not blank. |
| ExampleUsage.SameFilesAsGenerator | example_usage.py:22-44 | Each generator service maps to the same `codes/` file the generator uses, e.g. `tv` goes to `codes/tv_plus_codes.txt`. |
| ExampleUsage.ReadCodesAfterSave | example_usage.py:50-53 | After the generator saves a code on an empty or terminated file, `read_codes` lists it last, after the codes listed before. |
| ExampleUsage.ReadCodesAfterPop | example_usage.py:50-53 | `get_stored_code` and `read_codes` agree on queue order. A non-blank head is the first listed code and its pop leaves the rest. A blank head is consumed without changing the list. |

## Left out

- Selenium and the browser are not modelled, because they drive a real web page. This covers
  `setup_driver`, navigation, XPath clicks, `get_redemption_code` and the key generator's own
  `get_code`. Their outcome is an input: an `Option<string>` per call, or the redirect URL
  where the extraction code is in view.
- The Telegram plumbing is UI and network, so it is not modelled. This covers the async
  handlers, `start` and `help_command` text, `reply_text`/`edit_message_text` formatting,
  Markdown, timestamps, `run_in_executor` and `Application` setup. The stand-alone bot's
  `button` is not part of this model; its logic is `get_code` behind the same allow-list check.
- Threads, daemon threads, signal handlers and the global `running` flag are not modelled,
  because they are concurrency and process lifecycle. Workers and monitors are modelled as a
  bounded number of sequential passes.
- `main` in key_generator_service.py assigns `running = False` at line 322 without
  `global`. That makes `running` local to `main` in the whole function, so the read at line 318
  raises `UnboundLocalError`. This is a lifecycle defect outside the model.
- A reservoir shared by a worker and a consumer would need atomic, mutually exclusive and
  crash-safe operations. The code reads the whole file and rewrites it. A worker's append can therefore interleave
  with a consumer's pop (key_generator_service.py:209-220 against 190-191), and a crash
  mid-rewrite can lose codes. The model states only the sequential semantics.
- Randomness and clocks are inputs, not modelled. `random.randint` draws are parameters
  constrained to their range, `time.sleep` durations are reported as values, and
  `random.choice` of user agents and `datetime.now` are left out.
- `KeyGeneratorService.RunWorker`: assumes nothing else writes the reservoir between passes.
  The model has no concurrent consumer.
- `KeyGeneratorService.WorkerStep`: an exception escaping the acquirer itself, such as one
  raised by `driver.quit()` in the key generator's `finally` block, is not representable. The
  source's `except` then sleeps 30 seconds. The model's acquirer returns an `Option`, so that
  pass sleeps the drawn 5–15 seconds instead. Nothing else about the pass differs.
- `SimpleAppTelegram.GetCode`: an exception from `driver.quit()` in `get_code`'s `finally`
  block is not modelled. In the source it would escape `get_code`, `get_multiple_codes` and
  `generate_command` after the code has already been appended. The model returns the code.
- `App.ExtractCodeFromUrl`: `urlparse`/`parse_qs` percent-decoding is not modelled. The decoded
  query is an input, and `None` stands for a parse that raised.
- `PyInt.ParseInt`: accepts ASCII decimal digits with an optional sign and surrounding ASCII
  whitespace. Digit-group underscores and non-ASCII digits, which Python's `int` also accepts,
  are not modelled. Neither is CPython's limit on the length of a decimal string: since 3.11,
  `int()` raises `ValueError` on more than 4300 digits, while the model parses any length.
- `Text.Strip`: strips ASCII whitespace only (space, `\t`–`\r`, `\x1c`–`\x1f`). Python also
  strips Unicode spaces.
- `Text.Lower`: folds ASCII capitals only.
- `TextLines.Lines`: splits at `"\n"` only, without universal-newline translation of `"\r\n"`/`"\r"`.
- `os.makedirs`, `os.getenv`, `argparse`, logging, the `print`s of `example_usage.py` and its
  `display_codes` are I/O or environment and are not modelled. The allow-list is modelled as
  parsed from the variable's value.
- Installers (`ensure_chrome_installed`, `ensure_chromedriver_installed`) and `simple_app.py`
  are not part of this model. Their code-extraction regex is the one `CodeExtraction` models.
- `MIN_CODES` (key_generator_service.py:75) is defined as `KeyGeneratorService.MinCodes` but
  never read, so it has no behaviour to model.
