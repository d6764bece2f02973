# AI Data Analyst: a verified model of the question-to-answer core

The analyst is a small web application. A user uploads a table, types a
question, and a hosted language model is asked to answer it with SQL. The
application then:

- parses the model's reply;
- either shows an explanation, shows the SQL, or runs the SQL on the table
  (registered as `data_df`) and shows the result;
- reports a reply it cannot use.

A sidebar lets the user enter the service key for the session and, if they
choose, save it to a local `.env` file.

This project models that core in Dafny and proves properties of the model.
It has seven modules, one per part of the program:

| module | file | what it models |
|---|---|---|
| `Wrappers` | `wrappers.dfy` | `Option` and `Result` |
| `Text` | `text.dfy` | the Python string built-ins the core uses (see below) |
| `ResponseParser` | `response_parser.dfy` | SQL extraction (three rules in order) and classification of a reply |
| `PromptBuilder` | `prompt_builder.dfy` | the system text and the user text sent to the model |
| `ModelClient` | `model_client.dfy` | `call_groq_model`, as a class with a request log and a method |
| `Pipeline` | `pipeline.dfy` | one question turn: prompt, call, classify, route, run |
| `EnvConfig` | `env_config.dfy` | key lookup, applying a key, the start-up key check, and the `.env` read/merge/write loop |

The Python built-ins in `Text` are:

- `str.find`, `in` and `startswith`;
- `strip`, with Python's own white-space set;
- `join`;
- `lower`, ASCII only;
- `splitlines`, with all its line boundaries and `\r\n` counted as one.

The reply rules, as the code applies them, at
`ai_data_analyst.py:203-243`:

1. A reply whose stripped text starts with `EXPLANATION:` is an explanation.
   It is shown whole, whatever else it contains.
2. Otherwise the SQL candidate is chosen by the first rule that applies:
   - the text after the first ```` ```sql ````, up to the next ```` ``` ````
     (or to the end when no fence follows), stripped;
   - the same for ```` ```SQL ````, but only when no ```` ```sql ```` occurs
     anywhere;
   - the whole stripped reply, when it starts with `SELECT`. This rule is
     case-sensitive.
3. An empty candidate counts as none, and the turn shows "could not
   extract" with the raw reply.
4. A non-empty candidate is SQL. It is shown alone when "SQL only" is set;
   otherwise it is executed. An execution error is shown together with the
   raw reply.

The model is deterministic. The completion service is an abstract responder
function from requests to replies or errors. DuckDB is an abstract engine
function from SQL text to a table or an error message. Calling a function
twice on the same input gives the same answer.

Two consequences of the code that are easy to misread:

- `reply.strip()` trims white space at both ends. For the prefix test
  against `EXPLANATION:` this is the same as trimming only the leading
  white space.
- A marker that appears only inside a fence does not make a reply an
  explanation. The fenced text, marker included, is taken as SQL
  (`ResponseParser.MarkerInsideFenceReply`).

## Model

| member | source | states |
|---|---|---|
| Text.FindSpec | ai_data_analyst.py:205-206 | `find` returns the first occurrence at or after the start, and -1 exactly when there is none |
| Text.ContainsIff | ai_data_analyst.py:204 | `p in s` holds exactly when `p` occurs somewhere in `s` |
| Text.FindInSuffix | ai_data_analyst.py:206 | searching a suffix finds the same occurrence as searching the whole string from that point, shifted |
| Text.TrimStartSpec | ai_data_analyst.py:207 | the left strip removes exactly the leading white space and keeps a suffix |
| Text.TrimEndSpec | ai_data_analyst.py:207 | the right strip removes exactly the trailing white space and keeps a prefix |
| Text.StripIsSlice | ai_data_analyst.py:207 | `strip()` returns a contiguous slice of its input, with no white space at either end |
| Text.StripIdempotent | ai_data_analyst.py:212-213 | stripping twice is stripping once |
| Text.StripSurrounded | ai_data_analyst.py:207 | white space around a stripped core is removed, and the core is kept exactly |
| Text.JoinContainsAt | ai_data_analyst.py:188 | every element of a joined list occurs at its offset, followed by the separator when it is not the last |
| Text.JoinOffsetMonotone | ai_data_analyst.py:188 | joined elements appear in list order, without overlap |
| Text.Lower | ai_data_analyst.py:82 | `lower()` keeps the length, maps each ASCII capital to its small letter (the same offset from `a` as from `A`) and keeps every other character |
| Text.SplitLines | ai_data_analyst.py:44 | no line produced by `splitlines()` holds a line boundary |
| Text.SplitJoinedLines | ai_data_analyst.py:44 | splitting lines that were joined with "\n" gives them back, when none is empty or holds a boundary |
| ResponseParser.Classify | ai_data_analyst.py:215-243 | explanation exactly when the stripped reply starts with the marker, carrying the whole reply; SQL is the non-empty extracted candidate; the reply is unusable exactly when it is no explanation and the candidate is missing or empty |
| ResponseParser.LowerFenceClosed | ai_data_analyst.py:204-207 | with the first ```` ```sql ```` at `i` and the next fence at `j`, the candidate is the stripped text between them |
| ResponseParser.LowerFenceUnclosed | ai_data_analyst.py:204-207 | with no closing fence after the first ```` ```sql ````, the candidate is everything after the opener, stripped |
| ResponseParser.UpperFenceClosed | ai_data_analyst.py:208-211 | the ```` ```SQL ```` fence is read the same way, but only when no ```` ```sql ```` occurs |
| ResponseParser.UpperFenceUnclosed | ai_data_analyst.py:208-211 | when no ```` ```sql ```` occurs and the first ```` ```SQL ```` is never closed, the candidate is the stripped rest of the reply after it |
| ResponseParser.NoFenceMeansSelectRule | ai_data_analyst.py:212-213 | without either fence, there is a candidate exactly when the stripped reply starts with SELECT, and it is the whole stripped reply |
| ResponseParser.TextBeforeLowerFenceIgnored | ai_data_analyst.py:204-211 | fence precedence: text before the first ```` ```sql ```` (an upper-case fence or a SELECT) does not change the candidate |
| ResponseParser.ClassifyCandidate | ai_data_analyst.py:215-241 | a candidate that is not an explanation is SQL when non-empty and unusable when empty |
| ResponseParser.ClosedFenceReply | ai_data_analyst.py:204-218 | a reply `prefix + ```sql + body + ``` + suffix`, whose opener is the first, whose body holds no fence and which does not start with the marker, is classified as `Sql(strip(body))`, or as unusable when the body is blank |
| ResponseParser.UnclosedFenceReply | ai_data_analyst.py:204-218 | a reply `prefix + ```sql + body`, whose opener is the first, whose body holds no fence and which does not start with the marker, is classified as `Sql(strip(body))`, or as unusable when the body is blank; an unclosed fence is not an error |
| ResponseParser.ExtractedSqlIsSliceOfReply | ai_data_analyst.py:203-218 | extracted SQL is stripped and is a contiguous slice of the reply: extraction never invents text |
| ResponseParser.UnfencedReply | ai_data_analyst.py:204-213 | without backticks only the SELECT rule can give a candidate |
| ResponseParser.UnfencedSelectReply | ai_data_analyst.py:212-218 | a reply that is SELECT followed by backtick-free text ending in a visible character is SQL, as a whole |
| ResponseParser.NoRuleApplies | ai_data_analyst.py:240-243 | a backtick-free reply whose first character is visible and is neither `S` nor `E` is unusable |
| ResponseParser.BareSelectReply | ai_data_analyst.py:212-218 | `SELECT 1` is SQL |
| ResponseParser.LowerCaseSelectReply | ai_data_analyst.py:212 | `select 1` is unusable: the SELECT rule is case-sensitive |
| ResponseParser.PlainRefusalReply | ai_data_analyst.py:203-243 | a plain refusal with no marker, no fence and no SELECT gives no SQL candidate and is unusable |
| ResponseParser.EmptyFenceReply | ai_data_analyst.py:204-207 | an empty ```` ```sql``` ```` fence gives the empty candidate, and the reply is unusable |
| ResponseParser.MarkerBeforeFenceReply | ai_data_analyst.py:215-216 | the marker wins over a fence that follows it |
| ResponseParser.FencedLineReply | ai_data_analyst.py:204-218 | a stripped, backtick-free query on its own line inside a ```` ```sql ```` fence is extracted exactly |
| ResponseParser.MarkerInsideFenceReply | ai_data_analyst.py:204-218 | a marker that appears only inside a fence is extracted as SQL |
| ResponseParser.EmptyLowerFenceShadowsUpperReply | ai_data_analyst.py:204-211 | an empty ```` ```sql ```` fence shadows a usable ```` ```SQL ```` fence before it, and the reply is unusable |
| ResponseParser.FencedAverageReply | ai_data_analyst.py:204-218 | the typical fenced reply gives exactly its query |
| PromptBuilder.TypedColumns | ai_data_analyst.py:189 | one `name(dtype)` entry per pair, as many as the shorter list (`zip`) |
| PromptBuilder.PromptTokensAreParserTokens | ai_data_analyst.py:177-179 | the fence and marker the prompt asks for are the ones the parser reads |
| PromptBuilder.SystemPromptNamesFence | ai_data_analyst.py:177 | the system text contains ```` ```sql ```` |
| PromptBuilder.SystemPromptNamesTable | ai_data_analyst.py:178 | the system text names the table `'data_df'` |
| PromptBuilder.SystemPromptNamesMarker | ai_data_analyst.py:179 | the system text contains `EXPLANATION:` |
| PromptBuilder.EveryColumnListed | ai_data_analyst.py:187-188 | every column name appears in the user text at its offset after the columns label |
| PromptBuilder.ColumnsInOrder | ai_data_analyst.py:188 | the column names appear in dataset order |
| PromptBuilder.EveryTypedColumnListed | ai_data_analyst.py:189 | with one type per column, every `name(dtype)` entry appears in the "Data Types" list |
| PromptBuilder.QuestionVerbatim | ai_data_analyst.py:191-192 | the user text ends with "User Question: ", the question verbatim, and the closing instruction |
| PromptBuilder.UserMessageStartsWithColumns | ai_data_analyst.py:187-189 | the user text opens with the dataset header and the full column list |
| PromptBuilder.ClosingInstructionStatesProtocol | ai_data_analyst.py:192 | the closing instruction names ```` ```sql ```` after its lead and ends with the marker |
| ModelClient.GroqClient.Create | ai_data_analyst.py:78-79 | one completion request: the reply is the responder's answer, and exactly that request is logged |
| ModelClient.CallGroqModel | ai_data_analyst.py:71-88 | the result is the fallback policy's outcome, and the requests sent are exactly the policy's attempts, in order |
| ModelClient.OutcomeOfAttempts | ai_data_analyst.py:77-88 | the call fails exactly when every attempt failed; a success is the last attempt's reply; a failure is the first attempt's error |
| ModelClient.AttemptsShape | ai_data_analyst.py:77-88 | the first attempt goes to the requested model with the two messages; a second goes to the fallback model exactly when the first failed and the name contains "mixtral" in any case |
| ModelClient.PrimarySuccessIsReturned | ai_data_analyst.py:78-79 | a primary success is returned after one request |
| ModelClient.DefaultModelNeverFallsBack | ai_data_analyst.py:71-82 | the default model has no fallback: its failure is reported after one request |
| ModelClient.NoLetterMNoFallback | ai_data_analyst.py:82 | a name with no `m` or `M` never falls back |
| ModelClient.CapitalisedFamilyFallsBack | ai_data_analyst.py:82 | the family test ignores case: `Mixtral-8x7b` falls back |
| ModelClient.FallbackRescues | ai_data_analyst.py:82-85 | a failing mixtral call whose fallback succeeds returns the fallback's reply |
| ModelClient.FallbackFailureReportsPrimary | ai_data_analyst.py:86-88 | when both attempts fail, the primary's error is the one raised |
| Pipeline.Run | ai_data_analyst.py:169-247 | one turn: the outcome is the routed reply of the default model's completion for the built prompt, and the requests sent are the fallback policy's attempts |
| Pipeline.RouteOutcomes | ai_data_analyst.py:215-243 | each outcome and what it carries: an explanation or unusable reply keeps the raw text; SQL comes from the reply; a success carries the engine's table; an engine failure carries its message and the raw reply |
| Pipeline.SqlOnlyNeverExecutes | ai_data_analyst.py:220 | with "SQL only", the engine is never consulted |
| Pipeline.EngineSeesOnlyExtractedSql | ai_data_analyst.py:224 | the engine is asked about the extracted SQL and nothing else |
| Pipeline.ServiceFailureShortCircuits | ai_data_analyst.py:245-247 | a model failure ends the turn with that failure |
| Pipeline.FencedAnswerIsExecuted | ai_data_analyst.py:197-226 | end to end: a fenced answer for the average is executed and its table is shown |
| Pipeline.FencedAnswerSqlOnly | ai_data_analyst.py:197-220 | end to end: with "SQL only", the same answer shows just the SQL |
| EnvConfig.GetEnvKey | ai_data_analyst.py:15-26 | a non-empty session value wins; otherwise the environment's value, or none |
| EnvConfig.EmptySessionValueFallsThrough | ai_data_analyst.py:26 | an empty session value does not hide the environment's |
| EnvConfig.SidebarShowsLookup | ai_data_analyst.py:15-32 | when the session holds no usable key, the key field's default is what the key lookup finds, or the empty text when it finds nothing |
| EnvConfig.SidebarShowsAppliedKey | ai_data_analyst.py:32-37 | after a non-empty key is applied, the field's default, computed from the environment, is that key; an empty input leaves the default unchanged |
| EnvConfig.ApplyKeys | ai_data_analyst.py:34-37 | a non-empty key is written to both the session and the environment; an empty one changes nothing |
| EnvConfig.AppliedKeyIsUsed | ai_data_analyst.py:34-66 | after applying a non-empty key, the lookup returns it and start-up succeeds with it |
| EnvConfig.ApplyKeysTouchesOnlyGroqKey | ai_data_analyst.py:34-37 | applying the key changes no other name's lookup |
| EnvConfig.ResolveApiKey | ai_data_analyst.py:61-66 | start-up succeeds exactly when the lookup gives a non-empty key, and fails with the configuration message otherwise |
| EnvConfig.Put | ai_data_analyst.py:47-50 | dictionary assignment: a new key goes last, an existing key keeps its place, and the value is replaced |
| EnvConfig.SplitAtEquals | ai_data_analyst.py:46 | `split("=", 1)`: the key has no `=`, and key + `=` + value is the line |
| EnvConfig.SplitOfEntry | ai_data_analyst.py:46-53 | a written `key=value` line, with no `=` in the key, splits back into that key and value |
| EnvConfig.AddLine | ai_data_analyst.py:44-47 | a line with `=` sets its key; a line without one is ignored |
| EnvConfig.MergedEnv | ai_data_analyst.py:42-50 | the dictionary to save is consistent: its ordered keys are distinct and are exactly the keys of its map |
| EnvConfig.EntryLines | ai_data_analyst.py:53 | one `key=value` line per entry, in dictionary order |
| EnvConfig.MergeEnvFile | ai_data_analyst.py:42-53 | the loop reads the existing lines in order, sets the key, and writes the merged dictionary's entries (through `EnvConfig.WriteEntries`) joined by newlines |
| EnvConfig.WriteEntries | ai_data_analyst.py:53 | the write loop produces exactly the dictionary's `key=value` lines, one per entry, in insertion order |
| EnvConfig.ParsedIsWellFormed | ai_data_analyst.py:44-47 | whatever is read from a file has keys without `=` and single-line keys and values |
| EnvConfig.RoundTrip | ai_data_analyst.py:44-53 | a well-formed dictionary, written and read back, is the same dictionary |
| EnvConfig.SavedFileReadsBack | ai_data_analyst.py:42-53 | the saved file reads back as the dictionary that was saved, when the entered key is on one line |
| EnvConfig.SaveIsIdempotent | ai_data_analyst.py:42-53 | saving the same key again leaves the file unchanged, when the entered key is on one line |
| EnvConfig.SaveSetsOnlyGroqKey | ai_data_analyst.py:49-50 | the key is set to the entered value when there is one; every other key keeps its value and position; an empty input leaves the file's entries as read |
| EnvConfig.LaterDuplicateOverwrites | ai_data_analyst.py:46-47 | a key read again keeps its first position and takes the later value |
| EnvConfig.NewKeyGoesLast | ai_data_analyst.py:46-47 | a key read for the first time goes after every key read before it |
| EnvConfig.LineWithoutEqualsIgnored | ai_data_analyst.py:45 | a line without `=` leaves the dictionary as it was |

## Left out

- The web interface: widgets, layout, spinners, colours, the data-sample toggle, and the CSV download button (`ai_data_analyst.py:90-166`, `230-235`). It is display only; each outcome of a turn is modelled as a value.
- Reading the uploaded file with pandas (`ai_data_analyst.py:106-114`). The column names, type names and CSV sample are given as strings.
- The completion service and its network client. They are an abstract deterministic responder, so time-outs, retries inside the client library, and answers that change from call to call are not modelled.
- A reply whose content is `None`. The responder always returns text.
- DuckDB and the registration of the table (`ai_data_analyst.py:171`, `224`). The engine is an abstract function from SQL text to a table or an error message; what the SQL computes is not modelled.
- Loading `.env` at start-up (`ai_data_analyst.py:12-13`), the existence check, and reading and writing the file (`43-44`, `53`). The existing content is an `Option<string>` and the written text is the method's result. The error shown when writing fails (`55-56`) is not modelled.
- The text of error messages built from exceptions. A service failure carries an abstract cause, and an engine failure carries the engine's message.
- Text.Lower: only ASCII letters are lower-cased, while Python's `lower()` also maps non-ASCII capitals. This does not change the fallback test. In the Unicode case mappings, only U+0130 (to `i` followed by U+0307) and U+212A (to `k`) lower-case to text containing ASCII letters. Neither can complete `mixtral`, so `HasFallback` agrees with `"mixtral" in model.lower()` on every model name.
- Pipeline.Run: requires a non-empty question, which is the application's own `if query and run` guard. The button press is the call itself.
- EnvConfig.SavedFileReadsBack: requires the entered key to be on one line. A key containing a line boundary is written into two lines, and the file does not read back to the same dictionary.
- EnvConfig.SaveIsIdempotent: requires the entered key to be on one line, for the same reason. With the key `a\nX=1`, reading the saved file back adds a key `X`, so a second save writes a different file.
- ModelClient.GroqClient.Create and ModelClient.CallGroqModel: the log of sent requests is ghost state; only the request sequence is recorded, not timing.
