# chat-engine attendance webhook, in Dafny

A model of the message-handling core of the chat-engine WhatsApp bot (`main.py`).
An employee writes to the bot and is identified by the last ten characters of their
phone number. Each message is routed by the first rule that matches:

- a question about today's attendance reads the attendance table;
- a bare `PRESENT` or `ABSENT` writes it;
- a manager's message that starts with `custom` becomes a SQL statement. The
  question-answering service writes the statement, and it is run only after
  three gates: fence extraction, a whitespace collapse and a `NotSure` sentinel;
- anything else goes to the question-answering service as a question.

Modules, one file each:

- `Wrappers` (`wrappers.dfy`): `Option`.
- `Text` (`text.dfy`): the string operations Python provides and the code relies on:
  - ASCII `lower`/`upper`;
  - `strip` over Python's whitespace set (space, `\t` to `\r`, `\x1c` to `\x1f`);
  - `in` and `startswith`, with the leftmost search that `in` and `re.search`
    rely on.
- `Routing` (`routing.dfy`): `Classify`, the first-match-wins routing. Also
  `RemoveCustom`, which models `re.sub(r'(?i)custom', '', …)`.
- `Whitespace` (`whitespace.dfy`): `" ".join(q.split())` and what it guarantees.
- `SqlGate` (`sql_gate.dfy`): the regular-expression extraction of the first
  ```` ```sql ```` block, proved to pick the match the regex engine picks, and
  `Screen`, which gives the verdict on the service's answer.
- `Directory` (`directory.dfy`): `get_employee` over an employee list.
- `Store` (`store.dfy`): the attendance table as a class holding a sequence of
  records. It has `get_attendance` and `add_attendance` (read, then update or
  insert), plus the properties of that upsert.
- `Webhook` (`webhook.dfy`): the handler, a module-level method that takes the
  table as a parameter. It returns the reply or one of the two server errors
  reachable from the modelled inputs.

Behaviour of the code that the model keeps as written:

- Privilege for custom SQL depends only on whether `"manager"` occurs in the
  lower-cased role (line 190). There is no level check.
- Marking knows only `PRESENT` and `ABSENT`, compared after `strip().upper()`,
  and always marks today (lines 184-186). There is no other status and no date
  argument.
- The reply to a mark is `Attendance recorded: <status>` (line 188).
- Every `custom`, in any letter case and anywhere in the message, is deleted in
  one left-to-right pass (line 191). Occurrences inside words are deleted too.
- When the answer has no ```` ```sql ```` block, `query` stays `None` and
  `.split()` fails at line 209.
- When the answer's ```` ```sql ```` block contains `notsure` in any case,
  `reply` is never assigned. Line 224 then raises inside the `try`, and the
  handler answers with status 500 (lines 236-238).
- The bare answer `NotSure` has no ```` ```sql ```` block, so it takes the
  missing-fence path of line 209, not the sentinel check of line 211.
- The model makes both failures explicit as `Webhook.Failure`.

## Model

| member | source | states |
|---|---|---|
| Routing.Classify | main.py:175-221 | the if/elif chain: the today-query exactly when both words occur; a mark carries PRESENT or ABSENT; a custom request only for a role containing "manager"; a question is the message unchanged. `Routing.MarkExactly`, `Routing.CustomExactly` and `Routing.FreeFormExactly` state each branch's condition both ways |
| Routing.TodayQueryWins | main.py:175 | a message holding both "today" and "attendance" in any case is the today-query, whatever the role and even when it starts with "custom" |
| Routing.TodayBeatsPresent | main.py:175-184 | "today attendance PRESENT" is a today-query, not a mark, for every role |
| Routing.MarkWordNeverAsksToday | main.py:175-184 | a message that strips and upper-cases to PRESENT or ABSENT contains no "today", so the first rule never hides the second |
| Routing.MarkExactly | main.py:184-188 | the mark branch is taken if and only if `strip().upper()` of the message is PRESENT or ABSENT, and the status is that upper-cased word |
| Routing.CustomIsNoMarkWord | main.py:184-190 | a stripped message starting with "custom" in any case is never a mark word |
| Routing.CustomExactly | main.py:190-191 | the custom branch is taken if and only if there are no today-query words, the stripped lower-cased message starts with "custom" and "manager" occurs in the lower-cased role; the request is the message with "custom" deleted |
| Routing.FreeFormExactly | main.py:189-190 | every other message, a non-manager's "custom …" included, goes to the question service unchanged, not to an error |
| Routing.NonManagerCustomIsQuestion | main.py:190-221 | a message starting with "custom" from a sender whose role lacks "manager" is passed to the question service unchanged |
| Routing.RemoveCustom | main.py:191 | `re.sub(r'(?i)custom', '', s)`: shorter by a multiple of six; `Routing.RemoveCustomAtFirst` and `Routing.RemoveCustomWithoutKeyword` determine it on every input |
| Routing.RemoveCustomAtFirst | main.py:191 | when the first case-insensitive "custom" starts at p, the result is the text before p followed by the deletion applied to the text after that occurrence |
| Routing.RemoveCustomOnlyDeletes | main.py:191 | the deletion yields a subsequence of the message, shorter by a multiple of six, that keeps every character outside the letters of "custom" in order |
| Routing.RemoveCustomWithoutKeyword | main.py:191 | a message without "custom" in any case is left as it is |
| Routing.SinglePass | main.py:191 | `re.sub` makes one pass: "cuscustomtom" becomes "custom", so the deletion is not idempotent |
| Routing.DeletesInsideWords | main.py:191 | "customers" becomes "ers": occurrences inside words are deleted too |
| Text.Strip | main.py:184 | `strip()`: no longer than the input, and empty or with non-whitespace at both ends; `Text.StripFacts` gives the rest |
| Text.StripFacts | main.py:184 | what `strip()` keeps is one contiguous slice of the input with only whitespace cut from either end, and an empty result means the input was all whitespace |
| Text.TrimStartStep | main.py:184 | `lstrip()` drops a leading whitespace character and leaves a string that starts with non-whitespace unchanged |
| Text.TrimStart | main.py:184 | leading whitespace removed: a suffix of the input, all whitespace before it, non-whitespace first |
| Text.TrimEnd | main.py:207 | trailing whitespace removed: a prefix of the input, all whitespace after it, non-whitespace last |
| Text.IndexFrom | main.py:205 | the leftmost search behind `re.search` and `in`: the first position at or after the start where the pattern occurs, or none if it occurs nowhere from there |
| Text.Contains | main.py:175 | `in` is true exactly when the pattern occurs at some position |
| Text.StartsWith | main.py:190 | `startswith` holds exactly when the leftmost occurrence of the prefix is at position 0 |
| Text.Lower | main.py:175-190 | `lower()`: same length, no upper-case letter left, and every character equal to the original up to case |
| Text.Upper | main.py:184 | `upper()`: same length, no lower-case letter left, and every character equal to the original up to case |
| Whitespace.Split | main.py:209 | `split()` yields non-empty words without whitespace; `Whitespace.SplitAtSpace`, `Whitespace.SplitWord` and `Whitespace.SplitKeepsText` pin down which words |
| Whitespace.SplitWord | main.py:209 | a non-empty text without whitespace splits into exactly itself |
| Whitespace.WordsFound | main.py:209 | every word of the split occurs in the input as one contiguous piece |
| Whitespace.SplitAtSpace | main.py:209 | any whitespace character separates: the split of `a + [c] + b` is the split of `a` followed by the split of `b` |
| Whitespace.SplitBeforeSpace | main.py:209 | a string that starts with whitespace splits apart from whatever precedes it |
| Whitespace.SplitKeepsText | main.py:209 | the words, concatenated, are exactly the non-whitespace characters of the input, in order |
| Whitespace.Collapse | main.py:209 | `" ".join(q.split())` yields a collapsed string; `Whitespace.SameWords`, `Whitespace.CollapseKeepsText`, `Whitespace.CollapseIdempotent` and `Whitespace.CollapseFixpoints` characterise it |
| Whitespace.Join | main.py:209 | `" ".join(words)` of `split()`-shaped words is collapsed (single spaces strictly between non-whitespace) and empty exactly when there are no words; `Whitespace.SplitJoin` splits it back into the words |
| Whitespace.SameWords | main.py:209 | the collapsed statement splits into the same words as the extracted one |
| Whitespace.CollapseIdempotent | main.py:209 | collapsing twice is collapsing once |
| Whitespace.CollapseFixpoints | main.py:209 | the collapse has no line breaks, tabs, leading or trailing or doubled spaces, and it changes a string exactly when the string is not already of that form |
| Whitespace.CollapseKeepsText | main.py:209 | the collapse removes only whitespace: the non-whitespace characters are the same, in order |
| Whitespace.CollapseKeepsPattern | main.py:209-211 | a non-empty pattern without whitespace is found after the collapse exactly when it was found before it |
| SqlGate.ExtractSql | main.py:205-207 | the statement is extracted only from an answer holding both an opening and a closing fence, and is shorter than the answer by at least both fences; `SqlGate.ExtractSqlIsChosenCapture` and `SqlGate.ExtractSqlNoneIffNoMatch` tie it to the regular expression |
| SqlGate.ExtractSqlIsChosenCapture | main.py:205-207 | the extracted statement is the group the regular expression captures, taking the leftmost opening, the longest `\s*` and the shortest lazy group, with DOTALL; it holds no closing fence and is stripped |
| SqlGate.ExtractSqlNoneIffNoMatch | main.py:205-206 | nothing is extracted exactly when the pattern matches nowhere |
| SqlGate.Screen | main.py:205-212 | the verdict is the missing-fence failure exactly when nothing is extracted; otherwise its statement is the collapse of the extracted block, and it is executed exactly when the block holds no "notsure" in any case; a held-back statement contains "notsure", an executed one is collapsed and contains none |
| SqlGate.ScreenRun | main.py:209-212 | a statement that is executed is collapsed, has the same words and text as the extracted block, and contains no "notsure" in any case |
| SqlGate.SentinelBlocks | main.py:211-212 | a "notsure" anywhere in the extracted block, in any case, prevents execution, even when line breaks surround it |
| SqlGate.SentinelSurvivesCollapse | main.py:209-211 | the check after the collapse sees a "notsure" in any case exactly when the block held one before it: the collapse neither loses nor creates one |
| SqlGate.NoOpeningNoStatement | main.py:205-209 | an answer with no "```sql" always takes the missing-fence path |
| SqlGate.BareNotSureHasNoFence | main.py:201-209 | the bare answer "NotSure" the prompt asks for takes the missing-fence path, not the sentinel check |
| Directory.PhoneKey | main.py:53 | the key is the last ten characters, or the whole string when it is shorter |
| Directory.PhoneKeyIdempotent | main.py:53 | slicing the key again leaves it as it is |
| Directory.SenderLookup | main.py:160 | slicing at line 160 and again at line 53 finds the same employees as slicing once |
| Directory.FindByPhone | main.py:54 | the rows are exactly the employees whose phone contains the key |
| Directory.GetEmployee | main.py:51-56 | `get_employee` returns exactly the employees whose phone contains the last ten characters of the number |
| Directory.OwnNumberFound | main.py:53-54 | an employee is always found by their own stored number |
| Directory.EmptyKeyMatchesAll | main.py:54 | an empty number gives `LIKE '%%'`, which matches every employee |
| Store.RemoveQuotes | main.py:60-61 | the date loses every quote and keeps every other character with its count; a date without a quote is unchanged |
| Store.RemoveQuotesAppend | main.py:60-61 | the removal works character by character: removing from `a + b` is removing from `a`, then from `b` |
| Store.UnquoteQuoted | main.py:70-73 | the quotes `add_attendance` wraps around a date are removed again by `get_attendance` |
| Store.Lookup | main.py:62-65 | none exactly when no record has the employee and date; otherwise the status of the first such record |
| Store.LookupFirst | main.py:65 | the first record under the key is the one whose status is read |
| Store.SetStatus | main.py:78-80 | the UPDATE: same length and keys, every record under the key gets the new status, every other record is unchanged |
| Store.Upsert | main.py:68-85 | the read-then-update-or-insert of `add_attendance`: afterwards the key is found, and the table either keeps its length or gains exactly the new record at the end; `Store.UpsertStores`, `Store.UpsertShape`, `Store.UpsertLeavesOthers` and `Store.UpsertKeepsUnique` characterise it |
| Store.UpsertStores | main.py:68-85 | after the upsert the key reads back as the new status, unless an empty status was already stored there |
| Store.UpsertShape | main.py:77-84 | an existing non-empty status is overwritten in place with length and keys kept; otherwise exactly one record is appended |
| Store.UpsertLeavesOthers | main.py:77-84 | records under other keys are unchanged and in the same order |
| Store.UpsertKeepsUnique | main.py:68-85 | at most one record per employee and date is kept, unless an empty status is stored under the key |
| Store.UpsertTwice | main.py:68-85 | two writes to the same key leave the same table as the second write alone; with at most one record per key (`Store.UpsertKeepsUnique`) that is one record holding the latest status |
| Store.EmptyStatusDuplicates | main.py:77 | as written, an empty stored status is falsy: a second record is inserted under the same key, and the key still reads as empty |
| Store.AttendanceTable.GetAttendance | main.py:59-65 | `get_attendance` on the table: none exactly when no record matches the de-quoted date; otherwise the first match's status |
| Store.AttendanceTable.AddAttendance | main.py:68-85 | `add_attendance`: the table becomes the upsert of its old records and the status is returned |
| Webhook.HandleMessage | main.py:154-238 | an unknown sender gets exactly the not-authorized reply and the table is untouched. Otherwise the first matching employee's role routes the message. A today-query replies with the first stored status or "No record found for d". A mark upserts the status and replies "Attendance recorded: s". A custom request fails at line 209 without a fence, fails with status 500 on a sentinel, and otherwise runs the collapsed statement. A question replies with the service's answer or the no-information text. |

## Left out

- HTTP and transport are not modelled: Flask routing, the `x_api_key` check, TwiML rendering and the `/execute_query` endpoint.
- `execute_query` and the remote store are not modelled. The store is a sequence of records, and its reads are not modelled as failing. A failed call that returns `None` is not modelled either.
- The custom statement's effect is a parameter, `Webhook.Executor`. Its SQL meaning is not modelled: injection and statement kinds.
- Directory.FindByPhone: models `LIKE '%key%'` as a plain case-sensitive substring test. The `%` and `_` wildcards inside the key and the database's case-insensitive `LIKE` (main.py:54) are not modelled.
- Directory.GetEmployee: the rows come back in table order, and the handler uses the first one (`GetEmployee(...)[0]`). SQL without `ORDER BY` (main.py:54, 65) guarantees no order, so which employee is first is not modelled. The same holds for the first status `Store.Lookup` reads.
- The text of the prompt sent to the question service is not modelled. The service's two answers are inputs.
- Audio download and speech recognition are not modelled. The message is taken after transcription, and it is never `None`.
- `datetime.today()` is not modelled: the formatted date is an input.
- The rendering of the query result as text is an output of the `Executor`.
- Python's full Unicode `lower`, `upper`, `strip` and `split` are not modelled. Only ASCII letters change case, and only ASCII whitespace counts.
- `call_docuseek_api` returning a non-string on an HTTP error is not modelled.
- Employee rows hold `id`, `phone` and `role`. A missing `role`, which would fail `.lower()`, is not modelled.
- Store.AttendanceTable.AddAttendance: the read at main.py:73 and the UPDATE or INSERT at main.py:77-84 are two separate remote calls, and the development server started at main.py:258 handles requests on threads. The model runs the read and the write as one atomic step and does not model interleaved requests: two concurrent marks by the same employee can both read nothing and both insert, which breaks the at-most-one-record-per-key property of Store.UpsertKeepsUnique.
- Store.AttendanceTable.AddAttendance: requires a date without a quote. The date comes from `strftime("%Y-%m-%d")`; a quote would break the code's own SQL text.
- Store.UpsertStores: requires that no empty status is stored under the key, because the truth test at line 77 treats an empty status as missing (see Store.EmptyStatusDuplicates).
- Store.UpsertKeepsUnique: requires the same, for the same reason.
- Store.UpsertTwice: requires the same, and a non-empty first status.
