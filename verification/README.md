# WhatsApp diary bot — a Dafny model

The bot keeps a per-user diary over WhatsApp. Every message from a phone
number is a command written in Hebrew:
- select or create a diary;
- select a date;
- view the entries of the current diary and date;
- add, remove or edit an entry, where remove and edit name the entry by its
  number in the view.

The bot stores two tables. `users` holds the current diary and date of each
phone. `entries` holds the diary entries: id, phone, diary, date, optional
time, content.

This project models the core of `app.py` as pure functions over immutable
data, and proves what it does.

| file | module | models |
|---|---|---|
| `wrappers.dfy` | `Wrappers` | `Option` |
| `text.dfy` | `Text` | `str.split()`, `" ".join`, `strip()`, `lower()`, splitting on `-`, and the string order of SQLite's BINARY collation |
| `numerals.dfy` | `Numerals` | `str(n)` and `int(token)` |
| `validators.dfy` | `Validators` | `is_valid_time`, `is_valid_date` (the `strptime(s, "%d-%m-%Y")` call) and `format_date_local` |
| `entry_store.dfy` | `EntryStore` | the `entries` table: `add_entry`, `get_entries` with its `ORDER BY`, `delete_entry_by_index`, `edit_entry_by_index` |
| `session_store.dfy` | `SessionStore` | the `users` table: `get_user_context`, `update_user_diary`, `update_user_date` |
| `interpreter.dfy` | `Interpreter` | the dispatch of `whatsapp_bot`, as one transition `(sessions, entries, phone, text, env) -> (sessions', entries', reply)` |
| `scenarios.dfy` | `Scenarios` | conversations of several messages, proved end to end |

## How the model is built

- **Tables in memory.** The `entries` table is a sequence of `Entry` rows
  plus the next id.
  - `INTEGER PRIMARY KEY AUTOINCREMENT` becomes a counter that starts at 1
    and is never reused.
  - The `users` table is a map from phone to `Session(diary, date)`.
- **Display order.** `get_entries` is a filter followed by an insertion sort
  under `Precedes`, which is the `ORDER BY` clause.
  - `entry_time IS NULL` rows go last.
  - Times are compared code point by code point, as SQLite's BINARY
    collation does.
  - SQLite leaves the order of tied rows unspecified (several untimed rows,
    or equal times). The model breaks ties by ascending id, which is
    insertion order.
- **The date a lookup reads.** app.py:61 selects `current_diary, current_date`
  with `current_date` unquoted. In an SQLite expression that word is the
  `CURRENT_DATE` keyword, the UTC date as `YYYY-MM-DD`, not the column. The
  column is meant only where the keyword cannot stand: the `CREATE TABLE`
  and `INSERT` column lists. Every request therefore carries a
  `SessionStore.Env`, which holds:
  - `today`, Python's local `datetime.date.today()`;
  - `dateRead`, which says what the query returns as the date.
    `CurrentDateKeyword(utc)` is the program as written. `StoredColumn` is
    the evidently intended reading of the stored column (see "## Findings").
- **Reply kinds.** Each reply text of the bot is one constructor of `Reply`,
  carrying the values the text interpolates. A listing carries its lines
  exactly as `f"{idx}. {time_str} - {content}"` renders them.
- **Invariant.** `Interpreter.Inv` holds in every reachable state. It says:
  - ids increase and stay below the counter;
  - every stored time passes `is_valid_time`;
  - every content is non-empty, with no surrounding whitespace.

  `InitialInv` and `StepPreservesInv` prove that every message keeps it.
- **Where the code and its description differ,** the model follows the code:
  - *View with extra tokens.* The view/show branch tests only `tokens[0]`, so
    `צפה` followed by extra words still lists the entries
    (`Interpreter.Classify`).
  - *Empty input creates a session.* `get_user_context` runs before the
    empty-input check, so even an empty message from a new phone creates its
    session. `Interpreter.Step` always ends with the phone in the sessions.
  - *Two spaces in untimed lines.* An untimed line renders as `"2.  - shopping"`,
    with two spaces, because the empty time is still interpolated between
    `". "` and `" - "` (`Scenarios.AddViewRemoveView`).
  - *The stored date is not read back.* Because of the keyword above, a known
    phone's date is always SQLite's date, never the one it chose. A first
    contact's rows go under `format_date_local(today)`, and every later
    message uses SQLite's `YYYY-MM-DD` date
    (`Scenarios.AddViewRemoveViewAsWritten`).
  - *Lenient `int()`.* Remove and edit accept any ASCII-digit numeral `int()` accepts, so
    `+1` and `01` both mean entry 1. Zero and negative numbers reach the
    index check and are rejected there (`Interpreter.RemoveCommand`).
- **Why `lower()` is ASCII-only here.** No command word contains a letter
  with case, so `lower()` matches a command word only when it is typed
  exactly (`Text.LowerMatchesExactly`). No Unicode case mapping produces a
  Hebrew letter, so this changes no dispatch.

## Model

| member | source | states |
|---|---|---|
| Text.Tokenize | app.py:179 | `split()` yields only non-empty, whitespace-free tokens, and at least one when the text starts with a non-space character |
| Text.TokenizeKeepsText | app.py:179 | concatenating the tokens gives back exactly the non-whitespace characters of the text, in order |
| Text.TokenizeJoin | app.py:179 | splitting `" ".join(tokens)` gives back the same tokens |
| Text.Strip | app.py:170 | the result of `strip()` neither starts nor ends with whitespace, and it is empty exactly when the text is all whitespace |
| Text.StripIsSlice | app.py:170 | the result of `strip()` is one contiguous slice of the text, and everything cut off before and after it is whitespace |
| Text.StripJoinedTokens | app.py:250 | the `.strip()` after joining tokens changes nothing; the join is empty exactly when there are no tokens |
| Text.LowerMatchesExactly | app.py:184 | in the ASCII model of `lower()`, for a word without Latin letters (every command word), `token.lower() == word` holds exactly when `token == word` |
| Text.JoinSplitOn | app.py:49 | joining the `-`-separated fields with `-` restores the text |
| Text.SplitJoinOn | app.py:49 | splitting dash-free fields joined by `-` gives back the fields |
| Text.StrLessTrichotomy | app.py:119 | any two different strings are ordered one way or the other under the binary collation |
| Text.StrLessTransitive | app.py:119 | the binary collation order is transitive |
| Numerals.NatToString | app.py:15 | `str(n)` is a non-empty digit string with no leading zero that reads back as `n`, one digit exactly when `n < 10` |
| Numerals.CanonicalNumeral | app.py:15 | a digit string without a leading zero is exactly `str` of its value |
| Numerals.ParseInt | app.py:263 | `int(token)` succeeds exactly on an optional sign followed by digits, and its value is the decimal value of those digits, negated after a `-` |
| Numerals.LenientNumerals | app.py:263 | `1`, `+1`, `01` and `+01` all read as 1, `-0` as 0 and `-2` as -2; the empty token, a bare `+` and `1a` are not numbers |
| Numerals.ParseIntRoundTrip | app.py:263 | `int(str(n)) == n` for every integer |
| Numerals.LeadingZero | app.py:272 | a leading zero does not change the number `int` reads |
| Validators.ValidTimeIsClockTime | app.py:156-162 | the `HH:MM` pattern accepts exactly five characters `hh:mm` whose hour is below 24 and minute below 60 |
| Validators.FormatTime | app.py:156-162 | every hour below 24 and minute below 60 has a zero-padded spelling that the pattern accepts and reads back |
| Validators.ValidTimeIsFormatted | app.py:156-162 | every accepted time is that zero-padded spelling of its own hour and minute |
| Validators.TimeOrderIsChronological | app.py:119 | on accepted times, the binary-collation order sorting `entry_time` is the chronological order |
| Validators.TimeEqualityIsChronological | app.py:156-162 | two accepted times are equal exactly when they denote the same minute of the day |
| Validators.TimeExamples | app.py:156-162 | `09:30`, `14:00` and `23:59` are accepted; `9:30`, `24:00` and `12:60` are rejected |
| Validators.DayFieldMeaning | app.py:49 | `%d` accepts exactly one or two digits whose value is 1 to 31 |
| Validators.MonthFieldMeaning | app.py:49 | `%m` accepts exactly one or two digits whose value is 1 to 12 |
| Validators.ParseDate | app.py:43-52 | whatever is accepted is a real Gregorian date, written as three `-`-separated fields with a four-digit year |
| Validators.ParseDateFields | app.py:43-52 | `d-m-y` is accepted exactly when `d`, `m` and `y` are well-formed day, month and four-digit year fields, the year is at least 1, and the day exists in that month and year |
| Validators.LeapDay | app.py:43-52 | `29-2-YYYY` is accepted exactly in Gregorian leap years |
| Validators.LeapYearExamples | app.py:43-52 | 2024 and 2000 are leap years; 2025 and 1900 are not |
| Validators.DateExampleMonthLength | app.py:43-52 | `31-4-2025` and `31-2-2025` are rejected |
| Validators.DateExampleUnpadded | app.py:43-52 | `15-3-2025` is accepted |
| Validators.DateExamplePadded | app.py:43-52 | `05-03-2025` is accepted: leading zeros parse numerically |
| Validators.DateExampleSyntax | app.py:43-52 | `15-13-2025` and `abc` are rejected |
| Validators.FormatDateRoundTrip | app.py:10-15 | for a year of at least 1000, parsing the unpadded `D-M-YYYY` rendering of a date gives back that date |
| Validators.FormatDateValidIff | app.py:10-15 | the rendering of a date passes `is_valid_date` exactly when its year has four digits |
| Validators.PaddedDateParses | app.py:43-52 | the zero-padded `DD-MM-YYYY` spelling of any date parses to the same date |
| Validators.IsoDateFields | app.py:61 | SQLite's `YYYY-MM-DD` date splits on `-` into a four-digit, a two-digit and a two-digit field holding year, month and day |
| Validators.IsoDateInjective | app.py:61 | two of SQLite's dates are equal exactly when they render the same calendar date |
| Validators.IsoDateNeverValid | app.py:43-52 | no date SQLite renders passes `is_valid_date`, because its first field has four digits and `%d` takes at most two |
| Validators.IsoDateIsNotLocal | app.py:10-15 | SQLite's rendering of any date differs from `format_date_local` of any date |
| EntryStore.AddEntry | app.py:100-109 | the insert appends exactly one row with the given key, time and content and a fresh id, leaves every older row as it was, and keeps ids increasing |
| EntryStore.AddEntryListings | app.py:100-109 | after an insert, the listing of the row's own key gains exactly that row; every other key's listing is unchanged |
| EntryStore.Select | app.py:119 | the `WHERE` clause keeps exactly the rows of the given phone, diary and date |
| EntryStore.PrecedesTotal | app.py:119 | the `ORDER BY` with the id tie-break compares every two rows |
| EntryStore.PrecedesTransitive | app.py:119 | the `ORDER BY` with the id tie-break is transitive |
| EntryStore.Insert | app.py:119 | inserting into a sorted list gives a sorted permutation with one more row |
| EntryStore.SortEntries | app.py:119 | the sort returns a permutation of its input that is sorted under the `ORDER BY` |
| EntryStore.DisplayList | app.py:111-124 | `get_entries` returns a permutation of the rows of that key, in `ORDER BY` order |
| EntryStore.DisplayOrder | app.py:111-124 | in a listing, timed rows come before untimed ones, times never decrease, and rows with equal or no time keep insertion order |
| EntryStore.DisplayDistinct | app.py:111-124 | no row appears twice in a listing |
| EntryStore.DeleteByIndex | app.py:126-139 | deletion succeeds exactly for `1 <= index <= len(list)`; on failure nothing changes; on success every listing loses exactly the row shown at that position |
| EntryStore.DeleteByIndexListings | app.py:126-139 | after a successful delete, the listing is the old one without position `index`, and every other key's listing is unchanged |
| EntryStore.DeleteByIndexTable | app.py:126-139 | a successful delete removes exactly one row from the table and keeps ids increasing |
| EntryStore.RemoveAt | app.py:137 | with increasing ids, `DELETE ... WHERE id = ?` removes exactly the one position holding that id |
| EntryStore.EditByIndex | app.py:141-154 | editing succeeds exactly for `1 <= index <= len(list)`; on failure nothing changes; on success only the content of the row shown at that position is rewritten |
| EntryStore.EditByIndexListings | app.py:141-154 | after a successful edit, the edited line keeps its place in its listing and only its content is new; every other listing is unchanged |
| EntryStore.EditByIndexTable | app.py:141-154 | after a successful edit, every row keeps its id, key and time; the chosen row has the new content and every other row is unchanged |
| EntryStore.EditByIndexWellKeyed | app.py:141-154 | an edit keeps the ids increasing and below the counter |
| EntryStore.SetContentOne | app.py:152 | with distinct ids, `UPDATE ... WHERE id = ?` rewrites exactly the one position holding that id |
| SessionStore.GetContext | app.py:54-72 | a known phone gets its stored diary, and as date the stored one when the column is read but SQLite's date as written; a new phone gets, and stores, the default diary with today's local date; no other session changes |
| SessionStore.GetContextCreatesOnce | app.py:54-72 | however the date is read, a second lookup creates nothing and returns the diary the first one returned |
| SessionStore.GetContextIdempotent | app.py:54-72 | reading the stored column, a second lookup returns exactly what the first one stored and creates nothing, whatever day it runs |
| SessionStore.FirstDateForgotten | app.py:54-72 | as written, the local date a first contact stores is returned only by that first lookup; every later lookup returns SQLite's date, which differs from it |
| SessionStore.GetContextCreatesOne | app.py:54-72 | a first contact adds exactly one session; a known phone adds none |
| SessionStore.UpdateDiary | app.py:74-85 | the phone's diary becomes the new one and its date is the one the context query returned: the stored (or just created) date when the column is read, SQLite's date as written for a known phone; other phones are untouched |
| SessionStore.UpdateDate | app.py:87-98 | the phone's date becomes the new one, its (possibly just created) diary is kept, and other phones are untouched |
| SessionStore.UpdatesCommute | app.py:74-98 | reading the stored column, setting the diary and then the date gives the same table as the other order, holding both values |
| SessionStore.UpdatesDoNotCommute | app.py:74-98 | as written, setting the diary after a valid date replaces that date with SQLite's, so the two orders give different tables for every date the date command accepts |
| Interpreter.Classify | app.py:184-280 | each command is chosen exactly when its own guard holds (first word, token count, second word), so the order of the `elif` chain shadows none; the arguments are the remaining tokens |
| Interpreter.MessageTokens | app.py:170-180 | the message has no tokens exactly when it is all whitespace |
| Interpreter.MessageTokensOfJoined | app.py:179 | a message typed as tokens separated by single spaces is dispatched on exactly those tokens |
| Interpreter.ViewCommand | app.py:234-243 | the view reply says "no entries" for the session's current diary and date exactly when their listing is empty; otherwise it has one line per listed row, line `k` numbering the `k`-th row of the display order |
| Interpreter.ViewIsChronological | app.py:234-243 | in every reachable state, the timed lines of a view are in clock order |
| Interpreter.AddCommand | app.py:246-258 | content is refused exactly when a valid time has nothing after it; otherwise exactly one row is appended to the current diary and date, with the time (if the first word is one) and the remaining words as content |
| Interpreter.RemoveCommand | app.py:261-267 | "invalid number" comes exactly when `int()` fails, and then nothing changes; a number, including zero or a negative one, is removed exactly when it is in range and otherwise gets "invalid index"; a removal drops exactly that line of the listing |
| Interpreter.RemoveNumber | app.py:264 | an index is removed exactly when it is between 1 and the listing length, and the listing then loses exactly that line and the table that row; any other index replies "invalid index" and changes nothing |
| Interpreter.EditCommand | app.py:270-277 | "invalid number" comes exactly when `int()` fails, and then nothing changes; a number is edited exactly when it is in range and otherwise gets "invalid index"; an edit replaces exactly that line's content with the joined words, rewrites no other row of the table and leaves every other listing as it was |
| Interpreter.EditNumber | app.py:274 | an index is edited exactly when it is between 1 and the listing length; then only that row's content changes, in its listing and in the table, and every other listing is unchanged; any other index replies "invalid index" and changes nothing |
| Interpreter.Dispatch | app.py:175-280 | other phones' sessions are never touched; the sender's session changes beyond creation only with a diary or date reply; entries change only with an add, remove or edit reply |
| Interpreter.Step | app.py:170-282 | every message leaves the sender with a session and other senders untouched; sessions change only with diary/date replies and entries only with add/remove/edit replies; the "no input" reply comes exactly for an all-whitespace message |
| Interpreter.StepOnTokens | app.py:179-184 | a message of single-spaced tokens is handled as the command those tokens classify as |
| Interpreter.DispatchSessionEffect | app.py:213-231 | diary commands set the diary and write back the date the context query returned (stored or SQLite's); a valid date is stored verbatim and keeps the diary; an invalid date changes nothing and replies with the format error |
| Interpreter.DispatchReplies | app.py:180-280 | empty input, help and unknown commands get their fixed replies; diary replies carry the joined diary name and the context's date; a valid date reply carries the token and the context's diary; an invalid one the format error |
| Interpreter.DispatchStoreEffect | app.py:233-280 | only add, remove and edit touch the entries, each through its own branch on the current diary and date; view replies with the listing |
| Interpreter.DispatchNoInput | app.py:180-182 | the "no input" reply comes for the empty command and for no other |
| Interpreter.AddPreservesInv | app.py:246-258 | an add keeps ids increasing, every time valid and every content clean |
| Interpreter.RemovePreservesInv | app.py:261-267 | a remove keeps the invariant |
| Interpreter.EditPreservesInv | app.py:270-277 | an edit keeps the invariant, since the new content is joined tokens |
| Interpreter.StepPreservesInv | app.py:175-280 | every message keeps the invariant |
| Interpreter.InitialInv | app.py:17-41 | the freshly created, empty tables satisfy the invariant |
| Scenarios.AddTimedFirst | app.py:246-258 | a first-contact `הוסף <time> <word>` creates the session and stores row 1 with that time and word under today's local date |
| Scenarios.AddUntimed | app.py:254-258 | from a known phone, `הוסף <word>` where the word is not a time stores the word with no time under the session's diary and the date the lookup reads (the stored one, or SQLite's as written), and the reply names that date |
| Scenarios.SelectDateStep | app.py:224-231 | from a known phone, a valid `בחר תאריך <d>` stores `d` as the date, keeps the diary, and replies with both |
| Scenarios.TwoAdds | app.py:246-258 | a timed add from a new phone goes under today's local date; the untimed add after it goes under the date the next lookup reads |
| Scenarios.AddViewRemoveView | app.py:175-280 | reading the stored column: add a timed entry, add an untimed one, view (`1. <time> - <first>`, `2.  - <second>`), remove 1, view again (`1.  - <second>`), all under today's local date |
| Scenarios.AddViewRemoveViewAsWritten | app.py:175-280 | as written, the same five messages file the timed entry under today's local date and the untimed one under SQLite's; both views list only the untimed entry, `הסר 1` removes it, and the timed row stays in the table unseen |
| Scenarios.SelectedDateUsed | app.py:224-258 | reading the stored column, `add` after a valid `בחר תאריך <d>` files the entry under `d` and says so |
| Scenarios.SelectedDateIgnored | app.py:224-258 | as written, `add` after a valid `בחר תאריך <d>` files the entry under SQLite's date, which is never `d`, although `d` was stored |
| Scenarios.BadDateThenView | app.py:224-237 | a new phone selecting `31-2-2025` gets the format error and only its new session; a following view changes nothing and reports today's local date when the column is read, SQLite's date as written |
| Scenarios.DisplayOrderExample | app.py:111-124 | rows added with times 10:00 and 09:00, then two untimed rows, list as 09:00, 10:00, then the untimed rows in insertion order |

## Left out

- Flask and Twilio: `request.form`, `MessagingResponse` and the TwiML
  rendering are not modelled. A message is a `(phone, text)` pair and the
  reply is a `Reply` value. The Hebrew reply texts, including the help text,
  are not modelled.
- A missing `From` field (`phone` being `None`) is not modelled; the phone is
  always a string.
- SQLite: connections, commits and `init_db`'s schema (app.py:17-41) are
  replaced by in-memory values. Storage failures are not modelled.
- The clocks: `datetime.date.today()` is `Env.today` and SQLite's
  `CURRENT_DATE` is the `utc` of `CurrentDateKeyword`. Each is one value per
  message. In the program, `update_user_diary` and `update_user_date` call
  `get_user_context` again, and those calls could read a different day
  across midnight. That second call always finds an existing session, so
  the local date is not read there. The SQLite date is read there, and the
  model takes it to be the same day as the first read of the message.
- SQLite's `CURRENT_DATE` is modelled for years up to 9999, its four-digit
  range.
- Concurrency: every message is one atomic transition. The races between
  concurrent messages from the same phone are not modelled.
- Unicode case: `lower()` is modelled on ASCII letters only (see above for
  why the dispatch does not depend on the rest). `split()` and `strip()` are
  modelled on the full set of characters for which `str.isspace` holds
  (`Text.IsSpace`), so nothing is left out there.
- Numerals.ParseInt: accepts ASCII digits only. Python's `int()` also
  accepts `_` between digits and any Unicode decimal digit, so `הסר 1_0` or an
  Arabic-Indic `١` is a number to the bot and "invalid number" in the model.
  It also accepts surrounding whitespace, which a split token never has.
  From Python 3.11, `int()` refuses a numeral of more than 4300 digits with
  `ValueError`, so such a token is "invalid number" to the bot. The model
  reads numerals of any length, and such an index is out of range
  ("invalid index").
- Validators.ValidTimeIsClockTime: `\d` in a Python `str` pattern matches any
  Unicode decimal digit, so the bot also accepts times written with
  non-ASCII digits. The model accepts ASCII digits only. A final newline,
  which `$` would also accept, cannot occur in a split token.
- Validators.ParseDateFields: `strptime` builds its `%d`, `%m` and `%Y`
  patterns from `\d` too, so the bot also accepts dates written with
  non-ASCII digits. The model accepts ASCII digits only. The leading-space
  alternative of `%d` cannot occur in a split token.
- The order of rows that the `ORDER BY` leaves tied is fixed as insertion
  order, a modelling choice.
- Interpreter.Step: its contract states the frame properties only; what each
  branch computes is stated by `AddCommand`, `RemoveCommand`,
  `EditCommand`, `ViewCommand`, `DispatchSessionEffect` and
  `DispatchStoreEffect`.

## Findings

| source | as written | input that shows it | evidently intended | confidence | as-written member | corrected member |
|---|---|---|---|---|---|---|
| app.py:61 | `SELECT current_diary, current_date FROM users` reads the unquoted `current_date` as SQLite's `CURRENT_DATE` keyword (UTC, `YYYY-MM-DD`), not the column | a known phone sends `בחר תאריך 15-3-2025`, then `הוסף x`: the entry goes under SQLite's date and the reply names it | read the stored column (`"current_date"` quoted), so the chosen date keys every later command | high; not executed | Scenarios.SelectedDateIgnored | Scenarios.SelectedDateUsed |
| app.py:61 | as above, seen across a whole conversation | `הוסף 09:00 a`, `הוסף b`, `צפה`, `הסר 1`, `צפה` from a new phone | the two adds share a key, so the view lists both and `הסר 1` removes the timed one | high; not executed | Scenarios.AddViewRemoveViewAsWritten | Scenarios.AddViewRemoveView |
| app.py:74-98 | `update_user_diary` writes back the date the lookup returned, so `בחר יומן` after `בחר תאריך` replaces the chosen date with SQLite's | `בחר תאריך 15-3-2025`, then `בחר יומן עבודה` | the diary and date commands set independent fields | high; not executed | SessionStore.UpdatesDoNotCommute | SessionStore.UpdatesCommute |
