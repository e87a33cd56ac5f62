# Vocabulary reminder bot: store and day planner

This project models the core of a Telegram bot that reminds each chat, a few
times a day, to practise a word or phrase it has saved, and records the
replies. Two parts carry the logic, both in `bot.py`:

- **The store.** Three tables: `users` (one settings row per chat, created on
  first use), `vocab` (saved phrases with a nullable `last_seen`, a `strength`
  counter and a soft-delete `active` flag), and the append-only `answers` log.
  The bot keeps them in SQLite or PostgreSQL. Here they are the fields of one
  `Store.Database` object. The methods `GetUser`, `SetUser`, `AddVocab`,
  `RemoveVocab` and `RecordAnswer` update those fields in place. The read-only
  queries are functions in `Tables`: list a chat's phrases, pick the phrase to
  practise next, and export a chat's answers.
- **The day planner** (`schedule_today`). It draws candidate times until it
  holds the target number of distinct times later than now. The hour is drawn
  from the user's window and the minute from {5, 15, 25, 35, 45}. It then
  registers one scheduler job per time, earliest first (`Schedule.PlanTimes`,
  `Schedule.RegisterJobs`, `Schedule.ScheduleToday`).

Modelling choices:

- Stored timestamps (`last_seen`, `answered_at`) are abstract ordered values
  (`Tables.Time = int`).
- The pick order is "`last_seen` ascending, missing values first, then
  strength ascending". The PostgreSQL query asks for nulls first directly. The
  SQLite query replaces a missing value with the string `'0000'`, which sorts
  before every ISO timestamp. Both mean the same, and `Tables.SortsBefore`
  states it once.
- The random ordering key that breaks the remaining ties is a supplied `draw`
  index into the tied rows. `Tables.PickReachesEveryTie` shows that every tied
  row is reachable by some draw.
- The planner's local times are `Schedule.Stamp(date, hour, minute)`. A
  planned time has zero seconds. So it is later than the current instant
  exactly when its minute is later than the minute the instant falls in, and
  `now` is modelled to the minute.
- The hour draw and the minute draw are supplied as raw picks (`Schedule.Draw`)
  and mapped into their ranges.
- `Schedule.Planning` is a recursive definition of the planning loop. The
  `while` loop in `Schedule.PlanTimes` is proved to return exactly its outcome.
  The promises about that outcome are proved as lemmas about `Planning`. They
  relate it to the draws through `Schedule.Kept`, the set the loop holds after
  a given number of draws.
- The planning loop has no retry cap. If the window has passed, or it holds
  fewer future slots than the target, the source loops forever. The model
  consumes a finite sequence of draws and reports `Unfinished` when they run
  out. It proves its postconditions for the runs that do finish and does not
  claim termination. `ElapsedWindowHasNoSlots` and `OneHourWindowHasFiveSlots`
  state when finishing is impossible.
- The model follows the code in these places:
  - The code has no cap on planning draws and does not fall back to an empty
    day.
  - The code does not validate hours in settings. A window hour outside 0..23
    makes the `time(hour, minute)` constructor raise `ValueError`, which the
    model reports as `Plan.InvalidHour`.
  - Re-planning does not cancel jobs already registered.
  - A `set_user` for a chat that has no row updates nothing.

## Model

| member | source | states |
|---|---|---|
| `Text.Strip` | bot.py:186 | the result is the infix of the input left after removing leading and trailing Python whitespace; it starts and ends with a non-space character, and it is empty exactly when the input is all whitespace |
| `Text.StripIdempotent` | bot.py:186 | stripping an already stripped text changes nothing |
| `Tables.DefaultUser` | bot.py:128-134 | the row a new chat gets keeps the chat as key and takes the column defaults: tz `Europe/Kyiv`, hours 10 to 21 (a window inside the day) and count 3 (within the 1..12 clamp) |
| `Tables.Assign` | bot.py:177-179 | one column assignment sets the named column to its value and keeps the key and every other column |
| `Tables.ApplyFields` | bot.py:175-183 | the row after `set_user`'s UPDATE, assignments taken in keyword order; the chat key never changes, and no fields leave the row as it was |
| `Tables.ApplyFieldsKeepsUnnamed` | bot.py:172-183 | after `set_user`'s update, a column that no field names, and the chat key, keep their old values |
| `Tables.ApplyFieldsSetsNamed` | bot.py:172-183 | after `set_user`'s update, a named column holds the value of the last field naming it |
| `Tables.ActiveRows` | bot.py:195 | a row is kept exactly when it belongs to the chat and is active |
| `Tables.ActiveRowsAscending` | bot.py:195 | filtering a table kept in id order preserves strictly ascending ids |
| `Tables.ListVocab` | bot.py:193-198 | returns only active rows of that chat, at most `limit` of them, and all of them when fewer than `limit` are returned |
| `Tables.ListVocabOrdered` | bot.py:193-198 | on a table in id order the listing has strictly ascending ids, and every active row of the chat left out has a larger id than every row listed |
| `Tables.SortsBefore` | bot.py:209-220 | the `ORDER BY` of the pick: a row sorts before another only when their `last_seen` or strength differ; a never-seen row sorts before every seen one, and never after one |
| `Tables.Earliest` | bot.py:209-211 | returns a row of the input that no row sorts strictly before |
| `Tables.PickVocab` | bot.py:205-223 | returns nothing exactly when the chat has no active row; otherwise an active row of that chat that no active row of the chat sorts strictly before, and a never-seen row whenever the chat has one |
| `Tables.PickReachesEveryTie` | bot.py:211 | every active row that nothing sorts before is the result for some random tie-break |
| `Tables.FreshRowCanBePicked` | bot.py:205-223 | a just-added row (never seen, strength 0) in a table without negative strengths can be picked |
| `Tables.Deactivated` | bot.py:200-203 | the soft delete keeps every row and every column but `active`, and clears `active` on exactly the rows matching both chat and id |
| `Tables.RemoveActiveRows` | bot.py:200-203 | after a removal the chat's active rows are its former ones minus that id; every other chat's active rows are unchanged |
| `Tables.ListAfterRemove` | bot.py:193-203 | the listing after a removal never shows the removed id |
| `Tables.RemoveIdempotent` | bot.py:200-203 | removing the same id twice equals removing it once |
| `Tables.RemoveMissingIsNoop` | bot.py:200-203 | removing an id that the chat has no row with leaves the table unchanged |
| `Tables.Touched` | bot.py:232-236 | the id-only UPDATE keeps every row and its id, chat, text and `active`; only `last_seen` and strength may change |
| `Tables.RecordBumpsRow` | bot.py:232-236 | rows with the answered id gain exactly 1 strength and get `last_seen = now`; all other rows are unchanged; strength never decreases; `last_seen` never goes back when `now` is not earlier than any stored time |
| `Tables.RecordAfterPickStaysInChat` | bot.py:352-356 | the id-only update changes no row except the picked one when ids are unique and the id comes from picking for the same chat |
| `Tables.ChatRows` | bot.py:361-365 | every answer of the chat appears as an exported row, every exported row comes from an answer of the chat, and each row occurs exactly as many times as the chat has answers projecting to it |
| `Tables.InsertDesc` | bot.py:362 | inserting into a newest-first sequence keeps it newest first and adds exactly that row |
| `Tables.SortDesc` | bot.py:362 | the result is newest first and a permutation of the input |
| `Tables.ExportAnswers` | bot.py:361-365 | the export holds exactly the chat's answers, as (time, text) rows, newest first |
| `Tables.ExportAfterRecord` | bot.py:225-231 | appending an answer adds exactly its row to its own chat's export and nothing to any other chat's |
| `Store.Database.constructor` | bot.py:89-159 | a fresh database has three empty tables, both auto-increment counters start at 1, and the store invariant holds |
| `Store.Database.GetUser` | bot.py:161-170 | returns the chat's existing row unchanged, or inserts one with tz `Europe/Kyiv`, hours 10 to 21 and count 3 and returns it; other tables are untouched |
| `Store.Database.SetUser` | bot.py:172-183 | no fields is a no-op; otherwise the chat's row, if there is one, becomes the row with the named columns assigned; nothing else changes |
| `Store.Database.AddVocab` | bot.py:185-191 | a text that strips to nothing leaves the table unchanged; otherwise exactly one row is appended with a fresh id, the chat, the stripped text, no `last_seen`, strength 0 and active |
| `Store.Database.RemoveVocab` | bot.py:200-203 | the table becomes its soft-deleted form for that chat and id; all other tables and the id counter are unchanged |
| `Store.Database.RecordAnswer` | bot.py:225-236 | exactly one answer `(fresh id, chat, id, text, now)` is appended after the old log, and the vocab table gets the id-only stamp-and-strengthen update |
| `Schedule.LastHour` | bot.py:253 | the last allowed hour is at least the start hour, and is the start hour or the hour before the end |
| `Schedule.Target` | bot.py:252 | the target count is the configured count clamped to 1..12 |
| `Schedule.DrawHour` | bot.py:253 | a drawn hour lies in `[start_h, LastHour]` |
| `Schedule.DrawMinute` | bot.py:254 | a drawn minute is one of 5, 15, 25, 35, 45 |
| `Schedule.DrawCoversWindow` | bot.py:253-254 | every hour of the window and every allowed minute is the outcome of some draw |
| `Schedule.KeptInWindow` | bot.py:253-257 | every time the loop keeps from a run of draws whose hours all lie in 0..23 is a slot of the window on `now`'s date, strictly after `now` |
| `Schedule.Planning` | bot.py:251-257 | the loop's outcome from draw `i` with `planned` collected: a finished plan contains `planned` and reaches the clamped target; a partial one contains `planned` and stays below it; a raised hour is outside 0..23 |
| `Schedule.PlanningStep` | bot.py:252-257 | one turn of the loop with a valid hour moves to the state after one more draw: the drawn time is added exactly when it is later than `now`, and the set never exceeds the target |
| `Schedule.PlannedFollowsDraws` | bot.py:252-257 | a completed run stops at the first draw that brings the set to the target, which then holds exactly the times kept from the draws so far |
| `Schedule.RanOutFollowsDraws` | bot.py:252-257 | a run cut short has used every draw, none of them left the day, and it holds exactly the times kept from all of them, fewer than the target |
| `Schedule.FailedFollowsDraws` | bot.py:253-255 | `ValueError` comes from the first draw whose hour is outside 0..23, reached while the set is still short of the target |
| `Schedule.FollowsDrawsStaysInWindow` | bot.py:251-257 | an outcome that follows the draws respects the window: a finished plan holds exactly the clamped count of distinct times, all on `now`'s date, strictly after `now` and inside the window, so the window has at least that many future slots; a partial one holds only such slots; a raised hour lies in the window; a window inside the day never raises |
| `Schedule.PlanningFits` | bot.py:251-257 | the loop run from an empty set keeps all the promises above for every sequence of draws |
| `Schedule.PlanTimes` | bot.py:251-257 | the `while` loop returns exactly the outcome `Planning` defines for the supplied draws |
| `Schedule.ElapsedWindowHasNoSlots` | bot.py:252-257 | once the window's last slot has passed there is no future slot, so the loop cannot finish |
| `Schedule.OneHourWindowHasFiveSlots` | bot.py:252-257 | a window of one hour (start hour at least end hour minus 1) has at most five future slots |
| `Schedule.Scheduler.constructor` | bot.py:240 | the scheduler starts without jobs |
| `Schedule.RegisterJobs` | bot.py:259-260 | the old jobs are kept; one job per planned time for the chat is appended, with strictly ascending times |
| `Schedule.ScheduleToday` | bot.py:242-260 | looks the user up, creating the row if needed, and changes no other table or id counter; the plan is the planning loop's outcome for the user's window and count and keeps the promises of `PlanningFits`; a finished plan's times are registered in ascending order after the old jobs; otherwise no job is added |

## Left out

- Telegram transport: the command handlers and their argument parsing and replies (bot.py:273-357), `send_prompt`'s message sending and prompt formatting (bot.py:262-269), and the CSV file writing of the export (bot.py:366-375). These are I/O against a chat library. The reply handler's pick-then-record sequence is covered only by `Tables.RecordAfterPickStaysInChat`.
- Connections, the two SQL dialects and the schema DDL (bot.py:54-159). The tables are modelled directly; only the column defaults and auto-increment ids are kept. A storage failure surfacing as an exception is not modelled.
- Time zones: resolving the zone name, localizing times and daylight-saving gaps or overlaps (bot.py:244-255). `now` is a local wall-clock minute supplied by the caller.
- The scheduler library's firing of jobs, and the `/when` listing of pending jobs (bot.py:336-347). Registration is appending to `Scheduler.jobs`.
- Randomness: the hour and minute draws and the SQL random tie-break are supplied values, not distributions.
- Health-check HTTP server, `main`, and environment loading (bot.py:26-33, bot.py:379-425): process plumbing.
- `Store.Database.SetUser`: accepts only the four settings columns as fields. The source takes any keyword: an unknown column makes the UPDATE raise, and `chat_id=` would move the row to another key. The only caller (bot.py:319) passes exactly those four columns.
- `Store.Database.AddVocab`: takes a string. The source also accepts `None`, which it treats as an empty text.
- `Tables.ListVocab`: `limit` is a natural number. A negative limit means "no limit" in SQLite and is an error in PostgreSQL; the bot only ever passes 50.
- `Schedule.PlanTimes`: does not terminate on its own in the source. The model bounds it by the supplied draws and does not claim termination.
- `Store.Database.RecordAnswer`: performs both writes in one method. A crash between the answer insert and the vocab update is not modelled.
- Stored timestamps are abstract integers. In SQLite they are ISO-format strings compared as text, which agrees with time order for the format the bot writes.
- Integer widths (BIGINT chat ids, INT strength and ids) are unbounded here; overflow is not modelled.
