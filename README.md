# Goal tracker: a Dafny model of the goal lifecycle

The goal tracker is a small Flask application. A user submits a goal, which is a
description and a deadline in `YYYY-MM-DD` form. The index page lists the active
goals, each with a status derived from its deadline and the current date:
"Past Due", "Due Today" or "Upcoming". It also lists the completed goals.
Completing a goal moves it from the active goals to the completed goals.

The repository has two versions of this lifecycle, and both are modelled:

- `Code_Comments.py` keeps goals in two SQLite tables, `goals` and
  `goals_completed`. Module `DatabaseGoals` (database_goals.dfy) models the two
  tables as the `Tables` value and as the fields of the class `GoalStore`.
  It has one method per request: `Index`, `AddGoal` and `CompleteGoal`.
  Each method's new state is a function of the old one (`Insert`,
  `Complete`), and lemmas state what those functions guarantee.
- `app.py` keeps goals in a module-global list. Module `MemoryGoals`
  (memory_goals.dfy) models that list as the field of the class `GoalList`.
  `Index` rewrites each goal's status in a loop, and `AddGoal` appends.
  The lemmas are about `Refreshed`, the list as `Index` leaves it.

Shared parts:

- `Dates` (dates.dfy) has calendar dates ordered lexicographically on
  (year, month, day). It also has the `%Y-%m-%d` text form: `Parse` stands for
  `strptime` and `Format` stands for `strftime`, and two round-trip lemmas
  connect them.
- `GoalStatus` (status.dfy) has the three-way status rule. `Status.Label` gives
  the text shown for each status, and both versions keep that text as the
  goal's status, as the source does.
- `Common` (common.dfy) has `Option` and the three kinds of response: a redirect
  to the index page, a plain-text body, or the server error Flask answers with
  when a handler raises an exception that nothing catches.

The current date is a parameter of every operation that reads it. A database
error is the boolean parameter `fail` of each database operation:
- In `complete_goal` the error is caught, the transaction is rolled back, and the browser is still redirected.
- In `add_goal` the error is not caught. The uncommitted insert is dropped and the request fails.
- In `index` the error is not caught either, and the request fails.

## Model

| member | source | states |
|---|---|---|
| `GoalStatus.Classify` | Code_Comments.py:52-56 | exactly one status: `PastDue` (shown as "Past Due") iff the deadline is before today, `DueToday` ("Due Today") iff it is today, `Upcoming` ("Upcoming") iff it is after today |
| `Dates.Parse` | Code_Comments.py:73 | a text that is accepted names a valid calendar date (year 1 to 9999, month 1 to 12, a day that exists in that month); any other text is the `ValueError` case |
| `Dates.Format` | Code_Comments.py:75 | the `%Y-%m-%d` text of a date is ten characters long, with dashes at positions 4 and 7 |
| `Dates.ParseFormat` | Code_Comments.py:51 | the deadline text that `add_goal` stores parses back, in `index`, to the same date, so reading a stored deadline cannot fail; this rests on `Format` always writing a four-digit year (see Dates.Format under "Left out") |
| `Dates.FormatParse` | Code_Comments.py:73-75 | every text the strict `Parse` accepts equals the text written back for its date, so for zero-padded input the stored deadline is the submitted one (Python also accepts `2025-1-5` and stores `2025-01-05`) |
| `DatabaseGoals.Find` | Code_Comments.py:91 | the row found is a row of `goals` with the requested id; nothing is found exactly when no row has that id |
| `DatabaseGoals.DeleteId` | Code_Comments.py:100 | the rows kept are exactly those whose id differs; with no matching row the table is unchanged, and otherwise it shrinks |
| `DatabaseGoals.DeleteUniqueAt` | Code_Comments.py:100 | when ids are unique, deleting the id of row k removes exactly row k and keeps every other row in its order |
| `DatabaseGoals.DeletePreservesUnique` | Code_Comments.py:100 | deleting rows keeps the ids of `goals` unique |
| `DatabaseGoals.InsertAppends` | Code_Comments.py:74-76 | adding a goal appends exactly one row: its id is used by no earlier row, it has the description, and its deadline text parses to the deadline; earlier rows and `goals_completed` are untouched and the store stays consistent |
| `DatabaseGoals.CompleteMovesGoal` | Code_Comments.py:91-101 | completing a present goal removes its row and keeps every other row in order; `goals_completed` gains exactly one row, with a fresh id, the goal's description and deadline, and a completion date that reads back as today |
| `DatabaseGoals.CompleteAllOrNothing` | Code_Comments.py:93-108 | either both tables stay as they were, or one row leaves `goals` and one row enters `goals_completed`; nothing changes exactly when the store failed (rollback) or no goal has the id |
| `DatabaseGoals.CompleteTwice` | Code_Comments.py:91-101 | after a committed first completion, completing the same id again, on any day and whether or not the store fails, leaves the state that first completion produced |
| `DatabaseGoals.CompleteKeepsConsistent` | Code_Comments.py:93-108 | completion, committed or rolled back, keeps ids unique and fresh and keeps every active deadline parseable |
| `DatabaseGoals.GoalStore.constructor` | Code_Comments.py:23-28 | a freshly initialised store has two empty tables and is consistent |
| `DatabaseGoals.GoalStore.Index` | Code_Comments.py:44-61 | the active listing has one entry per row, in order, keeping the row's id and description, with the parsed deadline and the text of its three-way status; the completed listing is `goals_completed` unchanged and in order; the request fails exactly when a SELECT raises a database error or a stored deadline does not parse, and a consistent store rules out the second |
| `DatabaseGoals.GoalStore.AddGoal` | Code_Comments.py:68-81 | the deadline is parsed before anything is written; when it does not parse, both tables are unchanged and the response is "Invalid date format"; when it parses and the INSERT and commit succeed, the new state is `Insert` of the old and the response is a redirect; when they raise a database error, both tables are unchanged and the request fails with a server error |
| `DatabaseGoals.GoalStore.CompleteGoal` | Code_Comments.py:86-111 | the new state is `Complete` of the old (insert and delete, or a rollback to the old tables on a database error, or nothing when the id is absent); the response is always a redirect to the index |
| `MemoryGoals.RefreshedAt` | app.py:14-19 | after `index` the list has the same length and order, and each goal keeps its description and deadline and has the status text of the three-way rule |
| `MemoryGoals.RefreshedLastWins` | app.py:15-19 | the status is reset before it is reclassified, so only the latest date counts; running `index` twice on the same day gives the list of running it once |
| `MemoryGoals.RefreshedAppend` | app.py:14-19 | a goal that was appended is listed after the earlier goals, with the status of the three-way rule, and the earlier goals are listed as before |
| `MemoryGoals.GoalList.constructor` | app.py:8 | the global list starts empty |
| `MemoryGoals.GoalList.Index` | app.py:12-20 | the list after the status loop is `Refreshed` of the list before it |
| `MemoryGoals.GoalList.AddGoal` | app.py:24-34 | with a parsable deadline, exactly one goal is appended at the end, with that description and deadline, no id and no status, and the earlier goals are unchanged (duplicates are accepted); otherwise the list is unchanged and the response is "Invalid date format" |

## Left out

- Flask plumbing is not modelled: routing, `render_template`, `redirect`/`url_for`, reading the request form, and `app.run`. A response is only "redirect to the index", a plain-text body, or a server error. The GET branch of `/add`, which only renders the form, is also left out.
- Connection handling is not modelled: `get_db`, `close_db`, `teardown_db`, and the extra `conn.close()` in `index`. These are resource lifetime, and the tables are plain sequences.
- `init_db` and the `initdb` command are not modelled, and `schema.sql` is not part of this model. `GoalStore.constructor` stands for a freshly initialised database.
- Store-assigned ids come from per-table counters that never reuse an id. The schema is not available, so SQLite's exact rowid choice (`AUTOINCREMENT` or largest id plus one) is not modelled.
- `datetime.date.today()` is a parameter. The `print` logging in `complete_goal` is left out.
- `fail` stands for any `sqlite3.Error` raised by the database statements of a request. The model does not say which statement failed. In `complete_goal` the rollback, and in `add_goal` the missing commit, make every such failure end in the unchanged tables. How SQLite provides atomicity, and concurrent requests, are not modelled.
- Only the outcome of an uncaught exception is modelled, as `ServerError` in `add_goal` and as no page in `index`. Flask's error page and the logging of the traceback are not modelled.
- Dates.Parse: accepts only zero-padded `YYYY-MM-DD` text. Python's `strptime` with `%Y-%m-%d` also accepts a one-digit month or day (for example `2025-1-5`), and `add_goal` then stores the zero-padded text. The model rejects such input. The operation contracts use `Parse` only as a partial function, so they hold the same way for a more lenient parser. `FormatParse` is a fact about this strict parser only.
- Dates.Format: always pads the year to four digits. How the platform's `strftime` writes years below 1000 is not modelled.
- In `app.py` the goals are dictionaries that `index` changes in place. The model keeps them as values in a sequence, so aliasing of a goal dictionary is not captured. The list handed to the template is not modelled either.
