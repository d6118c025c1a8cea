# Post lifecycle and task dispatch of a Steam sales mailing bot

This project models, in Dafny, the decision logic of a Telegram bot that announces
discounted Steam games:

- the `posts` table and its two-state lifecycle, `PENDING_PUBLISH` → `PUBLISHED`
  (`usecases.py`, schema in `db.py`);
- `clean_old_posts`, which deletes published posts last updated at or before a
  cutoff three months in the past;
- `publish_posts`, which offers every pending post to the bot, marks each
  delivered one published with the current time, pauses 2–10 seconds after each
  delivery, and skips a post whose send fails;
- one tick of `dispatch_tasks` (`main.py`), which picks discovery (18:00–02:00,
  request limit 200), refresh (02:00–08:00, update limit 100) or publishing (08:00–18:00) by
  Moscow time of day and then sleeps 30 seconds.

Files and modules:

| file | module | contents |
|---|---|---|
| `optional.dfy` | `Optional` | `Option`, for nullable columns and failed conversions |
| `posts.dfy` | `Posts` | `PostStatus`, the table `Row`, the `Post` record, `DiscountedPrice`, `ToPost` |
| `cleaning.dfy` | `Cleaning` | the deletion rule and its properties |
| `publishing.dfy` | `Publishing` | a run as a trace of sends and pauses, `Replay` (the table a trace leaves), pacing and per-row outcome lemmas |
| `post_table.dfy` | `PostTable` | class `PostsDb`, whose `posts` map is changed in place by `CleanOldPosts` and `PublishPosts` |
| `dispatch.dfy` | `Dispatch` | the window chain, a reference definition of the windows, one dispatcher tick |

How the environment is represented:

- The table is a map from primary key to row. The order in which the store
  returns the selected rows is unspecified: `PublishPosts` takes the next row
  by nondeterministic choice (`:|`), so its contract holds for every order.
- The bot is a parameter `bot: Message -> bool`: true when the send succeeds,
  false when it raises.
- `randint(2, 10)` is a nondeterministic choice of a pause between 2 and 10.
- Time is whole seconds. `PublishPosts` starts at `now`; the clock then moves
  only by the pauses, so the stamp of a delivered post is `now` plus the pauses
  before its send. The cutoff of `clean_old_posts` is a parameter.
- The dispatcher receives the Moscow time of day in microseconds since midnight.

Behaviour of the code that the model keeps:

- `discount` and `game_description` may be NULL by the schema (db.py:18-20).
  Converting a NULL discount (usecases.py:95-96) or escaping a NULL description
  (usecases.py:105) raises outside the `try` of usecases.py:121-132. That ends
  the whole run, and rows already published stay published because each update
  is committed at once. `ToPost` returns `None` for such a row, and the run ends
  with `Crashed(id)`.
- The discounted price is not clamped: a discount of 910 gives -8100 for a
  price of 1000.
- A failed send leaves the row pending, and the next row follows at once with
  no pause.

## Model

| member | source | states |
|---|---|---|
| `Posts.DiscountedPrice` | usecases.py:95 | the discounted price is price minus discount percent of price; a discount of 0 leaves the price, 100 gives 0, 0–100 stays within [0, price], above 100 gives a negative price |
| `Posts.DiscountAboveHundredGoesNegative` | usecase_tests.py:103-104 | the scenario discounts are not clamped: 910% of 1000 gives -8100, 200% of 312 gives -312 |
| `Posts.ToPost` | usecases.py:89-110 | a Post is built exactly when discount and description are not NULL; it copies every column and carries the discounted price |
| `Cleaning.ExpiredIds` | usecases.py:47-51 | the DELETE selects exactly the published rows whose `updated_at` is at or before the cutoff |
| `Cleaning.Survivors` | usecases.py:47-56 | the table after the DELETE holds exactly the non-expired rows, each unchanged |
| `Cleaning.PendingNeverCleaned` | usecases.py:49 | a pending row is never deleted, however old, and keeps every field |
| `Cleaning.PublishedSurvivesIffRecent` | usecases.py:49-50 | a published row survives if and only if it was updated after the cutoff |
| `Cleaning.DeletedCount` | usecases.py:55-61 | the reported row count equals the number of expired rows, and the table shrinks by that much |
| `Cleaning.CleanIdempotent` | usecases.py:47-51 | a second cleaning with the same cutoff deletes nothing |
| `Cleaning.LaterCutoffDeletesMore` | usecases.py:50 | a later cutoff deletes a superset of the rows |
| `Cleaning.CleanScenarioOutcome` | usecase_tests.py:44-76 | in the six-row scenario rows 1 and 2 are deleted and rows 3–6 stay, the 400-day-old pending row 6 included |
| `Publishing.PendingIds` | usecases.py:66-69 | the SELECT returns exactly the pending rows |
| `Publishing.Replay` | usecases.py:71-75 | replaying a trace keeps the set of rows: the UPDATE neither adds nor deletes |
| `Publishing.ReplayOnlyPublishes` | usecases.py:71-75 | a row either stays as it was or becomes published with a new stamp; no other column changes |
| `Publishing.ReplayUntouched` | usecases.py:130-134 | a row with no delivered send, a failed one included, is left exactly as it was |
| `Publishing.ReplayStamp` | usecases.py:124-134 | a delivered post ends published, stamped with the start time plus the pauses before its send, other columns unchanged |
| `Publishing.StampWithinRun` | usecases.py:134-138 | every stamp lies between the start of the run and the start plus all pauses |
| `Publishing.OneAttemptPerId` | usecases.py:87-129 | the number of send attempts equals the number of distinct posts attempted |
| `Publishing.PacingTotals` | usecases.py:77-138 | there is one pause per delivered post, so k deliveries pause between 2k and 10k seconds |
| `Publishing.PacingAt` | usecases.py:121-138 | a delivered send is followed at once by one pause of 2–10 s; a failed send is followed by another send or the end; every pause follows a delivery |
| `Publishing.RunOutcome` | usecases.py:79-138 | per row: a published row is untouched; in a finished run, a pending row is published within the run when the bot accepts it and unchanged when the send fails |
| `Publishing.PublishScenarioOutcome` | usecase_tests.py:98-132 | in the two-row scenario exactly one message is sent (row 2, price -8100); both rows end published; row 1 keeps its stamp and row 2 gets a new one |
| `PostTable.PostsDb.CleanOldPosts` | usecases.py:46-61 | the table becomes the survivors of the cutoff and the returned count is the number of deleted rows |
| `PostTable.PostsDb.PublishPosts` | usecases.py:65-138 | the table becomes the replay of the returned trace; the trace offers each pending row at most once (all of them when the run finishes), only pending rows, with the bot's answer, paced as above; a run stops only at a row with a NULL discount or description |
| `Dispatch.SelectTaskFollowsWindows` | main.py:45-60 | the chain runs a window's task (discovery with request limit 200, refresh with update limit 100, publishing) exactly when the time lies in that window |
| `Dispatch.WindowsPartitionDay` | main.py:45-60 | every time of day lies in exactly one window, so every tick runs exactly one task |
| `Dispatch.OpeningBelongsToWindow` | main.py:45-57 | 02:00 is refresh, 08:00 is publishing, 18:00 is discovery |
| `Dispatch.WindowsFillDay` | main.py:45-57 | the windows last 8, 6 and 10 hours and each closes where the next opens |
| `Dispatch.DispatchTick` | main.py:42-62 | a tick runs the task of the window holding the current time and then sleeps 30 seconds |

## Left out

- `find_steam_ids`, `update_steam_game_price_and_discount` and `publish_steam_post`: main.py calls them, but their code is not part of this model. The tick records only which one it runs, and with which limit.
- `parse_steam_games` (usecases.py:37-42): it only writes a log line.
- Logging, the HTML caption, `html.escape` and the inline store button: the message is represented by the chat id and the `Post` it is built from.
- db.py: opening the connection, the WAL pragma, and creating the table and index. The schema only shapes `Row`.
- main.py bootstrap (environment, bot and Steam clients, logging setup, `asyncio.run`), the Moscow time-zone conversion, and the endless `while True` loop. One tick is modelled, with the time of day as a parameter.
- SQLite details: the calendar arithmetic of `datetime('now', '-3 months')` (the cutoff is a parameter), timestamps stored as text and compared as strings (they are integers here), and the SELECT row order (a nondeterministic choice).
- Floating point: prices are exact reals, with no rounding or printing.
- Time spent sending or writing: only the pauses move the clock.
- Failures other than NULL columns: a malformed timestamp or status string, and store errors. Python would raise; the model has no such inputs.
- Concurrency and `asyncio`: every operation runs alone.
