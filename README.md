# love_story_book: the logic of the Flask app, in Dafny

The application is a small Flask site: a login page, a countdown to the next
meeting, a ranked movie list and a message board, each backed by one SQLite
table. Most handlers pass a request straight to one SQL statement. This model
covers the few places in `app.py` that compute something:

- **Login and the login guard** (module `Auth`, `auth.dfy`). The users table
  is a sequence of rows. The session, the posted form and the cookies are
  plain values. `Login` is the `/login` handler. It returns the new session,
  the flashed messages and either a redirect home, with an optional
  `remember_me` cookie, or the login page again. `LoginRequired` is the
  `login_required` decorator's check.
- **The next meeting** (module `Countdown`, `countdown.dfy`). The scan in the
  countdown handler is a method with a loop that breaks at the first meeting
  starting on or after today.
- **The movie ranking** (module `Movies`, `movies.dfy`). The movies table is a
  class, `MovieTable`, whose `rows` the handlers replace. `AddMovie` is the
  insert branch of `/movies`. `UpdateRanks` is `/update_ranks`, a loop that
  issues one UPDATE per entry of the client's order. It is proved equal to
  `Reranked`, a declarative description in which each listed row takes the
  1-based position of its id's last occurrence.
- **Date sections of the message board** (module `MessageBoard`,
  `messages.dfy`). `GroupMessagesByDate` builds the insertion-ordered
  dictionary of sections step by step. It is proved to produce the labels in
  order of first appearance, each holding exactly its messages in incoming
  order. A section label is `Today`, `Yesterday` or `Other(day)`.
- **Python string behaviour** (module `Text`, `text.dfy`): `str.strip()` with
  Python's whitespace set, and `str(n)` for the cookie's user id.

Dates are integer day numbers. "Today" and "now" are parameters.

Some facts about `app.py` that shape the model:
- `app.py` reorders the `movies` table through `/update_ranks`. The
  per-category `items` table exists only in the Postgres schema and seed
  data of `init_db.py`, and no handler queries it.
- "Yesterday" compares calendar dates (`today - 1 day`). It is not a
  24-hour window.
- The table does not keep ranks distinct or dense. An order that lists
  every row's id gives distinct ranks (`FullOrderGivesDistinctRanks`). An
  order that lists row ids only, each once, uses every rank from 1 to its
  length (`FullOrderGivesDenseRanks`).
- `login_required` is defined at app.py:16 and applied to no route. The
  guard is modelled as the function it defines.

## Model

| member | source | states |
|---|---|---|
| `Text.StripEmptyIffBlank` | app.py:140 | `title.strip()` is empty exactly when every character of the title is Python whitespace |
| `Text.DecimalTextInjective` | app.py:55 | two ids with the same `str(id)` text are equal, so a cookie names at most one id |
| `Auth.FindByUsername` | app.py:44 | the lookup by username returns the first row with that username, or none when no row has it |
| `Auth.FindById` | app.py:23 | the lookup by the cookie's text returns a row whose id is spelled that way, or none when no row's id is |
| `Auth.LoginSucceedsIffCredentialsMatch` | app.py:43-58 | with unique usernames, a submitted login redirects home exactly when some user has that username and a stored password equal to the supplied one |
| `Auth.LoginSuccessEffects` | app.py:47-56 | a successful login sets the session's user id and username to that user's, flashes "Login successful!", and sets a `remember_me` cookie holding the id and expiring 7 days after now exactly when "remember" is ticked |
| `Auth.LoginFailureEffects` | app.py:43-60 | when no user with that username has that stored password, the login leaves the session unchanged, flashes "Invalid username or password" and renders the login page |
| `Auth.LoginRequiredRunsViewIff` | app.py:19-32 | the guard runs the view exactly when the session has a user id or the cookie is non-empty and names an existing user; a session with a user id passes through unchanged; a view run from the cookie gets a session with a user id |
| `Auth.GuardRestoresNamedUser` | app.py:19-27 | with no session user id and a cookie spelling a user's id, the guard runs the view with that user's id and username in the session (ids being unique) |
| `Auth.RememberedLoginPassesGuard` | app.py:19-55 | the cookie handed out by a remembered login lets the guard, on a later request without a session, rebuild the very session the login created |
| `Auth.AsWrittenGuardNeverRestores` | app.py:19-32 | as written, the guard runs the view only when the session already has a user id; a cookie spelling a user's id fails on the missing `name` column after that user's id was stored in the session, the session's username unchanged |
| `Auth.AsWrittenGuardRejectsRememberedUser` | app.py:25-27 | a concrete request on which the guard as written fails with only user id 1 in the session, and the corrected guard restores user 1's id and username |
| `Countdown.FirstUpcoming` | app.py:97-102 | the index of the first meeting starting on or after today: every earlier meeting starts before today; none exists exactly when all meetings start before today |
| `Countdown.NextMeeting` | app.py:94-102 | the scan returns the first meeting starting on or after today and `days_until = start - today >= 0`, or nothing for both when there is no such meeting |
| `Countdown.FirstUpcomingIsNearest` | app.py:91-102 | with meetings in start-date order, no upcoming meeting starts before the one found |
| `Movies.MaxRank` | app.py:142 | `MAX(rank)` is NULL on an empty table, and otherwise a rank of some row that no row's rank exceeds |
| `Movies.NewRank` | app.py:142-143 | the new rank is greater than every existing rank, is 1 on an empty table, and is otherwise one past an existing rank |
| `Movies.LastPosition` | app.py:175-176 | the 1-based position of an id's last occurrence in the order: the entry there is the id and no later entry is |
| `Movies.RerankedStep` | app.py:175-176 | one more UPDATE, for the next position, turns the reranking for an order into the reranking for that order extended by one id |
| `Movies.RerankedKeepsRows` | app.py:175-176 | reranking keeps the same rows, ids and titles; ids in the order that match no row add nothing |
| `Movies.RerankedRank` | app.py:175-176 | a listed row's new rank is the 1-based position of its id's last occurrence; an unlisted row keeps its rank |
| `Movies.SingleOccurrenceGetsItsPosition` | app.py:175-176 | an id listed exactly once, at 0-based index i, gets rank i + 1 |
| `Movies.FullOrderGivesDistinctRanks` | app.py:175-176 | when the order lists every row's id, the ranks become pairwise distinct values between 1 and the length of the order |
| `Movies.FullOrderGivesDenseRanks` | app.py:175-176 | when the order lists row ids only, each once, the row whose id is at 0-based index i gets rank i + 1, so every rank from 1 to the length of the order is used |
| `Movies.InsertKeepsWellKeyed` | app.py:144 | inserting a row under the next id keeps ids unique and below the next id |
| `Movies.MovieTable.AddMovie` | app.py:138-147 | a non-blank title is inserted once, as typed, under a fresh id with rank `NewRank`, and the next id moves on by one; a blank title leaves the table unchanged |
| `Movies.MovieTable.UpdateRanks` | app.py:166-180 | a missing or empty order answers status 400 and leaves the table unchanged; otherwise the table becomes `Reranked(old rows, order)` and the answer is success with status 200 |
| `MessageBoard.LabelOfCases` | app.py:190-195 | the label is `Today` exactly on today's date, `Yesterday` exactly on the day before, and otherwise names the message's own date |
| `MessageBoard.LabelOfSeparatesDays` | app.py:189-196 | two messages get the same label exactly when they were written on the same day |
| `MessageBoard.FirstAppearances` | app.py:186-196 | the section labels are pairwise distinct |
| `MessageBoard.FirstAppearancesMembers` | app.py:186-196 | a label is a section label exactly when some message carries it |
| `MessageBoard.FirstAppearancesOrdered` | app.py:196 | sections are ordered by the first message carrying each label |
| `MessageBoard.SetDefaultAppendStep` | app.py:196 | `setdefault(label, []).append(msg)` keeps the sections equal to those of the messages filed so far |
| `MessageBoard.GroupMessagesByDate` | app.py:184-197 | the result's keys are the labels in order of first appearance, and under each key are exactly the messages with that label, in incoming order |
| `MessageBoard.MembersOfConcat` | app.py:188-196 | sections preserve order: the section of a concatenation is the concatenation of the sections |
| `MessageBoard.MembersCount` | app.py:188-196 | a section holds every copy of a message with its label and no message with another label |
| `MessageBoard.GroupsPartitionMessages` | app.py:186-197 | the sections, listed one after another, hold exactly the input messages, as a multiset and in total count |

## Findings

| source | as written | input that shows it | evidently intended | confidence | as-written member | corrected member |
|---|---|---|---|---|---|---|
| app.py:27 | `login_required` stores `user['id']` and then reads `user['name']`, but the users table has a `username` column and no `name` column, so restoring a session from the `remember_me` cookie raises. The defect is latent: no route in app.py is decorated with `login_required` | a view decorated with the guard, requested with no session, cookie `"1"`, users table holding user 1 "Alexa" | `user['username']`, as the login handler does at app.py:49 | medium, not executed: the SQLite schema is not in the repository; the Postgres schema (init_db.py:24-28) and every other query use `username` | `Auth.AsWrittenGuardRejectsRememberedUser` | `Auth.RememberedLoginPassesGuard` |

`Auth.LoginRequiredAsWritten` is the guard as written. `Auth.LoginRequired`
is the corrected guard, and it is the one the rest of the model uses.

## Left out

- Flask routing, `render_template`, `redirect`/`url_for` and `flash` storage are left out as framework glue. Responses are datatypes, and flashed messages are returned as values.
- The session and cookie machinery is left out. A session is reduced to its two keys, `user_id` and `username`. A cookie is a name, a value and an expiry time.
- `get_db_connection`, SQL execution, commits and transactions are left out. Tables are in-memory sequences of rows, and each statement is a function over them.
- Concurrent requests racing on rank updates are left out. Isolation belongs to the database, and the model is sequential.
- The handlers that run a single SQL statement are left out: `edit_meeting`, `delete_meeting`, `delete_movie`, the meeting insert in `countdown`, message insert and edit, `logout`, `home` and `index`.
- The GET branch of `/movies` is left out. It is an `ORDER BY rank` query.
- `init_db.py` is left out. It is Postgres DDL and seed data with no computation.
- `strptime`/`strftime` are left out. Dates are day numbers, and the `"%B %d, %Y"` label is `Other(day)`, which names the same day the text does.
- `datetime.now()` and `date.today()` are left out and become parameters.
- Movie ids are assigned by the database. Here they come from a counter, `nextId`.
- `Countdown.FirstUpcomingIsNearest` assumes that the SQL order of `start_date` text is day order. That holds for four-digit years in `%Y-%m-%d` form.
- `Auth.FindById` matches only the canonical decimal spelling of an id. SQLite's numeric conversion would also match other spellings such as `"007"`.
- Malformed requests are left out: a missing form field, or a body that is not JSON. Each ends in an error before the modelled logic runs.
- `Movies.MovieTable.UpdateRanks` takes the ids of `order` as integers. The handler binds each JSON entry as it comes. A string such as `"3"` matches row 3 through SQLite's numeric conversion. A `null` matches no row. An entry that cannot be bound raises inside the loop, and the UPDATEs before it are then never committed. The model covers integer entries only.
- `Auth.AsWrittenGuardNeverRestores`: the failed outcome carries the session with the user id written at app.py:26. Whether Flask saves that session along with the error response is not modelled.
- The upcoming/past split of meetings is left out. It happens in templates, which are not part of this model.
- The memories and uploads features are left out. They are not part of `app.py`.
