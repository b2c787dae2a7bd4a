# Attendance register (IPES): a Dafny model of its store and week logic

The application records Tuesday/Thursday attendance for a fixed roster of
students. It keeps two SQLite tables: `estudiantes` (student id to name) and
`asistencias` (one row per student and date, with a status, a reason and a
"justified" flag). Every interaction with the Streamlit page reruns the
script. On each rerun, every grid cell reads its stored record and writes
the widget values when the status changed, or, for an absence, when the
reason or flag changed.

The model contains:

- `dates.dfy`, module `Dates`. A date is its Python day ordinal, from 1
  (0001-01-01, a Monday) to 3652059 (9999-12-31). The module covers the
  weekday, `get_monday_of_week`, `get_week_days` and the week navigation
  buttons. Where Python raises `OverflowError` on leaving the date range,
  the model returns `None`.
- `roster.dfy`, module `Roster`. It holds the student record, the
  `STUDENTS_SETUP` seed, and the names the seed assigns. It also holds the
  collation of `ORDER BY nombre` (SQLite's BINARY collation, which is
  code-point lexicographic order) and sorted insertion. `get_students`
  orders by `nombre` only; rows with equal names come back in no specified
  order.
- `store.dfy`, module `Store`. The two tables are one value, `Tables`, with
  one map per table. A map key is unique by construction, so an upsert
  replaces the row at its key and never adds a second one. The module
  defines `get_attendance` (`Lookup`), `update_attendance` (`Upsert`) and
  the seed sync (`SyncRoster`) as pure functions, with the lemmas relating
  them.
- `database.dfy`, module `Database`. The class `AttendanceDb` has the two
  tables as map fields. `UpdateAttendance` and the `init_db` seed loop
  (`InitDb`) update them in place, and their postconditions tie the new
  tables to the `Store` functions. `GetStudents` builds the ordered listing
  with a loop and changes nothing.
- `cell.dfy`, module `Cell`. It holds the decision `render_attendance_cell`
  makes on each rerun: the coercion of an unknown stored status, the
  values taken from the widgets, the write trigger, and one whole rerun of
  a cell on the tables.

## Model

| member | source | states |
|---|---|---|
| Dates.Weekday | app.py:100 | The weekday of a date is in 0..6, and the first representable date is a Monday (0). |
| Dates.MondayOfWeek | app.py:98-100 | The Monday of a date's week is a Monday, is never after the date and is less than seven days before it; it is always a representable date. |
| Dates.MondayOfWeekUnique | app.py:98-100 | Any Monday within the seven days ending at a date is that date's Monday of the week. |
| Dates.MondayOfWeekIdempotent | app.py:98-100 | Taking the Monday of a Monday gives it back. |
| Dates.WeekDays | app.py:102-106 | The Tuesday and Thursday are the Monday plus one and plus three days; the result is missing exactly when that would leave the date range. |
| Dates.WeekDaysOfMonday | app.py:102-106 | For a Monday both days exist, have weekdays 1 and 3, and have that Monday as their Monday of the week. |
| Dates.MoveWeek | app.py:216-222 | The previous/next week buttons move the date by -7/+7 days, failing exactly when the result leaves the date range. |
| Dates.MoveWeekKeepsMonday | app.py:216-222 | Moving a Monday by a week gives a Monday, and moving back again returns the original Monday. |
| Dates.FirstWeekHasNoPrevious | app.py:216-218 | 0001-01-01 is a Monday, and going one week back from it overflows. |
| Dates.WeekOfMay26Of2025 | app.py:209-211 | 2025-05-26, the first week shown, is a Monday. Friday 2025-05-30 maps to it, and its Tuesday and Thursday are 2025-05-27 and 2025-05-29. |
| Roster.StudentsSetupDistinct | app.py:9-16 | The six seed entries have pairwise distinct ids. |
| Roster.IdsCount | app.py:56-57 | A list has at most as many ids as entries, with equality exactly when no id repeats. |
| Roster.SeedNames | app.py:44-48 | The names the seed loop assigns are defined for exactly the seed's ids. |
| Roster.SeedNamesLastWins | app.py:44-48 | An id that occurs several times in the seed gets the name of its last occurrence, as the loop overwrites in seed order. |
| Roster.SeedNamesOfDistinct | app.py:44-48 | With distinct ids, every seed entry's id is assigned that entry's own name. |
| Roster.SeedNamesStep | app.py:44-48 | Processing one more seed entry overrides exactly that entry's name on top of the names assigned so far. |
| Roster.NameLe | app.py:56 | The name collation orders a prefix no later than the longer name. |
| Roster.NameLeAntisymmetric | app.py:56 | Two names each ordered no later than the other are equal. |
| Roster.NameLeReflexive | app.py:56 | The name collation is reflexive. |
| Roster.NameLeTotal | app.py:56 | The name collation is total: of two names one is ordered first. |
| Roster.NameLeTransitive | app.py:56 | The name collation is transitive. |
| Roster.SortedByNamePairwise | app.py:56 | In a list sorted neighbour by neighbour, any earlier name is ordered no later than any later one. |
| Roster.InsertByName | app.py:56 | Inserting a student into a name-sorted list keeps it sorted and adds exactly that student (as a multiset). |
| Roster.IdsOfInsert | app.py:56-57 | Adding one student to a list adds exactly its id and one entry. |
| Store.Normalized | app.py:79-84 | The written row keeps the status. For an absence it keeps the reason and stores the flag as 1 exactly when it is true. Any other status gets an empty reason and flag 0. |
| Store.Lookup | app.py:61-73 | A missing row reads as status '', reason '', not justified. A present row reads as its columns, with the flag true exactly when it is nonzero. |
| Store.LookupOfValid | app.py:61-73 | In a store written by the upsert, a record read with a status other than an absence has an empty reason and is not justified. |
| Store.Upsert | app.py:75-95 | After the write the key holds exactly the normalised row and reads back the normalised values. Every other row and the roster are unchanged, and the normal form of rows is kept. |
| Store.LookupAfterUpsertElsewhere | app.py:86-93 | An upsert does not change what any other (student, date) reads. |
| Store.UpsertOverwrites | app.py:39 | A second upsert on the same key gives the same tables as the second alone: it overwrites, never duplicates. |
| Store.UpsertIdempotent | app.py:86-93 | Two identical upserts give the same tables as one. |
| Store.UpsertsCommute | app.py:86-93 | Upserts on different keys can be applied in either order. |
| Store.SyncRoster | app.py:43-48 | The sync stores every seed id, with the name the seed assigns. Students outside the seed keep their names, nobody is removed, and attendance is untouched. |
| Store.SyncRosterStoresSeed | app.py:44-48 | With distinct seed ids, each seed entry's student is stored under its own seed name. |
| Store.SyncRosterIdempotent | app.py:43-48 | Syncing twice with the same seed gives the same tables as syncing once. |
| Store.SyncRosterNonDestructive | app.py:43-48 | A stored student survives any sync, and keeps its name when the seed does not mention it. |
| Store.ListingIsDistinctAndOrdered | app.py:52-59 | In a student listing no id appears twice and names are nondecreasing between any two positions. |
| Store.PartialListingStep | app.py:52-59 | Inserting one more stored student by name into a partial listing gives a partial listing that covers that student too. |
| Database.AttendanceDb.Open | app.py:21-42 | Opening the database gives the tables the file holds (empty ones on a first run). |
| Database.AttendanceDb.UpdateAttendance | app.py:75-95 | The new tables are the upsert of the old ones on (student, date) with the given values, and a normalised store stays normalised. |
| Database.AttendanceDb.InitDb | app.py:43-48 | After the loop over the seed, the tables are the roster sync of the old tables with that seed. |
| Database.AttendanceDb.GetStudents | app.py:52-59 | Returns each stored student exactly once with its stored name, in nondecreasing name order, without changing the tables. |
| Cell.ShownEstado | app.py:114-119 | The select box starts on one of the four choices: the stored status when it is one, else ''. |
| Cell.InitialWidgets | app.py:114-143 | The widgets start on a valid status choice with the stored reason and flag: on the stored record itself when its status is a choice, and on the status '' when it is not. |
| Cell.CellValues | app.py:129-146 | The cell takes its status from the select box. It reads reason and flag from their widgets only for an absence; otherwise they are '' and false. |
| Cell.NeedsWrite | app.py:152-154 | For an absence the trigger fires exactly when the cell differs from the stored record; for any other status exactly when the status differs. It never fires on an unchanged record. |
| Cell.RenderCell | app.py:109-155 | A rerun of a cell adds or changes at most that cell's row: every other row is kept as it was, no other row is created, the roster is unchanged, and the store stays normalised. |
| Cell.RenderCellStoresCell | app.py:129-155 | In a normalised store, after a rerun the cell's record reads back exactly the values the cell shows. |
| Cell.RenderCellWritesIffChanged | app.py:152-155 | In a normalised store a rerun changes the tables exactly when the stored record differs from the cell's values. |
| Cell.RenderCellSettles | app.py:152-155 | After a rerun the trigger no longer fires for the same widget values, so a second rerun changes nothing. |
| Cell.UntouchedCell | app.py:114-155 | A rerun with untouched widgets writes only when the stored status is not a choice, and then stores '' with no absence details. |
| Cell.UnrecordedCellStaysUnwritten | app.py:152-155 | Leaving a never-written cell on '' writes nothing and creates no row. |

## Left out

- Streamlit rendering: widgets, markdown, captions, columns, buttons, the
  detail dialog, `st.session_state` and `st.rerun`. This is presentation.
  The user's input enters the model as the values the widgets hold.
- The detail dialog only reads the record of two dates through
  `get_attendance`, which is `Store.Lookup`. Its display is not modelled.
- SQLite plumbing: connecting, committing, closing, the DDL text and the
  file path. The tables are maps, and `Database.AttendanceDb.Open` stands
  for opening the file.
- The autoincrement `id` column, which no query reads.
- Date formatting and parsing (`strftime`, `strptime`) and the conversion
  between year-month-day and ordinals. Dates are ordinals. The `fecha`
  column is an opaque text key.
- Python truthiness of arbitrary values: the `justificada` argument is a
  boolean, which is what the checkbox supplies.
- NULL column values, which no code path of the application writes.
- Concurrent sessions and atomicity: the model is sequential.
- Foreign-key rejection of unknown students, which the code never enables.
