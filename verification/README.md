# Attendance tracker: the check-in engine and its tables

This is a Dafny model of the core of a small Django attendance application.
Students check in at one of a few labs. A check-in is accepted only when the
position the device reports lies within the lab's radius. The check-in flow
looks up the day's record by (student, day). It creates the record when there
is none and fills it in when it has no check-in time. A check-in on a day that
is already checked in is informational only. A check-out stamps the record
once. Nothing in the database prevents a second row for the same student and
day.

The model covers four parts:

- **Models** (`Models.dfy`). The three tables: locations, students and
  attendance records.
  - Field shapes: coordinates are six-place decimals of at most nine digits,
    held here in micro-degrees; the radius defaults to 50 metres.
  - Deleting a location sets the records' location to null. Deleting a
    student deletes their records too.
  - String forms: `str(location)`, `str(student)` and `str(record)`, the last
    with a parser that reads a label back.
- **Ledger** (`Ledger.dfy`). The `check_in` and `check_out` views as pure
  transitions on a record store keyed by (student, day). The store is
  `map<Key, Record>`. Each request returns what the student is told and the
  store afterwards.
  - Every exception that the `check_in` handler's `except` clause catches
    becomes a `Failed` outcome that leaves the store unchanged.
- **Reports** (`Reports.dfy`). The read side of the staff pages:
  - the `staff_or_admin` gate;
  - the dashboard's absent-today figure;
  - the date-range filter and totals of the all-records list;
  - the matriculation-number search of the admin record list.
- **Seeding** (`Seeding.dfy`). The two data migrations that seed the location
  table:
  - 0002 inserts the three labs, and its reverse step deletes them by name;
  - 0003 runs `get_or_create` by name for the three labs.

Two modules support the others. `Base.dfy` holds `Option`, `Result`, `Filter`
and `Count`. `Digits.dfy` holds decimal digit strings and their round trips.

The clock (`now`, `today`) and the distance routine are parameters. The
distance routine is `calculate_distance` in `attendance/utils.py`, which is not
part of this model. A `Distance` is any function from the student's position
and the lab's centre to metres. The gate refuses a request exactly when that
distance is strictly greater than the lab's `allowed_radius`.

## Behaviour of the code worth knowing

- **Store shape.** No store-level constraint enforces one record per
  (student, day). The model's keyed store assumes it.
- **Too far.** The too-far message names only the lab
  (`attendance/views.py:80`). Every exception raised inside the `try` becomes
  a generic error message (`attendance/views.py:111-113`).
- **Record without a check-in time.** A check-in on a day whose record exists
  but has no check-in time fills that record in
  (`attendance/views.py:100-106`).
- **Lab deleted after check-in.** If the record's lab was deleted after the
  check-in, a second check-in fails, because reading `record.location.name`
  raises (`attendance/views.py:99`). The model's outcome for this is
  `LocationGone`.
- **No credential check.** `check_in` performs no credential check.

## Model

| member | source | states |
|---|---|---|
| Ledger.CheckIn | attendance/views.py:51-115 | Only the record of (student, today) can change. A failure or an informational reply leaves the store as it was. A blank field means `MissingData`. An unknown lab id means `UnknownLocation`. A success means the form was complete, the position passed the lab's radius gate, the reply names the lab, and the day's record is Present with the new time, lab and coordinates. |
| Ledger.Admit | attendance/views.py:84-110 | This is get-or-create on (student, today), and only that record can change. The reply is a success exactly when the day is not yet checked in and both coordinates fit the column. It then names the submitted lab, and the record is Present with the time, lab and position. A new record is exactly that, with no check-out. A record without a check-in time keeps its other fields. The reply is "already checked in" exactly when the day is checked in and its lab still exists, and it names the record's own lab; the store is unchanged. A checked-in day whose lab is gone fails with `LocationGone`. A coordinate too wide for the column fails with `ColumnOverflow`. Both failures leave the store unchanged. |
| Ledger.RejectedInputs | attendance/views.py:62-73 | These requests fail before the distance gate and leave the store unchanged: a missing field, a non-numeric or unknown lab id, or a coordinate that does not convert. |
| Ledger.TooFarExactly | attendance/views.py:76-81 | The request is refused as too far away, naming the chosen lab, if and only if it is complete, names an existing lab, and the distance exceeds that lab's radius. |
| Ledger.RadiusBoundaryAdmitted | attendance/views.py:79 | A position exactly on the radius is not refused, because the comparison is strict. |
| Ledger.FirstCheckInCreates | attendance/views.py:85-95 | The first admitted check-in of the day adds exactly one key. That key's record is Present with the check-in time, the position and the lab, and has no check-out. |
| Ledger.CheckInFillsRecord | attendance/views.py:100-107 | A day's record without a check-in time is completed in place. The key set, the owner and the check-out stay as they were. |
| Ledger.CheckedInDayIsFrozen | attendance/views.py:97-99 | Once the day is checked in, no check-in request of any kind changes the store or reports a new check-in. |
| Ledger.SecondCheckInIsInformational | attendance/views.py:97-99 | After a successful check-in, a second admitted request on the same day returns "already checked in" with the first lab's name and leaves the store exactly as the first request wrote it. |
| Ledger.CheckInOnCheckedInDay | attendance/views.py:97-99 | On a checked-in day whose lab still exists, an admitted request reports that lab and writes nothing. |
| Ledger.UniqueIdsLookup | attendance/views.py:68 | When primary keys are unique, looking up a row's own id returns that row. |
| Ledger.CheckOut | attendance/views.py:120-134 | The result is `NotCheckedIn` if and only if there is no record or no check-in time. It is "already checked out" if and only if both times are set. A successful check-out changes only the day's check-out time. Failure and informational replies leave the store unchanged. |
| Ledger.SecondCheckOutKeepsTime | attendance/views.py:126-133 | A second check-out is informational and keeps the first check-out time. |
| Ledger.CheckInKeepsConsistent | attendance/views.py:84-106 | A check-in keeps the database consistent. Records stay keyed by owner and day, owners are known students, and labs are existing rows. |
| Ledger.CheckOutKeepsConsistent | attendance/views.py:120-134 | A check-out keeps the database consistent. |
| Ledger.DayAtTheLab | attendance/views.py:51-134 | Scenario at a lab centred on 6.5244, 3.3792 with radius 50: a check-in from 200 m is refused and writes nothing; one from the centre creates the record; check-out stamps it; a second check-out keeps the stamp. |
| Reports.StaffGatesAgree | attendance/views.py:19-20 | The `staff_or_admin` test and the admin record list's own test admit the same accounts. |
| Reports.AbsentToday | attendance/views.py:165-168 | The dashboard figure is 0 when there are no students. Otherwise it plus the rows present today equals the number of students. |
| Reports.AbsentTodayCountsStudents | attendance/views.py:159-168 | With at most one row per student and day, all rows owned by enrolled students, the dashboard figure equals the number of students not present today. |
| Reports.PresentRowsArePresentStudents | attendance/views.py:166-167 | Under the same condition, the count of Present rows today equals the number of distinct students present today. |
| Reports.AbsentStudents | attendance/views.py:168 | Absent students are counted as students, not rows. The figure is never above the roll, and equals it exactly when nobody is present. |
| Reports.AbsentTodayCanBeNegative | attendance/views.py:166-168 | The figure as computed gives -1 for one student and two Present rows today, one of them without a student. The corrected count gives 0. |
| Reports.DateRange | attendance/views.py:196-197 | `date__range` keeps exactly the rows dated between the bounds, both inclusive, each with its multiplicity. A bound that is not a date is an error. |
| Reports.AllRecords | attendance/views.py:192-198 | The all-records list is filtered by date only when both bounds are given. Otherwise it is unfiltered. |
| Reports.Summarize | attendance/views.py:200-207 | The totals above the list: present plus absent is the total, and present counts the Present rows. |
| Reports.LowerAll | attendance/views.py:314 | Lower-casing keeps the length and folds each character. |
| Reports.AdminRecords | attendance/views.py:306-318 | A non-empty search keeps exactly the rows whose student's matriculation number contains it, ignoring case, each as often as it occurs in the list, and ignores the dates. Otherwise both dates narrow the list. Otherwise the list is unfiltered. |
| Reports.SearchOverridesDates | attendance/views.py:313-316 | With a search term, the date bounds have no effect, even malformed ones. |
| Reports.AdminListsAgreeWithoutSearch | attendance/views.py:192-198 | Without a search term, the admin list and the all-records list filter alike. |
| Models.FormatDate | attendance/models.py:53 | `str(date)` has ten characters with dashes at positions 4 and 7. |
| Models.FormatDateRoundTrip | attendance/models.py:53 | Reading the ISO form of a date gives the date back. |
| Models.FormatMicro | attendance/models.py:7-8 | A six-place coordinate is shown with a point seven characters from the end, a leading minus sign exactly when it is negative, and no leading zero in the integer part other than a lone 0. |
| Models.FormatMicroRoundTrip | attendance/models.py:7-8 | Reading a shown coordinate back gives the stored micro-degree value. |
| Models.NewLocation | attendance/models.py:5-9 | A created location keeps the given name and centre. Its radius is the given one, or 50 when none is given. |
| Models.LocationById | attendance/views.py:68 | Lookup by primary key returns a row of the table with that id, and returns nothing exactly when no row has it. |
| Models.NextId | attendance/models.py:5 | A new row's id lies above every id in use. |
| Models.LocationLabel | attendance/models.py:11-12 | `str(location)` starts with the name and ends with a closing parenthesis. |
| Models.LocationLabelShowsCoordinates | attendance/models.py:11-12 | The label shows both coordinates in full. The text between " (" and ", " reads back as the latitude. The text after ", " up to the closing parenthesis reads back as the longitude. |
| Models.StudentLabel | attendance/models.py:22-23 | `str(student)` is the matriculation number, " - ", the first name, a space and the last name, each at its stated position, with nothing else. |
| Models.AddStudent | attendance/models.py:15-20 | An insert fails exactly when the key, the matriculation number or the linked account is already taken. Otherwise it adds just that row. |
| Models.AddStudentKeepsUnique | attendance/models.py:16-19 | Successful inserts keep matriculation numbers and accounts unique. |
| Models.RecordLabel | attendance/models.py:51-53 | `str(record)` starts with the student's matriculation number, or "Unknown" when there is no student. |
| Models.RecordLabelRoundTrip | attendance/models.py:51-53 | Splitting a record label from the right gives back the matriculation number or "Unknown", the date and the status. |
| Models.DeleteLocation | attendance/models.py:44-49 | Deleting a location removes only rows with that id. It keeps every record, and sets the location to null exactly in the records that pointed at it. |
| Models.DeleteStudent | attendance/models.py:32-37 | Deleting a student removes that student and exactly that student's records. Everything else is unchanged. |
| Models.DeleteLocationConsistent | attendance/models.py:44-49 | Deleting a location keeps the database consistent. |
| Models.DeleteStudentConsistent | attendance/models.py:32-37 | Deleting a student keeps the database consistent. |
| Models.FilterKeepsUnique | attendance/models.py:44-49 | Removing rows from the location table keeps ids unique. |
| Seeding.AddInitialLocations | attendance/migrations/0002_add_initial_locations.py:3-9 | Migration 0002 appends ICT Lab (7.3775, 3.9470), Hardware Lab (7.3780, 3.9500) and Software Lab (7.3800, 3.9520), each with the default radius of 50. Existing rows are kept. |
| Seeding.RemoveInitialLocations | attendance/migrations/0002_add_initial_locations.py:11-13 | The reverse step keeps exactly the rows whose name is not one of the three labs, each with its multiplicity. |
| Seeding.AddInitialKeepsUnique | attendance/migrations/0002_add_initial_locations.py:7-9 | The inserts keep primary keys unique. |
| Seeding.RemoveUndoesAdd | attendance/migrations/0002_add_initial_locations.py:3-13 | On a table with no lab-named rows, the reverse step undoes the forward step. |
| Seeding.GetOrCreate | attendance/migrations/0003_add_default_locations.py:13-20 | Get-or-create by name fails exactly when the name is on several rows. Otherwise it leaves exactly one row with the name, appending one built from the defaults only when there was none. |
| Seeding.SeedAllFailsIff | attendance/migrations/0003_add_default_locations.py:12-20 | With distinct seed names, the migration fails exactly when a seed's name is already duplicated in the table. |
| Seeding.SeedAllNamesOnce | attendance/migrations/0003_add_default_locations.py:12-20 | After a successful run, each seed name is on exactly one row. |
| Seeding.SeedAllGrowth | attendance/migrations/0003_add_default_locations.py:12-20 | The table grows by exactly the number of seeds whose name was absent. |
| Seeding.SeedAllNewRows | attendance/migrations/0003_add_default_locations.py:12-20 | Every new row was built from a seed whose name was absent, with that seed's coordinates and radius. |
| Seeding.SeedAllKeepsCount | attendance/migrations/0003_add_default_locations.py:12-20 | Names that are not seeds keep their row count. |
| Seeding.SeedAllIdempotent | attendance/migrations/0003_add_default_locations.py:12-20 | Running the seeding again after a success changes nothing. |
| Seeding.AddDefaultLocationsFacts | attendance/migrations/0003_add_default_locations.py:4-20 | Migration 0003 fails exactly when a lab name is duplicated. Otherwise it keeps the existing rows, leaves each of the three labs on exactly one row, and is idempotent. |
| Seeding.DefaultsKeepInitialCoordinates | attendance/migrations/0003_add_default_locations.py:6-20 | Run after 0002 on an empty table, 0003 finds all three labs and keeps 0002's coordinates, not its own. |

## Left out

- **Distance.** `calculate_distance` in `attendance/utils.py` is not part of this model. The distance is a parameter, so the great-circle formula, its symmetry and its accuracy are not modelled.
- **Floating point.** Conversion of the submitted strings with `float()`, NaN and infinity, and rounding to six places on save are not modelled. A submitted coordinate is either malformed or an exact micro-degree value.
- **Clock and timezone.** The clock and the calendar date are parameters. The model assumes that the date stored by `auto_now_add` is the same day as `timezone.localdate()`.
- **Student lookup.** The 404 for an account without a student row happens before any logic, so a request in the model always comes from a known student.
- **Django plumbing.** Login decorators, message texts, redirects, templates, pagination, ordering and `select_related` are not modelled. The printed debug lines are left out too.
- **Concurrency.** Two simultaneous check-ins for the same day are not modelled. The keyed store assumes the uniqueness a race could break.
- **Records without a student.** Records with a null student are not in the keyed store. They appear only in the record labels and in the row sequences of the reports.
- **Other views.** `export_csv`, `StudentCreateView` (including account creation with a default password), the generic create/update/delete views, `StudentDashboardView`, `MyRecordsView`, `redirect_dashboard`, `attendance/urls.py`, `attendance/forms.py` and migration 0009 are outside the modelled core.
- **Case-insensitive search.** `icontains` folds ASCII letters only, not the database's full collation.
- **Field widths.** The `max_length` limits of the text fields are not modelled.
- **Student defaults.** The "Unknown" defaults of the student name fields are not modelled.
- Models.LocationLabel: its own contract states only the label's shape. `Models.LocationLabelShowsCoordinates` shows that both coordinates can be read back from their positions. There is no full parser of location labels, because names may contain " (".
- Reports.AbsentToday: this is the figure as the code computes it, which can be negative. The corrected figure is `Reports.AbsentStudents`.

## Findings

| source | as written | input that shows it | evidently intended | confidence | as-written member | corrected member |
|---|---|---|---|---|---|---|
| attendance/views.py:166-168 | absent today = number of students − number of Present rows dated today | one student; two Present rows today, one for that student and one with no student (the student column is nullable) | the number of students with no Present row today, between 0 and the roll | low, not executed | Reports.AbsentTodayCanBeNegative | Reports.AbsentStudents |
