/**
 * The three tables of the attendance application: locations, students and
 * attendance records, with their field shapes and defaults, the effect of
 * deleting a location (records keep existing, their location becomes null)
 * or a student (their records go too), and the string forms of the rows.
 */
module Models {
  import opened Base
  import opened Digits

  // ---------------------------------------------------------------- dates

  /** A proleptic Gregorian calendar date, as Python's `datetime.date`. */
  datatype CalendarDate = CalendarDate(year: nat, month: nat, day: nat) {
    predicate Valid() {
      1 <= year <= 9999 && 1 <= month <= 12 && 1 <= day <= DaysInMonth(year, month)
    }
  }

  type Date = d: CalendarDate | d.Valid() witness CalendarDate(1970, 1, 1)

  predicate IsLeapYear(y: nat) {
    (y % 4 == 0 && y % 100 != 0) || y % 400 == 0
  }

  function DaysInMonth(y: nat, m: nat): nat {
    if m == 2 then (if IsLeapYear(y) then 29 else 28)
    else if m == 4 || m == 6 || m == 9 || m == 11 then 30
    else 31
  }

  /** Chronological order on dates, the order a `date__range` lookup compares with. */
  predicate NotAfter(a: Date, b: Date) {
    a.year < b.year
    || (a.year == b.year && a.month < b.month)
    || (a.year == b.year && a.month == b.month && a.day <= b.day)
  }

  /** `str(date)`: the ISO form `YYYY-MM-DD`, each part zero-padded. */
  function FormatDate(d: Date): (s: string)
    ensures |s| == 10 && s[4] == '-' && s[7] == '-'
  {
    assert d.month < Pow10(2) && d.day < Pow10(2) by { assert Pow10(2) == 100; }
    assert d.year < Pow10(4) by { assert Pow10(4) == 10000; }
    Padded(d.year, 4) + "-" + Padded(d.month, 2) + "-" + Padded(d.day, 2)
  }

  /** Reading an ISO date back; `None` for anything that is not a valid date in that form. */
  function ParseDate(s: string): (r: Option<Date>)
    ensures r.Some? ==> |s| == 10
  {
    if |s| == 10 && s[4] == '-' && s[7] == '-'
       && AllDigits(s[..4]) && AllDigits(s[5..7]) && AllDigits(s[8..])
    then
      var d := CalendarDate(Value(s[..4]), Value(s[5..7]), Value(s[8..]));
      if d.Valid() then Some(d) else None
    else None
  }

  lemma FormatDateRoundTrip(d: Date)
    ensures ParseDate(FormatDate(d)) == Some(d)
  {
    assert Pow10(2) == 100 && Pow10(4) == 10000;
    var y, m, dd := Padded(d.year, 4), Padded(d.month, 2), Padded(d.day, 2);
    var s := FormatDate(d);
    assert s == y + "-" + m + "-" + dd;
    assert s[..4] == y;
    assert s[5..7] == m;
    assert s[8..] == dd;
    PaddedValue(d.year, 4);
    PaddedValue(d.month, 2);
    PaddedValue(d.day, 2);
  }

  // ---------------------------------------------------------- coordinates

  /** Decimal places of a coordinate column (`decimal_places=6`): values are held in micro-degrees. */
  const MicroPerDegree: nat := 1_000_000

  /** A coordinate column holds at most nine digits (`max_digits=9`), so magnitudes stay below 10^9 micro-degrees. */
  const CoordinateLimit: nat := 1_000_000_000

  predicate FitsCoordinate(x: int) {
    -(CoordinateLimit as int) < x < CoordinateLimit
  }

  /** A value a `DecimalField(max_digits=9, decimal_places=6)` column can hold, in micro-degrees. */
  type Micro = x: int | FitsCoordinate(x)

  /** `str(Decimal)` of a six-place column value: optional sign, integer part, point, six digits. */
  function FormatMicro(x: Micro): (s: string)
    ensures |s| >= 8 && s[|s| - 7] == '.'
    ensures (s[0] == '-') <==> x < 0
    ensures var b := if x < 0 then s[1..] else s; b[0] != '0' || b[1] == '.'
  {
    var a: nat := if x < 0 then -(x as int) else x as int;
    assert a % MicroPerDegree < Pow10(6) by { assert Pow10(6) == 1_000_000; }
    var body := Shown(a / MicroPerDegree) + "." + Padded(a % MicroPerDegree, 6);
    assert IsDigit(body[0]);
    if x < 0 then "-" + body else body
  }

  /** Reading an unsigned six-place decimal back, in micro-units. */
  function ParseMagnitude(body: string): Option<nat> {
    if |body| >= 8 && body[|body| - 7] == '.'
       && AllDigits(body[..|body| - 7]) && AllDigits(body[|body| - 6..])
    then Some(Value(body[..|body| - 7]) * MicroPerDegree + Value(body[|body| - 6..]))
    else None
  }

  /** Reading a six-place decimal back; `None` unless it has that form and fits the column. */
  function ParseMicro(s: string): Option<Micro> {
    var negative := |s| > 0 && s[0] == '-';
    match ParseMagnitude(if negative then s[1..] else s)
    case None => None
    case Some(m) =>
      var x: int := if negative then -(m as int) else m;
      if FitsCoordinate(x) then Some(x) else None
  }

  lemma MagnitudeRoundTrip(a: nat)
    ensures Pow10(6) == MicroPerDegree
    ensures ParseMagnitude(Shown(a / MicroPerDegree) + "." + Padded(a % MicroPerDegree, 6)) == Some(a)
  {
    assert Pow10(6) == 1_000_000;
    var ip, fp := Shown(a / MicroPerDegree), Padded(a % MicroPerDegree, 6);
    var body := ip + "." + fp;
    assert body[..|body| - 7] == ip;
    assert body[|body| - 6..] == fp;
    ShownValue(a / MicroPerDegree);
    PaddedValue(a % MicroPerDegree, 6);
    assert Value(ip) * MicroPerDegree + Value(fp) == a by {
      assert Value(ip) == a / MicroPerDegree && Value(fp) == a % MicroPerDegree;
    }
  }

  lemma FormatMicroRoundTrip(x: Micro)
    ensures ParseMicro(FormatMicro(x)) == Some(x)
  {
    var a: nat := if x < 0 then -(x as int) else x as int;
    MagnitudeRoundTrip(a);
    var body := Shown(a / MicroPerDegree) + "." + Padded(a % MicroPerDegree, 6);
    var s := FormatMicro(x);
    if x < 0 {
      assert s == "-" + body && s[1..] == body;
    } else {
      assert s == body && IsDigit(s[0]);
    }
  }

  // ------------------------------------------------------------ locations

  /** The radius a location gets when none is given (`default=50`), in metres. */
  const DefaultRadius: int := 50

  type LocationId = nat

  /** A registered lab: name, centre and admission radius in metres (`allowed_radius`). */
  datatype Location = Location(id: LocationId, name: string, latitude: Micro, longitude: Micro, allowedRadius: int)

  /** `Location.objects.create(...)`: the radius falls back to the model default when not given. */
  function NewLocation(id: LocationId, name: string, latitude: Micro, longitude: Micro, radius: Option<int>): (l: Location)
    ensures l.id == id && l.name == name && l.latitude == latitude && l.longitude == longitude
    ensures radius.None? ==> l.allowedRadius == DefaultRadius
    ensures radius.Some? ==> l.allowedRadius == radius.value
  {
    Location(id, name, latitude, longitude, match radius case Some(r) => r case None => DefaultRadius)
  }

  /** Primary keys of the location table are pairwise distinct. */
  predicate UniqueIds(locations: seq<Location>) {
    forall i, j :: 0 <= i < j < |locations| ==> locations[i].id != locations[j].id
  }

  predicate HasId(locations: seq<Location>, id: LocationId) {
    exists l :: l in locations && l.id == id
  }

  /** `Location.objects.get(id=...)`: the row with that primary key, if any. */
  function LocationById(locations: seq<Location>, id: LocationId): (r: Option<Location>)
    ensures r.Some? ==> r.value in locations && r.value.id == id
    ensures r.None? <==> !HasId(locations, id)
  {
    if |locations| == 0 then None
    else if locations[0].id == id then Some(locations[0])
    else
      var r := LocationById(locations[1..], id);
      assert forall l :: l in locations[1..] ==> l in locations;
      assert forall l :: l in locations ==> l == locations[0] || l in locations[1..];
      r
  }

  /** A primary key above every one in use: where the table's auto-increment goes next. */
  function NextId(locations: seq<Location>): (id: LocationId)
    ensures forall l :: l in locations ==> l.id < id
  {
    if |locations| == 0 then 1
    else
      var rest := NextId(locations[1..]);
      assert forall l :: l in locations ==> l == locations[0] || l in locations[1..];
      if locations[0].id < rest then rest else locations[0].id + 1
  }

  /** `str(location)`: `"<name> (<latitude>, <longitude>)"`. */
  function LocationLabel(l: Location): (text: string)
    ensures l.name <= text && |text| > |l.name| && text[|text| - 1] == ')'
  {
    l.name + " (" + FormatMicro(l.latitude) + ", " + FormatMicro(l.longitude) + ")"
  }

  /**
   * The label shows both coordinates in full: the text between `" ("` and
   * `", "` reads back as the latitude, and the text between `", "` and the
   * closing parenthesis as the longitude.
   */
  lemma LocationLabelShowsCoordinates(l: Location)
    ensures var text := LocationLabel(l);
            var i := |l.name| + 2;
            var j := i + |FormatMicro(l.latitude)|;
            && |text| == j + 2 + |FormatMicro(l.longitude)| + 1
            && text[i - 2..i] == " (" && text[j..j + 2] == ", "
            && ParseMicro(text[i..j]) == Some(l.latitude)
            && ParseMicro(text[j + 2..|text| - 1]) == Some(l.longitude)
  {
    LabelSlices(l.name, FormatMicro(l.latitude), FormatMicro(l.longitude));
    FormatMicroRoundTrip(l.latitude);
    FormatMicroRoundTrip(l.longitude);
  }

  /** Where the pieces of `"<name> (<a>, <b>)"` sit. */
  lemma LabelSlices(name: string, a: string, b: string)
    ensures var text := name + " (" + a + ", " + b + ")";
            var i := |name| + 2;
            var j := i + |a|;
            && |text| == j + 2 + |b| + 1
            && text[i - 2..i] == " (" && text[j..j + 2] == ", "
            && text[i..j] == a && text[j + 2..|text| - 1] == b
  {
    var text := name + " (" + a + ", " + b + ")";
    var i := |name| + 2;
    var j := i + |a|;
    assert text[i..j] == a;
    assert text[j + 2..|text| - 1] == b;
  }

  // ------------------------------------------------------------- students

  type StudentId = nat
  type UserId = nat

  /** What `str(record)` shows for a record without a student; also the default of the two name fields. */
  const UnknownName: string := "Unknown"

  /** A student profile, one-to-one with a login account. `matric_no` is unique across students. */
  datatype Student = Student(user: UserId, firstName: string, lastName: string, matricNo: string, department: string)

  /** `str(student)`: `"<matric_no> - <first_name> <last_name>"`. */
  function StudentLabel(s: Student): (text: string)
    ensures var m, f := |s.matricNo|, |s.firstName|;
            && |text| == m + 3 + f + 1 + |s.lastName|
            && text[..m] == s.matricNo
            && text[m..m + 3] == " - "
            && text[m + 3..m + 3 + f] == s.firstName
            && text[m + 3 + f] == ' '
            && text[m + 4 + f..] == s.lastName
  {
    var text := s.matricNo + " - " + s.firstName + " " + s.lastName;
    var m, f := |s.matricNo|, |s.firstName|;
    assert text[m + 3..m + 3 + f] == s.firstName;
    assert text[m + 4 + f..] == s.lastName;
    text
  }

  /** No two students share a matriculation number or a login account. */
  predicate StudentsUnique(students: map<StudentId, Student>) {
    forall a, b :: a in students && b in students && a != b ==>
      students[a].matricNo != students[b].matricNo && students[a].user != students[b].user
  }

  datatype DbError = IntegrityError

  /**
   * Inserting a student row: the unique constraint on `matric_no`, the one-to-one
   * link to the account and the primary key make a clashing insert fail.
   */
  function AddStudent(students: map<StudentId, Student>, id: StudentId, s: Student): (r: Result<map<StudentId, Student>, DbError>)
    ensures r.Err? <==> id in students || exists o :: o in students.Values && (o.matricNo == s.matricNo || o.user == s.user)
    ensures r.Ok? ==> r.value == students[id := s]
  {
    if id in students || exists o :: o in students.Values && (o.matricNo == s.matricNo || o.user == s.user)
    then Err(IntegrityError)
    else Ok(students[id := s])
  }

  /** Adding a student never breaks uniqueness of matriculation numbers and accounts. */
  lemma AddStudentKeepsUnique(students: map<StudentId, Student>, id: StudentId, s: Student)
    requires StudentsUnique(students)
    requires AddStudent(students, id, s).Ok?
    ensures StudentsUnique(AddStudent(students, id, s).value)
  {
    var m := AddStudent(students, id, s).value;
    forall a, b | a in m && b in m && a != b
      ensures m[a].matricNo != m[b].matricNo && m[a].user != m[b].user
    {
      if a == id {
        assert m[b] in students.Values;
      } else if b == id {
        assert m[a] in students.Values;
      }
    }
  }

  // ------------------------------------------------------------- records

  /** The two status choices of a record. */
  datatype Status = Present | Absent

  function StatusText(s: Status): string {
    match s
    case Present => "Present"
    case Absent => "Absent"
  }

  /** A time of day (`TimeField`), abstractly; the clock that produces it is a parameter. */
  type Time = nat

  /**
   * One attendance row. `student` and `location` are nullable foreign keys;
   * `check_in`, `check_out` and the coordinates are nullable columns.
   */
  datatype Record = Record(
    student: Option<StudentId>,
    date: Date,
    status: Status,
    checkIn: Option<Time>,
    checkOut: Option<Time>,
    latitude: Option<Micro>,
    longitude: Option<Micro>,
    location: Option<LocationId>)

  /** Records are looked up by (student, day): the key of the record store. */
  datatype Key = Key(student: StudentId, date: Date)

  type Records = map<Key, Record>

  /** Every stored record belongs to the student and the day of its key. */
  predicate WellKeyed(records: Records) {
    forall k :: k in records ==> records[k].student == Some(k.student) && records[k].date == k.date
  }

  /** `str(record)`: `"<matric_no or 'Unknown'> - <date> - <status>"`. */
  function RecordLabel(r: Record, students: map<StudentId, Student>): (text: string)
    requires r.student.Some? ==> r.student.value in students
    ensures r.student.None? ==> UnknownName <= text
    ensures r.student.Some? ==> students[r.student.value].matricNo <= text
  {
    var who := match r.student case Some(id) => students[id].matricNo case None => UnknownName;
    who + " - " + FormatDate(r.date) + " - " + StatusText(r.status)
  }

  /** The three parts a record label is made of. */
  datatype LabelParts = LabelParts(who: string, date: Date, status: Status)

  /** The status a record label ends with, if it ends with one. */
  function StatusSuffix(s: string): (r: Option<Status>)
    ensures r.Some? ==> |s| >= |" - " + StatusText(r.value)|
  {
    if |s| >= 10 && s[|s| - 10..] == " - Present" then Some(Present)
    else if |s| >= 9 && s[|s| - 9..] == " - Absent" then Some(Absent)
    else None
  }

  /** Splits `"<who> - <date>"` at the fixed-width date on the right. */
  function WhoAndDate(rest: string, st: Status): Option<LabelParts> {
    if |rest| >= 13 && rest[|rest| - 13..|rest| - 10] == " - " then
      match ParseDate(rest[|rest| - 10..])
      case Some(d) => Some(LabelParts(rest[..|rest| - 13], d, st))
      case None => None
    else None
  }

  /** Splitting a record label from the right: status, then the fixed-width date, then whoever is left. */
  function ParseRecordLabel(s: string): Option<LabelParts> {
    match StatusSuffix(s)
    case None => None
    case Some(st) => WhoAndDate(s[..|s| - |" - " + StatusText(st)|], st)
  }

  lemma StatusSuffixOf(rest: string, st: Status)
    ensures StatusSuffix(rest + " - " + StatusText(st)) == Some(st)
  {
    var s := rest + " - " + StatusText(st);
    match st
    case Present =>
      assert s[|s| - 10..] == " - Present";
    case Absent =>
      assert s[|s| - 9..] == " - Absent";
      assert s[|s| - 5] == 'b';
  }

  lemma WhoAndDateOf(who: string, d: Date, st: Status)
    ensures WhoAndDate(who + " - " + FormatDate(d), st) == Some(LabelParts(who, d, st))
  {
    var rest := who + " - " + FormatDate(d);
    FormatDateRoundTrip(d);
    assert rest[|rest| - 13..|rest| - 10] == " - ";
    assert rest[|rest| - 10..] == FormatDate(d);
    assert rest[..|rest| - 13] == who;
  }

  /** A record label gives back who the record is for, its date and its status. */
  lemma RecordLabelRoundTrip(r: Record, students: map<StudentId, Student>)
    requires r.student.Some? ==> r.student.value in students
    ensures ParseRecordLabel(RecordLabel(r, students))
         == Some(LabelParts(match r.student case Some(id) => students[id].matricNo case None => UnknownName, r.date, r.status))
  {
    var who := match r.student case Some(id) => students[id].matricNo case None => UnknownName;
    var rest := who + " - " + FormatDate(r.date);
    var s := RecordLabel(r, students);
    assert s == rest + " - " + StatusText(r.status);
    StatusSuffixOf(rest, r.status);
    assert s[..|s| - |" - " + StatusText(r.status)|] == rest;
    WhoAndDateOf(who, r.date, r.status);
  }

  // ------------------------------------------------------------- database

  /** The whole database the core reads and writes. */
  datatype Db = Db(locations: seq<Location>, students: map<StudentId, Student>, records: Records)

  /** Referential integrity plus the uniqueness constraints of the three tables. */
  predicate Consistent(db: Db) {
    && UniqueIds(db.locations)
    && StudentsUnique(db.students)
    && WellKeyed(db.records)
    && (forall k :: k in db.records ==> k.student in db.students)
    && (forall k :: k in db.records && db.records[k].location.Some? ==> HasId(db.locations, db.records[k].location.value))
  }

  /** What `on_delete=SET_NULL` does to one record when location `id` goes. */
  function Unlink(r: Record, id: LocationId): Record {
    if r.location == Some(id) then r.(location := None) else r
  }

  /** Deleting a location: the row goes, and every record that pointed at it loses its location. */
  function DeleteLocation(db: Db, id: LocationId): (db': Db)
    ensures !HasId(db'.locations, id)
    ensures forall l :: l in db'.locations <==> l in db.locations && l.id != id
    ensures db'.students == db.students
    ensures db'.records.Keys == db.records.Keys
    ensures forall k :: k in db.records && db.records[k].location == Some(id) ==> db'.records[k] == db.records[k].(location := None)
    ensures forall k :: k in db.records && db.records[k].location != Some(id) ==> db'.records[k] == db.records[k]
  {
    var locations := Filter(db.locations, (l: Location) => l.id != id);
    Db(locations, db.students, map k | k in db.records :: Unlink(db.records[k], id))
  }

  /** Deleting a student: the row goes and so do exactly that student's records (`on_delete=CASCADE`). */
  function DeleteStudent(db: Db, id: StudentId): (db': Db)
    ensures db'.locations == db.locations
    ensures db'.students.Keys == db.students.Keys - {id}
    ensures forall s :: s in db'.students ==> db'.students[s] == db.students[s]
    ensures forall k :: k in db'.records <==> k in db.records && k.student != id
    ensures forall k :: k in db'.records ==> db'.records[k] == db.records[k]
  {
    Db(db.locations,
       map s | s in db.students && s != id :: db.students[s],
       map k | k in db.records && k.student != id :: db.records[k])
  }

  lemma {:induction false} FilterKeepsUnique(locations: seq<Location>, id: LocationId)
    requires UniqueIds(locations)
    ensures UniqueIds(Filter(locations, (l: Location) => l.id != id))
  {
    var keep := (l: Location) => l.id != id;
    if |locations| > 0 {
      var head, tail := locations[0], locations[1..];
      assert UniqueIds(tail) by {
        forall i, j | 0 <= i < j < |tail| ensures tail[i].id != tail[j].id {
          assert tail[i] == locations[i + 1] && tail[j] == locations[j + 1];
        }
      }
      FilterKeepsUnique(tail, id);
      var rest := Filter(tail, keep);
      assert Filter(locations, keep) == if keep(head) then [head] + rest else rest;
      if keep(head) {
        HeadIdFresh(locations);
        PrependUnique(head, rest);
      }
    }
  }

  /** The first row's key occurs nowhere later in a table with unique keys. */
  lemma HeadIdFresh(locations: seq<Location>)
    requires |locations| > 0 && UniqueIds(locations)
    ensures forall l :: l in locations[1..] ==> l.id != locations[0].id
  {
    forall l | l in locations[1..] ensures l.id != locations[0].id {
      var j :| 0 <= j < |locations[1..]| && locations[1..][j] == l;
      assert locations[j + 1] == l;
    }
  }

  lemma PrependUnique(head: Location, rest: seq<Location>)
    requires UniqueIds(rest)
    requires forall l :: l in rest ==> l.id != head.id
    ensures UniqueIds([head] + rest)
  {
    var r := [head] + rest;
    forall i, j | 0 <= i < j < |r| ensures r[i].id != r[j].id {
      assert r[j] == rest[j - 1];
      if i > 0 {
        assert r[i] == rest[i - 1];
      } else {
        assert r[j] in rest;
      }
    }
  }

  /** Deleting a location or a student keeps the database consistent. */
  lemma DeleteLocationConsistent(db: Db, id: LocationId)
    requires Consistent(db)
    ensures Consistent(DeleteLocation(db, id))
  {
    FilterKeepsUnique(db.locations, id);
    var db' := DeleteLocation(db, id);
    forall k | k in db'.records && db'.records[k].location.Some?
      ensures HasId(db'.locations, db'.records[k].location.value)
    {
      var lid := db'.records[k].location.value;
      assert lid != id && db.records[k].location == Some(lid);
      var l :| l in db.locations && l.id == lid;
      assert l in db'.locations;
    }
  }

  lemma DeleteStudentConsistent(db: Db, id: StudentId)
    requires Consistent(db)
    ensures Consistent(DeleteStudent(db, id))
  {
  }
}
