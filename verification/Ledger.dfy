/**
 * The daily attendance state machine behind the student's check-in and
 * check-out buttons. A request either fails with no change to the record
 * store, is informational (the day's record already says what was asked)
 * with no change, or writes the one record keyed by (student, today).
 *
 * The clock (`now`, `today`) and the great-circle distance are parameters:
 * the distance routine is not part of this model.
 */
module Ledger {
  import opened Base
  import opened Models

  /**
   * One submitted form field: missing or empty (what the `not x` test rejects),
   * present but not convertible (a non-integer id, a string `float()` refuses),
   * or a value. Coordinates are taken at micro-degree resolution.
   */
  datatype Field<T> = Blank | Malformed | Given(value: T)

  /** The check-in form: the chosen lab and the device's position. */
  datatype CheckInForm = CheckInForm(location: Field<LocationId>, latitude: Field<int>, longitude: Field<int>)

  /**
   * Why a request failed. `MissingData`, `TooFar` and `NotCheckedIn` are checks
   * of the views with messages of their own; the others are exceptions that
   * `check_in`'s `except` turns into an "Unexpected error" message.
   */
  datatype Failure =
    | MissingData
    | UnknownLocation
    | BadCoordinate
    | TooFar(location: string)
    | LocationGone
    | ColumnOverflow
    | NotCheckedIn

  /** What the student is told. */
  datatype Outcome =
    | CheckedIn(at: string)
    | AlreadyCheckedIn(at: string)
    | CheckedOut
    | AlreadyCheckedOut
    | Failed(why: Failure)
  {
    predicate Informational() {
      AlreadyCheckedIn? || AlreadyCheckedOut?
    }
  }

  /** The result of a request: the message and the record store afterwards. */
  datatype Step = Step(outcome: Outcome, records: Records)

  /** Great-circle distance in metres from the student (first two) to the lab centre (last two), in micro-degrees. */
  type Distance = (int, int, int, int) -> real

  /** Nothing but the record of `key` may differ between the two stores. */
  predicate OnlyKeyChanged(before: Records, after: Records, key: Key) {
    && after.Keys - {key} == before.Keys - {key}
    && (forall k :: k in after && k in before && k != key ==> after[k] == before[k])
  }

  /** Did the radius gate let this position through for this lab? Exactly at the radius is inside. */
  predicate WithinRadius(distance: Distance, latitude: int, longitude: int, l: Location) {
    distance(latitude, longitude, l.latitude, l.longitude) <= l.allowedRadius as real
  }

  /** A form every field of which is present and convertible. */
  predicate Complete(form: CheckInForm) {
    form.location.Given? && form.latitude.Given? && form.longitude.Given?
  }

  /** The record a check-in writes: present now, at the chosen lab, at the submitted position. */
  predicate StampedBy(r: Record, now: Time, l: Location, latitude: int, longitude: int) {
    && r.status == Present
    && r.checkIn == Some(now)
    && r.location == Some(l.id)
    && r.latitude.Some? && r.latitude.value == latitude
    && r.longitude.Some? && r.longitude.value == longitude
  }

  /**
   * The get-or-create step once the lab is known and the gate has passed.
   * A write whose coordinates overflow the nine-digit columns raises on save.
   */
  function Admit(locations: seq<Location>, records: Records, key: Key, l: Location, latitude: int, longitude: int, now: Time): (s: Step)
    requires l in locations
    ensures OnlyKeyChanged(records, s.records, key)
    ensures s.outcome.Failed? || s.outcome.AlreadyCheckedIn? ==> s.records == records
    ensures s.outcome.CheckedIn? ==> key in s.records && StampedBy(s.records[key], now, l, latitude, longitude)
    ensures s.outcome.CheckedIn? && key in records ==> s.records[key] == records[key].(status := Present, checkIn := Some(now),
              latitude := Some(latitude), longitude := Some(longitude), location := Some(l.id))
    ensures s.outcome.CheckedIn? || s.outcome.AlreadyCheckedIn? || s.outcome in {Failed(ColumnOverflow), Failed(LocationGone)}
    ensures s.outcome.AlreadyCheckedIn? <==> key in records && records[key].checkIn.Some? && records[key].location.Some?
                                             && HasId(locations, records[key].location.value)
    ensures s.outcome.AlreadyCheckedIn? ==> s.outcome.at == LocationById(locations, records[key].location.value).value.name
    ensures s.outcome.CheckedIn? <==>
              !(key in records && records[key].checkIn.Some?) && FitsCoordinate(latitude) && FitsCoordinate(longitude)
    ensures s.outcome.CheckedIn? ==> s.outcome.at == l.name
    ensures s.outcome.CheckedIn? && key !in records ==>
              s.records[key] == Record(Some(key.student), key.date, Present, Some(now), None, Some(latitude), Some(longitude), Some(l.id))
    ensures s.outcome == Failed(ColumnOverflow) <==>
              !(key in records && records[key].checkIn.Some?) && !(FitsCoordinate(latitude) && FitsCoordinate(longitude))
    ensures s.outcome == Failed(LocationGone) <==>
              key in records && records[key].checkIn.Some?
              && (records[key].location.None? || !HasId(locations, records[key].location.value))
  {
    if key !in records then
      if !FitsCoordinate(latitude) || !FitsCoordinate(longitude) then Step(Failed(ColumnOverflow), records)
      else
        var r := Record(Some(key.student), key.date, Present, Some(now), None, Some(latitude), Some(longitude), Some(l.id));
        Step(CheckedIn(l.name), records[key := r])
    else
      var r := records[key];
      if r.checkIn.Some? then
        // the informational message reads the name of the record's own lab
        match r.location
        case None => Step(Failed(LocationGone), records)
        case Some(id) =>
          match LocationById(locations, id)
          case None => Step(Failed(LocationGone), records)
          case Some(at) => Step(AlreadyCheckedIn(at.name), records)
      else if !FitsCoordinate(latitude) || !FitsCoordinate(longitude) then Step(Failed(ColumnOverflow), records)
      else
        var r' := r.(status := Present, checkIn := Some(now), latitude := Some(latitude), longitude := Some(longitude), location := Some(l.id));
        Step(CheckedIn(l.name), records[key := r'])
  }

  /**
   * A student's check-in request on day `today` at time `now`: validate the
   * form, look the lab up, convert the coordinates, apply the radius gate,
   * then get or create the day's record.
   */
  function CheckIn(locations: seq<Location>, records: Records, student: StudentId, today: Date, now: Time,
                   form: CheckInForm, distance: Distance): (s: Step)
    ensures OnlyKeyChanged(records, s.records, Key(student, today))
    ensures s.outcome.Failed? || s.outcome.Informational() ==> s.records == records
    ensures s.outcome.CheckedIn? || s.outcome.AlreadyCheckedIn? || s.outcome.Failed?
    ensures form.location.Blank? || form.latitude.Blank? || form.longitude.Blank? ==> s.outcome == Failed(MissingData)
    ensures (form.location.Given? && !HasId(locations, form.location.value) && !form.latitude.Blank? && !form.longitude.Blank?)
              ==> s.outcome == Failed(UnknownLocation)
    ensures !s.outcome.Failed? ==> Complete(form)
    ensures s.outcome.CheckedIn? ==>
              var l := LocationById(locations, form.location.value).value;
              && s.outcome.at == l.name
              && WithinRadius(distance, form.latitude.value, form.longitude.value, l)
              && Key(student, today) in s.records
              && StampedBy(s.records[Key(student, today)], now, l, form.latitude.value, form.longitude.value)
  {
    if form.location.Blank? || form.latitude.Blank? || form.longitude.Blank? then
      Step(Failed(MissingData), records)
    else if form.location.Malformed? then
      Step(Failed(UnknownLocation), records)
    else
      match LocationById(locations, form.location.value)
      case None => Step(Failed(UnknownLocation), records)
      case Some(l) =>
        if form.latitude.Malformed? || form.longitude.Malformed? then
          Step(Failed(BadCoordinate), records)
        else if !WithinRadius(distance, form.latitude.value, form.longitude.value, l) then
          Step(Failed(TooFar(l.name)), records)
        else
          Admit(locations, records, Key(student, today), l, form.latitude.value, form.longitude.value, now)
  }

  /**
   * A student's check-out request: only a day already checked in can be
   * checked out, and only once; nothing but the check-out time changes.
   */
  function CheckOut(records: Records, student: StudentId, today: Date, now: Time): (s: Step)
    ensures OnlyKeyChanged(records, s.records, Key(student, today))
    ensures s.outcome == Failed(NotCheckedIn) <==>
              Key(student, today) !in records || records[Key(student, today)].checkIn.None?
    ensures s.outcome == AlreadyCheckedOut <==>
              Key(student, today) in records && records[Key(student, today)].checkIn.Some?
              && records[Key(student, today)].checkOut.Some?
    ensures s.outcome.Failed? || s.outcome.Informational() ==> s.records == records
    ensures s.outcome in {CheckedOut, AlreadyCheckedOut, Failed(NotCheckedIn)}
    ensures s.outcome == CheckedOut ==>
              Key(student, today) in records && s.records.Keys == records.Keys
              && s.records[Key(student, today)] == records[Key(student, today)].(checkOut := Some(now))
  {
    var key := Key(student, today);
    if key !in records || records[key].checkIn.None? then Step(Failed(NotCheckedIn), records)
    else if records[key].checkOut.Some? then Step(AlreadyCheckedOut, records)
    else Step(CheckedOut, records[key := records[key].(checkOut := Some(now))])
  }

  // ------------------------------------------------------------ properties

  /**
   * Every malformed request fails before the gate: a missing field, an unknown or
   * non-numeric lab id, a coordinate that does not convert. The store is untouched.
   */
  lemma RejectedInputs(locations: seq<Location>, records: Records, student: StudentId, today: Date, now: Time,
                       form: CheckInForm, distance: Distance)
    requires || form.location.Blank? || form.latitude.Blank? || form.longitude.Blank?
             || form.location.Malformed?
             || (form.location.Given? && !HasId(locations, form.location.value))
             || form.latitude.Malformed? || form.longitude.Malformed?
    ensures CheckIn(locations, records, student, today, now, form, distance).outcome.Failed?
    ensures CheckIn(locations, records, student, today, now, form, distance).outcome.why in {MissingData, UnknownLocation, BadCoordinate}
    ensures CheckIn(locations, records, student, today, now, form, distance).records == records
  {
  }

  /** The gate refuses exactly the complete requests for a known lab whose position is farther than its radius. */
  lemma TooFarExactly(locations: seq<Location>, records: Records, student: StudentId, today: Date, now: Time,
                      form: CheckInForm, distance: Distance)
    ensures CheckIn(locations, records, student, today, now, form, distance).outcome.Failed?
            && CheckIn(locations, records, student, today, now, form, distance).outcome.why.TooFar?
            && CheckIn(locations, records, student, today, now, form, distance).outcome.why.location
               == LocationById(locations, form.location.value).value.name
        <==> Complete(form) && HasId(locations, form.location.value)
             && !WithinRadius(distance, form.latitude.value, form.longitude.value, LocationById(locations, form.location.value).value)
  {
    var s := CheckIn(locations, records, student, today, now, form, distance);
    if Complete(form) && HasId(locations, form.location.value) {
      var l := LocationById(locations, form.location.value).value;
      if WithinRadius(distance, form.latitude.value, form.longitude.value, l) {
        assert s == Admit(locations, records, Key(student, today), l, form.latitude.value, form.longitude.value, now);
      }
    }
  }

  /** A position exactly on the circle is admitted: the gate compares with `>`, not `>=`. */
  lemma RadiusBoundaryAdmitted(locations: seq<Location>, records: Records, student: StudentId, today: Date, now: Time,
                               form: CheckInForm, distance: Distance)
    requires Complete(form) && HasId(locations, form.location.value)
    requires var l := LocationById(locations, form.location.value).value;
             distance(form.latitude.value, form.longitude.value, l.latitude, l.longitude) == l.allowedRadius as real
    ensures !CheckIn(locations, records, student, today, now, form, distance).outcome.Failed?
            || !CheckIn(locations, records, student, today, now, form, distance).outcome.why.TooFar?
  {
    TooFarExactly(locations, records, student, today, now, form, distance);
  }

  /** The first admitted check-in of the day creates the day's record and nothing else. */
  lemma FirstCheckInCreates(locations: seq<Location>, records: Records, student: StudentId, today: Date, now: Time,
                            form: CheckInForm, distance: Distance)
    requires Key(student, today) !in records
    requires Complete(form) && HasId(locations, form.location.value)
    requires FitsCoordinate(form.latitude.value) && FitsCoordinate(form.longitude.value)
    requires WithinRadius(distance, form.latitude.value, form.longitude.value, LocationById(locations, form.location.value).value)
    ensures var l := LocationById(locations, form.location.value).value;
            var s := CheckIn(locations, records, student, today, now, form, distance);
            && s.outcome == CheckedIn(l.name)
            && s.records.Keys == records.Keys + {Key(student, today)}
            && s.records[Key(student, today)]
               == Record(Some(student), today, Present, Some(now), None, Some(form.latitude.value), Some(form.longitude.value), Some(l.id))
  {
  }

  /** A day's record that exists without a check-in time is filled in; its check-out and the keys stay as they were. */
  lemma CheckInFillsRecord(locations: seq<Location>, records: Records, student: StudentId, today: Date, now: Time,
                           form: CheckInForm, distance: Distance)
    requires Key(student, today) in records && records[Key(student, today)].checkIn.None?
    requires Complete(form) && HasId(locations, form.location.value)
    requires FitsCoordinate(form.latitude.value) && FitsCoordinate(form.longitude.value)
    requires WithinRadius(distance, form.latitude.value, form.longitude.value, LocationById(locations, form.location.value).value)
    ensures var l := LocationById(locations, form.location.value).value;
            var s := CheckIn(locations, records, student, today, now, form, distance);
            var old_ := records[Key(student, today)];
            && s.outcome == CheckedIn(l.name)
            && s.records.Keys == records.Keys
            && s.records[Key(student, today)].checkOut == old_.checkOut
            && s.records[Key(student, today)].student == old_.student
            && StampedBy(s.records[Key(student, today)], now, l, form.latitude.value, form.longitude.value)
  {
  }

  /** Once the day is checked in, no further check-in request changes the store, whatever it submits. */
  lemma CheckedInDayIsFrozen(locations: seq<Location>, records: Records, student: StudentId, today: Date, now: Time,
                             form: CheckInForm, distance: Distance)
    requires Key(student, today) in records && records[Key(student, today)].checkIn.Some?
    ensures CheckIn(locations, records, student, today, now, form, distance).records == records
    ensures !CheckIn(locations, records, student, today, now, form, distance).outcome.CheckedIn?
  {
  }

  /**
   * Two check-ins on one day: after a successful first one, a second admitted
   * request is informational, names the first lab, and leaves time, lab and
   * coordinates as the first one wrote them.
   */
  lemma SecondCheckInIsInformational(locations: seq<Location>, records: Records, student: StudentId, today: Date,
                                     now1: Time, form1: CheckInForm, now2: Time, form2: CheckInForm, distance: Distance)
    requires UniqueIds(locations)
    requires CheckIn(locations, records, student, today, now1, form1, distance).outcome.CheckedIn?
    requires Complete(form2) && HasId(locations, form2.location.value)
    requires WithinRadius(distance, form2.latitude.value, form2.longitude.value, LocationById(locations, form2.location.value).value)
    ensures var first := CheckIn(locations, records, student, today, now1, form1, distance);
            CheckIn(locations, first.records, student, today, now2, form2, distance) == Step(AlreadyCheckedIn(first.outcome.at), first.records)
  {
    var first := CheckIn(locations, records, student, today, now1, form1, distance);
    var l1 := LocationById(locations, form1.location.value).value;
    UniqueIdsLookup(locations, l1);
    CheckInOnCheckedInDay(locations, first.records, student, today, now2, form2, distance, l1);
  }

  /** On a checked-in day whose lab still exists, an admitted request reports that lab and writes nothing. */
  lemma CheckInOnCheckedInDay(locations: seq<Location>, records: Records, student: StudentId, today: Date, now: Time,
                              form: CheckInForm, distance: Distance, at: Location)
    requires Key(student, today) in records
    requires records[Key(student, today)].checkIn.Some? && records[Key(student, today)].location == Some(at.id)
    requires LocationById(locations, at.id) == Some(at)
    requires Complete(form) && HasId(locations, form.location.value)
    requires WithinRadius(distance, form.latitude.value, form.longitude.value, LocationById(locations, form.location.value).value)
    ensures CheckIn(locations, records, student, today, now, form, distance) == Step(AlreadyCheckedIn(at.name), records)
  {
    var l := LocationById(locations, form.location.value).value;
    assert CheckIn(locations, records, student, today, now, form, distance)
        == Admit(locations, records, Key(student, today), l, form.latitude.value, form.longitude.value, now);
  }

  /** In a table with unique keys, looking a row up by its own key finds that row. */
  lemma UniqueIdsLookup(locations: seq<Location>, l: Location)
    requires UniqueIds(locations) && l in locations
    ensures LocationById(locations, l.id) == Some(l)
  {
    var i :| 0 <= i < |locations| && locations[i] == l;
    UniqueIdsLookupAt(locations, i);
  }

  lemma {:induction false} UniqueIdsLookupAt(locations: seq<Location>, i: nat)
    requires UniqueIds(locations) && i < |locations|
    ensures LocationById(locations, locations[i].id) == Some(locations[i])
  {
    if i > 0 {
      var tail := locations[1..];
      assert UniqueIds(tail) by {
        forall a, b | 0 <= a < b < |tail| ensures tail[a].id != tail[b].id {
          assert tail[a] == locations[a + 1] && tail[b] == locations[b + 1];
        }
      }
      assert locations[0].id != locations[i].id;
      assert tail[i - 1] == locations[i];
      UniqueIdsLookupAt(tail, i - 1);
    }
  }

  /** Checking out twice: the second request is informational and keeps the first check-out time. */
  lemma SecondCheckOutKeepsTime(records: Records, student: StudentId, today: Date, now1: Time, now2: Time)
    requires CheckOut(records, student, today, now1).outcome == CheckedOut
    ensures var first := CheckOut(records, student, today, now1);
            var second := CheckOut(first.records, student, today, now2);
            && second.outcome == AlreadyCheckedOut
            && second.records == first.records
            && second.records[Key(student, today)].checkOut == Some(now1)
  {
  }

  /** A check-in keeps the database consistent: one record per key, owned by a known student, at a known lab. */
  lemma CheckInKeepsConsistent(db: Db, student: StudentId, today: Date, now: Time, form: CheckInForm, distance: Distance)
    requires Consistent(db) && student in db.students
    ensures Consistent(db.(records := CheckIn(db.locations, db.records, student, today, now, form, distance).records))
  {
    var s := CheckIn(db.locations, db.records, student, today, now, form, distance);
    var key := Key(student, today);
    if s.outcome.CheckedIn? {
      var l := LocationById(db.locations, form.location.value).value;
      assert HasId(db.locations, l.id);
      assert s.records[key].student == Some(student) && s.records[key].date == today by {
        if key in db.records {
          assert s.records[key].student == db.records[key].student;
          assert s.records[key].date == db.records[key].date;
        }
      }
    }
  }

  lemma CheckOutKeepsConsistent(db: Db, student: StudentId, today: Date, now: Time)
    requires Consistent(db)
    ensures Consistent(db.(records := CheckOut(db.records, student, today, now).records))
  {
  }

  /**
   * A day at one lab (centre 6.5244, 3.3792, radius 50): a check-in from 200 m
   * away is refused and writes nothing; one from the centre creates the record;
   * check-out stamps it; a second check-out keeps the stamp.
   */
  lemma DayAtTheLab(today: Date, distance: Distance)
    requires distance(6_524_400, 3_379_200, 6_524_400, 3_379_200) == 0.0
    requires distance(6_526_200, 3_379_200, 6_524_400, 3_379_200) == 200.0
    ensures var lab := Location(1, "ICT Lab", 6_524_400, 3_379_200, DefaultRadius);
            var far := CheckIn([lab], map[], 7, today, 28_800, CheckInForm(Given(1), Given(6_526_200), Given(3_379_200)), distance);
            var near := CheckIn([lab], far.records, 7, today, 28_900, CheckInForm(Given(1), Given(6_524_400), Given(3_379_200)), distance);
            var out1 := CheckOut(near.records, 7, today, 57_600);
            var out2 := CheckOut(out1.records, 7, today, 58_000);
            && far.outcome == Failed(TooFar("ICT Lab")) && far.records == map[]
            && near.outcome == CheckedIn("ICT Lab")
            && out1.outcome == CheckedOut && out2.outcome == AlreadyCheckedOut
            && out2.records == map[Key(7, today) := Record(Some(7), today, Present, Some(28_900), Some(57_600),
                                                             Some(6_524_400), Some(3_379_200), Some(1))]
  {
  }
}
