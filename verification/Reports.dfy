/**
 * The read side of the staff pages: who may see them, the dashboard's
 * absent-today figure, and the record filters of the two record lists.
 * A queryset is a sequence of records in the order the page lists them.
 */
module Reports {
  import opened Base
  import opened Models

  // ---------------------------------------------------------- staff gate

  /** A login account's two privilege flags. */
  datatype User = User(isStaff: bool, isSuperuser: bool)

  /** The test the staff views are decorated with. */
  predicate StaffOrAdmin(u: User) {
    u.isStaff || u.isSuperuser
  }

  /** The admin record list's own access test, written separately. */
  predicate AdminRecordsAccess(u: User) {
    u.isStaff || u.isSuperuser
  }

  /** Both staff gates let in the same accounts. */
  lemma StaffGatesAgree(u: User)
    ensures StaffOrAdmin(u) <==> AdminRecordsAccess(u)
  {
  }

  // ------------------------------------------------------- absent today

  predicate PresentOn(today: Date, r: Record) {
    r.date == today && r.status == Present
  }

  /** The dashboard's "present today": rows dated today with status Present. */
  function PresentToday(rs: seq<Record>, today: Date): (n: nat)
    ensures n <= |rs|
  {
    Count(rs, (r: Record) => PresentOn(today, r))
  }

  /** The dashboard's "absent today" as computed: students minus present rows, or 0 when there are no students. */
  function AbsentToday(totalStudents: nat, rs: seq<Record>, today: Date): (n: int)
    ensures totalStudents == 0 ==> n == 0
    ensures totalStudents != 0 ==> n + PresentToday(rs, today) == totalStudents
  {
    if totalStudents != 0 then totalStudents - PresentToday(rs, today) else 0
  }

  /** The students that some row marks present today. */
  function PresentStudents(rs: seq<Record>, today: Date): (p: set<StudentId>)
    ensures forall s :: s in p <==> exists r :: r in rs && PresentOn(today, r) && r.student == Some(s)
  {
    if |rs| == 0 then {}
    else
      var rest := PresentStudents(rs[1..], today);
      assert forall r :: r in rs <==> r == rs[0] || r in rs[1..];
      if PresentOn(today, rs[0]) && rs[0].student.Some? then {rs[0].student.value} + rest else rest
  }

  /** Absent today, counted as students: those no row marks present today. Never negative, never above the roll. */
  function AbsentStudents(students: set<StudentId>, rs: seq<Record>, today: Date): (n: nat)
    ensures n <= |students|
    ensures n == |students| <==> students !! PresentStudents(rs, today)
  {
    var absent := students - PresentStudents(rs, today);
    assert absent <= students;
    if students !! PresentStudents(rs, today) then
      assert absent == students;
      |absent|
    else
      var s :| s in students && s in PresentStudents(rs, today);
      assert absent <= students - {s};
      assert |students - {s}| == |students| - 1;
      |absent|
  }

  /** At most one row per (student, day), every row owned by a student of the roll: what the check-in flow maintains. */
  predicate OneRowPerStudentDay(rs: seq<Record>, students: set<StudentId>) {
    && (forall r :: r in rs ==> r.student.Some? && r.student.value in students)
    && (forall i, j :: 0 <= i < j < |rs| && rs[i].student == rs[j].student ==> rs[i].date != rs[j].date)
  }

  /** Under one row per student and day, the present rows are exactly as many as the present students. */
  lemma {:induction false} PresentRowsArePresentStudents(rs: seq<Record>, students: set<StudentId>, today: Date)
    requires OneRowPerStudentDay(rs, students)
    ensures PresentToday(rs, today) == |PresentStudents(rs, today)|
    ensures PresentStudents(rs, today) <= students
  {
    if |rs| > 0 {
      var tail := rs[1..];
      assert OneRowPerStudentDay(tail, students) by {
        forall i, j | 0 <= i < j < |tail| && tail[i].student == tail[j].student
          ensures tail[i].date != tail[j].date
        {
          assert tail[i] == rs[i + 1] && tail[j] == rs[j + 1];
        }
      }
      PresentRowsArePresentStudents(tail, students, today);
      assert rs == [rs[0]] + tail;
      if PresentOn(today, rs[0]) {
        var s := rs[0].student.value;
        forall r | r in tail ensures !(PresentOn(today, r) && r.student == Some(s)) {
          var j :| 0 <= j < |tail| && tail[j] == r;
          assert rs[j + 1] == r;
        }
        assert s !in PresentStudents(tail, today);
      }
    }
  }

  /**
   * Where every present row is a distinct student of the roll, the dashboard's
   * figure is the number of students not present today.
   */
  lemma AbsentTodayCountsStudents(rs: seq<Record>, students: set<StudentId>, today: Date)
    requires OneRowPerStudentDay(rs, students)
    ensures AbsentToday(|students|, rs, today) == AbsentStudents(students, rs, today)
  {
    PresentRowsArePresentStudents(rs, students, today);
    var p := PresentStudents(rs, today);
    assert |students - p| == |students| - |p| by {
      assert students == (students - p) + p;
      assert (students - p) !! p;
    }
    if |students| == 0 {
      assert students == {};
    }
  }

  /**
   * The figure as computed can go below zero: nothing keeps a second row for
   * the same student and day, or a row without a student, out of the table.
   */
  lemma AbsentTodayCanBeNegative(today: Date)
    ensures var owned := Record(Some(1), today, Present, None, None, None, None, None);
            var orphan := Record(None, today, Present, None, None, None, None, None);
            && AbsentToday(1, [owned, orphan], today) == -1
            && AbsentStudents({1}, [owned, orphan], today) == 0
  {
    var owned := Record(Some(1), today, Present, None, None, None, None, None);
    var orphan := Record(None, today, Present, None, None, None, None, None);
    assert PresentToday([owned, orphan], today) == 2 by {
      assert [owned, orphan][1..] == [orphan];
      assert [orphan][1..] == [];
    }
    assert 1 in PresentStudents([owned, orphan], today);
  }

  // -------------------------------------------------------- record lists

  /** A date bound from the query string: absent or empty, not a date, or a date. */
  datatype Bound = NoBound | BadBound | DateBound(date: Date)

  /** A date bound that does not parse makes the range lookup raise. */
  datatype QueryError = InvalidDate

  predicate InRange(r: Record, start: Date, end: Date) {
    NotAfter(start, r.date) && NotAfter(r.date, end)
  }

  /** `date__range=[start, end]`: both ends inclusive; a bound that is not a date raises. */
  function DateRange(rs: seq<Record>, start: Bound, end: Bound): (r: Result<seq<Record>, QueryError>)
    requires start != NoBound && end != NoBound
    ensures r.Err? <==> start == BadBound || end == BadBound
    ensures r.Ok? ==> forall x :: x in r.value <==> x in rs && InRange(x, start.date, end.date)
    ensures r.Ok? ==> forall x :: multiset(r.value)[x] == if InRange(x, start.date, end.date) then multiset(rs)[x] else 0
  {
    if start == BadBound || end == BadBound then Err(InvalidDate)
    else
      FilterMultiplicity(rs, (x: Record) => InRange(x, start.date, end.date));
      Ok(Filter(rs, (x: Record) => InRange(x, start.date, end.date)))
  }

  /** The all-records list: filtered by date only when both bounds are given. */
  function AllRecords(rs: seq<Record>, start: Bound, end: Bound): (r: Result<seq<Record>, QueryError>)
    ensures start == NoBound || end == NoBound ==> r == Ok(rs)
    ensures start != NoBound && end != NoBound ==> r == DateRange(rs, start, end)
  {
    if start != NoBound && end != NoBound then DateRange(rs, start, end) else Ok(rs)
  }

  /** The three figures above the all-records list. */
  datatype Summary = Summary(total: nat, present: nat, absent: nat)

  /** Totals of a record list: every row is either present or absent, so the two counts add up to the total. */
  function Summarize(rs: seq<Record>): (s: Summary)
    ensures s.total == |rs| && s.present + s.absent == s.total
    ensures s.present == |Filter(rs, (r: Record) => r.status == Present)|
  {
    StatusesPartition(rs);
    Summary(|rs|, Count(rs, (r: Record) => r.status == Present), Count(rs, (r: Record) => r.status == Absent))
  }

  lemma {:induction false} StatusesPartition(rs: seq<Record>)
    ensures Count(rs, (r: Record) => r.status == Present) + Count(rs, (r: Record) => r.status == Absent) == |rs|
  {
    if |rs| > 0 {
      StatusesPartition(rs[1..]);
    }
  }

  /** ASCII lower-casing: the fold a case-insensitive `LIKE` applies. */
  function Lower(c: char): char {
    if 'A' <= c <= 'Z' then ((c as int) + 32) as char else c
  }

  function LowerAll(s: string): (t: string)
    ensures |t| == |s| && forall i :: 0 <= i < |s| ==> t[i] == Lower(s[i])
  {
    if |s| == 0 then "" else [Lower(s[0])] + LowerAll(s[1..])
  }

  /** `icontains`: `needle` occurs in `hay` ignoring ASCII case. */
  predicate ContainsIgnoringCase(hay: string, needle: string) {
    exists i :: 0 <= i <= |hay| - |needle| && MatchesAt(hay, needle, i)
  }

  /** `needle` sits in `hay` at offset `i`, ignoring ASCII case. */
  predicate MatchesAt(hay: string, needle: string, i: int)
    requires 0 <= i <= |hay| - |needle|
  {
    LowerAll(needle) == LowerAll(hay)[i..i + |needle|]
  }

  /** The record's student's matriculation number matches the search, ignoring case; rows without a student never match. */
  predicate MatricMatches(r: Record, students: map<StudentId, Student>, query: string) {
    r.student.Some? && r.student.value in students && ContainsIgnoringCase(students[r.student.value].matricNo, query)
  }

  /**
   * The admin record list: a non-empty matriculation search wins and the dates
   * are ignored; otherwise both dates narrow the list; otherwise it is unfiltered.
   */
  function AdminRecords(rs: seq<Record>, students: map<StudentId, Student>, query: string, start: Bound, end: Bound)
    : (r: Result<seq<Record>, QueryError>)
    ensures |query| > 0 ==> r.Ok? && forall x :: x in r.value <==> x in rs && MatricMatches(x, students, query)
    ensures |query| > 0 ==> forall x :: multiset(r.value)[x] == if MatricMatches(x, students, query) then multiset(rs)[x] else 0
    ensures |query| == 0 && start != NoBound && end != NoBound ==> r == DateRange(rs, start, end)
    ensures |query| == 0 && (start == NoBound || end == NoBound) ==> r == Ok(rs)
  {
    if |query| > 0 then
      FilterMultiplicity(rs, (x: Record) => MatricMatches(x, students, query));
      Ok(Filter(rs, (x: Record) => MatricMatches(x, students, query)))
    else if start != NoBound && end != NoBound then DateRange(rs, start, end)
    else Ok(rs)
  }

  /** With a search term, the date bounds have no effect, not even a malformed one. */
  lemma SearchOverridesDates(rs: seq<Record>, students: map<StudentId, Student>, query: string,
                             start1: Bound, end1: Bound, start2: Bound, end2: Bound)
    requires |query| > 0
    ensures AdminRecords(rs, students, query, start1, end1) == AdminRecords(rs, students, query, start2, end2)
  {
  }

  /** Without a search term the admin list and the all-records list filter alike. */
  lemma AdminListsAgreeWithoutSearch(rs: seq<Record>, students: map<StudentId, Student>, start: Bound, end: Bound)
    ensures AdminRecords(rs, students, "", start, end) == AllRecords(rs, start, end)
  {
  }
}
