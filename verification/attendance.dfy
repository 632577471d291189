/**
 Attendance: opening a session for a class with its whole roster marked
 present, changing one student's mark in the session being edited, and
 the dashboard figures (sessions this month, the attendance rate, the
 students at risk and sessions per cycle).
 */
module Attendance {
  import opened Wrappers
  import opened Text
  import opened Entities
  import opened Seqs

  // ---- opening a session ----

  /** The first class of the list with id `id`, if any. */
  function FindClass(classes: seq<Class>, id: string): (r: Option<Class>)
    ensures r.None? <==> forall i :: 0 <= i < |classes| ==> classes[i].id != id
    ensures r.Some? ==> exists i :: (0 <= i < |classes| && classes[i] == r.value && r.value.id == id &&
      forall j :: 0 <= j < i ==> classes[j].id != id)
    decreases |classes|
  {
    if |classes| == 0 then None
    else if classes[0].id == id then Some(classes[0])
    else
      var r := FindClass(classes[1..], id);
      if r.Some? then
        assert forall j :: 1 <= j < |classes| ==> classes[1..][j - 1] == classes[j];
        r
      else r
  }

  function ClassTest(name: string): Student -> bool {
    (s: Student) => s.className == name
  }

  /** The listed students of class `name`, in list order. */
  function Members(students: seq<Student>, name: string): (r: seq<Student>)
    ensures forall s :: s in r <==> s in students && s.className == name
  {
    Filter(students, ClassTest(name))
  }

  /** The roster of class `name`: one `present` record per listed student
      of the class, in list order. */
  function Roster(students: seq<Student>, name: string): (r: seq<AttendanceRecord>)
    ensures |r| == |Members(students, name)|
    ensures forall i :: 0 <= i < |r| ==>
      r[i].studentId == Members(students, name)[i].id && r[i].status == Present && r[i].note == None
  {
    var ms := Members(students, name);
    seq(|ms|, i requires 0 <= i < |ms| => AttendanceRecord(ms[i].id, Present, None))
  }

  /** Opening a session for the selected class: nothing happens without
      a selection or when the class is not listed; otherwise the session
      is saved and becomes the one being edited. */
  function CreateSession(db: Store, classes: seq<Class>, students: seq<Student>, selectedClassId: string,
                         id: string, date: string, time: string): (r: Option<(Store, Session)>)
    ensures r.None? <==> selectedClassId == "" || FindClass(classes, selectedClassId).None?
    ensures r.Some? ==>
      var cls := FindClass(classes, selectedClassId).value;
      var s := r.value.1;
      && s == Session(id, date, Some(time), cls.name, cls.cycleId, "", Roster(students, cls.name))
      && r.value.0 == PutSession(db, s)
  {
    if selectedClassId == "" then None
    else match FindClass(classes, selectedClassId)
      case None => None
      case Some(cls) =>
        var s := Session(id, date, Some(time), cls.name, cls.cycleId, "", Roster(students, cls.name));
        Some((PutSession(db, s), s))
  }

  /** The roster has a record for a student id exactly when a listed
      student of the class has that id. */
  lemma RosterIds(students: seq<Student>, name: string, k: string)
    ensures (exists i :: 0 <= i < |Roster(students, name)| && Roster(students, name)[i].studentId == k) <==>
            (exists s :: s in students && s.className == name && s.id == k)
  {
    var r, ms := Roster(students, name), Members(students, name);
    if i :| 0 <= i < |r| && r[i].studentId == k {
      assert ms[i] in ms;
    }
    if s :| s in students && s.className == name && s.id == k {
      assert s in ms;
      var i :| 0 <= i < |ms| && ms[i] == s;
      assert r[i].studentId == k;
    }
  }

  // ---- editing a session ----

  /** Setting the mark of `studentId` in the session being edited; with no
      session being edited nothing happens. */
  function UpdateAttendance(current: Option<Session>, studentId: string, status: Status): (r: Option<Session>)
    ensures r.None? <==> current.None?
    ensures r.Some? ==>
      var before, after := current.value.attendance, r.value.attendance;
      && r.value.(attendance := before) == current.value
      && |after| == |before|
      && forall i :: 0 <= i < |after| ==>
           after[i].studentId == before[i].studentId && after[i].note == before[i].note &&
           after[i].status == (if before[i].studentId == studentId then status else before[i].status)
  {
    match current
    case None => None
    case Some(s) =>
      var rs := s.attendance;
      Some(s.(attendance := seq(|rs|, i requires 0 <= i < |rs| =>
        if rs[i].studentId == studentId then rs[i].(status := status) else rs[i])))
  }

  /** Setting the same mark twice is setting it once. */
  lemma UpdateIdempotent(current: Option<Session>, studentId: string, status: Status)
    ensures UpdateAttendance(UpdateAttendance(current, studentId, status), studentId, status) ==
            UpdateAttendance(current, studentId, status)
  {
    if current.Some? {
      var once := UpdateAttendance(current, studentId, status).value;
      var twice := UpdateAttendance(Some(once), studentId, status).value;
      assert twice.attendance == once.attendance;
    }
  }

  /** Marks for different students commute. */
  lemma UpdateCommutes(current: Option<Session>, a: string, sa: Status, b: string, sb: Status)
    requires a != b
    ensures UpdateAttendance(UpdateAttendance(current, a, sa), b, sb) ==
            UpdateAttendance(UpdateAttendance(current, b, sb), a, sa)
  {
    if current.Some? {
      var x := UpdateAttendance(UpdateAttendance(current, a, sa), b, sb).value;
      var y := UpdateAttendance(UpdateAttendance(current, b, sb), a, sa).value;
      assert x.attendance == y.attendance;
    }
  }

  // ---- dashboard figures ----

  /** Every attendance record of every session, session by session. */
  function Records(sessions: seq<Session>): (rs: seq<AttendanceRecord>)
    ensures forall a :: a in rs <==> exists i :: 0 <= i < |sessions| && a in sessions[i].attendance
    decreases |sessions|
  {
    if |sessions| == 0 then [] else sessions[0].attendance + Records(sessions[1..])
  }

  lemma {:induction false} RecordsAppend(a: seq<Session>, b: seq<Session>)
    ensures Records(a + b) == Records(a) + Records(b)
    decreases |a|
  {
    if |a| > 0 {
      assert (a + b)[1..] == a[1..] + b;
      RecordsAppend(a[1..], b);
    } else {
      assert a + b == b;
    }
  }

  function StatusTest(st: Status): AttendanceRecord -> bool {
    (a: AttendanceRecord) => a.status == st
  }

  function AbsenceTest(id: string): AttendanceRecord -> bool {
    (a: AttendanceRecord) => a.studentId == id && a.status == Absent
  }

  /** The running tally of records with status `st`. */
  function CountStatus(rs: seq<AttendanceRecord>, st: Status): (n: nat)
    ensures n <= |rs|
    decreases |rs|
  {
    if |rs| == 0 then 0 else (if rs[0].status == st then 1 else 0) + CountStatus(rs[1..], st)
  }

  /** The number of `absent` records of student `id`. */
  function Absences(rs: seq<AttendanceRecord>, id: string): (n: nat)
    ensures n <= |rs|
    decreases |rs|
  {
    if |rs| == 0 then 0
    else (if rs[0].studentId == id && rs[0].status == Absent then 1 else 0) + Absences(rs[1..], id)
  }

  /** The running tallies count exactly the records that a filter on the
      same test keeps. */
  lemma {:induction false} CountsAreFilters(rs: seq<AttendanceRecord>, st: Status, id: string)
    ensures CountStatus(rs, st) == |Filter(rs, StatusTest(st))|
    ensures Absences(rs, id) == |Filter(rs, AbsenceTest(id))|
    decreases |rs|
  {
    if |rs| > 0 {
      CountsAreFilters(rs[1..], st, id);
    }
  }

  lemma {:induction false} CountAppend(a: seq<AttendanceRecord>, b: seq<AttendanceRecord>, st: Status, id: string)
    ensures CountStatus(a + b, st) == CountStatus(a, st) + CountStatus(b, st)
    ensures Absences(a + b, id) == Absences(a, id) + Absences(b, id)
    decreases |a|
  {
    if |a| > 0 {
      assert (a + b)[1..] == a[1..] + b;
      CountAppend(a[1..], b, st, id);
    } else {
      assert a + b == b;
    }
  }

  /** Saving one more session adds exactly that session's own present
      and absent marks to the dashboard tallies. */
  lemma SessionAddsCounts(sessions: seq<Session>, s: Session, st: Status, id: string)
    ensures CountStatus(Records(sessions + [s]), st) == CountStatus(Records(sessions), st) + CountStatus(s.attendance, st)
    ensures Absences(Records(sessions + [s]), id) == Absences(Records(sessions), id) + Absences(s.attendance, id)
  {
    RecordsAppend(sessions, [s]);
    assert [s][1..] == [];
    assert Records([s]) == s.attendance + [];
    assert s.attendance + [] == s.attendance;
    CountAppend(Records(sessions), s.attendance, st, id);
  }

  /** Dividing out a positive factor keeps a strict order. */
  lemma BelowMultiple(a: int, b: int, d: int)
    requires d > 0 && a * d < b * d
    ensures a < b
  {
    assert (b - a) * d == b * d - a * d;
  }

  /** `Math.round(100 * present / total)`, or 0 without records; the
      rational value is rounded half up. */
  function Rate(present: nat, total: nat): (r: nat)
    requires present <= total
    ensures total == 0 ==> r == 0
    ensures total > 0 ==> r * (2 * total) <= 200 * present + total < r * (2 * total) + 2 * total
    ensures r <= 100
  {
    if total == 0 then 0
    else
      var d := 2 * total;
      var r := (200 * present + total) / d;
      BelowMultiple(r, 101, d);
      r
  }

  /** When the percentage is whole it is returned as is. */
  lemma RateExact(present: nat, total: nat, q: nat)
    requires present <= total && total > 0
    requires 100 * present == q * total
    ensures Rate(present, total) == q
  {
    var r, d := Rate(present, total), 2 * total;
    assert 200 * present == q * d;
    assert (q + 1) * d == q * d + d && (r + 1) * d == r * d + d;
    BelowMultiple(r, q + 1, d);
    BelowMultiple(q, r + 1, d);
  }

  /** One present record in three gives 33, two give 67, one in eight
      (12.5) gives 13. */
  lemma RateExamples()
    ensures Rate(1, 3) == 33 && Rate(2, 3) == 67 && Rate(1, 8) == 13 && Rate(0, 0) == 0
  {
  }

  /** The sessions whose date starts with the month `month` (`YYYY-MM`). */
  function SessionsInMonth(sessions: seq<Session>, month: string): (r: seq<Session>)
    ensures forall s :: s in r <==> s in sessions && StartsWith(s.date, month)
  {
    Filter(sessions, (s: Session) => StartsWith(s.date, month))
  }

  datatype RiskEntry = RiskEntry(student: Student, absences: nat)

  function RiskTest(rs: seq<AttendanceRecord>): Student -> bool {
    (s: Student) => Absences(rs, s.id) > 3
  }

  /** The students with more than three absences, in list order, with
      their tallies. */
  function Candidates(students: seq<Student>, rs: seq<AttendanceRecord>): (r: seq<RiskEntry>)
    ensures forall e :: e in r <==> e.student in students && e.absences == Absences(rs, e.student.id) && e.absences > 3
    ensures |r| <= |students|
    ensures Distinct(students) ==> Distinct(r)
  {
    var flagged := Filter(students, RiskTest(rs));
    var r := seq(|flagged|, i requires 0 <= i < |flagged| => RiskEntry(flagged[i], Absences(rs, flagged[i].id)));
    assert forall e :: e in r ==> e.student in flagged;
    assert forall s :: s in flagged ==> RiskEntry(s, Absences(rs, s.id)) in r by {
      forall s | s in flagged ensures RiskEntry(s, Absences(rs, s.id)) in r {
        var i :| 0 <= i < |flagged| && flagged[i] == s;
        assert r[i] == RiskEntry(s, Absences(rs, s.id));
      }
    }
    r
  }

  predicate SortedDesc(xs: seq<RiskEntry>) {
    forall i, j :: 0 <= i < j < |xs| ==> xs[i].absences >= xs[j].absences
  }

  /** Places `x` after every entry with at least as many absences, so that
      equal tallies keep their order. */
  function Insert(xs: seq<RiskEntry>, x: RiskEntry): (r: seq<RiskEntry>)
    ensures |r| == |xs| + 1
    ensures forall e :: e in r <==> e == x || e in xs
    ensures SortedDesc(xs) ==> SortedDesc(r)
    decreases |xs|
  {
    if |xs| == 0 then [x]
    else if xs[0].absences >= x.absences then
      var rest := Insert(xs[1..], x);
      assert forall e :: e in xs <==> e == xs[0] || e in xs[1..];
      assert SortedDesc(xs) ==> forall i :: 0 <= i < |rest| ==> xs[0].absences >= rest[i].absences by {
        if SortedDesc(xs) {
          forall i | 0 <= i < |rest| ensures xs[0].absences >= rest[i].absences {
            if rest[i] != x {
              assert rest[i] in rest;
              var j :| 0 <= j < |xs[1..]| && xs[1..][j] == rest[i];
              assert xs[j + 1] == rest[i];
            }
          }
        }
      }
      [xs[0]] + rest
    else [x] + xs
  }

  lemma {:induction false} InsertPermutes(xs: seq<RiskEntry>, x: RiskEntry)
    ensures multiset(Insert(xs, x)) == multiset(xs) + multiset{x}
    decreases |xs|
  {
    if |xs| > 0 && xs[0].absences >= x.absences {
      InsertPermutes(xs[1..], x);
      assert xs == [xs[0]] + xs[1..];
    }
  }

  /** The stable sort by absences, most first. */
  function SortDesc(xs: seq<RiskEntry>): (r: seq<RiskEntry>)
    ensures |r| == |xs|
    ensures forall e :: e in r <==> e in xs
    ensures SortedDesc(r)
    decreases |xs|
  {
    if |xs| == 0 then []
    else
      var init := xs[..|xs| - 1];
      assert forall e :: e in xs <==> e in init || e == xs[|xs| - 1] by {
        assert xs == init + [xs[|xs| - 1]];
      }
      Insert(SortDesc(init), xs[|xs| - 1])
  }

  /** Sorting rearranges the entries and loses or duplicates none. */
  lemma {:induction false} SortPermutes(xs: seq<RiskEntry>)
    ensures multiset(SortDesc(xs)) == multiset(xs)
    decreases |xs|
  {
    if |xs| > 0 {
      var init, last := xs[..|xs| - 1], xs[|xs| - 1];
      SortPermutes(init);
      InsertPermutes(SortDesc(init), last);
      assert SortDesc(xs) == Insert(SortDesc(init), last);
      MultisetSnoc(xs);
    }
  }

  const AtRiskLimit := 5

  /** The dashboard's at-risk list: at most five students with more than
      three absences, most absences first. */
  function AtRisk(students: seq<Student>, rs: seq<AttendanceRecord>): (r: seq<RiskEntry>)
    ensures |r| <= AtRiskLimit
    ensures SortedDesc(r)
    ensures forall e :: e in r ==> e.student in students && e.absences == Absences(rs, e.student.id) && e.absences > 3
  {
    var sorted := SortDesc(Candidates(students, rs));
    var r := if |sorted| <= AtRiskLimit then sorted else sorted[..AtRiskLimit];
    assert forall e :: e in r ==> e in sorted;
    r
  }

  /** The at-risk list takes its entries from the candidates, each no
      more often than it occurs there, and holds five of them, or all
      when there are fewer. */
  lemma AtRiskFromCandidates(students: seq<Student>, rs: seq<AttendanceRecord>)
    ensures multiset(AtRisk(students, rs)) <= multiset(Candidates(students, rs))
    ensures var n := |Candidates(students, rs)|;
      |AtRisk(students, rs)| == if n < AtRiskLimit then n else AtRiskLimit
  {
    var cands := Candidates(students, rs);
    var sorted := SortDesc(cands);
    SortPermutes(cands);
    if |sorted| <= AtRiskLimit {
      assert AtRisk(students, rs) == sorted;
    } else {
      assert AtRisk(students, rs) == sorted[..AtRiskLimit];
      PrefixMultiset(sorted, AtRiskLimit);
    }
  }

  /** No student left out of the at-risk list is worse off than one in
      it, and one is left out only when the list is full. */
  lemma AtRiskTop(students: seq<Student>, rs: seq<AttendanceRecord>, s: Student)
    requires s in students && Absences(rs, s.id) > 3
    ensures var r := AtRisk(students, rs);
      RiskEntry(s, Absences(rs, s.id)) !in r ==>
        |r| == AtRiskLimit && forall e :: e in r ==> e.absences >= Absences(rs, s.id)
  {
    var cands := Candidates(students, rs);
    var sorted := SortDesc(cands);
    var e := RiskEntry(s, Absences(rs, s.id));
    assert e in cands;
    assert e in sorted;
    var j :| 0 <= j < |sorted| && sorted[j] == e;
    if j < AtRiskLimit {
      assert e == AtRisk(students, rs)[j];
    }
  }

  datatype CycleStat = CycleStat(name: string, sessionCount: nat)

  function CycleTest(id: string): Session -> bool {
    (s: Session) => s.cycleId == Some(id)
  }

  /** Per cycle, in cycle order, the number of sessions held in it. */
  function CycleStats(cycles: seq<Cycle>, sessions: seq<Session>): (r: seq<CycleStat>)
    ensures |r| == |cycles|
    ensures forall i :: 0 <= i < |r| ==>
      r[i].name == cycles[i].name && r[i].sessionCount == |Filter(sessions, CycleTest(cycles[i].id))|
  {
    seq(|cycles|, i requires 0 <= i < |cycles| =>
      CycleStat(cycles[i].name, |Filter(sessions, CycleTest(cycles[i].id))|))
  }

  datatype Stats = Stats(
    totalStudents: nat,
    sessionsCount: nat,
    avgAttendance: nat,
    classCount: nat,
    cycleStats: seq<CycleStat>,
    atRisk: seq<RiskEntry>)

  /** The dashboard figures for the stored lists; `month` is the current
      month as `YYYY-MM`. */
  function CalculateStats(students: seq<Student>, sessions: seq<Session>, classes: seq<Class>,
                          cycles: seq<Cycle>, month: string): (r: Stats)
    ensures r.totalStudents == |students| && r.classCount == |classes|
    ensures r.sessionsCount == |SessionsInMonth(sessions, month)| && r.sessionsCount <= |sessions|
    ensures r.avgAttendance == Rate(CountStatus(Records(sessions), Present), |Records(sessions)|)
    ensures r.avgAttendance <= 100
    ensures r.atRisk == AtRisk(students, Records(sessions))
    ensures r.cycleStats == CycleStats(cycles, sessions)
  {
    var rs := Records(sessions);
    Stats(|students|, |SessionsInMonth(sessions, month)|, Rate(CountStatus(rs, Present), |rs|),
          |classes|, CycleStats(cycles, sessions), AtRisk(students, rs))
  }
}
