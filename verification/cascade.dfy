/**
 Copying a class into another cycle and the delete cascades of the
 students screen. Each is a pure function from a store and the screen's
 in-memory lists (as last loaded) to the new store; fresh ids arrive as a
 supplied sequence.
 */
module Cascade {
  import opened Wrappers
  import opened Text
  import opened Entities
  import opened Seqs
  import opened Hierarchy

  // ---- copy a class into a cycle ----

  /** The cycle a copy lands in: none for the `unassigned` target. */
  function TargetCycle(target: string): (r: Option<string>)
    ensures r.None? <==> target == UnassignedId
    ensures r.Some? ==> r.value == target
  {
    if target == UnassignedId then None else Some(target)
  }

  /** Class `c` already belongs to the target: no cycle for `unassigned`,
      otherwise that very cycle. */
  predicate InTarget(c: Class, target: string) {
    if target == UnassignedId then !Assigned(c.cycleId) else c.cycleId == Some(target)
  }

  predicate Conflict(classList: seq<Class>, name: string, target: string) {
    exists c :: c in classList && c.name == name && InTarget(c, target)
  }

  /** A session belongs to class `src` when the class names agree and the
      cycles agree, two absent cycles counting as agreement. */
  predicate IsSource(s: Session, src: Class) {
    && s.className == src.name
    && if Assigned(src.cycleId) then s.cycleId == src.cycleId else !Assigned(s.cycleId)
  }

  function SourceTest(src: Class): Session -> bool {
    (s: Session) => IsSource(s, src)
  }

  function Sources(sessions: seq<Session>, src: Class): (r: seq<Session>)
    ensures |r| <= |sessions|
    ensures forall s :: s in r <==> s in sessions && IsSource(s, src)
  {
    Filter(sessions, SourceTest(src))
  }

  /** The copies: each source session under its fresh id, moved to the
      target cycle, everything else kept. */
  function Duplicates(srcs: seq<Session>, ids: seq<string>, target: string): (r: seq<Session>)
    requires |ids| >= |srcs|
    ensures |r| == |srcs|
    ensures forall k :: 0 <= k < |r| ==>
      r[k].id == ids[k] && r[k].cycleId == TargetCycle(target) &&
      r[k].(id := srcs[k].id, cycleId := srcs[k].cycleId) == srcs[k]
  {
    seq(|srcs|, k requires 0 <= k < |srcs| => srcs[k].(id := ids[k], cycleId := TargetCycle(target)))
  }

  /** Saving the copies of the source sessions into the session
      collection `m`, the `k`-th under `ids[k]`. */
  function CopySessions(m: map<string, Session>, sessions: seq<Session>, src: Class, target: string,
                        ids: seq<string>): (r: map<string, Session>)
    requires |ids| >= |sessions|
    ensures m.Keys <= r.Keys
  {
    PutAll(m, Duplicates(Sources(sessions, src), ids, target), SessionKey)
  }

  /** Copying class `src` into cycle `target`: a name clash in the target
      writes nothing; otherwise one new class under `ids[0]` and one copy
      per source session under the following ids. `sessions` is the
      session list as read back from the store. */
  function CopyClass(db: Store, classList: seq<Class>, sessions: seq<Session>, src: Class,
                     target: string, ids: seq<string>): (r: Store)
    requires |ids| > |sessions|
    ensures Conflict(classList, src.name, target) ==> r == db
    ensures !Conflict(classList, src.name, target) ==>
      r.classes == Upsert(db.classes, ids[0], Class(ids[0], src.name, TargetCycle(target))) &&
      r.sessions == CopySessions(db.sessions, sessions, src, target, ids[1..])
    ensures r.students == db.students && r.cycles == db.cycles && r.documents == db.documents
  {
    if Conflict(classList, src.name, target) then db
    else
      var db1 := PutClass(db, Class(ids[0], src.name, TargetCycle(target)));
      db1.(sessions := CopySessions(db1.sessions, sessions, src, target, ids[1..]))
  }

  /** With distinct fresh ids, the copy of the `k`-th source session is
      stored under `ids[k]`. */
  lemma CopiedSession(m: map<string, Session>, sessions: seq<Session>, src: Class, target: string,
                      ids: seq<string>, k: nat)
    requires |ids| >= |sessions| && Distinct(ids)
    requires k < |Sources(sessions, src)|
    ensures var r := CopySessions(m, sessions, src, target, ids);
      ids[k] in r && r[ids[k]] == Sources(sessions, src)[k].(id := ids[k], cycleId := TargetCycle(target))
  {
    var copies := Duplicates(Sources(sessions, src), ids, target);
    assert forall j :: k < j < |copies| ==> SessionKey(copies[j]) == ids[j] != ids[k];
    PutAllLastWins(m, copies, SessionKey, k);
  }

  /** Stored sessions whose ids are not among the fresh ones, in
      particular the source sessions, keep their content. */
  lemma CopyKeepsSessions(m: map<string, Session>, sessions: seq<Session>, src: Class, target: string,
                          ids: seq<string>, key: string)
    requires |ids| >= |sessions|
    requires key in m && key !in ids
    ensures var r := CopySessions(m, sessions, src, target, ids);
      key in r && r[key] == m[key]
  {
    var copies := Duplicates(Sources(sessions, src), ids, target);
    forall i | 0 <= i < |copies| ensures SessionKey(copies[i]) != key {
      assert ids[i] in ids;
    }
    PutAllKeeps(m, copies, SessionKey, key);
  }

  /** The copy adds exactly the fresh ids of the copies and keeps every
      stored session id. */
  lemma CopySessionKeys(m: map<string, Session>, sessions: seq<Session>, src: Class, target: string,
                        ids: seq<string>, key: string)
    requires |ids| >= |sessions|
    ensures key in CopySessions(m, sessions, src, target, ids) <==>
      key in m || key in ids[..|Sources(sessions, src)|]
  {
    var n := |Sources(sessions, src)|;
    var copies := Duplicates(Sources(sessions, src), ids, target);
    PutAllStores(m, copies, SessionKey, key);
    assert forall i :: 0 <= i < n ==> SessionKey(copies[i]) == ids[i];
    if key in ids[..n] {
      var k :| 0 <= k < n && ids[..n][k] == key;
      assert SessionKey(copies[k]) == key;
    }
  }

  /** Copying an unassigned class into cycle `cy`: of two sessions with the
      class's name, only the unassigned one is a source. */
  lemma CopyExample(a: Session, b: Session, cy: string)
    requires a.className == "3A" && a.cycleId == None
    requires b.className == "3A" && b.cycleId == Some(cy) && cy != ""
    ensures Sources([a, b], Class("c1", "3A", None)) == [a]
  {
    var src := Class("c1", "3A", None);
    assert [a, b][1..] == [b] && [b][1..] == [];
    assert Filter([b], SourceTest(src)) == [];
  }

  // ---- delete cascades ----

  /** The ids of the listed students whose class name is `name`, in list
      order: what the screen's filter-then-delete loop walks through. */
  function NamedIds(students: seq<Student>, name: string): seq<string>
    decreases |students|
  {
    if |students| == 0 then []
    else (if students[0].className == name then [students[0].id] else []) + NamedIds(students[1..], name)
  }

  lemma {:induction false} NamedIdsIn(students: seq<Student>, name: string, k: string)
    ensures k in NamedIds(students, name) <==>
      exists i :: 0 <= i < |students| && students[i].id == k && students[i].className == name
    decreases |students|
  {
    if |students| > 0 {
      NamedIdsIn(students[1..], name, k);
      if i :| 0 < i < |students| && students[i].id == k && students[i].className == name {
        assert students[1..][i - 1] == students[i];
      }
    }
  }

  /** Deleting each listed student of class `name`. */
  function DropStudentsOf(db: Store, students: seq<Student>, name: string): (r: Store)
    ensures r.(students := db.students) == db
    ensures forall k :: k in r.students ==> k in db.students && r.students[k] == db.students[k]
  {
    db.(students := RemoveAll(db.students, NamedIds(students, name)))
  }

  function DeleteStudent(db: Store, id: string): (r: Store)
    ensures r.students.Keys == db.students.Keys - {id}
    ensures forall k :: k in r.students ==> r.students[k] == db.students[k]
    ensures r.(students := db.students) == db
  {
    db.(students := Remove(db.students, id))
  }

  /** Deleting class `id` named `name`: a virtual class has no record to
      delete; either way the class's students go. */
  function DeleteClass(db: Store, students: seq<Student>, id: string, name: string): (r: Store)
    ensures r.classes == if StartsWith(id, VirtualPrefix) then db.classes else Remove(db.classes, id)
    ensures r.cycles == db.cycles && r.sessions == db.sessions && r.documents == db.documents
    ensures forall k :: k in r.students ==> k in db.students && r.students[k] == db.students[k]
  {
    var db1 := if StartsWith(id, VirtualPrefix) then db else db.(classes := Remove(db.classes, id));
    DropStudentsOf(db1, students, name)
  }

  /** When `students` is the listing of the stored students, an id is
      among the named students' ids exactly when it is stored with that
      class name. */
  lemma ListedNamedIds(m: map<string, Student>, students: seq<Student>, name: string, k: string)
    requires Lists(m, students, StudentKey)
    ensures k in NamedIds(students, name) <==> k in m && m[k].className == name
  {
    NamedIdsIn(students, name, k);
    if k in m {
      var j :| 0 <= j < |students| && StudentKey(students[j]) == k;
    }
  }

  /** Deleting a class keeps exactly the stored students of other classes,
      unchanged. */
  lemma DeleteClassStudents(db: Store, students: seq<Student>, id: string, name: string, k: string)
    requires Lists(db.students, students, StudentKey)
    ensures k in DeleteClass(db, students, id, name).students <==>
      k in db.students && db.students[k].className != name
  {
    RemoveAllKeys(db.students, NamedIds(students, name), k);
    ListedNamedIds(db.students, students, name, k);
  }

  /** Deleting the records of the classes `cs`, one after another. */
  function DropClasses(m: map<string, Class>, cs: seq<Class>): (r: map<string, Class>)
    ensures forall k :: k in r ==> k in m && r[k] == m[k]
    decreases |cs|
  {
    if |cs| == 0 then m else Remove(DropClasses(m, cs[..|cs| - 1]), cs[|cs| - 1].id)
  }

  /** Whether `k` is the id of a listed student of class `c`. */
  predicate NamedId(k: string, students: seq<Student>, c: Class) {
    k in NamedIds(students, c.name)
  }

  /** Deleting the listed students of the classes `cs`, class after
      class. */
  function DropStudentsOfAll(m: map<string, Student>, cs: seq<Class>, students: seq<Student>): (r: map<string, Student>)
    ensures forall k :: k in r ==> k in m && r[k] == m[k]
    decreases |cs|
  {
    if |cs| == 0 then m
    else RemoveAll(DropStudentsOfAll(m, cs[..|cs| - 1], students), NamedIds(students, cs[|cs| - 1].name))
  }

  /** The classes `cs`, each deleted together with its students. The two
      collections are independent, so deleting class by class equals
      deleting all the class records and all the students. */
  function DeleteClasses(db: Store, cs: seq<Class>, students: seq<Student>): (r: Store)
    ensures r.cycles == db.cycles && r.sessions == db.sessions && r.documents == db.documents
    ensures forall k :: k in r.students ==> k in db.students && r.students[k] == db.students[k]
    ensures forall k :: k in r.classes ==> k in db.classes && r.classes[k] == db.classes[k]
  {
    db.(classes := DropClasses(db.classes, cs), students := DropStudentsOfAll(db.students, cs, students))
  }

  lemma {:induction false} DropClassesKeys(m: map<string, Class>, cs: seq<Class>, k: string)
    ensures k in DropClasses(m, cs) <==> k in m && forall i :: 0 <= i < |cs| ==> cs[i].id != k
    decreases |cs|
  {
    if |cs| > 0 {
      var init := cs[..|cs| - 1];
      DropClassesKeys(m, init, k);
      assert forall i :: 0 <= i < |init| ==> init[i] == cs[i];
    }
  }

  lemma {:induction false} DropStudentsOfAllKeys(m: map<string, Student>, cs: seq<Class>, students: seq<Student>, k: string)
    ensures k in DropStudentsOfAll(m, cs, students) <==>
      k in m && forall i :: 0 <= i < |cs| ==> !NamedId(k, students, cs[i])
    decreases |cs|
  {
    if |cs| > 0 {
      var init := cs[..|cs| - 1];
      var c := cs[|cs| - 1];
      var prev := DropStudentsOfAll(m, init, students);
      DropStudentsOfAllKeys(m, init, students, k);
      RemoveAllKeys(prev, NamedIds(students, c.name), k);
      assert forall i :: 0 <= i < |init| ==> init[i] == cs[i];
    }
  }

  function ClassesOfCycle(classList: seq<Class>, cycleId: string): (r: seq<Class>)
    ensures forall c :: c in r <==> c in classList && c.cycleId == Some(cycleId)
  {
    Filter(classList, (c: Class) => c.cycleId == Some(cycleId))
  }

  /** Deleting cycle `cycleId`: the cycle, then every listed class with
      that cycle together with its students. */
  function DeleteCycle(db: Store, classList: seq<Class>, students: seq<Student>, cycleId: string): (r: Store)
    ensures r.cycles == Remove(db.cycles, cycleId)
    ensures r.sessions == db.sessions && r.documents == db.documents
    ensures forall k :: k in r.students ==> k in db.students && r.students[k] == db.students[k]
    ensures forall k :: k in r.classes ==> k in db.classes && r.classes[k] == db.classes[k]
  {
    DeleteClasses(db.(cycles := Remove(db.cycles, cycleId)), ClassesOfCycle(classList, cycleId), students)
  }

  /** After deleting a cycle, a class id survives exactly when no listed
      class of the cycle has it. */
  lemma DeleteCycleClasses(db: Store, classList: seq<Class>, students: seq<Student>, cycleId: string, k: string)
    ensures k in DeleteCycle(db, classList, students, cycleId).classes <==>
      k in db.classes && !exists c :: c in classList && c.cycleId == Some(cycleId) && c.id == k
  {
    var cs := ClassesOfCycle(classList, cycleId);
    DropClassesKeys(db.classes, cs, k);
    if c :| c in classList && c.cycleId == Some(cycleId) && c.id == k {
      assert c in cs;
    }
  }

  /** After deleting a cycle, a stored student survives exactly when no
      listed class of the cycle carries its class name. */
  lemma DeleteCycleStudents(db: Store, classList: seq<Class>, students: seq<Student>, cycleId: string, k: string)
    requires Lists(db.students, students, StudentKey)
    ensures k in DeleteCycle(db, classList, students, cycleId).students <==>
      (k in db.students &&
       !exists c :: c in classList && c.cycleId == Some(cycleId) && c.name == db.students[k].className)
  {
    var cs := ClassesOfCycle(classList, cycleId);
    DropStudentsOfAllKeys(db.students, cs, students, k);
    if k in db.students {
      forall i | 0 <= i < |cs| ensures NamedId(k, students, cs[i]) <==> cs[i].name == db.students[k].className {
        ListedNamedIds(db.students, students, cs[i].name, k);
      }
      if c :| c in classList && c.cycleId == Some(cycleId) && c.name == db.students[k].className {
        assert c in cs;
      }
    }
  }

  datatype DeleteTarget =
    | StudentTarget(id: string)
    | ClassTarget(id: string, name: string)
    | CycleTarget(id: string)

  /** Confirming a delete on the students screen. */
  function ConfirmDelete(db: Store, target: DeleteTarget, classList: seq<Class>, students: seq<Student>): (r: Store)
    ensures r.sessions == db.sessions && r.documents == db.documents
    ensures !target.CycleTarget? ==> r.cycles == db.cycles
    ensures forall k :: k in r.students ==> k in db.students && r.students[k] == db.students[k]
  {
    match target
    case StudentTarget(id) => DeleteStudent(db, id)
    case ClassTarget(id, name) => DeleteClass(db, students, id, name)
    case CycleTarget(id) => DeleteCycle(db, classList, students, id)
  }
}
