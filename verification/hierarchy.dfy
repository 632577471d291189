/**
 How classes are organised for display. The students screen adds a
 "virtual" class for every class name that students carry but no stored
 class has; the dashboard and the classes screen group classes by cycle,
 with classes lacking a cycle gathered under the synthetic `unassigned`
 cycle.
 */
module Hierarchy {
  import opened Wrappers
  import opened Entities
  import opened Seqs

  const VirtualPrefix := "virtual-"

  /** The stand-in for a class only known from its students' `className`. */
  function Virtual(name: string): Class {
    Class(VirtualPrefix + name, name, None)
  }

  function ClassNames(classes: seq<Class>): set<string> {
    set c | c in classes :: c.name
  }

  function StudentClassNames(students: seq<Student>): seq<string> {
    seq(|students|, i requires 0 <= i < |students| => students[i].className)
  }

  lemma StudentClassNamesIn(students: seq<Student>)
    ensures forall n :: n in StudentClassNames(students) <==> exists s :: s in students && s.className == n
  {
    var names := StudentClassNames(students);
    forall n | n in names ensures exists s :: s in students && s.className == n {
      var i :| 0 <= i < |names| && names[i] == n;
      assert students[i] in students;
    }
    forall s | s in students ensures s.className in names {
      var i :| 0 <= i < |students| && students[i] == s;
      assert names[i] == s.className;
    }
  }

  /** The names needing a virtual class: the distinct student class names,
      in order of first occurrence, that no stored class carries. */
  function VirtualNames(classes: seq<Class>, students: seq<Student>): (r: seq<string>)
    ensures Distinct(r)
    ensures forall n :: n in r <==> (exists s :: s in students && s.className == n) && n !in ClassNames(classes)
  {
    var known := ClassNames(classes);
    var names := StudentClassNames(students);
    StudentClassNamesIn(students);
    Filter(Dedup(names), n => n !in known)
  }

  /** The class list of the students screen: the stored classes, then one
      virtual class per name that needs one, in the same order. */
  function EffectiveClasses(classes: seq<Class>, students: seq<Student>): (r: seq<Class>)
    ensures |r| == |classes| + |VirtualNames(classes, students)| && r[..|classes|] == classes
    ensures forall i :: |classes| <= i < |r| ==> r[i] == Virtual(VirtualNames(classes, students)[i - |classes|])
  {
    var ns := VirtualNames(classes, students);
    var vs := seq(|ns|, i requires 0 <= i < |ns| => Virtual(ns[i]));
    assert (classes + vs)[..|classes|] == classes;
    assert forall i :: |classes| <= i < |classes + vs| ==> (classes + vs)[i] == vs[i - |classes|];
    classes + vs
  }

  /** A name has a virtual class exactly when some student carries it and
      no stored class does; in particular a stored class's name never
      gets one. */
  lemma VirtualClassIff(classes: seq<Class>, students: seq<Student>, n: string)
    ensures (exists i :: |classes| <= i < |EffectiveClasses(classes, students)| &&
              EffectiveClasses(classes, students)[i].name == n) <==>
            (exists s :: s in students && s.className == n) && n !in ClassNames(classes)
  {
    var r, ns := EffectiveClasses(classes, students), VirtualNames(classes, students);
    if n in ns {
      var k :| 0 <= k < |ns| && ns[k] == n;
      assert r[|classes| + k].name == n;
    }
    if i :| |classes| <= i < |r| && r[i].name == n {
      assert ns[i - |classes|] == n;
    }
  }

  /** Every virtual class is the only one for its name, carries the
      `virtual-` id and no cycle. */
  lemma VirtualClassesDistinct(classes: seq<Class>, students: seq<Student>)
    ensures forall i, j :: |classes| <= i < j < |EffectiveClasses(classes, students)| ==>
      EffectiveClasses(classes, students)[i].name != EffectiveClasses(classes, students)[j].name
    ensures forall i :: |classes| <= i < |EffectiveClasses(classes, students)| ==>
      var c := EffectiveClasses(classes, students)[i];
      c.id == VirtualPrefix + c.name && c.cycleId == None
  {
    var r, ns := EffectiveClasses(classes, students), VirtualNames(classes, students);
    forall i, j | |classes| <= i < j < |r| ensures r[i].name != r[j].name {
      assert r[i].name == ns[i - |classes|] && r[j].name == ns[j - |classes|];
    }
  }

  /** The classes shown when cycle `viewId` is selected; `unassigned`
      shows the classes without a cycle. */
  function ClassesInView(classList: seq<Class>, viewId: string): (r: seq<Class>)
    ensures forall c :: c in r <==>
      (c in classList && if viewId == UnassignedId then !Assigned(c.cycleId) else c.cycleId == Some(viewId))
  {
    if viewId == UnassignedId then Filter(classList, (c: Class) => !Assigned(c.cycleId))
    else Filter(classList, (c: Class) => c.cycleId == Some(viewId))
  }

  const UnassignedId := "unassigned"

  datatype Group = Group(id: string, name: string, classes: seq<Class>)

  /** The dashboard's grouping: one group per cycle, in cycle order, and a
      trailing `unassigned` group (titled `title`) only when some class
      has no cycle. */
  function GroupByCycle(cycles: seq<Cycle>, classes: seq<Class>, title: string): (r: seq<Group>)
    ensures |r| == |cycles| + (if exists c :: c in classes && !Assigned(c.cycleId) then 1 else 0)
    ensures forall i :: 0 <= i < |cycles| ==>
      r[i].id == cycles[i].id && r[i].name == cycles[i].name &&
      forall c :: c in r[i].classes <==> c in classes && c.cycleId == Some(cycles[i].id)
    ensures |r| > |cycles| ==>
      r[|cycles|].id == UnassignedId && r[|cycles|].name == title &&
      forall c :: c in r[|cycles|].classes <==> c in classes && !Assigned(c.cycleId)
  {
    var byCycle := seq(|cycles|, i requires 0 <= i < |cycles| =>
      Group(cycles[i].id, cycles[i].name, Filter(classes, (c: Class) => c.cycleId == Some(cycles[i].id))));
    var unassigned := ClassesInView(classes, UnassignedId);
    assert (exists c :: c in classes && !Assigned(c.cycleId)) <==> |unassigned| > 0 by {
      if |unassigned| > 0 {
        assert unassigned[0] in unassigned;
      }
    }
    if |unassigned| > 0 then byCycle + [Group(UnassignedId, title, unassigned)] else byCycle
  }

  /** With cycle ids distinct and non-empty (fresh UUIDs), each class sits
      in at most one dashboard group, and in one exactly when it has no
      cycle or its cycle exists; a class naming a missing cycle is shown
      in none. */
  lemma ClassInOneGroup(cycles: seq<Cycle>, classes: seq<Class>, title: string, c: Class)
    requires c in classes
    requires forall i, j :: 0 <= i < j < |cycles| ==> cycles[i].id != cycles[j].id
    requires forall i :: 0 <= i < |cycles| ==> cycles[i].id != ""
    ensures var r := GroupByCycle(cycles, classes, title);
      forall i, j :: 0 <= i < j < |r| ==> !(c in r[i].classes && c in r[j].classes)
    ensures var r := GroupByCycle(cycles, classes, title);
      (exists i :: 0 <= i < |r| && c in r[i].classes) <==>
      (!Assigned(c.cycleId) || exists k :: 0 <= k < |cycles| && c.cycleId == Some(cycles[k].id))
  {
    var r := GroupByCycle(cycles, classes, title);
    forall i, j | 0 <= i < j < |r| ensures !(c in r[i].classes && c in r[j].classes) {
      if j < |cycles| {
        assert cycles[i].id != cycles[j].id;
      }
    }
    if !Assigned(c.cycleId) {
      assert c in r[|cycles|].classes;
    }
    if k :| 0 <= k < |cycles| && c.cycleId == Some(cycles[k].id) {
      assert c in r[k].classes;
    }
  }

  /** Virtual classes have no cycle, so the `unassigned` view shows every
      one of them. */
  lemma VirtualClassesUnassigned(classes: seq<Class>, students: seq<Student>, i: nat)
    requires |classes| <= i < |EffectiveClasses(classes, students)|
    ensures EffectiveClasses(classes, students)[i] in
      ClassesInView(EffectiveClasses(classes, students), UnassignedId)
  {
    var r := EffectiveClasses(classes, students);
    assert r[i] in r;
  }

  /** A single student of an unknown class yields exactly one virtual
      class after no stored ones. */
  lemma OneVirtualClass(s: Student)
    ensures EffectiveClasses([], [s]) == [Virtual(s.className)]
  {
    var ns := VirtualNames([], [s]);
    assert s.className in ns;
  }
}
