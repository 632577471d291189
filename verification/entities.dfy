/**
 The five record kinds of the classroom store (cycles, classes, students,
 attendance sessions and documents) and the store itself: one map per
 collection from record id to record, with put as insert-or-replace and
 delete as removal. Links between records are plain strings: a student
 names its class, a class and a session name their cycle.
 */
module Entities {
  import opened Wrappers

  datatype Status = Present | Absent | Late | Sick | NoKit | Exempted

  datatype Cycle = Cycle(id: string, name: string)

  /** A class; `cycleId` absent means the class sits in the "unassigned"
      pseudo-cycle. */
  datatype Class = Class(id: string, name: string, cycleId: Option<string>)

  /** A student is linked to a class by the class NAME, not its id. */
  datatype Student = Student(
    id: string,
    massarId: string,
    firstName: string,
    lastName: string,
    birthDate: string,
    className: string,
    photoData: Option<string>)

  datatype AttendanceRecord = AttendanceRecord(studentId: string, status: Status, note: Option<string>)

  datatype Session = Session(
    id: string,
    date: string,
    time: Option<string>,
    className: string,
    cycleId: Option<string>,
    notes: string,
    attendance: seq<AttendanceRecord>)

  /** A document or folder; `category` is the text "folder" or "file" and
      `parentId` absent means the root. */
  datatype DocumentFile = DocumentFile(
    id: string,
    name: string,
    category: string,
    kind: string,
    parentId: Option<string>,
    dateAdded: string,
    size: string,
    content: Option<seq<bv8>>)

  predicate IsFolder(d: DocumentFile) {
    d.category == "folder"
  }

  /** JavaScript truthiness of an optional id: absent or empty is falsy. */
  predicate Assigned(id: Option<string>) {
    id.Some? && id.value != ""
  }

  datatype Store = Store(
    students: map<string, Student>,
    classes: map<string, Class>,
    cycles: map<string, Cycle>,
    sessions: map<string, Session>,
    documents: map<string, DocumentFile>)

  /** `put`: insert or replace the record stored under `key`. */
  function Upsert<T>(m: map<string, T>, key: string, v: T): (r: map<string, T>)
    ensures r.Keys == m.Keys + {key}
    ensures r[key] == v
    ensures forall k :: k in m && k != key ==> r[k] == m[k]
  {
    m[key := v]
  }

  /** `delete`: remove whatever is stored under `key`. */
  function Remove<T>(m: map<string, T>, key: string): (r: map<string, T>)
    ensures r.Keys == m.Keys - {key}
    ensures forall k :: k in r ==> r[k] == m[k]
  {
    m - {key}
  }

  /** `xs` is what `getAll` returns for the collection `m`: every stored
      record exactly once, each under its own id. */
  predicate Lists<T(==)>(m: map<string, T>, xs: seq<T>, key: T -> string) {
    && (forall k :: k in m ==> exists i :: 0 <= i < |xs| && key(xs[i]) == k)
    && (forall i :: 0 <= i < |xs| ==> key(xs[i]) in m && m[key(xs[i])] == xs[i])
    && (forall i, j :: 0 <= i < j < |xs| ==> key(xs[i]) != key(xs[j]))
  }

  function PutStudent(st: Store, s: Student): (r: Store)
    ensures r.students.Keys == st.students.Keys + {s.id} && r.students[s.id] == s
    ensures forall k :: k in st.students && k != s.id ==> r.students[k] == st.students[k]
    ensures r.(students := st.students) == st
  {
    st.(students := Upsert(st.students, s.id, s))
  }

  function PutSession(st: Store, s: Session): (r: Store)
    ensures r.sessions.Keys == st.sessions.Keys + {s.id} && r.sessions[s.id] == s
    ensures forall k :: k in st.sessions && k != s.id ==> r.sessions[k] == st.sessions[k]
    ensures r.(sessions := st.sessions) == st
  {
    st.(sessions := Upsert(st.sessions, s.id, s))
  }

  function PutClass(st: Store, c: Class): (r: Store)
    ensures r.classes.Keys == st.classes.Keys + {c.id} && r.classes[c.id] == c
    ensures forall k :: k in st.classes && k != c.id ==> r.classes[k] == st.classes[k]
    ensures r.(classes := st.classes) == st
  {
    st.(classes := Upsert(st.classes, c.id, c))
  }

  /** Putting the same record twice stores it once, unchanged. */
  lemma PutIdempotent<T>(m: map<string, T>, key: string, v: T)
    ensures Upsert(Upsert(m, key, v), key, v) == Upsert(m, key, v)
    ensures |Upsert(m, key, v)| == |m| + (if key in m then 0 else 1)
  {
    if key !in m {
      assert Upsert(m, key, v).Keys == m.Keys + {key};
    } else {
      assert Upsert(m, key, v).Keys == m.Keys;
    }
  }

  function StudentKey(s: Student): string { s.id }
  function ClassKey(c: Class): string { c.id }
  function SessionKey(s: Session): string { s.id }
  function DocumentKey(d: DocumentFile): string { d.id }

  /** Putting the records `xs` one after another, in order. */
  function PutAll<T>(m: map<string, T>, xs: seq<T>, key: T -> string): (r: map<string, T>)
    ensures m.Keys <= r.Keys
    decreases |xs|
  {
    if |xs| == 0 then m else Upsert(PutAll(m, xs[..|xs| - 1], key), key(xs[|xs| - 1]), xs[|xs| - 1])
  }

  /** After the puts, a key is stored exactly when it was stored before or
      is the key of a put record. */
  lemma {:induction false} PutAllStores<T>(m: map<string, T>, xs: seq<T>, key: T -> string, k: string)
    ensures k in PutAll(m, xs, key) <==> k in m || exists i :: 0 <= i < |xs| && key(xs[i]) == k
    decreases |xs|
  {
    if |xs| > 0 {
      var n := |xs|;
      var init := xs[..n - 1];
      PutAllStores(m, init, key, k);
      assert forall i :: 0 <= i < n - 1 ==> init[i] == xs[i];
      if i :| 0 <= i < |xs| && key(xs[i]) == k {
        if i < n - 1 {
          assert key(init[i]) == k;
        }
      }
    }
  }

  /** A stored record whose key is not among the put ones is left alone. */
  lemma {:induction false} PutAllKeeps<T>(m: map<string, T>, xs: seq<T>, key: T -> string, k: string)
    requires k in m
    requires forall i :: 0 <= i < |xs| ==> key(xs[i]) != k
    ensures k in PutAll(m, xs, key) && PutAll(m, xs, key)[k] == m[k]
    decreases |xs|
  {
    if |xs| > 0 {
      var n := |xs|;
      var init := xs[..n - 1];
      assert forall i :: 0 <= i < n - 1 ==> init[i] == xs[i];
      PutAllKeeps(m, init, key, k);
      assert key(xs[n - 1]) != k;
    }
  }

  /** Putting in order means the last record with a given key wins. */
  lemma {:induction false} PutAllLastWins<T>(m: map<string, T>, xs: seq<T>, key: T -> string, i: nat)
    requires i < |xs|
    requires forall j :: i < j < |xs| ==> key(xs[j]) != key(xs[i])
    ensures key(xs[i]) in PutAll(m, xs, key) && PutAll(m, xs, key)[key(xs[i])] == xs[i]
    decreases |xs|
  {
    var n := |xs|;
    var init := xs[..n - 1];
    assert PutAll(m, xs, key) == Upsert(PutAll(m, init, key), key(xs[n - 1]), xs[n - 1]);
    if i < n - 1 {
      assert init[i] == xs[i];
      assert forall j :: i < j < |init| ==> init[j] == xs[j];
      PutAllLastWins(m, init, key, i);
      assert key(xs[n - 1]) != key(xs[i]);
    }
  }

  /** Deleting the keys `ks` one after another, in order. */
  function RemoveAll<T>(m: map<string, T>, ks: seq<string>): (r: map<string, T>)
    ensures forall k :: k in r ==> k in m && r[k] == m[k]
    decreases |ks|
  {
    if |ks| == 0 then m else Remove(RemoveAll(m, ks[..|ks| - 1]), ks[|ks| - 1])
  }

  /** Deleting keys one by one removes exactly the listed keys. */
  lemma {:induction false} RemoveAllKeys<T>(m: map<string, T>, ks: seq<string>, k: string)
    ensures k in RemoveAll(m, ks) <==> k in m && k !in ks
    decreases |ks|
  {
    if |ks| > 0 {
      var init := ks[..|ks| - 1];
      RemoveAllKeys(m, init, k);
      assert ks == init + [ks[|ks| - 1]];
    }
  }
}
