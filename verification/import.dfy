/**
 The spreadsheet importer: classifying an uploaded sheet as an official
 Massar export or a generic table, suggesting which header holds which
 field, turning rows into students, and saving them. Fresh student ids and
 the free-text date parser are parameters.
 */
module Import {
  import opened Wrappers
  import opened Text
  import opened Sheet
  import opened Entities
  import opened Dates
  import opened Seqs

  // ---- upload ----

  /** Which header feeds which student field; an unmapped field holds
      `Str("")`. */
  datatype Mapping = Mapping(lastName: Cell, firstName: Cell, birthDate: Cell, massarId: Cell, className: Cell)

  const Unmapped := Mapping(Str(""), Str(""), Str(""), Str(""), Str(""))

  /** What the import dialog holds between upload and confirmation. */
  datatype ImportState = ImportState(isMassar: bool, headers: Row, fileData: seq<Row>, mapping: Mapping)

  /** A Massar export has a non-empty official-id cell (column C) in row 15. */
  predicate IsMassar(data: seq<Row>) {
    |data| > 15 && Truthy(CellAt(data[15], 2))
  }

  /** Spelled out: row 15's column C holds anything but a blank, `''` or
      the number 0. */
  lemma MassarDetection(data: seq<Row>)
    ensures IsMassar(data) <==> |data| > 15 && CellAt(data[15], 2) !in {Blank, Str(""), Num(0)}
  {
  }

  /** The three fields the importer tries to recognise by header text. */
  datatype Role = IdRole | DateRole | NameRole

  /** The recognition rule for `role`, on a lower-cased header. */
  predicate Fits(role: Role, h: string) {
    match role
    case IdRole => Contains(h, "massar") || Contains(h, "code") || h == "id"
    case DateRole =>
      || (Contains(h, "date") && (Contains(h, "naissance") || Contains(h, "birth")))
      || h == "ddn" || h == "dob" || h == "date"
    case NameRole => h == "nom" || Contains(h, "nom") || Contains(h, "name")
  }

  /** Header `i` is present and its lower-cased text fits `role`. */
  predicate Hit(hs: Row, role: Role, i: int)
    requires 0 <= i < |hs|
  {
    !hs[i].Blank? && Fits(role, Lower(Show(hs[i])))
  }

  /** Header `i` is present and does not fit `role`. */
  predicate Miss(hs: Row, role: Role, i: int)
    requires 0 <= i < |hs|
  {
    !hs[i].Blank? && !Fits(role, Lower(Show(hs[i])))
  }

  /** Outcome of `findIndex` over the lower-cased headers: a hole in the
      header row reaches the test as `undefined`, whose `includes` throws. */
  datatype Search = Found(index: nat) | NotFound | Throws

  /** `findIndex` for `role`, starting at position `i`. */
  function FindFrom(hs: Row, role: Role, i: nat): (r: Search)
    requires i <= |hs|
    ensures r.Found? ==> i <= r.index < |hs| && Hit(hs, role, r.index)
    ensures r.Found? ==> forall j :: i <= j < r.index ==> Miss(hs, role, j)
    ensures r.NotFound? <==> forall j :: i <= j < |hs| ==> Miss(hs, role, j)
    ensures r.Throws? ==> exists j :: i <= j < |hs| && hs[j].Blank? && forall k :: i <= k < j ==> Miss(hs, role, k)
    decreases |hs| - i
  {
    if i == |hs| then NotFound
    else if hs[i].Blank? then assert !Miss(hs, role, i); Throws
    else if Fits(role, Lower(Show(hs[i]))) then assert !Miss(hs, role, i); Found(i)
    else
      var r := FindFrom(hs, role, i + 1);
      if r.Throws? then ThrowsStep(hs, role, i); r else r
  }

  /** A miss at `i` extends a throwing scan from `i + 1` back to `i`. */
  lemma ThrowsStep(hs: Row, role: Role, i: nat)
    requires i < |hs| && Miss(hs, role, i)
    requires exists j :: i + 1 <= j < |hs| && hs[j].Blank? && forall k :: i + 1 <= k < j ==> Miss(hs, role, k)
    ensures exists j :: i <= j < |hs| && hs[j].Blank? && forall k :: i <= k < j ==> Miss(hs, role, k)
  {
    var j :| i + 1 <= j < |hs| && hs[j].Blank? && forall k :: i + 1 <= k < j ==> Miss(hs, role, k);
    assert forall k :: i <= k < j ==> Miss(hs, role, k);
  }

  /** The header cell chosen for `role`, or `Str("")` when none fits. */
  function Pick(hs: Row, role: Role): Cell
  {
    match FindFrom(hs, role, 0)
    case Found(i) => if i < |hs| then hs[i] else Str("")
    case _ => Str("")
  }

  /** The suggested mapping, or None when the header scan throws. */
  function AutoMap(hs: Row): (r: Option<Mapping>)
    ensures r.None? <==> FindFrom(hs, IdRole, 0).Throws? || FindFrom(hs, DateRole, 0).Throws? || FindFrom(hs, NameRole, 0).Throws?
    ensures r.Some? ==> r.value.firstName == Str("") && r.value.className == Str("")
  {
    if FindFrom(hs, IdRole, 0).Throws? || FindFrom(hs, DateRole, 0).Throws? || FindFrom(hs, NameRole, 0).Throws? then None
    else Some(Unmapped.(massarId := Pick(hs, IdRole), birthDate := Pick(hs, DateRole), lastName := Pick(hs, NameRole)))
  }

  /** The mapping field a role fills. */
  function Field(m: Mapping, role: Role): Cell {
    match role
    case IdRole => m.massarId
    case DateRole => m.birthDate
    case NameRole => m.lastName
  }

  /** Each suggested field is the FIRST header fitting its rule, or stays
      unmapped exactly when no header fits. */
  lemma AutoMapFirstFit(hs: Row, role: Role)
    requires AutoMap(hs).Some?
    ensures var c := Field(AutoMap(hs).value, role);
      || (c == Str("") && forall j :: 0 <= j < |hs| ==> Miss(hs, role, j))
      || (exists i :: 0 <= i < |hs| && c == hs[i] && Hit(hs, role, i) && forall j :: 0 <= j < i ==> Miss(hs, role, j))
  {
  }

  /** Reading a sheet: an empty sheet changes nothing; a Massar export
      keeps every row; otherwise row 0 becomes the header row, the rest the
      data, and the mapping is re-suggested unless the suggestion throws. */
  function Upload(st: ImportState, data: seq<Row>): (r: ImportState)
    ensures data == [] ==> r == st
    ensures data != [] ==> r.isMassar == IsMassar(data)
    ensures data != [] && IsMassar(data) ==> r == st.(isMassar := true, fileData := data)
    ensures data != [] && !IsMassar(data) ==> [r.headers] + r.fileData == data
    ensures data != [] && !IsMassar(data) ==> r.mapping == AutoMap(data[0]).GetOr(st.mapping)
  {
    if data == [] then st
    else if IsMassar(data) then st.(isMassar := true, fileData := data)
    else
      var m := AutoMap(data[0]);
      ImportState(false, data[0], data[1..], if m.Some? then m.value else st.mapping)
  }

  // ---- names ----

  datatype FullName = FullName(lastName: string, firstName: string)

  /** Massar rule: the first word is the last name and the remaining words,
      space-joined, the first name; a single word is all last name. */
  function MassarName(raw: string): (r: FullName)
    requires Trimmed(raw) && raw != ""
    ensures |Words(r.lastName)| == 1
    ensures Words(r.lastName) + Words(r.firstName) == Words(raw)
    ensures Join(Words(r.lastName)) == r.lastName && Join(Words(r.firstName)) == r.firstName
  {
    var parts := SplitWs(raw);
    if |parts| > 1 then
      WordsOfWord(parts[0]);
      WordsOfJoin(parts[1..]);
      assert [parts[0]] + parts[1..] == parts;
      FullName(parts[0], Join(parts[1..]))
    else
      OneWord(raw);
      FullName(raw, "")
  }

  /** Generic rule: the last word is the first name and the preceding
      words, space-joined, the last name; a single word (or nothing) is all
      last name. */
  function GenericName(val: string): (r: FullName)
    requires Trimmed(val)
    ensures |Words(r.firstName)| == if |Words(val)| > 1 then 1 else 0
    ensures Words(r.lastName) + Words(r.firstName) == Words(val)
    ensures Join(Words(r.lastName)) == r.lastName && Join(Words(r.firstName)) == r.firstName
  {
    var parts := SplitWs(val);
    if |parts| > 1 then
      var n := |parts|;
      WordsOfWord(parts[n - 1]);
      WordsOfJoin(parts[..n - 1]);
      assert parts[..n - 1] + [parts[n - 1]] == parts;
      FullName(Join(parts[..n - 1]), parts[n - 1])
    else
      assert val != "" ==> Words(val) == [val] by {
        if val != "" {
          OneWord(val);
        }
      }
      FullName(val, "")
  }

  /** On a name of two or more single-spaced words the Massar rule takes
      the first word as last name, and the two parts rejoin to the name. */
  lemma MassarNameRoundTrip(ws: seq<string>)
    requires |ws| >= 2
    requires forall i :: 0 <= i < |ws| ==> IsWord(ws[i])
    ensures Trimmed(Join(ws)) && Join(ws) != ""
    ensures MassarName(Join(ws)) == FullName(ws[0], Join(ws[1..]))
    ensures ws[0] + " " + Join(ws[1..]) == Join(ws)
  {
    JoinTrimmed(ws);
    WordsOfJoin(ws);
    JoinCons(ws);
  }

  /** Whatever white space separates the words, the Massar rule gives the
      first word as last name and the other words, joined by single
      spaces, as first name. */
  lemma MassarNameParts(raw: string)
    requires Trimmed(raw) && raw != ""
    ensures var ws := Words(raw);
      |ws| >= 1 && MassarName(raw) == FullName(ws[0], Join(ws[1..]))
  {
    var n, ws := MassarName(raw), Words(raw);
    assert Words(n.lastName) == [ws[0]];
    assert Words(n.firstName) == ws[1..];
  }

  /** Likewise the generic rule gives the last word as first name and the
      words before it, joined by single spaces, as last name. */
  lemma GenericNameParts(val: string)
    requires Trimmed(val) && val != ""
    ensures var ws := Words(val);
      |ws| >= 1 && GenericName(val) == (if |ws| == 1 then FullName(ws[0], "")
                                        else FullName(Join(ws[..|ws| - 1]), ws[|ws| - 1]))
  {
    var n, ws := GenericName(val), Words(val);
    if |ws| > 1 {
      assert Words(n.firstName) == [ws[|ws| - 1]];
      assert Words(n.lastName) == ws[..|ws| - 1];
    } else {
      assert Words(n.lastName) == ws;
    }
  }

  /** A one-word name is all last name under both rules. */
  lemma SingleWordName(w: string)
    requires IsWord(w)
    ensures Trimmed(w) && w != ""
    ensures MassarName(w) == FullName(w, "")
    ensures GenericName(w) == FullName(w, "")
  {
  }

  /** On a name of two or more single-spaced words the generic rule takes
      the last word as first name, and the two parts rejoin to the name. */
  lemma GenericNameRoundTrip(ws: seq<string>)
    requires |ws| >= 2
    requires forall i :: 0 <= i < |ws| ==> IsWord(ws[i])
    ensures Trimmed(Join(ws))
    ensures GenericName(Join(ws)) == FullName(Join(ws[..|ws| - 1]), ws[|ws| - 1])
    ensures Join(ws[..|ws| - 1]) + " " + ws[|ws| - 1] == Join(ws)
  {
    JoinTrimmed(ws);
    WordsOfJoin(ws);
    JoinLast(ws);
  }

  /** A full-name cell that mentions "nom" or "prenom" in any letter case
      is taken for a stray header row. */
  predicate LooksLikeHeader(name: string) {
    Contains(Lower(name), "nom") || Contains(Lower(name), "prenom")
  }

  /** The "prenom" alternative adds nothing: "prenom" contains "nom". */
  lemma LooksLikeHeaderNom(name: string)
    ensures LooksLikeHeader(name) <==> Contains(Lower(name), "nom")
  {
    if Contains(Lower(name), "prenom") {
      ContainsInner(Lower(name), "prenom", 3, 3);
      assert "prenom"[3..6] == "nom";
    }
  }

  // ---- rows to students ----

  /** The student a Massar data row yields: full name from column D,
      official id from column C, birth date from column F. */
  function MassarRow(row: Row, id: string, target: string, freeText: string -> Option<string>): (r: Option<Student>)
    ensures var name := Trim(ShowOrEmpty(CellAt(row, 3)));
      r.None? <==> name == "" || LooksLikeHeader(name)
    ensures r.Some? ==> var name := Trim(ShowOrEmpty(CellAt(row, 3)));
      && Words(r.value.lastName) + Words(r.value.firstName) == Words(name)
      && |Words(r.value.lastName)| == 1
      && Join(Words(r.value.lastName)) == r.value.lastName
      && Join(Words(r.value.firstName)) == r.value.firstName
    ensures r.Some? ==> r.value.id == id && r.value.className == target && r.value.photoData.None?
    ensures r.Some? ==> r.value.massarId == Trim(ShowOrEmpty(CellAt(row, 2)))
    ensures r.Some? ==> r.value.birthDate == NormalizeDate(CellAt(row, 5), freeText)
  {
    var name := Trim(ShowOrEmpty(CellAt(row, 3)));
    if name == "" || LooksLikeHeader(name) then None
    else
      var n := MassarName(name);
      Some(Student(id, Trim(ShowOrEmpty(CellAt(row, 2))), n.firstName, n.lastName,
                   NormalizeDate(CellAt(row, 5), freeText), target, None))
  }

  /** Column positions resolved from the mapping; -1 means absent. */
  datatype Columns = Columns(last: int, birth: int, massar: int, cls: int)

  /** `headers.indexOf(v)`: the first present header equal to `v`, or -1. */
  function IndexOf(hs: Row, v: Cell): (i: int)
    ensures -1 <= i < |hs|
    ensures i >= 0 ==> hs[i] == v && !v.Blank? && forall j :: 0 <= j < i ==> hs[j].Blank? || hs[j] != v
    ensures i == -1 ==> forall j :: 0 <= j < |hs| ==> hs[j].Blank? || hs[j] != v
  {
    if |hs| == 0 then -1
    else if !hs[0].Blank? && hs[0] == v then 0
    else
      var k := IndexOf(hs[1..], v);
      if k == -1 then -1 else k + 1
  }

  /** The birth date of a generic row: normalised when the column is
      mapped and the cell truthy, the sentinel otherwise. */
  function BirthOf(row: Row, col: int, freeText: string -> Option<string>): (r: string)
    ensures !(col > -1 && Truthy(CellAt(row, col))) ==> r == Sentinel
    ensures col > -1 && Truthy(CellAt(row, col)) ==> r == NormalizeDate(CellAt(row, col), freeText)
  {
    if col > -1 && Truthy(CellAt(row, col)) then NormalizeDate(CellAt(row, col), freeText) else Sentinel
  }

  /** The student a generic row maps to, before filtering, with the
      official id given as `massarId`. */
  function GenericStudent(row: Row, cols: Columns, id: string, massarId: string, target: string,
                          freeText: string -> Option<string>): (s: Student)
    ensures cols.last > -1 ==>
      var n := GenericName(Trim(ShowOrEmpty(CellAt(row, cols.last))));
      s.lastName == n.lastName && s.firstName == n.firstName
    ensures cols.last <= -1 ==> s.lastName == "" && s.firstName == ""
    ensures s.id == id && s.massarId == massarId && s.photoData.None?
    ensures s.birthDate == BirthOf(row, cols.birth, freeText)
    ensures s.className == if cols.cls > -1 then Show(CellAt(row, cols.cls)) else target
  {
    var n := if cols.last > -1 then GenericName(Trim(ShowOrEmpty(CellAt(row, cols.last)))) else FullName("", "");
    Student(id, massarId, n.firstName, n.lastName, BirthOf(row, cols.birth, freeText),
            if cols.cls > -1 then Show(CellAt(row, cols.cls)) else target, None)
  }

  /** A generic row is kept when it has an official id and some name. */
  predicate Keep(s: Student) {
    s.massarId != "" && (s.firstName != "" || s.lastName != "")
  }

  /** A generic row as the importer processes it: the official id is
      `String(row[idxMassar])`, so a missing id cell reads "undefined". */
  function GenericRowAsWritten(row: Row, cols: Columns, id: string, target: string,
                               freeText: string -> Option<string>): (r: Option<Student>)
    ensures r.Some? ==> Keep(r.value) && r.value.massarId == Show(CellAt(row, cols.massar))
    ensures r.Some? ==> r.value == GenericStudent(row, cols, id, Show(CellAt(row, cols.massar)), target, freeText)
    ensures r.None? <==> !Keep(GenericStudent(row, cols, id, Show(CellAt(row, cols.massar)), target, freeText))
  {
    var s := GenericStudent(row, cols, id, Show(CellAt(row, cols.massar)), target, freeText);
    if Keep(s) then Some(s) else None
  }

  /** The official id text of a cell, with a missing cell read as empty. */
  function IdText(c: Cell): (r: string)
    ensures c.Blank? ==> r == ""
    ensures !c.Blank? ==> r == Show(c)
  {
    if c.Blank? then "" else Show(c)
  }

  /** A generic row with the id filter doing what it is meant to: a row
      without an official id cell is dropped. */
  function GenericRow(row: Row, cols: Columns, id: string, target: string,
                      freeText: string -> Option<string>): (r: Option<Student>)
    ensures r.Some? ==> Keep(r.value)
    ensures r.Some? ==> !CellAt(row, cols.massar).Blank? && r.value.massarId == Show(CellAt(row, cols.massar))
    ensures CellAt(row, cols.massar).Blank? ==> r.None?
    ensures !CellAt(row, cols.massar).Blank? ==> r == GenericRowAsWritten(row, cols, id, target, freeText)
  {
    var s := GenericStudent(row, cols, id, IdText(CellAt(row, cols.massar)), target, freeText);
    if Keep(s) then Some(s) else None
  }

  /** As written, a row whose official-id cell is missing but whose name
      is present is kept, with the id "undefined". */
  lemma BlankIdKeptAsWritten(row: Row, cols: Columns, id: string, target: string, freeText: string -> Option<string>)
    requires CellAt(row, cols.massar).Blank?
    requires cols.last > -1 && Trim(ShowOrEmpty(CellAt(row, cols.last))) != ""
    ensures GenericRowAsWritten(row, cols, id, target, freeText).Some?
    ensures GenericRowAsWritten(row, cols, id, target, freeText).value.massarId == "undefined"
    ensures GenericRow(row, cols, id, target, freeText).None?
  {
    var val := Trim(ShowOrEmpty(CellAt(row, cols.last)));
    var n := GenericName(val);
    assert Words(n.lastName) + Words(n.firstName) == Words(val);
    assert !AllSpace(val) by {
      assert !IsSpace(val[0]);
    }
    assert n.lastName != "" || n.firstName != "";
  }

  /** The name cell "Last First" splits back into its two words. */
  lemma TwoWordName(last: string, first: string)
    requires IsWord(last) && IsWord(first)
    ensures Trim(ShowOrEmpty(Str(last + " " + first))) == last + " " + first
    ensures GenericName(last + " " + first) == FullName(last, first)
  {
    var ws, j := [last, first], last + " " + first;
    assert ws[1..] == [first] && ws[..1] == [last];
    assert Join(ws) == j;
    GenericNameRoundTrip(ws);
    JoinTrimmed(ws);
    assert ShowOrEmpty(Str(j)) == j;
    TrimTrimmed(j);
  }

  /** For instance: a row holding only the name "Last First" in column 0,
      with the id column 1 mapped but missing from the row, is kept with
      the id "undefined" as written and dropped once corrected. */
  lemma BlankIdExample(last: string, first: string, id: string, freeText: string -> Option<string>)
    requires IsWord(last) && IsWord(first)
    ensures GenericRowAsWritten([Str(last + " " + first)], Columns(0, -1, 1, -1), id, "Imported", freeText)
         == Some(Student(id, "undefined", first, last, Sentinel, "Imported", None))
    ensures GenericRow([Str(last + " " + first)], Columns(0, -1, 1, -1), id, "Imported", freeText).None?
  {
    TwoWordName(last, first);
    var row, cols := [Str(last + " " + first)], Columns(0, -1, 1, -1);
    assert CellAt(row, 0) == Str(last + " " + first);
    assert CellAt(row, 1) == Blank;
    var s := GenericStudent(row, cols, id, "undefined", "Imported", freeText);
    assert s == Student(id, "undefined", first, last, Sentinel, "Imported", None);
  }

  // ---- collecting, saving ----

  /** What each Massar data row (row 15 on) maps to, data row `15 + i`
      taking fresh id `ids[i]`. */
  function MassarResults(data: seq<Row>, ids: seq<string>, target: string,
                         freeText: string -> Option<string>): (os: seq<Option<Student>>)
    requires |ids| >= |data|
    ensures |os| == if |data| <= 15 then 0 else |data| - 15
    ensures forall i :: 0 <= i < |os| ==> os[i] == MassarRow(data[15 + i], ids[i], target, freeText)
  {
    var body := if |data| <= 15 then [] else data[15..];
    seq(|body|, i requires 0 <= i < |body| => MassarRow(body[i], ids[i], target, freeText))
  }

  /** The students of a Massar export: rows 0 to 14 are the file's header
      block; the kept data rows' students follow in row order. */
  function MassarStudents(data: seq<Row>, ids: seq<string>, target: string,
                          freeText: string -> Option<string>): (r: seq<Student>)
    requires |ids| >= |data|
    ensures |data| <= 15 ==> r == []
    ensures var os := MassarResults(data, ids, target, freeText); var ks := SomeIndices(os);
      |r| == |ks| && forall j :: 0 <= j < |r| ==> os[ks[j]] == Some(r[j])
    ensures var os := MassarResults(data, ids, target, freeText);
      forall s :: s in r <==> exists i :: 0 <= i < |os| && os[i] == Some(s)
  {
    var os := MassarResults(data, ids, target, freeText);
    SomesInOrder(os);
    assert forall s :: s in Somes(os) <==> exists i :: 0 <= i < |os| && os[i] == Some(s) by {
      forall s { SomesMembers(os, s); }
    }
    Somes(os)
  }

  /** What each generic row maps to as the importer filters, row `i`
      taking fresh id `ids[i]`. */
  function GenericResults(rows: seq<Row>, cols: Columns, ids: seq<string>, target: string,
                          freeText: string -> Option<string>): (os: seq<Option<Student>>)
    requires |ids| >= |rows|
    ensures |os| == |rows|
    ensures forall i :: 0 <= i < |os| ==> os[i] == GenericRowAsWritten(rows[i], cols, ids[i], target, freeText)
  {
    seq(|rows|, i requires 0 <= i < |rows| => GenericRowAsWritten(rows[i], cols, ids[i], target, freeText))
  }

  /** The students of a generic table as the importer builds them: the
      kept rows' students in row order. */
  function GenericStudents(rows: seq<Row>, cols: Columns, ids: seq<string>, target: string,
                           freeText: string -> Option<string>): (r: seq<Student>)
    requires |ids| >= |rows|
    ensures var os := GenericResults(rows, cols, ids, target, freeText); var ks := SomeIndices(os);
      |r| == |ks| && forall j :: 0 <= j < |r| ==> os[ks[j]] == Some(r[j])
    ensures var os := GenericResults(rows, cols, ids, target, freeText);
      forall s :: s in r <==> exists k :: 0 <= k < |os| && os[k] == Some(s)
  {
    var os := GenericResults(rows, cols, ids, target, freeText);
    SomesInOrder(os);
    assert forall s :: s in Somes(os) <==> exists k :: 0 <= k < |os| && os[k] == Some(s) by {
      forall s { SomesMembers(os, s); }
    }
    Somes(os)
  }

  /** What each generic row maps to once rows without an official id cell
      are dropped. */
  function CorrectedResults(rows: seq<Row>, cols: Columns, ids: seq<string>, target: string,
                            freeText: string -> Option<string>): (os: seq<Option<Student>>)
    requires |ids| >= |rows|
    ensures |os| == |rows|
    ensures forall i :: 0 <= i < |os| ==> os[i] == GenericRow(rows[i], cols, ids[i], target, freeText)
  {
    seq(|rows|, i requires 0 <= i < |rows| => GenericRow(rows[i], cols, ids[i], target, freeText))
  }

  /** The students of a generic table with the id filter corrected: the
      kept rows' students in row order. */
  function CorrectedGenericStudents(rows: seq<Row>, cols: Columns, ids: seq<string>, target: string,
                                    freeText: string -> Option<string>): (r: seq<Student>)
    requires |ids| >= |rows|
    ensures var os := CorrectedResults(rows, cols, ids, target, freeText); var ks := SomeIndices(os);
      |r| == |ks| && forall j :: 0 <= j < |r| ==> os[ks[j]] == Some(r[j])
    ensures var os := CorrectedResults(rows, cols, ids, target, freeText);
      forall s :: s in r <==> exists k :: 0 <= k < |os| && os[k] == Some(s)
  {
    var os := CorrectedResults(rows, cols, ids, target, freeText);
    SomesInOrder(os);
    assert forall s :: s in Somes(os) <==> exists k :: 0 <= k < |os| && os[k] == Some(s) by {
      forall s { SomesMembers(os, s); }
    }
    Somes(os)
  }

  /** The name the imported students are filed under when a class is
      open, or the placeholder otherwise. */
  function Target(selected: Option<Class>): string {
    if selected.Some? then selected.value.name else "Imported"
  }

  /** The columns the generic branch reads; a class column is used only
      when no class is open and one is mapped. */
  function ColumnsOf(st: ImportState, selected: Option<Class>): Columns {
    Columns(
      IndexOf(st.headers, st.mapping.lastName),
      IndexOf(st.headers, st.mapping.birthDate),
      IndexOf(st.headers, st.mapping.massarId),
      if selected.None? && Truthy(st.mapping.className) then IndexOf(st.headers, st.mapping.className) else -1)
  }

  /** The students an import produces, or None when the generic branch is
      blocked because no id column is mapped. */
  function Produce(st: ImportState, selected: Option<Class>, ids: seq<string>,
                   freeText: string -> Option<string>): (r: Option<seq<Student>>)
    requires |ids| >= |st.fileData|
    ensures r.None? <==> !st.isMassar && !Truthy(st.mapping.massarId)
    ensures st.isMassar ==> r == Some(MassarStudents(st.fileData, ids, Target(selected), freeText))
    ensures r.Some? && !st.isMassar ==> r.value == GenericStudents(st.fileData, ColumnsOf(st, selected), ids, Target(selected), freeText)
  {
    if st.isMassar then Some(MassarStudents(st.fileData, ids, Target(selected), freeText))
    else if !Truthy(st.mapping.massarId) then None
    else Some(GenericStudents(st.fileData, ColumnsOf(st, selected), ids, Target(selected), freeText))
  }

  /** Saving `ss` one after another; only the students change. */
  function Commit(st: Store, ss: seq<Student>): (r: Store)
    ensures r.(students := st.students) == st
    ensures st.students.Keys <= r.students.Keys
  {
    st.(students := PutAll(st.students, ss, StudentKey))
  }

  /** After the saves, an id is stored exactly when it was stored before or
      is the id of a saved student. */
  lemma CommitStores(st: Store, ss: seq<Student>, k: string)
    ensures k in Commit(st, ss).students <==> k in st.students || exists i :: 0 <= i < |ss| && ss[i].id == k
  {
    PutAllStores(st.students, ss, StudentKey, k);
  }

  /** Confirming the import: the produced students are saved and the
      dialog's rows are cleared; a blocked import changes nothing. */
  function ExecuteImport(db: Store, st: ImportState, selected: Option<Class>, ids: seq<string>,
                         freeText: string -> Option<string>): (r: (Store, ImportState))
    requires |ids| >= |st.fileData|
    ensures Produce(st, selected, ids, freeText).None? ==> r == (db, st)
    ensures Produce(st, selected, ids, freeText).Some? ==>
      r == (Commit(db, Produce(st, selected, ids, freeText).value), st.(fileData := []))
  {
    match Produce(st, selected, ids, freeText)
    case None => (db, st)
    case Some(ss) => (Commit(db, ss), st.(fileData := []))
  }

  // ---- import laws ----

  /** Every student of a generic table, as the importer builds it, has
      some name and carries the text of its row's id cell, which is
      "undefined" when the cell is missing. */
  lemma GenericStudentsKept(rows: seq<Row>, cols: Columns, ids: seq<string>, target: string,
                            freeText: string -> Option<string>, s: Student)
    requires |ids| >= |rows|
    requires s in GenericStudents(rows, cols, ids, target, freeText)
    ensures Keep(s)
    ensures exists k :: 0 <= k < |rows| && s.massarId == Show(CellAt(rows[k], cols.massar))
  {
    var k :| 0 <= k < |rows| && GenericRowAsWritten(rows[k], cols, ids[k], target, freeText) == Some(s);
  }

  /** Once corrected, every student of a generic table has a present
      official-id cell in its row, that cell's text as its id, and some
      name. */
  lemma GenericStudentsHaveIds(rows: seq<Row>, cols: Columns, ids: seq<string>, target: string,
                               freeText: string -> Option<string>, s: Student)
    requires |ids| >= |rows|
    requires s in CorrectedGenericStudents(rows, cols, ids, target, freeText)
    ensures Keep(s)
    ensures exists k :: 0 <= k < |rows| && IdCellPresent(rows[k], cols, s)
  {
    var k :| 0 <= k < |rows| && GenericRow(rows[k], cols, ids[k], target, freeText) == Some(s);
    assert IdCellPresent(rows[k], cols, s);
  }

  /** A one-row table imports that row's student, if it is kept. */
  lemma GenericStudentsOne(row: Row, cols: Columns, id: string, target: string,
                           freeText: string -> Option<string>)
    ensures var o := GenericRowAsWritten(row, cols, id, target, freeText);
      GenericStudents([row], cols, [id], target, freeText) == if o.Some? then [o.value] else []
  {
    var os := GenericResults([row], cols, [id], target, freeText);
    assert os == [os[0]];
    SomesOne(os[0]);
  }

  lemma CorrectedGenericStudentsOne(row: Row, cols: Columns, id: string, target: string,
                                    freeText: string -> Option<string>)
    ensures var o := GenericRow(row, cols, id, target, freeText);
      CorrectedGenericStudents([row], cols, [id], target, freeText) == if o.Some? then [o.value] else []
  {
    var os := CorrectedResults([row], cols, [id], target, freeText);
    assert os == [os[0]];
    SomesOne(os[0]);
  }

  /** A one-row table whose only row lacks its id cell: the import as
      written saves a student with the id "undefined". */
  lemma BlankIdImported(last: string, first: string, id: string, freeText: string -> Option<string>)
    requires IsWord(last) && IsWord(first)
    ensures GenericStudents([[Str(last + " " + first)]], Columns(0, -1, 1, -1), [id], "Imported", freeText)
         == [Student(id, "undefined", first, last, Sentinel, "Imported", None)]
  {
    BlankIdExample(last, first, id, freeText);
    GenericStudentsOne([Str(last + " " + first)], Columns(0, -1, 1, -1), id, "Imported", freeText);
  }

  /** The same table imports nothing once the id filter is corrected. */
  lemma BlankIdDropped(last: string, first: string, id: string, freeText: string -> Option<string>)
    ensures CorrectedGenericStudents([[Str(last + " " + first)]], Columns(0, -1, 1, -1), [id], "Imported", freeText) == []
  {
    var row, cols := [Str(last + " " + first)], Columns(0, -1, 1, -1);
    assert CellAt(row, cols.massar) == Blank;
    CorrectedGenericStudentsOne(row, cols, id, "Imported", freeText);
  }

  /** `s` carries the text of the row's present official-id cell. */
  predicate IdCellPresent(row: Row, cols: Columns, s: Student) {
    !CellAt(row, cols.massar).Blank? && s.massarId == Show(CellAt(row, cols.massar))
  }

  /** Without a class column every student of a generic table is filed
      under the target name. */
  lemma GenericStudentsTarget(rows: seq<Row>, cols: Columns, ids: seq<string>, target: string,
                              freeText: string -> Option<string>, s: Student)
    requires |ids| >= |rows| && cols.cls <= -1
    requires s in GenericStudents(rows, cols, ids, target, freeText)
    ensures s.className == target
  {
    var k :| 0 <= k < |rows| && GenericRowAsWritten(rows[k], cols, ids[k], target, freeText) == Some(s);
  }

  /** Every student of a Massar export is filed under the target name. */
  lemma MassarStudentsTarget(data: seq<Row>, ids: seq<string>, target: string,
                             freeText: string -> Option<string>, s: Student)
    requires |ids| >= |data|
    requires s in MassarStudents(data, ids, target, freeText)
    ensures s.className == target
  {
    var i :| 0 <= i < |data| - 15 && MassarRow(data[15 + i], ids[i], target, freeText) == Some(s);
  }

  /** A class opened during import files every produced student under
      that class; a Massar import does so even with no class open. */
  lemma ImportedIntoTarget(st: ImportState, selected: Option<Class>, ids: seq<string>,
                           freeText: string -> Option<string>, s: Student)
    requires |ids| >= |st.fileData|
    requires Produce(st, selected, ids, freeText).Some?
    requires s in Produce(st, selected, ids, freeText).value
    requires st.isMassar || selected.Some?
    ensures s.className == Target(selected)
  {
    if st.isMassar {
      MassarStudentsTarget(st.fileData, ids, Target(selected), freeText, s);
    } else {
      GenericStudentsTarget(st.fileData, ColumnsOf(st, selected), ids, Target(selected), freeText, s);
    }
  }

  // ---- examples ----

  lemma LowerNom(x: string)
    requires x == "Nom"
    ensures Lower(x) == "nom"
  {
    var y, z := Lower(x), "nom";
    forall i | 0 <= i < |x| ensures y[i] == z[i] {
      assert y[i] == LowerChar(x[i]);
    }
  }

  lemma LowerDateNaissance(x: string)
    requires x == "DateNaissance"
    ensures Lower(x) == "datenaissance"
  {
    var z := "datenaissance";
    assert LowerChar('D') == 'd' && LowerChar('N') == 'n';
    forall i | 0 <= i < |x| ensures LowerChar(x[i]) == z[i] {
      if i != 0 && i != 4 {
        assert !('A' <= x[i] <= 'Z') && x[i] == z[i];
      }
    }
    LowerPointwise(x, z);
  }

  lemma LowerCodeMassar(x: string)
    requires x == "CodeMassar"
    ensures Lower(x) == "codemassar"
  {
    var z := "codemassar";
    assert LowerChar('C') == 'c' && LowerChar('M') == 'm';
    forall i | 0 <= i < |x| ensures LowerChar(x[i]) == z[i] {
      if i != 0 && i != 4 {
        assert !('A' <= x[i] <= 'Z') && x[i] == z[i];
      }
    }
    LowerPointwise(x, z);
  }

  lemma NomFits()
    ensures Fits(NameRole, "nom") && !Fits(IdRole, "nom") && !Fits(DateRole, "nom")
  {
    LacksChar("nom", "massar", 1);
    LacksChar("nom", "code", 0);
    LacksChar("nom", "date", 0);
  }

  lemma DateNaissanceFits()
    ensures !Fits(IdRole, "datenaissance") && Fits(DateRole, "datenaissance")
  {
    LacksChar("datenaissance", "massar", 0);
    LacksChar("datenaissance", "code", 1);
    assert OccursAt("datenaissance", "date", 0);
    assert OccursAt("datenaissance", "naissance", 4);
  }

  lemma CodeMassarFits()
    ensures Fits(IdRole, "codemassar")
  {
    assert OccursAt("codemassar", "massar", 4);
  }

  /** Three headers spelling "nom", "datenaissance" and "codemassar" in
      any letter case. */
  predicate ExampleHeaders(hs: Row) {
    && |hs| == 3 && hs[0].Str? && hs[1].Str? && hs[2].Str?
    && Lower(hs[0].s) == "nom" && Lower(hs[1].s) == "datenaissance" && Lower(hs[2].s) == "codemassar"
  }

  lemma ExampleNameColumn(hs: Row)
    requires ExampleHeaders(hs)
    ensures FindFrom(hs, NameRole, 0) == Found(0)
  {
    NomFits();
    assert Hit(hs, NameRole, 0);
  }

  lemma ExampleDateColumn(hs: Row)
    requires ExampleHeaders(hs)
    ensures FindFrom(hs, DateRole, 0) == Found(1)
  {
    NomFits();
    DateNaissanceFits();
    assert Miss(hs, DateRole, 0) && Hit(hs, DateRole, 1);
  }

  lemma ExampleIdColumn(hs: Row)
    requires ExampleHeaders(hs)
    ensures FindFrom(hs, IdRole, 0) == Found(2)
  {
    NomFits();
    DateNaissanceFits();
    CodeMassarFits();
    assert Miss(hs, IdRole, 0) && Miss(hs, IdRole, 1) && Hit(hs, IdRole, 2);
    assert FindFrom(hs, IdRole, 1) == Found(2);
  }

  /** Headers reading "nom", "datenaissance" and "codemassar" once
      lower-cased map to the last name, the birth date and the official id
      respectively. */
  lemma AutoMapExample(hs: Row)
    requires ExampleHeaders(hs)
    ensures AutoMap(hs) == Some(Mapping(hs[0], Str(""), hs[1], hs[2], Str("")))
  {
    ExampleNameColumn(hs);
    ExampleDateColumn(hs);
    ExampleIdColumn(hs);
  }

  /** The headers "Nom", "DateNaissance" and "CodeMassar" are such a row. */
  lemma HeaderExample(a: string, b: string, c: string)
    requires a == "Nom" && b == "DateNaissance" && c == "CodeMassar"
    ensures ExampleHeaders([Str(a), Str(b), Str(c)])
  {
    LowerNom(a);
    LowerDateNaissance(b);
    LowerCodeMassar(c);
  }

  lemma NameWords()
    ensures IsWord("EL") && IsWord("AMRANI") && IsWord("Youssef")
  {
  }

  lemma NameJoins()
    ensures Join(["EL", "AMRANI", "Youssef"]) == "EL AMRANI Youssef"
    ensures Join(["AMRANI", "Youssef"]) == "AMRANI Youssef"
  {
  }

  /** The Massar row "EL AMRANI Youssef" gives last name "EL" and first
      name "AMRANI Youssef". */
  lemma MassarNameExample()
    ensures MassarName("EL AMRANI Youssef") == FullName("EL", "AMRANI Youssef")
  {
    NameWords();
    NameJoins();
    var ws := ["EL", "AMRANI", "Youssef"];
    MassarNameRoundTrip(ws);
    assert ws[1..] == ["AMRANI", "Youssef"];
  }
}
