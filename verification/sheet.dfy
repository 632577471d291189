/**
 Spreadsheet cells as the importer receives them after workbook decoding:
 each row is an array of cell values, and a missing cell reads as
 `undefined`. The helpers give JavaScript's truthiness and `String(v)` for
 the three kinds of value the importer distinguishes.
 */
module Sheet {
  import opened Text

  /** A decoded cell: no value (`undefined`, or a hole in the row array),
      a number (integers only in this model), or text. */
  datatype Cell = Blank | Num(n: int) | Str(s: string)

  type Row = seq<Cell>

  /** JavaScript truthiness: `undefined`, `0` and `""` are falsy. */
  predicate Truthy(c: Cell) {
    match c
    case Blank => false
    case Num(n) => n != 0
    case Str(s) => s != ""
  }

  /** Exactly three cell values are falsy. */
  lemma FalsyCells(c: Cell)
    ensures !Truthy(c) <==> c in {Blank, Num(0), Str("")}
  {
  }

  /** `String(v)`. */
  function Show(c: Cell): (r: string)
    ensures c.Str? ==> r == c.s
    ensures c.Blank? ==> r == "undefined"
    ensures c.Num? ==> r == IntToString(c.n)
  {
    match c
    case Blank => "undefined"
    case Num(n) => IntToString(n)
    case Str(s) => s
  }

  /** `String(v || '')`: falsy cells become the empty string. */
  function ShowOrEmpty(c: Cell): (r: string)
    ensures !Truthy(c) ==> r == ""
    ensures Truthy(c) ==> r == Show(c) && r != ""
  {
    if Truthy(c) then Show(c) else ""
  }

  /** `row[i]`: reading outside the row, including index -1, gives
      `undefined`. */
  function CellAt(row: Row, i: int): (c: Cell)
    ensures 0 <= i < |row| ==> c == row[i]
    ensures !(0 <= i < |row|) ==> c == Blank
  {
    if 0 <= i < |row| then row[i] else Blank
  }
}
