// A row of table data (src/TableRow.php): texts by column name, the row
// type, the range of columns the row joins into one cell, and per-field
// alignments. Rows are objects: the table clears the texts of joined
// columns in place.
module TableRows {
  import opened Wrappers

  /** A column's text in a row's data: "" for a column without an entry. */
  function TextOf(data: map<string, string>, columnName: string): (s: string)
    ensures columnName in data ==> s == data[columnName]
    ensures columnName !in data ==> s == ""
  {
    if columnName in data then data[columnName] else ""
  }

  class TableRow {
    var data: map<string, string>
    /** 'D' detail, 'H' header, 'S' subtotal, 'T' total. */
    var rowType: string
    /** The first and last column of a joined cell; -1 for none. */
    var joinStart: int
    var joinEnd: int
    var hAlignments: map<string, Option<string>>
    var vAlignments: map<string, Option<string>>

    /** A new row: no data, no joins, no alignments. */
    constructor (rowType: string)
      ensures data == map[] && this.rowType == rowType && joinStart == -1 && joinEnd == -1
      ensures hAlignments == map[] && vAlignments == map[]
    {
      data := map[];
      this.rowType := rowType;
      joinStart, joinEnd := -1, -1;
      hAlignments, vAlignments := map[], map[];
    }

    /** getText: the column's text, or "" for a column without an entry. */
    function GetText(columnName: string): (s: string)
      reads this
      ensures columnName in data ==> s == data[columnName]
      ensures columnName !in data ==> s == ""
    {
      TextOf(data, columnName)
    }

    /** setText: that column's text, and no other, changes. */
    method SetText(columnName: string, value: string)
      modifies this`data
      ensures data == old(data)[columnName := value]
      ensures GetText(columnName) == value
      ensures forall c :: c != columnName ==> GetText(c) == old(GetText(c))
    {
      data := data[columnName := value];
    }

    /** setData: the whole map is replaced. */
    method SetData(d: map<string, string>)
      modifies this`data
      ensures data == d
    {
      data := d;
    }

    method SetRowType(t: string)
      modifies this`rowType
      ensures rowType == t
    {
      rowType := t;
    }

    method SetJoin(start: int, end: int)
      modifies this`joinStart, this`joinEnd
      ensures joinStart == start && joinEnd == end
    {
      joinStart, joinEnd := start, end;
    }

    /** The row joins a range of columns only when both ends are set. */
    predicate Joined()
      reads this
    {
      joinStart >= 0 && joinEnd >= 0
    }

    method SetHAlignment(fieldName: string, alignment: Option<string>)
      modifies this`hAlignments
      ensures hAlignments == old(hAlignments)[fieldName := alignment]
      ensures GetHAlignment(fieldName) == alignment
    {
      hAlignments := hAlignments[fieldName := alignment];
    }

    /** getHAlignment: null for a field that was never set (or set to null). */
    function GetHAlignment(fieldName: string): (a: Option<string>)
      reads this
      ensures fieldName !in hAlignments ==> a.None?
      ensures fieldName in hAlignments ==> a == hAlignments[fieldName]
    {
      if fieldName in hAlignments then hAlignments[fieldName] else None
    }

    method SetVAlignment(fieldName: string, alignment: Option<string>)
      modifies this`vAlignments
      ensures vAlignments == old(vAlignments)[fieldName := alignment]
      ensures GetVAlignment(fieldName) == alignment
    {
      vAlignments := vAlignments[fieldName := alignment];
    }

    function GetVAlignment(fieldName: string): (a: Option<string>)
      reads this
      ensures fieldName !in vAlignments ==> a.None?
      ensures fieldName in vAlignments ==> a == vAlignments[fieldName]
    {
      if fieldName in vAlignments then vAlignments[fieldName] else None
    }
  }
}
