/** The table block (blocks/table/table.js): a block whose rows are divs of column
    divs is rebuilt as a table whose first row is the header, and the 'industry'
    variant wraps the content of every body data cell in a paragraph. A row is
    given by the inner HTML of its columns, a cell by its tag, its scope and its
    inner HTML. */
module Table {
  import opened Common

  datatype CellTag = Th | Td

  datatype Cell = Cell(tag: CellTag, scope: Option<string>, html: string)

  /** A table's header rows and body rows. */
  datatype TableEl = TableEl(head: seq<seq<Cell>>, body: seq<seq<Cell>>)

  /** `buildCell(rowIndex)`: a header cell scoped to its column in row 0, a data cell
      without scope elsewhere. */
  function BuildCell(rowIndex: nat): (c: Cell)
    ensures c.html == ""
    ensures c.tag == Th <==> rowIndex == 0
    ensures c.scope == Some("col") <==> rowIndex == 0
    ensures rowIndex != 0 ==> c.scope.None?
  {
    if rowIndex != 0 then Cell(Td, None, "") else Cell(Th, Some("col"), "")
  }

  /** The row built for the block's child `i` with columns `cols`. */
  function RowOf(i: nat, cols: seq<string>): (r: seq<Cell>)
    ensures |r| == |cols|
  {
    seq(|cols|, j requires 0 <= j < |cols| => BuildCell(i).(html := cols[j]))
  }

  /** The table built from the block's children: row 0 in the head, the rest in the
      body. */
  function BuildTable(children: seq<seq<string>>): (t: TableEl)
  {
    if children == [] then TableEl([], [])
    else TableEl([RowOf(0, children[0])],
                 seq(|children| - 1, k requires 0 <= k < |children| - 1 => RowOf(k + 1, children[k + 1])))
  }

  /** The rows of a table in document order. */
  function Rows(t: TableEl): seq<seq<Cell>> {
    t.head + t.body
  }

  /** The inner HTML of every cell, row by row. */
  function HtmlGrid(rows: seq<seq<Cell>>): (g: seq<seq<string>>)
    ensures |g| == |rows|
  {
    seq(|rows|, i requires 0 <= i < |rows| => seq(|rows[i]|, j requires 0 <= j < |rows[i]| => rows[i][j].html))
  }

  /** Building keeps every row, in order, with exactly its columns' HTML. */
  lemma BuildTableKeepsContent(children: seq<seq<string>>)
    ensures HtmlGrid(Rows(BuildTable(children))) == children
  {
    var rows := Rows(BuildTable(children));
    assert |rows| == |children|;
    forall i | 0 <= i < |children|
      ensures HtmlGrid(rows)[i] == children[i]
    {
      assert rows[i] == RowOf(i, children[i]);
    }
  }

  /** Row 0 goes to the head, all others to the body; header cells are exactly those
      of row 0. */
  lemma BuildTableShape(children: seq<seq<string>>)
    ensures |BuildTable(children).head| == (if children == [] then 0 else 1)
    ensures |BuildTable(children).body| == (if children == [] then 0 else |children| - 1)
    ensures forall i, j :: 0 <= i < |children| && 0 <= j < |children[i]| ==>
              (Rows(BuildTable(children))[i][j].tag == Th <==> i == 0)
    ensures forall i, j :: 0 <= i < |children| && 0 <= j < |children[i]| ==>
              (Rows(BuildTable(children))[i][j].scope == Some("col") <==> i == 0)
  {
    var rows := Rows(BuildTable(children));
    forall i, j | 0 <= i < |children| && 0 <= j < |children[i]|
      ensures rows[i][j] == BuildCell(i).(html := children[i][j])
    {
      assert rows[i] == RowOf(i, children[i]);
    }
  }

  /** The industry rewrite of one cell: the markup assigned to a data cell is its
      content between '<p>' and '</p>'. The cell's `html` is the markup assigned,
      not the tree the browser parses from it. */
  function WrapCell(c: Cell): (r: Cell)
    ensures r.tag == c.tag && r.scope == c.scope
    ensures c.tag == Td ==> r.html == "<p>" + c.html + "</p>"
    ensures c.tag == Th ==> r == c
  {
    if c.tag == Td then c.(html := "<p>" + c.html + "</p>") else c
  }

  function WrapRow(row: seq<Cell>): (r: seq<Cell>)
    ensures |r| == |row|
  {
    seq(|row|, j requires 0 <= j < |row| => WrapCell(row[j]))
  }

  /** `tbody td`: only the body's data cells are rewritten; the head is untouched. */
  function WrapBody(t: TableEl): (r: TableEl)
    ensures r.head == t.head && |r.body| == |t.body|
  {
    t.(body := seq(|t.body|, i requires 0 <= i < |t.body| => WrapRow(t.body[i])))
  }

  /** In an industry table built from the block, the markup assigned to every body
      cell is its column's HTML between '<p>' and '</p>'. */
  lemma IndustryBodyCells(children: seq<seq<string>>, i: nat, j: nat)
    requires 1 <= i < |children| && j < |children[i]|
    ensures WrapBody(BuildTable(children)).body[i - 1][j].html == "<p>" + children[i][j] + "</p>"
  {
    var t := BuildTable(children);
    assert t.body[i - 1] == RowOf(i, children[i]);
    assert WrapBody(t).body[i - 1] == WrapRow(t.body[i - 1]);
    assert RowOf(i, children[i])[j] == BuildCell(i).(html := children[i][j]);
    assert WrapRow(t.body[i - 1])[j] == WrapCell(t.body[i - 1][j]);
  }

  /** The table block. */
  class TableBlock {
    /** The inner HTML of each column of each child row of the block. */
    var children: seq<seq<string>>
    /** The table inside the block, if there is one. */
    var table: Option<TableEl>
    /** Whether the block carries the class 'industry'. */
    const industry: bool

    constructor(children0: seq<seq<string>>, table0: Option<TableEl>, industry0: bool)
      ensures children == children0 && table == table0 && industry == industry0
    {
      children := children0;
      table := table0;
      industry := industry0;
    }

    /** The nested loops that build the rows from the block's children. */
    static method BuildRows(children: seq<seq<string>>) returns (t: TableEl)
      ensures t == BuildTable(children)
    {
      var head: seq<seq<Cell>> := [];
      var body: seq<seq<Cell>> := [];
      var i := 0;
      while i < |children|
        invariant 0 <= i <= |children|
        invariant head == (if i == 0 then [] else [RowOf(0, children[0])])
        invariant |body| == (if i == 0 then 0 else i - 1)
        invariant forall k :: 0 <= k < |body| ==> body[k] == RowOf(k + 1, children[k + 1])
      {
        var row: seq<Cell> := [];
        var j := 0;
        while j < |children[i]|
          invariant 0 <= j <= |children[i]|
          invariant row == RowOf(i, children[i][..j])
        {
          var cell := BuildCell(i);
          cell := cell.(html := children[i][j]);
          row := row + [cell];
          j := j + 1;
        }
        assert children[i][..j] == children[i];
        if i != 0 {
          body := body + [row];
        } else {
          head := head + [row];
        }
        i := i + 1;
      }
      t := TableEl(head, body);
      assert children != [] ==> body == BuildTable(children).body;
    }

    /** The industry loop: every body data cell's HTML is wrapped, in place. */
    static method WrapRows(t: TableEl) returns (r: TableEl)
      ensures r == WrapBody(t)
    {
      var body := t.body;
      var i := 0;
      while i < |body|
        invariant 0 <= i <= |body| && |body| == |t.body|
        invariant forall k :: 0 <= k < i ==> body[k] == WrapRow(t.body[k])
        invariant forall k :: i <= k < |body| ==> body[k] == t.body[k]
      {
        var row := body[i];
        var j := 0;
        while j < |row|
          invariant 0 <= j <= |row| && |row| == |t.body[i]|
          invariant forall m :: 0 <= m < j ==> row[m] == WrapCell(t.body[i][m])
          invariant forall m :: j <= m < |row| ==> row[m] == t.body[i][m]
        {
          if row[j].tag == Td {
            row := row[j := row[j].(html := "<p>" + row[j].html + "</p>")];
          }
          j := j + 1;
        }
        body := body[i := row];
        i := i + 1;
      }
      r := t.(body := body);
    }

    /** `decorate(block)`: without a table, the children are replaced by one built
        from them; an existing table is kept as it is. Then, for the industry
        variant, the body's data cells are wrapped. */
    method Decorate()
      modifies this`children, this`table
      ensures table.Some?
      ensures old(table).None? ==>
                (children == [] &&
                 table.value == (if industry then WrapBody(BuildTable(old(children))) else BuildTable(old(children))))
      ensures old(table).Some? ==>
                (children == old(children) &&
                 table.value == (if industry then WrapBody(old(table).value) else old(table).value))
    {
      if table.None? {
        var built := BuildRows(children);
        table := Some(built);
        children := [];
      }
      if industry {
        var wrapped := WrapRows(table.value);
        table := Some(wrapped);
      }
    }
  }
}
