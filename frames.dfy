/**
 The in-memory table the upload handler works on: an ordered header, one
 column of cells per name, and a row count shared by every column. Only the
 two table operations the handler uses are modelled: dropping a column and
 assigning a whole column by name.
 */
module Frames {
  import opened Columns

  /**
   One cell of a table. Cell values are opaque to the handler: it only moves
   them around. A floating-point value is identified by its bit pattern, and
   no arithmetic on it is modelled.
   */
  datatype Cell = Int(i: int) | Float(bits: nat) | Text(s: string)

  /** A row-major array of cells, the input a classifier consumes. */
  type Matrix = seq<seq<Cell>>

  /**
   The header that assigning a column called `name` leaves behind: an
   existing column is overwritten where it stands, a new one goes last.
   */
  function AssignedHeader(header: seq<string>, name: string): (r: seq<string>)
    ensures name in r
    ensures forall c :: c in header ==> c in r
    ensures |r| == if name in header then |header| else |header| + 1
    ensures r[..|header|] == header
  {
    if name in header then header else header + [name]
  }

  /** Cell-wise row-major view of the columns of `header`, in header order. */
  function RowMajor(header: seq<string>, data: map<string, seq<Cell>>, rows: nat): (m: Matrix)
    requires forall c :: c in header ==> c in data && |data[c]| == rows
    ensures |m| == rows
    ensures forall i :: 0 <= i < rows ==> |m[i]| == |header|
  {
    seq(rows, i requires 0 <= i < rows =>
      seq(|header|, j requires 0 <= j < |header| => data[header[j]][i]))
  }

  class DataFrame {
    var columns: seq<string>
    var data: map<string, seq<Cell>>
    var rows: nat

    /** Every named column exists exactly once and holds one cell per row. */
    ghost predicate Valid()
      reads this
    {
      Distinct(columns) &&
      (forall c :: c in data <==> c in columns) &&
      (forall c :: c in data ==> |data[c]| == rows)
    }

    /** A table as the CSV reader produces it. */
    constructor (columns: seq<string>, data: map<string, seq<Cell>>, rows: nat)
      requires Distinct(columns)
      requires forall c :: c in data <==> c in columns
      requires forall c :: c in data ==> |data[c]| == rows
      ensures Valid()
      ensures this.columns == columns && this.data == data && this.rows == rows
    {
      this.columns := columns;
      this.data := data;
      this.rows := rows;
    }

    /** The table as a numeric array: row `i` lists row `i` of every column, in header order. */
    function Matrix(): (m: Matrix)
      reads this
      requires Valid()
      ensures |m| == rows
    {
      RowMajor(columns, data, rows)
    }

    /** Removes the column `name`; every other column keeps its place and its cells. */
    method Drop(name: string)
      requires Valid() && name in columns
      modifies this
      ensures Valid()
      ensures columns == Without(old(columns), {name})
      ensures data == old(data) - {name}
      ensures rows == old(rows)
    {
      WithoutDistinct(columns, {name});
      columns := Without(columns, {name});
      data := data - {name};
    }

    /** Stores `values` as the column `name`, replacing it in place or adding it last. */
    method Assign(name: string, values: seq<Cell>)
      requires Valid() && |values| == rows
      modifies this
      ensures Valid()
      ensures columns == AssignedHeader(old(columns), name)
      ensures data == old(data)[name := values]
      ensures rows == old(rows)
    {
      if name !in columns {
        AppendFresh(columns, name);
        columns := columns + [name];
      }
      data := data[name := values];
    }
  }
}
