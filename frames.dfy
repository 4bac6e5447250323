/**
 * A (geo)data frame reduced to what the core reads and writes: an ordered list
 * of column names and, per row, a mapping from column name to cell value.
 * Row positions play the part of the frame's default 0..n-1 index.
 */
module Frames {
  import opened Values

  type Row = map<string, Value>

  datatype Frame = Frame(columns: seq<string>, rows: seq<Row>)

  function ColumnSet(columns: seq<string>): (s: set<string>)
    ensures forall c :: c in s <==> c in columns
  {
    set c | c in columns
  }

  predicate Distinct(columns: seq<string>)
  {
    forall i, j | 0 <= i < j < |columns| :: columns[i] != columns[j]
  }

  /** Column names are unique and every row has exactly the frame's columns. */
  predicate WellFormed(f: Frame)
  {
    && Distinct(f.columns)
    && forall i | 0 <= i < |f.rows| :: f.rows[i].Keys == ColumnSet(f.columns)
  }

  /** Assigning `df[c] = ...`: an existing column keeps its place, a new one is appended. */
  function AddColumn(columns: seq<string>, c: string): (r: seq<string>)
    ensures ColumnSet(r) == ColumnSet(columns) + {c}
    ensures Distinct(columns) ==> Distinct(r)
    ensures columns <= r
  {
    if c in columns then columns else columns + [c]
  }

  /** `row.get(c)` on a pandas row: the cell, or `None` when the column is absent. */
  function Get(row: Row, c: string): (v: Value)
    ensures c !in row ==> v == Null
    ensures c in row ==> v == row[c]
  {
    if c in row then row[c] else Null
  }
}
