/** The row operations: `add_data` appends a row, `edit_data` overwrites
    fields of the rows an identifier selects and `delete_data` removes them.
    Rows are selected by a mask that starts all true and is narrowed by one
    equality test per identifier entry. */
module DataOperations {
  import opened Tables

  /** Every key of the dictionary names a column. */
  predicate KnownKeys(d: Dict, columns: seq<string>) {
    forall k :: 0 <= k < |d| ==> d[k].0 in columns
  }

  lemma MissingIsEmpty(d: Dict, columns: seq<string>)
    ensures Missing(Keys(d), columns) == [] <==> KnownKeys(d, columns)
  {
  }

  /** `row_data` as a row of the table: the given value in each named
      column and a missing value in every other one. */
  function NewRow(columns: seq<string>, rowData: Dict): (row: Row)
    ensures |row| == |columns|
  {
    seq(|columns|, c requires 0 <= c < |columns| => Lookup(rowData, columns[c]).GetOr(Null))
  }

  /** `add_data`: the keys are validated, then one row is appended after
      all existing rows. */
  function AddData(t: Table, rowData: Dict): (r: Result<Table>)
    requires Valid(t)
    ensures Missing(Keys(rowData), t.columns) != [] ==> r == Err(ColumnNotFound(RowData, Missing(Keys(rowData), t.columns)))
    ensures Missing(Keys(rowData), t.columns) == [] ==> r.Ok? && Valid(r.value) && r.value.columns == t.columns
    ensures r.Ok? ==> |r.value.rows| == |t.rows| + 1 && r.value.rows[..|t.rows|] == t.rows
    ensures r.Ok? ==> forall c :: 0 <= c < |t.columns| ==>
                        r.value.rows[|t.rows|][c] == if t.columns[c] in Keys(rowData) then Lookup(rowData, t.columns[c]).value else Null
  {
    var missing := Missing(Keys(rowData), t.columns);
    if missing != [] then Err(ColumnNotFound(RowData, missing))
    else
      var rows := t.rows + [NewRow(t.columns, rowData)];
      assert rows[..|t.rows|] == t.rows;
      Ok(Table(t.columns, rows))
  }

  /** `row[col] == value` for every entry of the identifier; an empty
      identifier selects every row. */
  predicate RowMatches(columns: seq<string>, row: Row, ident: Dict)
    requires |row| == |columns| && KnownKeys(ident, columns)
  {
    forall k :: 0 <= k < |ident| ==> CellEquals(row[IndexOf(columns, ident[k].0)], ident[k].1)
  }

  /** The mask the identifier selects, one entry per row. */
  function MatchMask(t: Table, ident: Dict): (mask: seq<bool>)
    requires WellFormedRows(|t.columns|, t.rows) && KnownKeys(ident, t.columns)
    ensures |mask| == |t.rows|
  {
    seq(|t.rows|, i requires 0 <= i < |t.rows| => RowMatches(t.columns, t.rows[i], ident))
  }

  /** The mask loop: all true, then narrowed by `row[col] == value` for each
      identifier entry in turn. */
  method BuildMask(t: Table, ident: Dict) returns (mask: seq<bool>)
    requires WellFormedRows(|t.columns|, t.rows) && KnownKeys(ident, t.columns)
    ensures mask == MatchMask(t, ident)
    ensures forall i :: 0 <= i < |t.rows| ==>
              (mask[i] <==> forall k :: 0 <= k < |ident| ==> CellEquals(t.rows[i][IndexOf(t.columns, ident[k].0)], ident[k].1))
  {
    mask := seq(|t.rows|, i => true);
    var j := 0;
    while j < |ident|
      invariant 0 <= j <= |ident|
      invariant mask == MatchMask(t, ident[..j])
    {
      var (col, value) := ident[j];
      var c := IndexOf(t.columns, col);
      mask := seq(|t.rows|, i requires 0 <= i < |t.rows| => mask[i] && CellEquals(t.rows[i][c], value));
      j := j + 1;
      assert forall k :: 0 <= k < j ==> ident[..j][k] == ident[k];
    }
    assert ident[..j] == ident;
  }

  /** An empty identifier selects every row. */
  lemma EmptyIdentifierMatchesAll(t: Table)
    requires WellFormedRows(|t.columns|, t.rows)
    ensures forall i :: 0 <= i < |t.rows| ==> MatchMask(t, [])[i]
  {
  }

  /** Only a row whose identifier columns hold values can match: a missing
      value equals nothing. */
  lemma MatchNeedsValues(t: Table, ident: Dict, i: nat)
    requires WellFormedRows(|t.columns|, t.rows) && KnownKeys(ident, t.columns) && i < |t.rows|
    requires MatchMask(t, ident)[i]
    ensures forall k :: 0 <= k < |ident| ==> !t.rows[i][IndexOf(t.columns, ident[k].0)].Null? && !ident[k].1.Null?
  {
    forall k | 0 <= k < |ident|
      ensures !t.rows[i][IndexOf(t.columns, ident[k].0)].Null? && !ident[k].1.Null?
    {
      assert CellEquals(t.rows[i][IndexOf(t.columns, ident[k].0)], ident[k].1);
    }
  }

  /** A row with the updates applied: each updated column takes the value
      last given for it, every other cell is kept. */
  function EditRow(columns: seq<string>, row: Row, upd: Dict): (r: Row)
    requires |row| == |columns|
    ensures |r| == |row|
  {
    seq(|row|, c requires 0 <= c < |row| => Lookup(upd, columns[c]).GetOr(row[c]))
  }

  /** The table with the updates applied to the rows the mask selects. */
  function Edited(t: Table, mask: seq<bool>, upd: Dict): (r: Table)
    requires WellFormedRows(|t.columns|, t.rows) && |mask| == |t.rows|
    ensures r.columns == t.columns && |r.rows| == |t.rows|
  {
    Table(t.columns, seq(|t.rows|, i requires 0 <= i < |t.rows| => if mask[i] then EditRow(t.columns, t.rows[i], upd) else t.rows[i]))
  }

  /** Assigning the next update entry to a row that already holds the
      earlier ones gives the row with all of them. */
  lemma EditRowSnoc(columns: seq<string>, row: Row, upd: Dict, j: nat)
    requires |row| == |columns| && Distinct(columns) && j < |upd| && upd[j].0 in columns
    ensures EditRow(columns, row, upd[..j + 1]) == EditRow(columns, row, upd[..j])[IndexOf(columns, upd[j].0) := upd[j].1]
  {
    var c0 := IndexOf(columns, upd[j].0);
    var after := EditRow(columns, row, upd[..j + 1]);
    var before := EditRow(columns, row, upd[..j])[c0 := upd[j].1];
    forall c | 0 <= c < |row|
      ensures after[c] == before[c]
    {
      LookupSnoc(upd, j, columns[c]);
    }
  }

  /** `edit_data`: identifier keys are validated, then update keys; a
      selection that is empty fails; otherwise every selected row gets every
      update, field by field, in the order the updates are given. */
  method EditData(t: Table, ident: Dict, upd: Dict) returns (r: Result<Table>)
    requires Valid(t)
    ensures Missing(Keys(ident), t.columns) != [] ==> r == Err(ColumnNotFound(Identifier, Missing(Keys(ident), t.columns)))
    ensures Missing(Keys(ident), t.columns) == [] && Missing(Keys(upd), t.columns) != [] ==>
              r == Err(ColumnNotFound(Update, Missing(Keys(upd), t.columns)))
    ensures Missing(Keys(ident), t.columns) == [] && Missing(Keys(upd), t.columns) == [] ==>
              if forall i :: 0 <= i < |t.rows| ==> !MatchMask(t, ident)[i] then r == Err(RowNotFound)
              else r == Ok(Edited(t, MatchMask(t, ident), upd))
  {
    var missing := Missing(Keys(ident), t.columns);
    if missing != [] {
      return Err(ColumnNotFound(Identifier, missing));
    }
    missing := Missing(Keys(upd), t.columns);
    if missing != [] {
      return Err(ColumnNotFound(Update, missing));
    }
    var mask := BuildMask(t, ident);
    if !exists i | 0 <= i < |mask| :: mask[i] {
      return Err(RowNotFound);
    }
    var rows := ApplyUpdates(t, mask, upd);
    return Ok(Table(t.columns, rows));
  }

  /** The update loop: for each update entry in turn, the field is assigned
      in every selected row. */
  method ApplyUpdates(t: Table, mask: seq<bool>, upd: Dict) returns (rows: seq<Row>)
    requires Valid(t) && |mask| == |t.rows| && KnownKeys(upd, t.columns)
    ensures Table(t.columns, rows) == Edited(t, mask, upd)
  {
    rows := t.rows;
    var j := 0;
    while j < |upd|
      invariant 0 <= j <= |upd|
      invariant |rows| == |t.rows|
      invariant forall i :: 0 <= i < |rows| ==> rows[i] == if mask[i] then EditRow(t.columns, t.rows[i], upd[..j]) else t.rows[i]
    {
      var (field, value) := upd[j];
      var c := IndexOf(t.columns, field);
      forall i | 0 <= i < |rows| && mask[i] {
        EditRowSnoc(t.columns, t.rows[i], upd, j);
      }
      rows := seq(|rows|, i requires 0 <= i < |rows| => if mask[i] then rows[i][c := value] else rows[i]);
      j := j + 1;
    }
    assert upd[..j] == upd;
    assert rows == Edited(t, mask, upd).rows;
  }

  /** What an edit does to each cell: a selected row's updated column holds
      the last value given for it, every other cell is unchanged. */
  lemma EditedCells(t: Table, mask: seq<bool>, upd: Dict, i: nat, c: nat)
    requires Valid(t) && |mask| == |t.rows| && i < |t.rows| && c < |t.columns|
    ensures Valid(Edited(t, mask, upd))
    ensures Edited(t, mask, upd).rows[i][c]
            == if mask[i] && t.columns[c] in Keys(upd) then Lookup(upd, t.columns[c]).value else t.rows[i][c]
  {
  }

  /** When no update touches an identifier column, the edited rows are still
      selected, so running the same edit again changes nothing. */
  lemma {:induction false} EditIdempotent(t: Table, ident: Dict, upd: Dict)
    requires Valid(t) && KnownKeys(ident, t.columns) && KnownKeys(upd, t.columns)
    requires forall k :: 0 <= k < |ident| ==> ident[k].0 !in Keys(upd)
    ensures MatchMask(Edited(t, MatchMask(t, ident), upd), ident) == MatchMask(t, ident)
    ensures Edited(Edited(t, MatchMask(t, ident), upd), MatchMask(t, ident), upd) == Edited(t, MatchMask(t, ident), upd)
  {
    var mask := MatchMask(t, ident);
    var e := Edited(t, mask, upd);
    forall i | 0 <= i < |t.rows|
      ensures MatchMask(e, ident)[i] == mask[i]
    {
      forall k | 0 <= k < |ident|
        ensures e.rows[i][IndexOf(t.columns, ident[k].0)] == t.rows[i][IndexOf(t.columns, ident[k].0)]
      {
        EditedCells(t, mask, upd, i, IndexOf(t.columns, ident[k].0));
      }
    }
    forall i | 0 <= i < |t.rows|
      ensures Edited(e, mask, upd).rows[i] == e.rows[i]
    {
      if mask[i] {
        forall c | 0 <= c < |t.columns|
          ensures Edited(e, mask, upd).rows[i][c] == e.rows[i][c]
        {
          EditedCells(t, mask, upd, i, c);
          EditedCells(e, mask, upd, i, c);
        }
      }
    }
  }

  /** `rows[keep]`: the rows whose mask entry is true, in their order. */
  function Keep(rows: seq<Row>, keep: seq<bool>): (r: seq<Row>)
    requires |keep| == |rows|
    ensures |r| <= |rows|
    ensures forall x :: x in r ==> exists i :: 0 <= i < |rows| && keep[i] && rows[i] == x
    decreases |rows|
  {
    if rows == [] then []
    else
      var n := |rows| - 1;
      Keep(rows[..n], keep[..n]) + if keep[n] then [rows[n]] else []
  }

  /** Every row the mask keeps is in the result. */
  lemma {:induction false} KeepKeeps(rows: seq<Row>, keep: seq<bool>, i: nat)
    requires |keep| == |rows| && i < |rows| && keep[i]
    ensures rows[i] in Keep(rows, keep)
    decreases |rows|
  {
    var n := |rows| - 1;
    if i < n {
      KeepKeeps(rows[..n], keep[..n], i);
    }
  }

  function Not(mask: seq<bool>): (r: seq<bool>)
    ensures |r| == |mask| && forall i :: 0 <= i < |mask| ==> r[i] == !mask[i]
  {
    seq(|mask|, i requires 0 <= i < |mask| => !mask[i])
  }

  /** The rows a mask keeps and the rows its negation keeps are, together,
      exactly the original rows. */
  lemma {:induction false} KeepSplits(rows: seq<Row>, keep: seq<bool>)
    requires |keep| == |rows|
    ensures multiset(Keep(rows, keep)) + multiset(Keep(rows, Not(keep))) == multiset(rows)
    ensures |Keep(rows, keep)| + |Keep(rows, Not(keep))| == |rows|
    decreases |rows|
  {
    if rows != [] {
      var n := |rows| - 1;
      KeepSplits(rows[..n], keep[..n]);
      assert Not(keep)[..n] == Not(keep[..n]);
      assert rows == rows[..n] + [rows[n]];
    }
  }

  /** `delete_data`: identifier keys are validated; a selection that is
      empty fails; otherwise the result holds the rows not selected. */
  method DeleteData(t: Table, ident: Dict) returns (r: Result<Table>)
    requires Valid(t)
    ensures Missing(Keys(ident), t.columns) != [] ==> r == Err(ColumnNotFound(Identifier, Missing(Keys(ident), t.columns)))
    ensures Missing(Keys(ident), t.columns) == [] ==>
              if forall i :: 0 <= i < |t.rows| ==> !MatchMask(t, ident)[i] then r == Err(RowNotFound)
              else r == Ok(Table(t.columns, Keep(t.rows, Not(MatchMask(t, ident)))))
  {
    var missing := Missing(Keys(ident), t.columns);
    if missing != [] {
      return Err(ColumnNotFound(Identifier, missing));
    }
    var mask := BuildMask(t, ident);
    if !exists i | 0 <= i < |mask| :: mask[i] {
      return Err(RowNotFound);
    }
    return Ok(Table(t.columns, Keep(t.rows, Not(mask))));
  }

  /** After a deletion no remaining row is selected, and every remaining
      row is a row of the table. */
  lemma DeleteLeavesNoMatch(t: Table, ident: Dict)
    requires Valid(t) && KnownKeys(ident, t.columns)
    ensures var rest := Keep(t.rows, Not(MatchMask(t, ident)));
            Valid(Table(t.columns, rest))
            && forall x :: x in rest ==> !RowMatches(t.columns, x, ident)
  {
    var mask := MatchMask(t, ident);
    var rest := Keep(t.rows, Not(mask));
    forall x | x in rest
      ensures |x| == |t.columns| && !RowMatches(t.columns, x, ident)
    {
      var i :| 0 <= i < |t.rows| && Not(mask)[i] && t.rows[i] == x;
    }
  }

  /** Every row that was not selected survives a deletion, and the deleted
      and remaining rows together are the original rows. */
  lemma DeleteKeepsTheRest(t: Table, ident: Dict)
    requires Valid(t) && KnownKeys(ident, t.columns)
    ensures var rest := Keep(t.rows, Not(MatchMask(t, ident)));
            (forall i :: 0 <= i < |t.rows| && !MatchMask(t, ident)[i] ==> t.rows[i] in rest)
            && multiset(rest) + multiset(Keep(t.rows, MatchMask(t, ident))) == multiset(t.rows)
  {
    var mask := MatchMask(t, ident);
    var rest := Keep(t.rows, Not(mask));
    forall i | 0 <= i < |t.rows| && !mask[i]
      ensures t.rows[i] in rest
    {
      KeepKeeps(t.rows, Not(mask), i);
    }
    KeepSplits(t.rows, mask);
  }

  /** A row added with `add_data` is selected by the same dictionary used
      as an identifier, as long as every value it gives is present. */
  lemma AddedRowMatches(t: Table, rowData: Dict)
    requires Valid(t) && KnownKeys(rowData, t.columns) && Distinct(Keys(rowData))
    requires forall k :: 0 <= k < |rowData| ==> !rowData[k].1.Null?
    ensures AddData(t, rowData).Ok?
    ensures MatchMask(AddData(t, rowData).value, rowData)[|t.rows|]
  {
    var u := AddData(t, rowData).value;
    var row := u.rows[|t.rows|];
    forall k | 0 <= k < |rowData|
      ensures CellEquals(row[IndexOf(t.columns, rowData[k].0)], rowData[k].1)
    {
      var c := IndexOf(t.columns, rowData[k].0);
      LookupDistinct(rowData, k);
      assert row[c] == rowData[k].1;
    }
  }

  /** With distinct keys the binding of a key is its only entry. */
  lemma {:induction false} LookupDistinct(d: Dict, k: nat)
    requires k < |d| && Distinct(Keys(d))
    ensures Lookup(d, d[k].0) == Some(d[k].1)
    decreases |d|
  {
    var n := |d| - 1;
    if k < n {
      assert Keys(d)[n] == d[n].0 && Keys(d)[k] == d[k].0;
      assert Keys(d[..n]) == Keys(d)[..n];
      LookupDistinct(d[..n], k);
    }
  }
}
