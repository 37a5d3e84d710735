/** The tables around the remote spreadsheet: the data frame built from
    the sheet's values, the frame built from the result rows, the column of
    entities the user selects, and the body written back to a new sheet. */
module Tables {
  import opened Strings
  import opened Rows

  /** A cell of a data frame: pandas' missing value, or a value. */
  type Cell = Option<Value>

  /** A data frame: column labels (repeats allowed, as in pandas) and rows
      of cells. */
  datatype Frame = Frame(columns: seq<string>, rows: seq<seq<Cell>>)

  /** Every row has one cell per column. */
  ghost predicate Rectangular(f: Frame) {
    forall r <- f.rows :: |r| == |f.columns|
  }

  // ---------------------------------------------------------------------
  // Loading the sheet's values

  /** What `values().get(...).execute()` gives back: an exception, or a
      response whose 'values' entry may be absent. */
  datatype SheetReply = SheetError(message: string) | SheetValues(values: Option<seq<seq<string>>>)

  /** Why loading failed: the API call raised, or pandas refused the rows
      because the longest row is not as wide as the header. */
  datatype LoadError = ApiFailure(message: string) | WidthMismatch(columns: nat, width: nat)

  datatype LoadOutcome =
    | LoadFailed(error: LoadError)  // "Failed to retrieve data. Error: ..."
    | NoData                        // "No data found in the Google Sheet."
    | Loaded(frame: Frame)          // "Data successfully loaded from Google Sheet!"

  /** The length of the longest row (0 when there is none). */
  function MaxWidth(rows: seq<seq<string>>): (w: nat)
    ensures forall r <- rows :: |r| <= w
    ensures rows != [] ==> exists r <- rows :: |r| == w
    ensures rows == [] ==> w == 0
  {
    if rows == [] then 0
    else
      var w := MaxWidth(rows[1..]);
      assert forall r <- rows[1..] :: r in rows;
      if |rows[0]| > w then |rows[0]| else w
  }

  /** One sheet row as frame cells, padded with missing values up to
      `width`, as pandas pads the shorter rows of a list of lists. */
  function PadRow(row: seq<string>, width: nat): (r: seq<Cell>)
    requires |row| <= width
    ensures |r| == width
  {
    seq(width, j requires 0 <= j < width => if j < |row| then Some(Text(row[j])) else None)
  }

  /** `pd.DataFrame(values[1:], columns=values[0])` behind the checks on
      the response: an absent or empty 'values' is "no data"; the header
      is the first row and the remaining rows are the data. */
  function LoadFromSheet(reply: SheetReply): (r: LoadOutcome)
    ensures r.NoData? <==> reply.SheetValues? && (reply.values.None? || reply.values.value == [])
    ensures reply.SheetError? <==> r.LoadFailed? && r.error.ApiFailure?
    ensures reply.SheetError? ==> r == LoadFailed(ApiFailure(reply.message))
    ensures r.Loaded? ==>
      && reply.SheetValues? && reply.values.Some? && reply.values.value != []
      && r.frame.columns == reply.values.value[0]
      && |r.frame.rows| == |reply.values.value| - 1
      && Rectangular(r.frame)
    ensures r.Loaded? ==> forall i, j :: 0 <= i < |r.frame.rows| && 0 <= j < |r.frame.columns| ==>
      r.frame.rows[i][j] == if j < |reply.values.value[i + 1]| then Some(Text(reply.values.value[i + 1][j])) else None
    ensures r.LoadFailed? && reply.SheetValues? ==>
      exists row <- reply.values.value[1..] :: |row| != |reply.values.value[0]|
    ensures reply.SheetValues? && reply.values.Some? && |reply.values.value| > 1 ==>
      (r.LoadFailed? <==> MaxWidth(reply.values.value[1..]) != |reply.values.value[0]|)
  {
    match reply
    case SheetError(message) => LoadFailed(ApiFailure(message))
    case SheetValues(None) => NoData
    case SheetValues(Some(values)) =>
      if values == [] then NoData
      else
        var header, body := values[0], values[1..];
        var width := MaxWidth(body);
        if body != [] && width != |header| then LoadFailed(WidthMismatch(|header|, width))
        else Loaded(Frame(header, seq(|body|, i requires 0 <= i < |body| => PadRow(body[i], |header|))))
  }

  // ---------------------------------------------------------------------
  // Export body

  /** The header row as cells. */
  function HeaderCells(columns: seq<string>): (r: seq<Cell>)
    ensures |r| == |columns|
  {
    seq(|columns|, j requires 0 <= j < |columns| => Some(Text(columns[j])))
  }

  /** `[data.columns.tolist()] + data.values.tolist()`. */
  function ExportBody(f: Frame): (body: seq<seq<Cell>>)
    ensures |body| == |f.rows| + 1
    ensures body[1..] == f.rows
    ensures |body[0]| == |f.columns|
    ensures forall j :: 0 <= j < |f.columns| ==> body[0][j] == Some(Text(f.columns[j]))
  {
    [HeaderCells(f.columns)] + f.rows
  }

  /** Sheet values as cells, every one present. */
  function LiftValues(values: seq<seq<string>>): seq<seq<Cell>> {
    seq(|values|, i requires 0 <= i < |values| => HeaderCells(values[i]))
  }

  /** Loading a sheet whose rows are all as wide as its header and writing
      the frame back gives the sheet's values again. */
  lemma LoadThenExport(values: seq<seq<string>>)
    requires values != []
    requires forall row <- values[1..] :: |row| == |values[0]|
    ensures LoadFromSheet(SheetValues(Some(values))).Loaded?
    ensures ExportBody(LoadFromSheet(SheetValues(Some(values))).frame) == LiftValues(values)
  {
    var body := values[1..];
    if body != [] {
      var w := MaxWidth(body);
      var r :| r in body && |r| == w;
    }
    var f := LoadFromSheet(SheetValues(Some(values))).frame;
    var out := ExportBody(f);
    assert |out| == |values|;
    forall i | 0 <= i < |values| ensures out[i] == LiftValues(values)[i] {
      if i > 0 {
        assert values[i] in body by { assert body[i - 1] == values[i]; }
        assert out[i] == f.rows[i - 1];
      }
    }
  }

  /** Every cell of a loaded frame is missing or text. */
  lemma LoadedCellsAreText(reply: SheetReply)
    requires LoadFromSheet(reply).Loaded?
    ensures forall row <- LoadFromSheet(reply).frame.rows, c <- row :: c.None? || c.value.Text?
  {
    var f := LoadFromSheet(reply).frame;
    forall row <- f.rows, c <- row ensures c.None? || c.value.Text? {
      var i :| 0 <= i < |f.rows| && f.rows[i] == row;
      var j :| 0 <= j < |row| && row[j] == c;
    }
  }

  // ---------------------------------------------------------------------
  // Writing to a new sheet

  datatype SheetRequest =
    | AddSheet(title: string)
    | WriteValues(range: string, inputOption: string, body: seq<seq<Cell>>)

  datatype ExportOutcome =
    | NoCredentials                            // "No credentials available ..."
    | EmptySheetName                           // "Sheet name cannot be empty."
    | ExportFailed(attempted: seq<SheetRequest>) // "An error occurred while exporting ..."
    | Exported(attempted: seq<SheetRequest>)     // "Data successfully exported ..."

  /** `export_to_google_sheet`: the requests it sends and how it ends;
      `addFails` and `writeFails` say whether the API raises on each call. */
  function ExportToSheet(hasCredentials: bool, sheetName: string, f: Frame,
                         addFails: bool, writeFails: bool): (r: ExportOutcome)
    ensures r == NoCredentials <==> !hasCredentials
    ensures r == EmptySheetName <==> hasCredentials && sheetName == ""
    ensures (r.ExportFailed? || r.Exported?) ==>
      && |r.attempted| >= 1
      && r.attempted[0] == AddSheet(sheetName)
      && |r.attempted| == (if addFails then 1 else 2)
      && (|r.attempted| == 2 ==> r.attempted[1] == WriteValues(sheetName + "!A1", "USER_ENTERED", ExportBody(f)))
    ensures r.Exported? <==> hasCredentials && sheetName != "" && !addFails && !writeFails
  {
    if !hasCredentials then NoCredentials
    else if sheetName == "" then EmptySheetName
    else
      var add := AddSheet(sheetName);
      if addFails then ExportFailed([add])
      else
        var sent := [add, WriteValues(sheetName + "!A1", "USER_ENTERED", ExportBody(f))];
        if writeFails then ExportFailed(sent) else Exported(sent)
  }

  // ---------------------------------------------------------------------
  // The frame of result rows

  /** The columns of `pd.DataFrame(list_of_dicts)` after the columns `acc`
      already seen: each row's keys that are new, in order. */
  function ColumnsFrom(rows: seq<Dict>, acc: seq<string>): (cols: seq<string>)
    requires forall d <- rows :: Valid(d)
    requires Distinct(acc)
    ensures Distinct(cols)
    ensures |cols| >= |acc| && cols[..|acc|] == acc
    ensures forall k :: k in cols <==> k in acc || exists d <- rows :: k in d.keys
    decreases |rows|
  {
    if rows == [] then acc
    else
      assert rows[0] in rows;
      assert Valid(rows[0]);
      var added := NewKeys(rows[0].keys, acc);
      assert Distinct(added);
      DistinctConcat(acc, added);
      var cols := ColumnsFrom(rows[1..], acc + added);
      assert (acc + added)[..|acc|] == acc;
      assert forall d <- rows[1..] :: d in rows;
      assert forall k :: (exists d <- rows :: k in d.keys) <==>
        k in rows[0].keys || exists d <- rows[1..] :: k in d.keys by {
        assert forall d <- rows :: d == rows[0] || d in rows[1..];
      }
      cols
  }

  /** The columns of the frame of result rows: every key of every row,
      each once, in the order of first appearance. */
  function ColumnsOf(rows: seq<Dict>): (cols: seq<string>)
    requires forall d <- rows :: Valid(d)
    ensures Distinct(cols)
    ensures forall k :: k in cols <==> exists d <- rows :: k in d.keys
  {
    ColumnsFrom(rows, [])
  }

  /** Every row's keys, row after row, repeats kept. */
  function AllKeys(rows: seq<Dict>): seq<string>
    decreases |rows|
  {
    if rows == [] then [] else rows[0].keys + AllKeys(rows[1..])
  }

  /** The columns after `acc` are the keys of the rows at their first
      appearance, reading the rows in order and each row's keys in order. */
  lemma {:induction false} ColumnsFromFirstAppearance(rows: seq<Dict>, acc: seq<string>)
    requires forall d <- rows :: Valid(d)
    requires Distinct(acc)
    ensures ColumnsFrom(rows, acc) == Dedup(acc + AllKeys(rows))
    decreases |rows|
  {
    if rows == [] {
      assert acc + [] == acc;
      DedupDistinct(acc);
    } else {
      var first, tail := rows[0], rows[1..];
      assert first in rows && Valid(first);
      var added := NewKeys(first.keys, acc);
      DistinctConcat(acc, added);
      assert forall d <- tail :: d in rows;
      assert ColumnsFrom(rows, acc) == ColumnsFrom(tail, acc + added);
      ColumnsFromFirstAppearance(tail, acc + added);
      DedupKeepsNew(acc, first.keys, AllKeys(tail));
      assert AllKeys(rows) == first.keys + AllKeys(tail);
      AppendAssoc(acc, first.keys, AllKeys(tail));
    }
  }

  /** `pd.DataFrame(list_of_dicts)` takes its columns in order of first
      appearance over all rows. */
  lemma ColumnsOfFirstAppearance(rows: seq<Dict>)
    requires forall d <- rows :: Valid(d)
    ensures ColumnsOf(rows) == Dedup(AllKeys(rows))
  {
    ColumnsFromFirstAppearance(rows, []);
    assert [] + AllKeys(rows) == AllKeys(rows);
  }

  /** `pd.DataFrame(results)`: one row per dictionary, a missing value
      where a dictionary lacks a column. */
  function ToFrame(rows: seq<Dict>): (f: Frame)
    requires forall d <- rows :: Valid(d)
    ensures f.columns == ColumnsOf(rows)
    ensures |f.rows| == |rows|
    ensures Rectangular(f)
  {
    var cols := ColumnsOf(rows);
    Frame(cols, seq(|rows|, i requires 0 <= i < |rows| =>
                      seq(|cols|, j requires 0 <= j < |cols| => Get(rows[i], cols[j]))))
  }

  /** The first row's keys are the first columns, in their order. */
  lemma {:induction false} FirstRowLeads(rows: seq<Dict>)
    requires forall d <- rows :: Valid(d)
    requires rows != []
    ensures |ColumnsOf(rows)| >= |rows[0].keys|
    ensures ColumnsOf(rows)[..|rows[0].keys|] == rows[0].keys
  {
    var first, tail := rows[0], rows[1..];
    assert first in rows && Valid(first);
    assert NewKeys(first.keys, []) == first.keys;
    assert [] + first.keys == first.keys;
    assert forall d <- tail :: d in rows;
    assert ColumnsOf(rows) == ColumnsFrom(tail, first.keys);
  }

  /** A cell of the frame of result rows is that row's value for that
      column. */
  lemma CellOfFrame(rows: seq<Dict>, i: nat, j: nat)
    requires forall d <- rows :: Valid(d)
    requires i < |rows| && j < |ColumnsOf(rows)|
    ensures ToFrame(rows).rows[i][j] == Get(rows[i], ColumnsOf(rows)[j])
  {
  }

  /** The frame loses nothing: every field of every row has a column,
      and the row's cell in that column holds the field's value. */
  lemma ToFrameKeepsFields(rows: seq<Dict>, i: nat, k: string)
    requires forall d <- rows :: Valid(d)
    requires i < |rows|
    requires k in rows[i].vals
    ensures k in ColumnsOf(rows)
    ensures forall j :: 0 <= j < |ColumnsOf(rows)| && ColumnsOf(rows)[j] == k ==>
      ToFrame(rows).rows[i][j] == Some(rows[i].vals[k])
  {
    assert rows[i] in rows;
  }

  /** The frame invents nothing: a cell is missing exactly where its row
      lacks the column's key. */
  lemma ToFrameMissing(rows: seq<Dict>, i: nat, j: nat)
    requires forall d <- rows :: Valid(d)
    requires i < |rows| && j < |ColumnsOf(rows)|
    ensures ToFrame(rows).rows[i][j].None? <==> ColumnsOf(rows)[j] !in rows[i].keys
  {
    assert rows[i] in rows;
  }

  // ---------------------------------------------------------------------
  // Selecting the entities

  /** The left-most position of `name` among the columns. */
  function IndexOf(cols: seq<string>, name: string): (r: Option<nat>)
    ensures r.Some? ==> r.value < |cols| && cols[r.value] == name && name !in cols[..r.value]
    ensures r.None? <==> name !in cols
  {
    if cols == [] then None
    else if cols[0] == name then Some(0)
    else match IndexOf(cols[1..], name)
      case None => None
      case Some(j) =>
        assert cols[..j + 1] == [cols[0]] + cols[1..][..j];
        Some(j + 1)
  }

  /** `data[name]` as a series: the cells of the one column labelled
      `name`. An absent label raises `KeyError`; a repeated label gives a
      frame, which has no `tolist`, so the selection fails then too. */
  function SelectColumn(f: Frame, name: string): (r: Option<seq<Cell>>)
    requires Rectangular(f)
    ensures r.Some? <==> exists j :: 0 <= j < |f.columns| && f.columns[j] == name
                             && forall j' :: 0 <= j' < |f.columns| && f.columns[j'] == name ==> j' == j
    ensures r.Some? ==> |r.value| == |f.rows|
    ensures r.Some? ==> forall i, j :: 0 <= i < |f.rows| && 0 <= j < |f.columns| && f.columns[j] == name ==>
                                         r.value[i] == f.rows[i][j]
  {
    match IndexOf(f.columns, name)
    case None => None
    case Some(j) =>
      if name in f.columns[j + 1..] then
        var t :| 0 <= t < |f.columns[j + 1..]| && f.columns[j + 1..][t] == name;
        assert f.columns[j + 1 + t] == name;
        None
      else
        assert forall j' :: 0 <= j' < |f.columns| && f.columns[j'] == name ==> j' == j by {
          assert forall t :: 0 <= t < j ==> f.columns[..j][t] == f.columns[t];
          assert forall t :: j + 1 <= t < |f.columns| ==> f.columns[j + 1..][t - j - 1] == f.columns[t];
        }
        Some(seq(|f.rows|, i requires 0 <= i < |f.rows| => assert f.rows[i] in f.rows; f.rows[i][j]))
  }

  /** In a frame whose labels do not repeat, selecting a label gives the
      cells of its column. */
  lemma SelectDistinctColumn(f: Frame, j: nat)
    requires Rectangular(f) && Distinct(f.columns)
    requires j < |f.columns|
    ensures SelectColumn(f, f.columns[j]).Some?
    ensures forall i :: 0 <= i < |f.rows| ==> SelectColumn(f, f.columns[j]).value[i] == f.rows[i][j]
  {
    assert forall i :: 0 <= i < |f.rows| ==> f.rows[i] in f.rows;
  }

  /** `series.dropna().tolist()`: the present values, in order, repeats
      kept. */
  function DropNulls(cells: seq<Cell>): (vs: seq<Value>)
    ensures |vs| <= |cells|
    ensures forall v <- vs :: Some(v) in cells
  {
    if cells == [] then []
    else
      var rest := DropNulls(cells[1..]);
      assert forall c <- cells[1..] :: c in cells;
      match cells[0]
      case None => rest
      case Some(v) => [v] + rest
  }

  /** Dropping nulls works piece by piece: what survives of a column is
      what survives of its first part followed by what survives of the
      rest, so the order of the entities is kept. */
  lemma {:induction false} DropNullsAppend(a: seq<Cell>, b: seq<Cell>)
    ensures DropNulls(a + b) == DropNulls(a) + DropNulls(b)
    decreases |a|
  {
    if a != [] {
      assert (a + b)[1..] == a[1..] + b;
      DropNullsAppend(a[1..], b);
    } else {
      assert a + b == b;
    }
  }

  /** A column without missing cells loses nothing: every entity is kept,
      duplicates included. */
  lemma {:induction false} DropNullsKeepsPresent(cells: seq<Cell>)
    requires forall c <- cells :: c.Some?
    ensures |DropNulls(cells)| == |cells|
    ensures forall t :: 0 <= t < |cells| ==> DropNulls(cells)[t] == cells[t].value
    decreases |cells|
  {
    if cells != [] {
      assert cells[0] in cells;
      assert forall c <- cells[1..] :: c in cells;
      DropNullsKeepsPresent(cells[1..]);
    }
  }

  /** The number of values that survive is the number of present cells. */
  function PresentCount(cells: seq<Cell>): (n: nat)
    ensures n <= |cells|
  {
    if cells == [] then 0 else (if cells[0].Some? then 1 else 0) + PresentCount(cells[1..])
  }

  lemma {:induction false} DropNullsCount(cells: seq<Cell>)
    ensures |DropNulls(cells)| == PresentCount(cells)
    decreases |cells|
  {
    if cells != [] {
      DropNullsCount(cells[1..]);
    }
  }

  /** The entities of `data[name].dropna().tolist()`. */
  function SelectEntities(f: Frame, name: string): (r: Option<seq<Value>>)
    requires Rectangular(f)
    ensures r.Some? <==> SelectColumn(f, name).Some?
    ensures r.Some? ==> r.value == DropNulls(SelectColumn(f, name).value)
  {
    match SelectColumn(f, name)
    case None => None
    case Some(cells) => Some(DropNulls(cells))
  }
}
