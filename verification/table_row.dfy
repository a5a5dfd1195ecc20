/** The pure computations of one rendered table row: the edit requests its
    two buttons issue, its variance, and the rows rendered beneath it. */
module TableRow {
  import opened Wrappers
  import opened Rows

  /** A call `updateRow(id, newValue, parentPath)` issued by a row. */
  datatype EditRequest = EditRequest(id: string, newValue: real, parentPath: seq<string>)

  /** The effect of pressing a button: the request issued, if any, and the
      text left in the row's input box. */
  datatype Submission = Submission(request: Option<EditRequest>, inputValue: string)

  /** The value requested by an increase of `percentage` per cent. */
  function PercentageTarget(value: real, percentage: real): (r: real)
    ensures r == value * (1.0 + percentage / 100.0)
    ensures percentage == 0.0 ==> r == value
    ensures percentage == -100.0 ==> r == 0.0
  {
    var increaseAmount := value * (percentage / 100.0);
    value + increaseAmount
  }

  /** The "Allocation %" button. `parse` stands for `parseFloat`, with `None`
      for a result that is not a number. */
  function HandleAllocationPercentage(row: Row, parentPath: seq<string>, inputValue: string,
                                      parse: string -> Option<real>): (s: Submission)
    ensures s.request.Some? <==> inputValue != "" && parse(inputValue).Some?
    ensures s.request.None? ==> s.inputValue == inputValue
    ensures s.request.Some? ==> s.inputValue == ""
    ensures s.request.Some? ==>
      s.request.value == EditRequest(row.id, row.value * (1.0 + parse(inputValue).value / 100.0), parentPath)
  {
    if inputValue == "" then Submission(None, inputValue)
    else
      match parse(inputValue)
      case None => Submission(None, inputValue)
      case Some(percentage) =>
        Submission(Some(EditRequest(row.id, PercentageTarget(row.value, percentage), parentPath)), "")
  }

  /** The "Allocation Val" button: the typed number is requested as it is. */
  function HandleAllocationValue(row: Row, parentPath: seq<string>, inputValue: string,
                                 parse: string -> Option<real>): (s: Submission)
    ensures s.request.Some? <==> inputValue != "" && parse(inputValue).Some?
    ensures s.request.None? ==> s.inputValue == inputValue
    ensures s.request.Some? ==> s.inputValue == ""
    ensures s.request.Some? ==> s.request.value == EditRequest(row.id, parse(inputValue).value, parentPath)
  {
    if inputValue == "" then Submission(None, inputValue)
    else
      match parse(inputValue)
      case None => Submission(None, inputValue)
      case Some(newValue) => Submission(Some(EditRequest(row.id, newValue, parentPath)), "")
  }

  /** Percentage difference of a current value from its original value; the
      division is unguarded, so a zero original value is excluded. */
  function Variance(value: real, originalValue: real): (v: real)
    requires originalValue != 0.0
    ensures v == 0.0 <==> value == originalValue
    ensures value == originalValue * (1.0 + v / 100.0)
  {
    (value - originalValue) / originalValue * 100.0
  }

  /** The variance shown in a row's last column. */
  function RowVariance(row: Row): real
    requires row.originalValue != 0.0
  {
    Variance(row.value, row.originalValue)
  }

  /** One rendered row: the row with the `level` and `parentPath` it was
      given. */
  datatype RowView = RowView(row: Row, level: nat, parentPath: seq<string>)

  /** The path a row hands to each of its children. */
  function CurrentPath(row: Row, parentPath: seq<string>): seq<string>
  {
    parentPath + [row.id]
  }

  /** A row followed by the rows rendered for its children, one level
      deeper and under the current path. */
  function RenderRow(row: Row, level: nat, parentPath: seq<string>): seq<RowView>
    decreases row, 1
  {
    [RowView(row, level, parentPath)]
      + RenderSiblings(row.children, 0, level + 1, CurrentPath(row, parentPath))
  }

  /** The rows rendered for `rows[i..]`, in order. */
  function RenderSiblings(rows: seq<Row>, i: nat, level: nat, parentPath: seq<string>): seq<RowView>
    requires i <= |rows|
    decreases rows, 0, |rows| - i
  {
    if i == |rows| then []
    else RenderRow(rows[i], level, parentPath) + RenderSiblings(rows, i + 1, level, parentPath)
  }

  /** A row's path is as long as its level: rows are rendered one level
      deeper and one id longer than their parent, starting from a level that
      matches the path it is given. */
  lemma {:induction false} RenderLevels(rows: seq<Row>, i: nat, level: nat, parentPath: seq<string>)
    requires i <= |rows| && |parentPath| == level
    ensures forall v :: v in RenderSiblings(rows, i, level, parentPath) ==>
      |v.parentPath| == v.level && v.level >= level
    decreases rows, |rows| - i
  {
    if i < |rows| {
      RenderLevels(rows[i].children, 0, level + 1, CurrentPath(rows[i], parentPath));
      RenderLevels(rows, i + 1, level, parentPath);
    }
  }
}
