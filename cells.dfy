/** Spreadsheet cells as the engine sees them after pandas has loaded the change
    set, the missing-value sentinel test every reconciler applies, and the
    engine's failure cases. */
module Cells {
  import opened Base

  /** One cell of the change set. */
  datatype Cell =
    | Missing                                  // NaN or NaT: `pd.isnull` holds, `str` gives "nan"/"NaT"
    | Str(s: string)                           // a Python string
    | Scalar(text: string, truthy: bool)       // a number or boolean: its `str` and its `bool`
    | Stamp(text: string, formatted: string)   // a timestamp: its `str`, and the `strftime` text written into XML

  /** Why a step raised instead of finishing. */
  datatype Failure =
    | NotOneRow(column: string)        // `.item()` on a selection that is not exactly one row
    | MissingColumn(column: string)    // `KeyError`: the column a template field asks for is absent
    | ElementNotFound(query: string)   // `find` returned None and `.text` was set on it
    | UnreadableTemplate(name: string) // the template file did not parse
    | NoTemplateScanned                // `list_xml` read before any template was scanned
    | NoFragment                       // `self.xml_new` read before any fragment was generated
    | AddWithoutParent(tag: string)    // `ET.SubElement(None, tag)` in `xml_add`

  /** Python's `str(cell)`. */
  function Text(c: Cell): string
  {
    match c
    case Missing => "nan"
    case Str(s) => s
    case Scalar(t, _) => t
    case Stamp(t, _) => t
  }

  /** Python's `bool(cell)`: NaN, NaT and timestamps are true, a string is true
      when it is not empty. */
  predicate Truthy(c: Cell)
  {
    match c
    case Missing => true
    case Str(s) => s != ""
    case Scalar(_, b) => b
    case Stamp(_, _) => true
  }

  /** `str(x).lower() in {"nan", "nat"}`. */
  predicate IsSentinel(s: string)
  {
    Lower(s) == "nan" || Lower(s) == "nat"
  }

  /** The cell is read as "no value": its string form is a missing-value sentinel. */
  predicate IsBlank(c: Cell)
  {
    IsSentinel(Text(c))
  }

  /** A variable holding either Python's None or a cell value. */
  type PyValue = Option<Cell>

  /** `bool(v)` for a variable that may hold None. */
  predicate PyTruthy(v: PyValue)
  {
    v.Some? && Truthy(v.value)
  }

  /** `str(v)` for a variable that may hold None. */
  function PyText(v: PyValue): string
  {
    if v.Some? then Text(v.value) else "None"
  }

  /** One row of the change set: the cells by column name. A column the row
      does not mention holds an empty (NaN) cell. */
  type Row = map<string, Cell>

  function CellAt(row: Row, column: string): Cell
  {
    if column in row then row[column] else Missing
  }

  /** `df[column].loc[idx].item()` on the rows selected by an entity reference:
      pandas only returns a scalar when exactly one row is selected. */
  function Item(idx: seq<Row>, column: string): (r: Result<Cell, Failure>)
    ensures r.Ok? <==> |idx| == 1
    ensures r.Ok? ==> r.value == CellAt(idx[0], column)
  {
    if |idx| == 1 then Ok(CellAt(idx[0], column)) else Err(NotOneRow(column))
  }

  /** `s` is "nan" or "nat" in any mix of upper- and lower-case letters. */
  predicate SentinelSpelling(s: string)
  {
    |s| == 3 && (s[0] == 'n' || s[0] == 'N') && (s[1] == 'a' || s[1] == 'A') &&
    (s[2] == 'n' || s[2] == 'N' || s[2] == 't' || s[2] == 'T')
  }

  /** A cell reads as blank exactly when its string form spells "nan" or
      "nat" in any case; a missing cell always does, an empty string never. */
  lemma BlankCells(c: Cell)
    ensures IsBlank(c) <==> SentinelSpelling(Text(c))
    ensures c.Missing? ==> IsBlank(c)
    ensures c == Str("") ==> !IsBlank(c)
  {
    var s := Text(c);
    if |s| == 3 {
      assert Lower(s) == [LowerChar(s[0]), LowerChar(s[1]), LowerChar(s[2])] by {
        var t := s[1..];
        assert t == [s[1], s[2]] && t[1..] == [s[2]] && t[1..][1..] == [];
        assert Lower(t[1..]) == [LowerChar(s[2])];
        assert Lower(t) == [LowerChar(s[1]), LowerChar(s[2])];
      }
    }
  }
}
