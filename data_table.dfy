/**
 * The schema-driven grid editor: what it renders from `columns` and `data`,
 * and the order of the focusable controls that keyboard navigation walks.
 * A record is seen as its identifier plus the map from column key to value
 * (`row[column.key]`).
 */
module DataTable {
  import opened Wrappers
  import opened Values
  import KeyboardNavigation

  datatype Kind = TextKind | NumberKind | DateKind | SelectKind

  datatype Column = Column(key: string, labelText: string, width: Option<string>, kind: Option<Kind>,
                           options: Option<seq<string>>, required: bool)

  datatype Row = Row(id: string, cells: map<string, Value>)

  /** The `onChange` target of a cell: `handleCellChange(row.id, column.key, e.target.value)`. */
  datatype Binding = Binding(rowId: string, field: string)

  datatype Choice = Choice(value: string, text: string)

  datatype Cell =
    | SelectCell(cellId: string, value: Value, choices: seq<Choice>, binding: Binding)
    | InputCell(cellId: string, inputType: string, value: Value, placeholder: string, binding: Binding)

  /** One body row: the row number, one control per column, and the edit and delete buttons' targets. */
  datatype RowView = RowView(number: nat, cells: seq<Cell>, editId: string, deleteId: string)

  datatype Body = Placeholder(colSpan: nat) | DataRows(rows: seq<RowView>)

  /** A cell change as the grid forwards it to its owner. */
  datatype CellEdit = CellEdit(rowId: string, field: string, value: Value)

  function KindName(k: Kind): string {
    match k
    case TextKind => "text"
    case NumberKind => "number"
    case DateKind => "date"
    case SelectKind => "select"
  }

  // ---------------------------------------------------------------------------
  // Decimal rendering of an index, as a template literal prints it

  function DigitChar(d: nat): char
    requires d < 10
  {
    ('0' as int + d) as char
  }

  predicate IsDigit(c: char) {
    '0' <= c <= '9'
  }

  function DigitValue(c: char): nat
    requires IsDigit(c)
  {
    c as int - '0' as int
  }

  /** The decimal numeral of `n`, without leading zeros. */
  function Decimal(n: nat): (s: string)
    ensures |s| >= 1
    ensures forall i :: 0 <= i < |s| ==> IsDigit(s[i])
  {
    if n < 10 then [DigitChar(n)] else Decimal(n / 10) + [DigitChar(n % 10)]
  }

  /** Reads a string of decimal digits back as a number. */
  ghost function ParseDecimal(s: string): nat
    requires forall i :: 0 <= i < |s| ==> IsDigit(s[i])
  {
    if s == [] then 0
    else ParseDecimal(s[..|s| - 1]) * 10 + DigitValue(s[|s| - 1])
  }

  lemma {:induction false} DecimalRoundTrip(n: nat)
    ensures ParseDecimal(Decimal(n)) == n
  {
    if n >= 10 {
      var s := Decimal(n);
      assert s[..|s| - 1] == Decimal(n / 10);
      DecimalRoundTrip(n / 10);
    }
  }

  lemma DecimalInjective(m: nat, n: nat)
    requires Decimal(m) == Decimal(n)
    ensures m == n
  {
    DecimalRoundTrip(m);
    DecimalRoundTrip(n);
  }

  /** `${rowIndex}-${colIndex}` */
  function CellId(rowIndex: nat, colIndex: nat): string {
    Decimal(rowIndex) + "-" + Decimal(colIndex)
  }

  /** The first '-' of `a + "-" + b` is the one after the digits `a`. */
  lemma DashAt(a: string, b: string)
    requires forall i :: 0 <= i < |a| ==> IsDigit(a[i])
    ensures KeyboardNavigation.IndexOf(a + "-" + b, '-') == |a|
  {
    var s := a + "-" + b;
    assert s[|a|] == '-';
    assert forall j :: 0 <= j < |a| ==> s[j] == a[j];
  }

  lemma SplitAtDash(a: string, b: string, a': string, b': string)
    requires forall i :: 0 <= i < |a| ==> IsDigit(a[i])
    requires forall i :: 0 <= i < |a'| ==> IsDigit(a'[i])
    requires a + "-" + b == a' + "-" + b'
    ensures a == a' && b == b'
  {
    var s := a + "-" + b;
    DashAt(a, b);
    DashAt(a', b');
    assert a == s[..|a|] == a';
    assert b == s[|a| + 1..] == b';
  }

  /** Distinct positions get distinct cell ids. */
  lemma CellIdInjective(r1: nat, c1: nat, r2: nat, c2: nat)
    requires CellId(r1, c1) == CellId(r2, c2)
    ensures r1 == r2 && c1 == c2
  {
    SplitAtDash(Decimal(r1), Decimal(c1), Decimal(r2), Decimal(c2));
    DecimalInjective(r1, r2);
    DecimalInjective(c1, c2);
  }

  // ---------------------------------------------------------------------------
  // Cells

  predicate IsUpper(c: char) {
    'A' <= c <= 'Z'
  }

  function LowerChar(c: char): char {
    if IsUpper(c) then (c as int + 32) as char else c
  }

  /** `toLowerCase` on ASCII letters. */
  function ToLower(s: string): (r: string)
    ensures |r| == |s|
    ensures forall i :: 0 <= i < |r| ==> !IsUpper(r[i])
    ensures forall i :: 0 <= i < |s| && !IsUpper(s[i]) ==> r[i] == s[i]
    ensures forall i :: 0 <= i < |s| && IsUpper(s[i]) ==> r[i] as int == s[i] as int + 32
  {
    if s == [] then [] else [LowerChar(s[0])] + ToLower(s[1..])
  }

  /** `row[column.key] || ''`: the stored value, or '' when it is absent or falsy (so 0 shows as empty). */
  function CellValue(row: Row, key: string): (v: Value)
    ensures key in row.cells && !Falsy(row.cells[key]) ==> v == row.cells[key]
    ensures key !in row.cells || Falsy(row.cells[key]) ==> v == Text("")
  {
    if key in row.cells && !Falsy(row.cells[key]) then row.cells[key] else Text("")
  }

  /** A column renders as a drop-down only when it is a select column AND has an options list. */
  predicate IsSelect(c: Column) {
    c.kind == Some(SelectKind) && c.options.Some?
  }

  /** `column.type || 'text'` */
  function InputType(c: Column): string {
    if c.kind.Some? then KindName(c.kind.value) else "text"
  }

  /** The neutral "Select..." choice, then the options in their configured order. */
  function Choices(options: seq<string>): (r: seq<Choice>)
    ensures |r| == |options| + 1
    ensures r[0] == Choice("", "Select...")
    ensures forall i :: 0 <= i < |options| ==> r[i + 1] == Choice(options[i], options[i])
  {
    if options == [] then [Choice("", "Select...")]
    else Choices(options[..|options| - 1]) + [Choice(options[|options| - 1], options[|options| - 1])]
  }

  /** `renderCell(row, column, rowIndex, colIndex)` */
  function RenderCell(row: Row, c: Column, rowIndex: nat, colIndex: nat): (r: Cell)
    ensures r.cellId == CellId(rowIndex, colIndex)
    ensures r.value == CellValue(row, c.key)
    ensures r.binding == Binding(row.id, c.key)
    ensures r.SelectCell? <==> IsSelect(c)
    ensures r.SelectCell? ==> r.choices == Choices(c.options.value)
    ensures r.InputCell? ==> r.inputType == InputType(c) && r.placeholder == "Enter " + ToLower(c.labelText)
  {
    var cellId := CellId(rowIndex, colIndex);
    var value := CellValue(row, c.key);
    if IsSelect(c) then SelectCell(cellId, value, Choices(c.options.value), Binding(row.id, c.key))
    else InputCell(cellId, InputType(c), value, "Enter " + ToLower(c.labelText), Binding(row.id, c.key))
  }

  /** A select column without options falls back to an input whose type is "select". */
  lemma SelectWithoutOptions(row: Row, c: Column, rowIndex: nat, colIndex: nat)
    requires c.kind == Some(SelectKind) && c.options == None
    ensures RenderCell(row, c, rowIndex, colIndex).InputCell?
    ensures RenderCell(row, c, rowIndex, colIndex).inputType == "select"
  {
  }

  /** The change event of a cell forwards the row id, the column key and the new value unchanged. */
  function OnChange(cell: Cell, value: Value): (e: CellEdit)
    ensures e.rowId == cell.binding.rowId && e.field == cell.binding.field && e.value == value
  {
    CellEdit(cell.binding.rowId, cell.binding.field, value)
  }

  // ---------------------------------------------------------------------------
  // Body and footer

  function RenderRow(row: Row, columns: seq<Column>, rowIndex: nat): (v: RowView)
    ensures v.number == rowIndex + 1
    ensures |v.cells| == |columns|
    ensures forall j :: 0 <= j < |columns| ==> v.cells[j] == RenderCell(row, columns[j], rowIndex, j)
    ensures v.editId == row.id && v.deleteId == row.id
  {
    RowView(rowIndex + 1, seq(|columns|, j requires 0 <= j < |columns| => RenderCell(row, columns[j], rowIndex, j)),
            row.id, row.id)
  }

  /** A page's records as the grid sees them: each record's id and its fields, in list order. */
  function Rows<R>(rs: seq<R>, idOf: R -> string, cellsOf: R -> map<string, Value>): (r: seq<Row>)
    ensures |r| == |rs|
    ensures forall i :: 0 <= i < |rs| ==> r[i] == Row(idOf(rs[i]), cellsOf(rs[i]))
  {
    seq(|rs|, i requires 0 <= i < |rs| => Row(idOf(rs[i]), cellsOf(rs[i])))
  }

  /** The table body: the placeholder row when there is no data, else one row per record, in order. */
  function RenderBody(columns: seq<Column>, data: seq<Row>): (b: Body)
    ensures b.Placeholder? <==> |data| == 0
    ensures b.Placeholder? ==> b.colSpan == |columns| + 2
    ensures b.DataRows? ==> |b.rows| == |data|
    ensures b.DataRows? ==> forall k :: 0 <= k < |data| ==> b.rows[k] == RenderRow(data[k], columns, k)
  {
    if |data| == 0 then Placeholder(|columns| + 2)
    else DataRows(seq(|data|, k requires 0 <= k < |data| => RenderRow(data[k], columns, k)))
  }

  /** The footer's "Total Records" figure; no footer at all for an empty grid. */
  function Footer(data: seq<Row>): (f: Option<nat>)
    ensures f.Some? <==> |data| > 0
    ensures f.Some? ==> f.value == |data|
  {
    if |data| > 0 then Some(|data|) else None
  }

  /** Every control of every rendered row is bound to its own record's id and its own column's key. */
  lemma BodyBindings(columns: seq<Column>, data: seq<Row>, k: nat, j: nat)
    requires k < |data| && j < |columns|
    ensures var b := RenderBody(columns, data);
      && b.DataRows?
      && b.rows[k].cells[j].binding == Binding(data[k].id, columns[j].key)
      && b.rows[k].cells[j].cellId == CellId(k, j)
      && b.rows[k].editId == data[k].id && b.rows[k].deleteId == data[k].id
  {
  }

  // ---------------------------------------------------------------------------
  // Focusable controls in document order

  datatype Control =
    | AddRow
    | CellControl(row: nat, col: nat)
    | EditButton(row: nat)
    | DeleteButton(row: nat)
    | PreviousPage
    | NextPage

  /** The tag name keyboard navigation sees for a control. */
  function Tag(columns: seq<Column>, x: Control): (t: string)
    ensures t == "SELECT" <==> x.CellControl? && x.col < |columns| && IsSelect(columns[x.col])
    ensures t == "INPUT" <==> x.CellControl? && !(x.col < |columns| && IsSelect(columns[x.col]))
    ensures t == "BUTTON" <==> !x.CellControl?
  {
    match x
    case CellControl(_, j) => if j < |columns| && IsSelect(columns[j]) then "SELECT" else "INPUT"
    case _ => "BUTTON"
  }

  /** The focusable controls of body row `k`: one per column, then edit and delete. */
  function RowControls(columns: seq<Column>, k: nat): (r: seq<Control>)
    ensures |r| == |columns| + 2
    ensures forall j :: 0 <= j < |columns| ==> r[j] == CellControl(k, j)
    ensures r[|columns|] == EditButton(k) && r[|columns| + 1] == DeleteButton(k)
  {
    seq(|columns|, j requires 0 <= j < |columns| => CellControl(k, j)) + [EditButton(k), DeleteButton(k)]
  }

  function AllRowControls(columns: seq<Column>, n: nat): (r: seq<Control>)
    ensures |r| == n * (|columns| + 2)
  {
    if n == 0 then [] else AllRowControls(columns, n - 1) + RowControls(columns, n - 1)
  }

  /** The container's focusable controls: Add Row, the rows' controls, and the footer's two buttons. */
  function Focusables(columns: seq<Column>, n: nat): (r: seq<Control>)
    ensures |r| == 1 + n * (|columns| + 2) + (if n > 0 then 2 else 0)
    ensures r[0] == AddRow
    ensures n == 0 ==> r == [AddRow]
    ensures n > 0 ==> r[|r| - 2] == PreviousPage && r[|r| - 1] == NextPage
  {
    [AddRow] + AllRowControls(columns, n) + (if n > 0 then [PreviousPage, NextPage] else [])
  }

  /** The focusable controls of the `[data-row]` row enclosing a control, if any. */
  function EnclosingRow(columns: seq<Column>, x: Control): (r: Option<seq<Control>>)
    ensures r.Some? ==> x in r.value
  {
    match x
    case CellControl(k, j) => if j < |columns| then Some(RowControls(columns, k)) else None
    case EditButton(k) => Some(RowControls(columns, k))
    case DeleteButton(k) => Some(RowControls(columns, k))
    case _ => None
  }

  lemma RowControlsDistinct(columns: seq<Column>, k: nat)
    ensures KeyboardNavigation.Distinct(RowControls(columns, k))
  {
  }

  lemma EnclosingRowOf(columns: seq<Column>, k: nat, j: nat)
    requires j < |columns| + 2
    ensures EnclosingRow(columns, RowControls(columns, k)[j]) == Some(RowControls(columns, k))
  {
  }

  /**
   * In the grid, ArrowLeft and ArrowRight walk the controls of the row that
   * holds focus, one at a time, and stop at its first and last control.
   */
  lemma GridRowNavigation(c: KeyboardNavigation.Config, columns: seq<Column>, n: nat, k: nat, j: nat)
    requires c.enabled && k < n && j < |columns| + 2
    ensures var rc := RowControls(columns, k);
      var right := KeyboardNavigation.HandleKeyDown(c, "ArrowRight", Focusables(columns, n), rc[j],
                                                    Tag(columns, rc[j]), EnclosingRow(columns, rc[j]));
      var left := KeyboardNavigation.HandleKeyDown(c, "ArrowLeft", Focusables(columns, n), rc[j],
                                                   Tag(columns, rc[j]), EnclosingRow(columns, rc[j]));
      && right.focus == (if j + 1 < |columns| + 2 then Some(rc[j + 1]) else None)
      && left.focus == (if j > 0 then Some(rc[j - 1]) else None)
  {
    var rc := RowControls(columns, k);
    EnclosingRowOf(columns, k, j);
    RowControlsDistinct(columns, k);
    KeyboardNavigation.RowStepFrom(c.wrap, Focusables(columns, n), rc, j, Tag(columns, rc[j]));
  }

  /** Enter on a row's edit or delete button clicks it instead of moving focus. */
  lemma GridEnterOnButton(c: KeyboardNavigation.Config, columns: seq<Column>, n: nat, k: nat)
    requires c.enabled
    ensures var x := DeleteButton(k);
      KeyboardNavigation.HandleKeyDown(c, "Enter", Focusables(columns, n), x, Tag(columns, x),
                                       EnclosingRow(columns, x)) == KeyboardNavigation.Outcome(None, true, true)
    ensures var x := EditButton(k);
      KeyboardNavigation.HandleKeyDown(c, "Enter", Focusables(columns, n), x, Tag(columns, x),
                                       EnclosingRow(columns, x)) == KeyboardNavigation.Outcome(None, true, true)
  {
  }

  /** On a non-empty grid, Home lands on Add Row and End on the footer's Next button. */
  lemma GridHomeEnd(c: KeyboardNavigation.Config, columns: seq<Column>, n: nat, x: Control)
    requires c.enabled && n > 0
    ensures KeyboardNavigation.HandleKeyDown(c, "Home", Focusables(columns, n), x, Tag(columns, x),
                                             EnclosingRow(columns, x)).focus == Some(AddRow)
    ensures KeyboardNavigation.HandleKeyDown(c, "End", Focusables(columns, n), x, Tag(columns, x),
                                             EnclosingRow(columns, x)).focus == Some(NextPage)
  {
  }

  // ---------------------------------------------------------------------------
  // The grid's controls in reading order

  /** Division by a positive width recovers the block and the offset of `q * w + r`. */
  lemma DivModUnique(q: nat, w: nat, r: nat)
    requires r < w
    ensures (q * w + r) / w == q && (q * w + r) % w == r
  {
    var i := q * w + r;
    var d := i / w - q;
    assert w * (i / w) + i % w == i;
    assert w * d == r - i % w;
  }

  /** Control `i` of the rows' part is control `i % w` of row `i / w`, where `w` is the row width. */
  lemma {:induction false} AllRowControlsAt(columns: seq<Column>, n: nat, i: nat)
    requires i < n * (|columns| + 2)
    ensures AllRowControls(columns, n)[i] == RowControls(columns, i / (|columns| + 2))[i % (|columns| + 2)]
  {
    var w := |columns| + 2;
    var prev := AllRowControls(columns, n - 1);
    assert n * w == (n - 1) * w + w;
    if i < (n - 1) * w {
      AllRowControlsAt(columns, n - 1, i);
    } else {
      DivModUnique(n - 1, w, i - (n - 1) * w);
    }
  }

  /** Row `k`, slot `j` of the rows' part sits at position `k * w + j`. */
  lemma RowControlAt(columns: seq<Column>, n: nat, k: nat, j: nat)
    requires k < n && j < |columns| + 2
    ensures k * (|columns| + 2) + j < n * (|columns| + 2)
    ensures AllRowControls(columns, n)[k * (|columns| + 2) + j] == RowControls(columns, k)[j]
  {
    var w := |columns| + 2;
    assert k * w + j < (k + 1) * w <= n * w;
    DivModUnique(k, w, j);
    AllRowControlsAt(columns, n, k * w + j);
  }

  /** A row control names its row and its slot. */
  lemma RowControlsDetermine(columns: seq<Column>, k1: nat, j1: nat, k2: nat, j2: nat)
    requires j1 < |columns| + 2 && j2 < |columns| + 2
    ensures RowControls(columns, k1)[j1] == RowControls(columns, k2)[j2] ==> k1 == k2 && j1 == j2
  {
  }

  lemma DivModDetermine(i: nat, j: nat, w: nat)
    requires w > 0
    ensures i / w == j / w && i % w == j % w ==> i == j
  {
    assert i == w * (i / w) + i % w;
    assert j == w * (j / w) + j % w;
  }

  /** The rows' part holds no control twice. */
  lemma AllRowControlsDistinct(columns: seq<Column>, n: nat)
    ensures KeyboardNavigation.Distinct(AllRowControls(columns, n))
  {
    var all := AllRowControls(columns, n);
    var w := |columns| + 2;
    forall i, j | 0 <= i < j < |all| ensures all[i] != all[j] {
      AllRowControlsAt(columns, n, i);
      AllRowControlsAt(columns, n, j);
      RowControlsDetermine(columns, i / w, i % w, j / w, j % w);
      DivModDetermine(i, j, w);
    }
  }

  lemma FocusablesDistinct(columns: seq<Column>, n: nat)
    ensures KeyboardNavigation.Distinct(Focusables(columns, n))
  {
    var all := AllRowControls(columns, n);
    AllRowControlsDistinct(columns, n);
    forall i | 0 <= i < |all| ensures all[i].CellControl? || all[i].EditButton? || all[i].DeleteButton? {
      AllRowControlsAt(columns, n, i);
    }
  }

  /** Row `k`, slot `j` is focusable number `1 + k * w + j`; the next one is the next slot, the next row or the footer. */
  lemma FocusableAfter(columns: seq<Column>, n: nat, k: nat, j: nat)
    requires k < n && j < |columns| + 2
    ensures var w := |columns| + 2;
      var f := Focusables(columns, n);
      && 2 + k * w + j < |f|
      && f[1 + k * w + j] == RowControls(columns, k)[j]
      && f[2 + k * w + j] ==
           if j + 1 < w then RowControls(columns, k)[j + 1]
           else if k + 1 < n then RowControls(columns, k + 1)[0]
           else PreviousPage
  {
    var w := |columns| + 2;
    RowControlAt(columns, n, k, j);
    if j + 1 < w {
      RowControlAt(columns, n, k, j + 1);
    } else if k + 1 < n {
      assert k * w + j + 1 == (k + 1) * w + 0;
      RowControlAt(columns, n, k + 1, 0);
    } else {
      assert 1 + k * w + j + 1 == 1 + n * w;
    }
  }

  /**
   * ArrowDown walks the grid in reading order: the next control of the row,
   * then the first control of the next row, and after the last row the
   * footer's Previous button.
   */
  lemma GridArrowDown(c: KeyboardNavigation.Config, columns: seq<Column>, n: nat, k: nat, j: nat)
    requires c.enabled && k < n && j < |columns| + 2
    ensures var x := RowControls(columns, k)[j];
      KeyboardNavigation.HandleKeyDown(c, "ArrowDown", Focusables(columns, n), x, Tag(columns, x),
                                       EnclosingRow(columns, x)).focus ==
        if j + 1 < |columns| + 2 then Some(RowControls(columns, k)[j + 1])
        else if k + 1 < n then Some(RowControls(columns, k + 1)[0])
        else Some(PreviousPage)
  {
    var w := |columns| + 2;
    var f := Focusables(columns, n);
    var x := RowControls(columns, k)[j];
    var i := 1 + k * w + j;
    FocusableAfter(columns, n, k, j);
    FocusablesDistinct(columns, n);
    KeyboardNavigation.ArrowDownFrom(c.wrap, f, i, Tag(columns, x), EnclosingRow(columns, x));
    assert i + 1 < |f|;
  }
}
