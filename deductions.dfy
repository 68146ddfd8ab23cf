/**
 * The deductions page: the list of deduction records it owns and the three
 * grid handlers (add, delete, cell change). Nothing is derived on a cell
 * change; the page shows the number of deductions.
 */
module Deductions {
  import opened Wrappers
  import opened Values
  import RecordLists
  import DataTable

  /** Amounts and the rate are the declared `number` fields, modelled as integers. */
  datatype Deduction = Deduction(
    id: string,
    name: string,
    pan: string,
    amountPaid: int,
    paidDate: string,
    deductionDate: string,
    deductedAmount: int,
    deductionRate: int,
    section: string,
    reasonForLowerDeduction: string)

  const FieldNames := {
    "id", "name", "pan", "amountPaid", "paidDate", "deductionDate", "deductedAmount",
    "deductionRate", "section", "reasonForLowerDeduction"}

  /** `d[field]`: the record read as a JavaScript object; None is `undefined`. */
  function Get(d: Deduction, field: string): (r: Option<Value>)
    ensures r.Some? <==> field in FieldNames
  {
    if field == "id" then Some(Text(d.id))
    else if field == "name" then Some(Text(d.name))
    else if field == "pan" then Some(Text(d.pan))
    else if field == "amountPaid" then Some(Number(d.amountPaid))
    else if field == "paidDate" then Some(Text(d.paidDate))
    else if field == "deductionDate" then Some(Text(d.deductionDate))
    else if field == "deductedAmount" then Some(Number(d.deductedAmount))
    else if field == "deductionRate" then Some(Number(d.deductionRate))
    else if field == "section" then Some(Text(d.section))
    else if field == "reasonForLowerDeduction" then Some(Text(d.reasonForLowerDeduction))
    else None
  }

  /** The record's own properties, as the grid reads them. */
  function Cells(d: Deduction): map<string, Value> {
    map k | k in FieldNames :: Get(d, k).value
  }

  function DeductionId(d: Deduction): string {
    d.id
  }

  /** The grid columns of the page, in display order. */
  const Columns: seq<DataTable.Column> := [
    DataTable.Column("name", "Name", Some("min-w-48"), None, None, true),
    DataTable.Column("pan", "PAN", Some("min-w-32"), None, None, true),
    DataTable.Column("amountPaid", "Amount Paid / Credited", Some("min-w-40"), Some(DataTable.NumberKind), None, true),
    DataTable.Column("paidDate", "Paid / Credited Date", Some("min-w-36"), Some(DataTable.DateKind), None, true),
    DataTable.Column("deductionDate", "Deduction Date", Some("min-w-36"), Some(DataTable.DateKind), None, true),
    DataTable.Column("deductedAmount", "Deducted and Deposited - Tax", Some("min-w-48"), Some(DataTable.NumberKind), None, true),
    DataTable.Column("deductionRate", "Deduction Rate", Some("min-w-32"), Some(DataTable.NumberKind), None, true),
    DataTable.Column("section", "Section", Some("min-w-40"), Some(DataTable.SelectKind),
                     Some(["194B - Winnings", "194C - Contractors", "194I - Rent", "194J - Professional"]), true),
    DataTable.Column("reasonForLowerDeduction", "Reason for Lower/Higher Deduction", Some("min-w-48"), None, None, false)
  ]

  /**
   * `{ ...d, [field]: v }` on a typed record: the one field changes when it
   * exists and `v` has its declared kind; otherwise the record is unchanged.
   */
  function SetField(d: Deduction, field: string, v: Value): (r: Deduction)
    ensures Get(r, field) == if Accepts(Get(d, field), v) then Some(v) else Get(d, field)
    ensures forall k :: k != field ==> Get(r, k) == Get(d, k)
  {
    match field
      case "id" => if v.Text? then d.(id := v.s) else d
      case "name" => if v.Text? then d.(name := v.s) else d
      case "pan" => if v.Text? then d.(pan := v.s) else d
      case "amountPaid" => if v.Number? then d.(amountPaid := v.n) else d
      case "paidDate" => if v.Text? then d.(paidDate := v.s) else d
      case "deductionDate" => if v.Text? then d.(deductionDate := v.s) else d
      case "deductedAmount" => if v.Number? then d.(deductedAmount := v.n) else d
      case "deductionRate" => if v.Number? then d.(deductionRate := v.n) else d
      case "section" => if v.Text? then d.(section := v.s) else d
      case "reasonForLowerDeduction" => if v.Text? then d.(reasonForLowerDeduction := v.s) else d
      case _ => d
  }

  /** A blank record: every field except `id` is '' or 0. */
  predicate Blank(d: Deduction) {
    forall k :: k in FieldNames && k != "id" ==> Get(d, k) == Some(Text("")) || Get(d, k) == Some(Number(0))
  }

  /** The record `handleAdd` creates; the fresh identifier is a parameter. */
  function NewDeduction(id: string): (d: Deduction)
    ensures d.id == id && Blank(d)
  {
    Deduction(id, "", "", 0, "", "", 0, 0, "", "")
  }

  /** `handleAdd`: append exactly one new record after the existing ones. */
  function HandleAdd(ds: seq<Deduction>, id: string): (r: seq<Deduction>)
    ensures |r| == |ds| + 1 && r[..|ds|] == ds
    ensures r[|ds|].id == id && Blank(r[|ds|])
  {
    ds + [NewDeduction(id)]
  }

  /** `handleDelete`: keep exactly the records whose id differs, in their order (RecordLists.WithoutAppend). */
  function HandleDelete(ds: seq<Deduction>, id: string): (r: seq<Deduction>)
    ensures |r| == |ds| - RecordLists.Count(ds, DeductionId, id)
    ensures forall i :: 0 <= i < |r| ==> r[i] in ds && r[i].id != id
    ensures forall i :: 0 <= i < |ds| && ds[i].id != id ==> ds[i] in r
  {
    RecordLists.Without(ds, DeductionId, id)
  }

  /** `handleCellChange`: set one field on the records with the matching id; nothing is recomputed. */
  function HandleCellChange(ds: seq<Deduction>, rowId: string, field: string, v: Value): (r: seq<Deduction>)
    ensures |r| == |ds|
    ensures forall i :: 0 <= i < |ds| && ds[i].id != rowId ==> r[i] == ds[i]
    ensures forall i :: 0 <= i < |ds| && ds[i].id == rowId ==> r[i] == SetField(ds[i], field, v)
  {
    RecordLists.UpdateWhere(ds, DeductionId, rowId, (d: Deduction) => SetField(d, field, v))
  }

  /** "Number of Deductions" */
  function Count(ds: seq<Deduction>): (n: nat)
    ensures n == |ds|
  {
    |ds|
  }

  // ---------------------------------------------------------------------------
  // Properties

  /** Deleting a deduction by its unique id removes exactly that record and keeps the rest in order. */
  lemma DeleteUnique(ds: seq<Deduction>, k: nat)
    requires k < |ds| && RecordLists.DistinctIds(ds, DeductionId)
    ensures HandleDelete(ds, ds[k].id) == ds[..k] + ds[k+1..]
    ensures Count(HandleDelete(ds, ds[k].id)) == Count(ds) - 1
  {
    RecordLists.WithoutUnique(ds, DeductionId, k);
  }

  /** Deleting an id that no record carries leaves the list unchanged. */
  lemma DeleteAbsent(ds: seq<Deduction>, id: string)
    requires forall i :: 0 <= i < |ds| ==> ds[i].id != id
    ensures HandleDelete(ds, id) == ds
  {
    RecordLists.WithoutAbsent(ds, DeductionId, id);
  }

  /** A cell change keeps the count, and edits of fields other than `id` keep every record's id. */
  lemma CellChangeKeepsIds(ds: seq<Deduction>, rowId: string, field: string, v: Value)
    requires field != "id"
    ensures var r := HandleCellChange(ds, rowId, field, v);
      Count(r) == Count(ds) && forall i :: 0 <= i < |ds| ==> r[i].id == ds[i].id
  {
    var r := HandleCellChange(ds, rowId, field, v);
    forall i | 0 <= i < |ds| ensures r[i].id == ds[i].id {
      if ds[i].id == rowId {
        assert Get(r[i], "id") == Get(ds[i], "id");
      }
    }
  }

  /**
   * The grid's number inputs are exactly the columns of numeric fields, and
   * every select column carries options, so it renders as a drop-down.
   */
  lemma ColumnsMatchFields(d: Deduction)
    ensures forall j :: 0 <= j < |Columns| ==>
              (Get(d, Columns[j].key).Some? &&
               (Columns[j].kind == Some(DataTable.NumberKind) <==> Get(d, Columns[j].key).value.Number?))
    ensures forall j :: 0 <= j < |Columns| && Columns[j].kind == Some(DataTable.SelectKind) ==> DataTable.IsSelect(Columns[j])
  {
  }

  /** No column of the page shows the record's id. */
  lemma NoIdColumn()
    ensures forall j :: 0 <= j < |Columns| ==> Columns[j].key in FieldNames && Columns[j].key != "id"
  {
  }

  /** Adding to an empty page replaces the grid's placeholder with exactly one row, whose cells all show empty. */
  lemma AddToEmptyGrid(id: string)
    ensures DataTable.RenderBody(Columns, DataTable.Rows([], DeductionId, Cells)) == DataTable.Placeholder(|Columns| + 2)
    ensures var b := DataTable.RenderBody(Columns, DataTable.Rows(HandleAdd([], id), DeductionId, Cells));
      && b.DataRows? && |b.rows| == 1 && b.rows[0].number == 1
      && forall j :: 0 <= j < |Columns| ==> b.rows[0].cells[j].value == Text("")
  {
    var row := DataTable.Rows(HandleAdd([], id), DeductionId, Cells)[0];
    NoIdColumn();
    forall j | 0 <= j < |Columns| ensures DataTable.CellValue(row, Columns[j].key) == Text("") {
      var key := Columns[j].key;
      assert key in row.cells && Falsy(row.cells[key]);
    }
  }
}
