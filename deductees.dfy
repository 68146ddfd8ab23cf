/**
 * The deductees page: the list of deductee records it owns and the three
 * grid handlers (add, delete, cell change); the page shows the number of
 * deductees.
 */
module Deductees {
  import opened Wrappers
  import opened Values
  import RecordLists
  import DataTable

  datatype Deductee = Deductee(
    id: string,
    name: string,
    pan: string,
    typeOfDeductee: string,
    panValidationResult: string,
    panHolderName: string)

  const FieldNames := {"id", "name", "pan", "typeOfDeductee", "panValidationResult", "panHolderName"}

  /** `d[field]`: the record read as a JavaScript object; None is `undefined`. */
  function Get(d: Deductee, field: string): (r: Option<Value>)
    ensures r.Some? <==> field in FieldNames
    ensures r.Some? ==> r.value.Text?
  {
    if field == "id" then Some(Text(d.id))
    else if field == "name" then Some(Text(d.name))
    else if field == "pan" then Some(Text(d.pan))
    else if field == "typeOfDeductee" then Some(Text(d.typeOfDeductee))
    else if field == "panValidationResult" then Some(Text(d.panValidationResult))
    else if field == "panHolderName" then Some(Text(d.panHolderName))
    else None
  }

  /** The record's own properties, as the grid reads them. */
  function Cells(d: Deductee): map<string, Value> {
    map k | k in FieldNames :: Get(d, k).value
  }

  function DeducteeId(d: Deductee): string {
    d.id
  }

  /** The grid columns of the page, in display order. */
  const Columns: seq<DataTable.Column> := [
    DataTable.Column("name", "Name", Some("min-w-48"), None, None, true),
    DataTable.Column("pan", "PAN", Some("min-w-32"), None, None, true),
    DataTable.Column("typeOfDeductee", "Type of Deductee", Some("min-w-40"), Some(DataTable.SelectKind),
                     Some(["Individual", "Company", "Firm", "AOP/BOI", "Local Authority",
                           "Artificial Juridical Person", "Government"]), true),
    DataTable.Column("panValidationResult", "PAN Validation Result / Status", Some("min-w-48"),
                     Some(DataTable.SelectKind), Some(["Valid", "Invalid", "Not Found", "Pending"]), false),
    DataTable.Column("panHolderName", "PAN holder's name", Some("min-w-48"), None, None, false)
  ]

  /**
   * `{ ...d, [field]: v }` on a typed record: the one field changes when it
   * exists and `v` is a string; otherwise the record is unchanged.
   */
  function SetField(d: Deductee, field: string, v: Value): (r: Deductee)
    ensures Get(r, field) == if Accepts(Get(d, field), v) then Some(v) else Get(d, field)
    ensures forall k :: k != field ==> Get(r, k) == Get(d, k)
  {
    if !v.Text? then d
    else if field == "id" then d.(id := v.s)
    else if field == "name" then d.(name := v.s)
    else if field == "pan" then d.(pan := v.s)
    else if field == "typeOfDeductee" then d.(typeOfDeductee := v.s)
    else if field == "panValidationResult" then d.(panValidationResult := v.s)
    else if field == "panHolderName" then d.(panHolderName := v.s)
    else d
  }

  /** The record `handleAdd` creates: the given id and '' everywhere else. */
  function NewDeductee(id: string): (d: Deductee)
    ensures d.id == id
    ensures forall k :: k in FieldNames && k != "id" ==> Get(d, k) == Some(Text(""))
  {
    Deductee(id, "", "", "", "", "")
  }

  /** `handleAdd`: append exactly one new record after the existing ones. */
  function HandleAdd(ds: seq<Deductee>, id: string): (r: seq<Deductee>)
    ensures |r| == |ds| + 1 && r[..|ds|] == ds
    ensures r[|ds|] == NewDeductee(id)
  {
    ds + [NewDeductee(id)]
  }

  /** `handleDelete`: keep exactly the records whose id differs, in their order (RecordLists.WithoutAppend). */
  function HandleDelete(ds: seq<Deductee>, id: string): (r: seq<Deductee>)
    ensures |r| == |ds| - RecordLists.Count(ds, DeducteeId, id)
    ensures forall i :: 0 <= i < |r| ==> r[i] in ds && r[i].id != id
    ensures forall i :: 0 <= i < |ds| && ds[i].id != id ==> ds[i] in r
  {
    RecordLists.Without(ds, DeducteeId, id)
  }

  /** `handleCellChange`: set one field on the records with the matching id. */
  function HandleCellChange(ds: seq<Deductee>, rowId: string, field: string, v: Value): (r: seq<Deductee>)
    ensures |r| == |ds|
    ensures forall i :: 0 <= i < |ds| && ds[i].id != rowId ==> r[i] == ds[i]
    ensures forall i :: 0 <= i < |ds| && ds[i].id == rowId ==> r[i] == SetField(ds[i], field, v)
  {
    RecordLists.UpdateWhere(ds, DeducteeId, rowId, (d: Deductee) => SetField(d, field, v))
  }

  /** "Number of Deductees" */
  function Count(ds: seq<Deductee>): (n: nat)
    ensures n == |ds|
  {
    |ds|
  }

  // ---------------------------------------------------------------------------
  // Properties

  /** Deleting a deductee by its unique id removes exactly that record and keeps the rest in order. */
  lemma DeleteUnique(ds: seq<Deductee>, k: nat)
    requires k < |ds| && RecordLists.DistinctIds(ds, DeducteeId)
    ensures HandleDelete(ds, ds[k].id) == ds[..k] + ds[k+1..]
    ensures Count(HandleDelete(ds, ds[k].id)) == Count(ds) - 1
  {
    RecordLists.WithoutUnique(ds, DeducteeId, k);
  }

  /** Every string value set on an existing field reads back; the other fields keep their values. */
  lemma SetFieldReadBack(d: Deductee, field: string, s: string)
    requires field in FieldNames
    ensures Get(SetField(d, field, Text(s)), field) == Some(Text(s))
    ensures forall k :: k != field ==> Get(SetField(d, field, Text(s)), k) == Get(d, k)
  {
  }

  /**
   * The grid's number inputs are exactly the columns of numeric fields, and
   * every select column carries options, so it renders as a drop-down.
   */
  lemma ColumnsMatchFields(d: Deductee)
    ensures forall j :: 0 <= j < |Columns| ==>
              (Get(d, Columns[j].key).Some? &&
               (Columns[j].kind == Some(DataTable.NumberKind) <==> Get(d, Columns[j].key).value.Number?))
    ensures forall j :: 0 <= j < |Columns| && Columns[j].kind == Some(DataTable.SelectKind) ==> DataTable.IsSelect(Columns[j])
    ensures forall j :: 0 <= j < |Columns| ==> Columns[j].kind != Some(DataTable.NumberKind)
  {
  }

  /** No column of the page shows the record's id. */
  lemma NoIdColumn()
    ensures forall j :: 0 <= j < |Columns| ==> Columns[j].key in FieldNames && Columns[j].key != "id"
  {
  }

  /** Adding to an empty page replaces the grid's placeholder with exactly one row, whose cells all show empty. */
  lemma AddToEmptyGrid(id: string)
    ensures DataTable.RenderBody(Columns, DataTable.Rows([], DeducteeId, Cells)) == DataTable.Placeholder(|Columns| + 2)
    ensures var b := DataTable.RenderBody(Columns, DataTable.Rows(HandleAdd([], id), DeducteeId, Cells));
      && b.DataRows? && |b.rows| == 1 && b.rows[0].number == 1
      && forall j :: 0 <= j < |Columns| ==> b.rows[0].cells[j].value == Text("")
  {
    var row := DataTable.Rows(HandleAdd([], id), DeducteeId, Cells)[0];
    NoIdColumn();
    forall j | 0 <= j < |Columns| ensures DataTable.CellValue(row, Columns[j].key) == Text("") {
      var key := Columns[j].key;
      assert key in row.cells && Falsy(row.cells[key]);
    }
  }
}
