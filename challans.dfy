/**
 * The challans page: the list of challan records it owns, the three grid
 * handlers (add, delete, cell change with the automatic total), and the
 * page summary (number of challans and total amount).
 */
module Challans {
  import opened Wrappers
  import opened Values
  import RecordLists
  import DataTable

  /** Amounts are the declared `number` fields, modelled as integers. */
  datatype Challan = Challan(
    id: string,
    dateOfChallan: string,
    section: string,
    depositedTax: int,
    interest: int,
    fee: int,
    otherAmount: int,
    totalAmountDeposited: int,
    challanSerialNo: string,
    bankBranchCode: string,
    challanVerificationResult: string,
    interestAllocated: int,
    othersAllocated: int)

  const FieldNames := {
    "id", "dateOfChallan", "section", "depositedTax", "interest", "fee", "otherAmount",
    "totalAmountDeposited", "challanSerialNo", "bankBranchCode", "challanVerificationResult",
    "interestAllocated", "othersAllocated"}

  /** `c[field]`: the record read as a JavaScript object; None is `undefined`. */
  function Get(c: Challan, field: string): (r: Option<Value>)
    ensures r.Some? <==> field in FieldNames
  {
    if field == "id" then Some(Text(c.id))
    else if field == "dateOfChallan" then Some(Text(c.dateOfChallan))
    else if field == "section" then Some(Text(c.section))
    else if field == "depositedTax" then Some(Number(c.depositedTax))
    else if field == "interest" then Some(Number(c.interest))
    else if field == "fee" then Some(Number(c.fee))
    else if field == "otherAmount" then Some(Number(c.otherAmount))
    else if field == "totalAmountDeposited" then Some(Number(c.totalAmountDeposited))
    else if field == "challanSerialNo" then Some(Text(c.challanSerialNo))
    else if field == "bankBranchCode" then Some(Text(c.bankBranchCode))
    else if field == "challanVerificationResult" then Some(Text(c.challanVerificationResult))
    else if field == "interestAllocated" then Some(Number(c.interestAllocated))
    else if field == "othersAllocated" then Some(Number(c.othersAllocated))
    else None
  }

  /** The record's own properties, as the grid reads them. */
  function Cells(c: Challan): map<string, Value> {
    map k | k in FieldNames :: Get(c, k).value
  }

  function ChallanId(c: Challan): string {
    c.id
  }

  /** The grid columns of the page, in display order. */
  const Columns: seq<DataTable.Column> := [
    DataTable.Column("dateOfChallan", "Date of Challan", Some("min-w-36"), Some(DataTable.DateKind), None, true),
    DataTable.Column("section", "Section", Some("min-w-40"), Some(DataTable.SelectKind),
                     Some(["194B - Winnings", "194C - Contractors", "194I - Rent", "194J - Professional"]), true),
    DataTable.Column("depositedTax", "Deposited - Tax", Some("min-w-32"), Some(DataTable.NumberKind), None, true),
    DataTable.Column("interest", "Interest", Some("min-w-28"), Some(DataTable.NumberKind), None, false),
    DataTable.Column("fee", "Fee", Some("min-w-24"), Some(DataTable.NumberKind), None, false),
    DataTable.Column("otherAmount", "Other Amount", Some("min-w-32"), Some(DataTable.NumberKind), None, false),
    DataTable.Column("totalAmountDeposited", "Total Amount Deposited", Some("min-w-40"), Some(DataTable.NumberKind), None, true),
    DataTable.Column("challanSerialNo", "Challan / DDO Serial No.", Some("min-w-40"), None, None, true),
    DataTable.Column("bankBranchCode", "Bank Branch Code", Some("min-w-36"), None, None, true),
    DataTable.Column("challanVerificationResult", "Challan verification result", Some("min-w-40"),
                     Some(DataTable.SelectKind), Some(["Verified", "Not Verified", "Pending", "Error"]), false),
    DataTable.Column("interestAllocated", "Interest allocated for the quarter", Some("min-w-48"), Some(DataTable.NumberKind), None, false),
    DataTable.Column("othersAllocated", "Others allocated for the quarter", Some("min-w-48"), Some(DataTable.NumberKind), None, false)
  ]

  /**
   * `{ ...c, [field]: v }` on a typed record: the one field changes when it
   * exists and `v` has its declared kind; otherwise the record is unchanged.
   */
  function SetField(c: Challan, field: string, v: Value): (r: Challan)
    ensures Get(r, field) == if Accepts(Get(c, field), v) then Some(v) else Get(c, field)
    ensures forall k :: k != field ==> Get(r, k) == Get(c, k)
  {
    match field
      case "id" => if v.Text? then c.(id := v.s) else c
      case "dateOfChallan" => if v.Text? then c.(dateOfChallan := v.s) else c
      case "section" => if v.Text? then c.(section := v.s) else c
      case "depositedTax" => if v.Number? then c.(depositedTax := v.n) else c
      case "interest" => if v.Number? then c.(interest := v.n) else c
      case "fee" => if v.Number? then c.(fee := v.n) else c
      case "otherAmount" => if v.Number? then c.(otherAmount := v.n) else c
      case "totalAmountDeposited" => if v.Number? then c.(totalAmountDeposited := v.n) else c
      case "challanSerialNo" => if v.Text? then c.(challanSerialNo := v.s) else c
      case "bankBranchCode" => if v.Text? then c.(bankBranchCode := v.s) else c
      case "challanVerificationResult" => if v.Text? then c.(challanVerificationResult := v.s) else c
      case "interestAllocated" => if v.Number? then c.(interestAllocated := v.n) else c
      case "othersAllocated" => if v.Number? then c.(othersAllocated := v.n) else c
      case _ => c
  }

  /** The fields whose edit recomputes the total. */
  const TotalComponents := ["depositedTax", "interest", "fee", "otherAmount"]

  /**
   * `(depositedTax || 0) + (interest || 0) + (fee || 0) + (otherAmount || 0)`.
   * On numbers `x || 0` is `x`. The grid actually forwards `e.target.value`,
   * a string, so in JavaScript an edited component would be a string and `+`
   * would concatenate; the model follows the declared `number` types instead.
   */
  function ComponentTotal(c: Challan): int {
    c.depositedTax + c.interest + c.fee + c.otherAmount
  }

  /** The stored total agrees with its four components. */
  predicate Consistent(c: Challan) {
    c.totalAmountDeposited == ComponentTotal(c)
  }

  /** A blank record: every field except `id` is '' or 0. */
  predicate Blank(c: Challan) {
    forall k :: k in FieldNames && k != "id" ==> Get(c, k) == Some(Text("")) || Get(c, k) == Some(Number(0))
  }

  /** The record `handleAdd` creates; the fresh identifier is a parameter. */
  function NewChallan(id: string): (c: Challan)
    ensures c.id == id && Blank(c) && Consistent(c)
  {
    Challan(id, "", "", 0, 0, 0, 0, 0, "", "", "", 0, 0)
  }

  /** `handleAdd`: append exactly one new record after the existing ones. */
  function HandleAdd(cs: seq<Challan>, id: string): (r: seq<Challan>)
    ensures |r| == |cs| + 1 && r[..|cs|] == cs
    ensures r[|cs|].id == id && Blank(r[|cs|])
  {
    cs + [NewChallan(id)]
  }

  /** `handleDelete`: keep exactly the records whose id differs, in their order (RecordLists.WithoutAppend). */
  function HandleDelete(cs: seq<Challan>, id: string): (r: seq<Challan>)
    ensures |r| == |cs| - RecordLists.Count(cs, ChallanId, id)
    ensures forall i :: 0 <= i < |r| ==> r[i] in cs && r[i].id != id
    ensures forall i :: 0 <= i < |cs| && cs[i].id != id ==> cs[i] in r
  {
    RecordLists.Without(cs, ChallanId, id)
  }

  /** The per-record update of `handleCellChange`: set the field, then recompute the total for a component edit. */
  function EditChallan(c: Challan, field: string, v: Value): (r: Challan)
    ensures forall k :: Get(r, k) ==
              if field in TotalComponents && k == "totalAmountDeposited" then Some(Number(ComponentTotal(r)))
              else if k == field && Accepts(Get(c, field), v) then Some(v)
              else Get(c, k)
    ensures field in TotalComponents ==> Consistent(r)
  {
    var u := SetField(c, field, v);
    if field in TotalComponents then u.(totalAmountDeposited := ComponentTotal(u)) else u
  }

  /** `handleCellChange`: only records with the matching id change; the length is kept. */
  function HandleCellChange(cs: seq<Challan>, rowId: string, field: string, v: Value): (r: seq<Challan>)
    ensures |r| == |cs|
    ensures forall i :: 0 <= i < |cs| && cs[i].id != rowId ==> r[i] == cs[i]
    ensures forall i :: 0 <= i < |cs| && cs[i].id == rowId ==> r[i] == EditChallan(cs[i], field, v)
  {
    RecordLists.UpdateWhere(cs, ChallanId, rowId, (c: Challan) => EditChallan(c, field, v))
  }

  datatype Summary = Summary(count: nat, amount: int)

  /** `c.totalAmountDeposited || 0`, which on a number is the number itself. */
  function DepositedTotal(c: Challan): int {
    c.totalAmountDeposited
  }

  /** `challans.reduce((sum, c) => sum + (c.totalAmountDeposited || 0), 0)` */
  function TotalAmount(cs: seq<Challan>): int {
    RecordLists.Sum(cs, DepositedTotal)
  }

  /** `totalChallans` and `totalAmount`. */
  function PageSummary(cs: seq<Challan>): (s: Summary)
    ensures s.count == |cs|
  {
    Summary(|cs|, TotalAmount(cs))
  }

  // ---------------------------------------------------------------------------
  // Properties

  /** The total amount of a concatenation is the sum of the totals. */
  lemma TotalAmountAppend(a: seq<Challan>, b: seq<Challan>)
    ensures TotalAmount(a + b) == TotalAmount(a) + TotalAmount(b)
  {
    RecordLists.SumAppend(a, b, DepositedTotal);
  }

  /** Challans whose totals are never negative give a total amount that is never negative; all-zero totals give zero. */
  lemma TotalAmountNonNegative(cs: seq<Challan>)
    ensures (forall i :: 0 <= i < |cs| ==> cs[i].totalAmountDeposited >= 0) ==> TotalAmount(cs) >= 0
    ensures (forall i :: 0 <= i < |cs| ==> cs[i].totalAmountDeposited == 0) ==> TotalAmount(cs) == 0
  {
    RecordLists.SumNonNegative(cs, DepositedTotal);
  }

  /** Adding a row adds one challan and, its total being 0, leaves the amount unchanged. */
  lemma AddSummary(cs: seq<Challan>, id: string)
    ensures PageSummary(HandleAdd(cs, id)) == Summary(|cs| + 1, TotalAmount(cs))
  {
    TotalAmountAppend(cs, [NewChallan(id)]);
    assert TotalAmount([NewChallan(id)]) == 0;
  }

  /** Deleting a challan by its unique id removes exactly that record and keeps the rest in order. */
  lemma DeleteUnique(cs: seq<Challan>, k: nat)
    requires k < |cs| && RecordLists.DistinctIds(cs, ChallanId)
    ensures HandleDelete(cs, cs[k].id) == cs[..k] + cs[k+1..]
  {
    RecordLists.WithoutUnique(cs, ChallanId, k);
  }

  /** Deleting a challan by its unique id removes one challan and exactly its total. */
  lemma DeleteSummary(cs: seq<Challan>, k: nat)
    requires k < |cs| && RecordLists.DistinctIds(cs, ChallanId)
    ensures PageSummary(HandleDelete(cs, cs[k].id)) ==
      Summary(|cs| - 1, TotalAmount(cs) - cs[k].totalAmountDeposited)
  {
    var d := HandleDelete(cs, cs[k].id);
    assert ChallanId(cs[k]) == cs[k].id;
    RecordLists.WithoutUnique(cs, ChallanId, k);
    assert |d| == |cs| - 1;
    RecordLists.SumWithoutUnique(cs, ChallanId, DepositedTotal, k);
    assert TotalAmount(d) == TotalAmount(cs) - cs[k].totalAmountDeposited;
  }

  /** Deleting an id that no record carries leaves the list unchanged. */
  lemma DeleteAbsent(cs: seq<Challan>, id: string)
    requires forall i :: 0 <= i < |cs| ==> cs[i].id != id
    ensures HandleDelete(cs, id) == cs
  {
    RecordLists.WithoutAbsent(cs, ChallanId, id);
  }

  /** An edit of any field but the total keeps a consistent record consistent; a component edit makes any record consistent. */
  lemma EditKeepsConsistent(c: Challan, field: string, v: Value)
    requires Consistent(c) || field in TotalComponents
    requires field != "totalAmountDeposited"
    ensures Consistent(EditChallan(c, field, v))
  {
    var r := EditChallan(c, field, v);
    if field !in TotalComponents {
      assert Get(r, "depositedTax") == Get(c, "depositedTax");
      assert Get(r, "interest") == Get(c, "interest");
      assert Get(r, "fee") == Get(c, "fee");
      assert Get(r, "otherAmount") == Get(c, "otherAmount");
      assert Get(r, "totalAmountDeposited") == Get(c, "totalAmountDeposited");
    }
  }

  /** Editing the total itself just stores the value: no recalculation. */
  lemma EditTotalNoRecalculation(c: Challan, n: int)
    ensures EditChallan(c, "totalAmountDeposited", Number(n)) == c.(totalAmountDeposited := n)
  {
  }

  /** Recalculation is idempotent: repeating an edit changes nothing more. */
  lemma EditIdempotent(c: Challan, field: string, v: Value)
    ensures EditChallan(EditChallan(c, field, v), field, v) == EditChallan(c, field, v)
  {
  }

  /** Cell changes of any field but the total keep every record of the page consistent. */
  lemma CellChangeKeepsConsistent(cs: seq<Challan>, rowId: string, field: string, v: Value)
    requires forall i :: 0 <= i < |cs| ==> Consistent(cs[i])
    requires field != "totalAmountDeposited"
    ensures var r := HandleCellChange(cs, rowId, field, v);
      forall i :: 0 <= i < |r| ==> Consistent(r[i])
  {
    forall i | 0 <= i < |cs| && cs[i].id == rowId {
      EditKeepsConsistent(cs[i], field, v);
    }
  }

  /** A numeric edit of a component sets that component, keeps the other three and recomputes the total from them. */
  lemma ComponentEdit(c: Challan, field: string, n: int)
    requires field in TotalComponents
    ensures var r := EditChallan(c, field, Number(n));
      && r.depositedTax == (if field == "depositedTax" then n else c.depositedTax)
      && r.interest == (if field == "interest" then n else c.interest)
      && r.fee == (if field == "fee" then n else c.fee)
      && r.otherAmount == (if field == "otherAmount" then n else c.otherAmount)
      && r.totalAmountDeposited == r.depositedTax + r.interest + r.fee + r.otherAmount
  {
    if field == "depositedTax" {
    } else if field == "interest" {
    } else if field == "fee" {
    } else {
      assert field == "otherAmount";
    }
  }

  /**
   * A new row with tax 100, interest 20 and fee 5 totals 125;
   * setting the interest back to 0 then gives 105.
   */
  lemma DepositExample(id: string)
    ensures var c1 := EditChallan(NewChallan(id), "depositedTax", Number(100));
      var c2 := EditChallan(c1, "interest", Number(20));
      var c3 := EditChallan(c2, "fee", Number(5));
      var c4 := EditChallan(c3, "interest", Number(0));
      && c3.totalAmountDeposited == 125
      && c4.totalAmountDeposited == 105
  {
    var c1 := EditChallan(NewChallan(id), "depositedTax", Number(100));
    ComponentEdit(NewChallan(id), "depositedTax", 100);
    var c2 := EditChallan(c1, "interest", Number(20));
    ComponentEdit(c1, "interest", 20);
    var c3 := EditChallan(c2, "fee", Number(5));
    ComponentEdit(c2, "fee", 5);
    ComponentEdit(c3, "interest", 0);
  }

  /** A fresh id keeps ids distinct; deletion and edits of fields other than `id` do too. */
  lemma IdsStayDistinct(cs: seq<Challan>, id: string, rowId: string, field: string, v: Value)
    requires RecordLists.DistinctIds(cs, ChallanId)
    requires field != "id"
    ensures (forall i :: 0 <= i < |cs| ==> cs[i].id != id) ==>
      RecordLists.DistinctIds(HandleAdd(cs, id), ChallanId)
    ensures RecordLists.DistinctIds(HandleDelete(cs, id), ChallanId)
    ensures RecordLists.DistinctIds(HandleCellChange(cs, rowId, field, v), ChallanId)
  {
    RecordLists.WithoutDistinct(cs, ChallanId, id);
    var r := HandleCellChange(cs, rowId, field, v);
    forall i | 0 <= i < |cs| ensures r[i].id == cs[i].id {
      if cs[i].id == rowId {
        assert Get(r[i], "id") == Get(cs[i], "id");
      }
    }
  }

  /**
   * The grid's number inputs are exactly the columns of numeric fields, and
   * every select column carries options, so it renders as a drop-down.
   */
  lemma ColumnsMatchFields(c: Challan)
    ensures forall j :: 0 <= j < |Columns| ==>
              (Get(c, Columns[j].key).Some? &&
               (Columns[j].kind == Some(DataTable.NumberKind) <==> Get(c, Columns[j].key).value.Number?))
    ensures forall j :: 0 <= j < |Columns| && Columns[j].kind == Some(DataTable.SelectKind) ==> DataTable.IsSelect(Columns[j])
  {
  }

  /** No column of the page shows the record's id. */
  lemma NoIdColumn()
    ensures forall j :: 0 <= j < |Columns| ==> Columns[j].key in FieldNames && Columns[j].key != "id"
  {
  }

  /** Adding to an empty page replaces the grid's placeholder with exactly one row, whose cells all show empty. */
  lemma AddToEmptyGrid(id: string)
    ensures DataTable.RenderBody(Columns, DataTable.Rows([], ChallanId, Cells)) == DataTable.Placeholder(|Columns| + 2)
    ensures var b := DataTable.RenderBody(Columns, DataTable.Rows(HandleAdd([], id), ChallanId, Cells));
      && b.DataRows? && |b.rows| == 1 && b.rows[0].number == 1
      && forall j :: 0 <= j < |Columns| ==> b.rows[0].cells[j].value == Text("")
  {
    var row := DataTable.Rows(HandleAdd([], id), ChallanId, Cells)[0];
    NoIdColumn();
    forall j | 0 <= j < |Columns| ensures DataTable.CellValue(row, Columns[j].key) == Text("") {
      var key := Columns[j].key;
      assert key in row.cells && Falsy(row.cells[key]);
    }
  }
}
