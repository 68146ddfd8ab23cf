/**
 * The JavaScript values that the grid records, the grid cells and the deductor
 * form hold. JavaScript numbers are modelled as unbounded integers.
 */
module Values {
  import opened Wrappers

  datatype Value = Text(s: string) | Number(n: int) | Flag(b: bool)

  /** JavaScript falsiness on these values: '', 0 and false are falsy. */
  predicate Falsy(v: Value) {
    v == Text("") || v == Number(0) || v == Flag(false)
  }

  /** Two values of the same declared kind (string, number or boolean). */
  predicate SameKind(a: Value, b: Value) {
    (a.Text? && b.Text?) || (a.Number? && b.Number?) || (a.Flag? && b.Flag?)
  }

  /**
   * `{ ...record, [field]: v }` is representable in a typed record exactly
   * when the field exists (`current` is its value) and `v` has the field's
   * declared kind.
   */
  predicate Accepts(current: Option<Value>, v: Value) {
    current.Some? && SameKind(current.value, v)
  }
}
