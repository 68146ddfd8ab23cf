# TDS return data entry: focus traversal, grid editor and page records

This project models the core of a browser data-entry application for a TDS
(tax deducted at source) return. The model has three parts.

- The keyboard focus controller (`useKeyboardNavigation`). It resolves its
  options, reads the focus order and the focused element, and decides what a
  key does:
  - ArrowDown, ArrowUp, Home and End move focus, with optional wrap-around;
  - Enter clicks a select or button, and on anything else it acts as ArrowDown;
  - ArrowLeft and ArrowRight move within the enclosing `[data-row]` row;
  - Tab and every other key get no action.
- The grid editor (`DataTable`):
  - each cell's id, value, control kind, choices, input type, placeholder and
    change binding;
  - the body, either a placeholder or one row per record;
  - the footer;
  - the grid's focusable controls in reading order, from which the focus
    controller's behaviour on a real grid is derived.
- The pages that own record lists: challans, deductions and deductees. Each has
  add, delete by id and cell change. The challans page also recomputes the
  deposited total after a component edit, and shows a summary. The deductor
  form's field updates and its two Address Change selects are modelled too.

Modules, one per file:

| module | file | what it holds |
|---|---|---|
| `Wrappers` | wrappers.dfy | `Option` |
| `Values` | values.dfy | JavaScript values as stored in a record, with falsiness |
| `RecordLists` | record_lists.dfy | `filter`, `map` by id and `reduce` over a list, generic in the record type, with their algebra |
| `KeyboardNavigation` | keyboard_navigation.dfy | the key handler as a function, plus a `FocusTracker` class whose `KeyDown` method updates the focused element and the clicks |
| `DataTable` | data_table.dfy | rendering and the grid's focus order |
| `Challans`, `Deductions`, `Deductees` | challans.dfy, deductions.dfy, deductees.dfy | the three pages' records, columns and handlers |
| `DeductorForm` | deductor_form.dfy | the form state as a map from field name to value |

Parameters stand in for everything the source gets from the browser:
- the focus order returned by `querySelectorAll`;
- the focused element and its tag name;
- the row returned by `closest('[data-row]')`;
- the new record id taken from `Date.now()`.

## Model

| member | source | states |
|---|---|---|
| KeyboardNavigation.Resolve | src/hooks/useKeyboardNavigation.ts:10-14 | each option is the value given, or its default (`enabled` true, `wrap` true, the standard selector) when absent |
| KeyboardNavigation.DefaultOptions | src/hooks/useKeyboardNavigation.ts:9-14 | with no options the hook is enabled, wraps, and uses the standard focusable selector |
| KeyboardNavigation.IndexOf | src/hooks/useKeyboardNavigation.ts:26 | `indexOf`: -1 exactly when the element is absent; otherwise a position holding it with no earlier occurrence |
| KeyboardNavigation.IndexOfDistinct | src/hooks/useKeyboardNavigation.ts:26 | in a list without repeats, `indexOf` of the element at `i` is `i` |
| KeyboardNavigation.StepDown | src/hooks/useKeyboardNavigation.ts:35-39 | the next index: `(i+1) mod n` with wrap, `i+1` or nothing without; nothing on an empty list |
| KeyboardNavigation.StepUp | src/hooks/useKeyboardNavigation.ts:68-72 | the previous index: `(i-1+n) mod n` with wrap; index -1 goes to the last element only with wrap |
| KeyboardNavigation.StepsInverse | src/hooks/useKeyboardNavigation.ts:33-73 | with wrap, ArrowUp undoes ArrowDown and ArrowDown undoes ArrowUp  |
| KeyboardNavigation.RowStep | src/hooks/useKeyboardNavigation.ts:79-101 | a row move lands only on an element of the enclosing row |
| KeyboardNavigation.HandleKey | src/hooks/useKeyboardNavigation.ts:28-114 | the default action is suppressed exactly for the seven handled keys; a click happens only on Enter and moves no focus; focus only ever moves to an element of the list, or of the row for Left/Right |
| KeyboardNavigation.HandleKeyDown | src/hooks/useKeyboardNavigation.ts:19 | when disabled the listener does nothing; when enabled it is the key handler |
| KeyboardNavigation.ArrowDownFrom | src/hooks/useKeyboardNavigation.ts:33-40 | from element `i`: element `i+1`, else the first with wrap, else no move |
| KeyboardNavigation.ArrowDownFromOutside | src/hooks/useKeyboardNavigation.ts:35-36 | with focus outside the list (index -1), ArrowDown goes to the first element when there is one |
| KeyboardNavigation.ArrowUpFrom | src/hooks/useKeyboardNavigation.ts:66-73 | from element `i`: element `i-1`, else the last with wrap, else no move |
| KeyboardNavigation.ArrowUpFromOutside | src/hooks/useKeyboardNavigation.ts:68-72 | with focus outside the list, ArrowUp goes to the last element only with wrap |
| KeyboardNavigation.EnterRule | src/hooks/useKeyboardNavigation.ts:42-64 | Enter on SELECT or BUTTON clicks it, with default suppressed and no focus move; on any other tag Enter acts as ArrowDown |
| KeyboardNavigation.RowStepFrom | src/hooks/useKeyboardNavigation.ts:75-103 | from position `j` of the row, Left goes to `j-1` and Right to `j+1`, with no move past either end |
| KeyboardNavigation.RowStepFromOutside | src/hooks/useKeyboardNavigation.ts:75-103 | from an element outside the row (index -1), ArrowRight goes to the row's first control and ArrowLeft moves nowhere |
| KeyboardNavigation.RowStepNoRow | src/hooks/useKeyboardNavigation.ts:75-103 | outside any `[data-row]`, Left and Right only suppress the default action |
| KeyboardNavigation.HomeEnd | src/hooks/useKeyboardNavigation.ts:105-113 | Home goes to the first element and End to the last, from anywhere |
| KeyboardNavigation.OtherKeys | src/hooks/useKeyboardNavigation.ts:28-31 | Tab and unhandled keys get no action, and their default is kept |
| KeyboardNavigation.FocusTracker.constructor | src/hooks/useKeyboardNavigation.ts:26 | the tracked `document.activeElement` starts as the given element, with no clicks |
| KeyboardNavigation.FocusTracker.KeyDown | src/hooks/useKeyboardNavigation.ts:23-115 | one keydown event: the returned flag is whether the default was suppressed; focus becomes the handler's target, or the hook moves no focus; the focused element is appended to the clicks exactly when it was clicked |
| DataTable.Decimal | src/components/DataTable.tsx:44 | the decimal numeral of a row or column index is non-empty and made of digits |
| DataTable.DecimalRoundTrip | src/components/DataTable.tsx:44 | the numeral reads back as the number |
| DataTable.DecimalInjective | src/components/DataTable.tsx:44 | distinct numbers get distinct numerals |
| DataTable.CellId | src/components/DataTable.tsx:44 | the cell id `${rowIndex}-${colIndex}`; pinned down by DataTable.CellIdInjective, which reads both indices back from it |
| DataTable.CellIdInjective | src/components/DataTable.tsx:44 | `${rowIndex}-${colIndex}` names one cell only: equal ids mean equal positions |
| DataTable.ToLower | src/components/DataTable.tsx:69 | `toLowerCase` keeps the length, lowers each upper-case letter by 32 character codes, and keeps every other character |
| DataTable.CellValue | src/components/DataTable.tsx:45 | `row[key] \|\| ''`: the stored value when present and truthy, otherwise '' (so 0 and false show empty) |
| DataTable.Choices | src/components/DataTable.tsx:55-58 | the neutral "Select..." choice with value '' comes first, then each option as value and text, in order |
| DataTable.RenderCell | src/components/DataTable.tsx:43-73 | the cell id, value and change binding of every cell; a drop-down exactly for a select column that has options; otherwise an input typed `type \|\| 'text'` with placeholder "Enter " + the lower-cased label |
| DataTable.IsSelect | src/components/DataTable.tsx:47 | `column.type === 'select' && column.options`; DataTable.RenderCell states that exactly these cells render as drop-downs |
| DataTable.InputType | src/components/DataTable.tsx:65 | `column.type \|\| 'text'`; DataTable.RenderCell and DataTable.SelectWithoutOptions state the type an input cell gets |
| DataTable.SelectWithoutOptions | src/components/DataTable.tsx:47-65 | a select column without options renders an input whose type is "select" |
| DataTable.OnChange | src/components/DataTable.tsx:39-67 | a change forwards the row id, the column key and the new value unchanged |
| DataTable.Rows | src/pages/Challans.tsx:151-153 | each page passes its records to the grid as one row per record, in list order, with the record's id and its fields |
| DataTable.RenderRow | src/components/DataTable.tsx:112-147 | the row number is the index plus one; one cell per column in column order; edit and delete target the row's id |
| DataTable.RenderBody | src/components/DataTable.tsx:105-148 | a placeholder spanning the columns plus two exactly when there is no data; otherwise one row per record, in order |
| DataTable.Footer | src/components/DataTable.tsx:154-162 | a footer exists exactly for a non-empty grid, and shows the record count |
| DataTable.BodyBindings | src/components/DataTable.tsx:121-125 | cell `j` of row `k` is bound to record `k`'s id and column `j`'s key |
| DataTable.Tag | src/components/DataTable.tsx:47-73 | the focused control's tag name: SELECT exactly for a cell of a select column with options, INPUT for every other cell, BUTTON for every non-cell control |
| DataTable.Focusables | src/components/DataTable.tsx:80-159 | the container's focus order: Add Row first, then `n` rows of `columns + 2` controls, then Previous and Next exactly when there is a row; DataTable.FocusablesDistinct and DataTable.FocusableAfter state its order |
| DataTable.RowControls | src/components/DataTable.tsx:121-144 | a row's focusable controls are one per column, then Edit, then Delete |
| DataTable.AllRowControls | src/components/DataTable.tsx:112-147 | the rows' controls, row after row: `n` times the row width |
| DataTable.EnclosingRow | src/components/DataTable.tsx:116 | the `[data-row]` row of a control, when there is one, contains the control |
| DataTable.RowControlsDistinct | src/components/DataTable.tsx:121-144 | no control appears twice in a row |
| DataTable.EnclosingRowOf | src/components/DataTable.tsx:113-117 | every control of row `k` has row `k` as its enclosing row |
| DataTable.AllRowControlsAt | src/components/DataTable.tsx:112-147 | rows' control `i` is slot `i mod w` of row `i div w` |
| DataTable.AllRowControlsDistinct | src/components/DataTable.tsx:112-147 | no control appears twice among the rows' controls |
| DataTable.FocusablesDistinct | src/components/DataTable.tsx:80-159 | the container's focus order (Add Row, the rows, Previous, Next) has no repeats |
| DataTable.FocusableAfter | src/components/DataTable.tsx:112-159 | after slot `j` of row `k` comes slot `j+1`, else the next row's first control, else Previous |
| DataTable.GridArrowDown | src/hooks/useKeyboardNavigation.ts:33-40 | in the grid, ArrowDown from a row control goes to the next slot, else the next row's first cell, else the footer's Previous button |
| DataTable.GridRowNavigation | src/hooks/useKeyboardNavigation.ts:75-103 | in the grid, Left and Right walk the focused row's controls one at a time and stop at its ends |
| DataTable.GridEnterOnButton | src/hooks/useKeyboardNavigation.ts:53-56 | Enter on a row's Edit or Delete button: the hook clicks it, suppresses the default, and moves no focus |
| DataTable.GridHomeEnd | src/hooks/useKeyboardNavigation.ts:105-113 | on a non-empty grid, Home goes to Add Row and End to the footer's Next button |
| RecordLists.Without | src/pages/Challans.tsx:80 | `filter(r => r.id !== id)`: drops exactly the records with that id, and keeps the others |
| RecordLists.UpdateWhere | src/pages/Challans.tsx:84-100 | `map`: same length; records with the id are transformed and the others are kept |
| RecordLists.WithoutAppend | src/pages/Deductions.tsx:65 | filtering distributes over concatenation, so the kept records stay in order |
| RecordLists.WithoutAbsent | src/pages/Deductees.tsx:59 | deleting an id no record carries changes nothing |
| RecordLists.WithoutUnique | src/pages/Deductees.tsx:59 | with distinct ids, deleting record `k`'s id removes exactly position `k` |
| RecordLists.WithoutIdempotent | src/pages/Deductions.tsx:65 | deleting twice is deleting once |
| RecordLists.UpdateWhereAbsent | src/pages/Deductions.tsx:69-71 | a change aimed at an id no record carries changes nothing |
| RecordLists.WithoutDistinct | src/pages/Challans.tsx:80 | deletion keeps ids distinct |
| RecordLists.Sum | src/pages/Challans.tsx:110 | the left-fold `reduce((sum, c) => sum + amount(c), 0)`; additive by RecordLists.SumAppend, never negative on non-negative amounts by RecordLists.SumNonNegative |
| RecordLists.SumNonNegative | src/pages/Challans.tsx:110 | non-negative amounts give a non-negative sum, and all-zero amounts give 0 |
| RecordLists.SumAppend | src/pages/Challans.tsx:110 | the reduce-sum over a concatenation is the sum of the two sums |
| RecordLists.SumWithoutUnique | src/pages/Challans.tsx:79-110 | with distinct ids, deleting record `k` takes exactly its amount off the sum |
| Challans.Get | src/pages/Challans.tsx:8-22 | `c[field]` is defined exactly for the thirteen declared fields |
| Challans.SetField | src/pages/Challans.tsx:86 | `{ ...c, [field]: value }`: the field reads back as the value when it exists and the value has its declared kind; every other field keeps its value |
| Challans.NewChallan | src/pages/Challans.tsx:57-71 | the new challan has the given id and every other field '' or 0 |
| Challans.HandleAdd | src/pages/Challans.tsx:56-73 | the old list followed by exactly one new blank challan |
| Challans.HandleDelete | src/pages/Challans.tsx:79-81 | keeps exactly the challans with a different id |
| Challans.EditChallan | src/pages/Challans.tsx:85-97 | the one field is set; after an edit of tax, interest, fee or other amount the total reads as the sum of the four; nothing else changes |
| Challans.HandleCellChange | src/pages/Challans.tsx:83-101 | only challans with the row id change, each by the record edit; the length is kept |
| Challans.PageSummary | src/pages/Challans.tsx:109-110 | the count is the number of challans and the amount is the reduce-sum of the totals |
| Challans.ComponentTotal | src/pages/Challans.tsx:90-94 | the sum of deposited tax, interest, fee and other amount; Challans.ComponentEdit and Challans.EditKeepsConsistent state that a component edit stores it as the total |
| Challans.TotalAmount | src/pages/Challans.tsx:110 | the left-fold sum of the totals; additive by Challans.TotalAmountAppend, non-negative by Challans.TotalAmountNonNegative |
| Challans.TotalAmountNonNegative | src/pages/Challans.tsx:110 | challans whose totals are non-negative give a non-negative total amount; all-zero totals give 0 |
| Challans.TotalAmountAppend | src/pages/Challans.tsx:110 | the total amount of two lists end to end is the sum of their totals |
| Challans.AddSummary | src/pages/Challans.tsx:56-110 | adding a row adds one to the count and leaves the total amount unchanged |
| Challans.DeleteUnique | src/pages/Challans.tsx:79-81 | deleting by a unique id removes exactly that challan and keeps the rest in order |
| Challans.DeleteSummary | src/pages/Challans.tsx:79-110 | deleting a challan by its unique id takes one from the count and exactly its total from the amount |
| Challans.DeleteAbsent | src/pages/Challans.tsx:79-81 | deleting an unknown id changes nothing |
| Challans.EditKeepsConsistent | src/pages/Challans.tsx:89-95 | an edit of any field except the total keeps a consistent challan consistent; a component edit makes any challan consistent |
| Challans.EditTotalNoRecalculation | src/pages/Challans.tsx:86-89 | editing the total itself only stores the number: no recalculation |
| Challans.EditIdempotent | src/pages/Challans.tsx:85-97 | repeating the same edit changes nothing more |
| Challans.CellChangeKeepsConsistent | src/pages/Challans.tsx:83-101 | cell changes of fields other than the total keep every challan of the page consistent |
| Challans.ComponentEdit | src/pages/Challans.tsx:86-95 | a numeric component edit sets that component, keeps the other three, and makes the total their sum |
| Challans.DepositExample | src/pages/Challans.tsx:56-95 | a new challan with tax 100, interest 20 and fee 5 totals 125; setting the interest back to 0 gives 105 |
| Challans.IdsStayDistinct | src/pages/Challans.tsx:56-101 | a fresh id, a deletion and edits of fields other than `id` keep ids distinct |
| Challans.ColumnsMatchFields | src/pages/Challans.tsx:28-54 | every column's key is a declared field; the number columns are exactly the numeric fields; every select column has options, so it renders as a drop-down |
| Challans.NoIdColumn | src/pages/Challans.tsx:28-54 | every column names a declared field, and none shows the id |
| Challans.AddToEmptyGrid | src/pages/Challans.tsx:56-73 | an empty page shows the placeholder; after one add, the body is one row with every cell showing '' |
| Deductions.Get | src/pages/Deductions.tsx:8-19 | `d[field]` is defined exactly for the ten declared fields |
| Deductions.SetField | src/pages/Deductions.tsx:70 | the field reads back as the value when it exists and has its kind; every other field keeps its value |
| Deductions.NewDeduction | src/pages/Deductions.tsx:45-56 | the given id, and '' or 0 in every other field |
| Deductions.HandleAdd | src/pages/Deductions.tsx:44-58 | the old list followed by exactly one new blank deduction |
| Deductions.HandleDelete | src/pages/Deductions.tsx:64-66 | keeps exactly the deductions with a different id |
| Deductions.HandleCellChange | src/pages/Deductions.tsx:68-72 | only deductions with the row id change, by setting the one field; nothing is recomputed |
| Deductions.Count | src/pages/Deductions.tsx:111 | "Number of Deductions" is the list's length |
| Deductions.DeleteUnique | src/pages/Deductions.tsx:64-66 | deleting by a unique id removes exactly that record, keeps the rest in order, and takes one from the count |
| Deductions.DeleteAbsent | src/pages/Deductions.tsx:64-66 | deleting an unknown id changes nothing |
| Deductions.CellChangeKeepsIds | src/pages/Deductions.tsx:68-72 | a cell change keeps the count, and an edit of any field except `id` keeps every id |
| Deductions.ColumnsMatchFields | src/pages/Deductions.tsx:25-42 | every column's key is a declared field; the number columns are exactly the numeric fields; every select column has options |
| Deductions.NoIdColumn | src/pages/Deductions.tsx:25-42 | every column names a declared field, and none shows the id |
| Deductions.AddToEmptyGrid | src/pages/Deductions.tsx:44-58 | an empty page shows the placeholder; after one add, one row with every cell empty |
| Deductees.Get | src/pages/Deductees.tsx:8-15 | `d[field]` is defined exactly for the six declared fields, all strings |
| Deductees.SetField | src/pages/Deductees.tsx:64 | the field reads back as a string value when it exists; every other field keeps its value |
| Deductees.NewDeductee | src/pages/Deductees.tsx:43-50 | the new deductee has the given id |
| Deductees.HandleAdd | src/pages/Deductees.tsx:42-52 | the old list followed by exactly the new deductee |
| Deductees.HandleDelete | src/pages/Deductees.tsx:58-60 | keeps exactly the deductees with a different id |
| Deductees.HandleCellChange | src/pages/Deductees.tsx:62-66 | only deductees with the row id change, by setting the one field |
| Deductees.Count | src/pages/Deductees.tsx:99 | "Number of Deductees" is the list's length |
| Deductees.DeleteUnique | src/pages/Deductees.tsx:58-60 | deleting by a unique id removes exactly that record and takes one from the count |
| Deductees.SetFieldReadBack | src/pages/Deductees.tsx:64 | a string set on a declared field reads back; the other fields are kept |
| Deductees.ColumnsMatchFields | src/pages/Deductees.tsx:21-40 | every column's key is a declared field; no column is a number input, as every field is a string; every select column has options |
| Deductees.NoIdColumn | src/pages/Deductees.tsx:21-40 | every column names a declared field, and none shows the id |
| Deductees.AddToEmptyGrid | src/pages/Deductees.tsx:42-52 | an empty page shows the placeholder; after one add, one row with every cell empty |
| DeductorForm.Initial | src/components/DeductorForm.tsx:52-89 | the initial form has every declared field with its declared kind; financialYear is '2025-26' and every other field is '' or false |
| DeductorForm.TargetValue | src/components/DeductorForm.tsx:98 | a checkbox contributes its `checked` flag; any other target contributes its text value |
| DeductorForm.HandleInputChange | src/components/DeductorForm.tsx:93-100 | the named field takes the target's value; every other field is unchanged, and for a declared field the set of fields is unchanged |
| DeductorForm.InputChangeKeepsTyped | src/components/DeductorForm.tsx:93-100 | a change of a declared field by a value of its declared kind keeps the form well typed |
| DeductorForm.YesNo | src/components/DeductorForm.tsx:204 | the select shows 'Yes' exactly when the flag is truthy, and 'No' otherwise |
| DeductorForm.SelectYesNo | src/components/DeductorForm.tsx:205 | the flag becomes `value === 'Yes'`; every other field is unchanged |
| DeductorForm.AddressChangeShown | src/components/DeductorForm.tsx:204 | the first Address Change select's display, 'Yes' when `addressChange` is truthy; pinned down by DeductorForm.AddressChangeRoundTrip |
| DeductorForm.SelectAddressChange | src/components/DeductorForm.tsx:205 | choosing in the first Address Change select sets `addressChange`; DeductorForm.AddressChangeRoundTrip states that it then shows the choice and keeps the form well typed |
| DeductorForm.RpAddressChangeShown | src/components/DeductorForm.tsx:334 | the responsible person's Address Change display, from `rpAddressChange`; pinned down by DeductorForm.AddressChangeRoundTrip |
| DeductorForm.SelectRpAddressChange | src/components/DeductorForm.tsx:335 | choosing in the responsible person's select sets `rpAddressChange`; DeductorForm.AddressChangeRoundTrip states that it shows the choice and leaves the other select alone |
| DeductorForm.SelectShows | src/components/DeductorForm.tsx:204-205 | after choosing 'Yes' or 'No', the select shows that choice |
| DeductorForm.ReselectUnchanged | src/components/DeductorForm.tsx:204-205 | choosing what the select already shows leaves the form unchanged when the field holds a flag |
| DeductorForm.SelectKeepsOther | src/components/DeductorForm.tsx:203-340 | choosing in one select does not change what another shows |
| DeductorForm.SelectKeepsTyped | src/components/DeductorForm.tsx:334-335 | a choice keeps the form well typed |
| DeductorForm.AddressChangeRoundTrip | src/components/DeductorForm.tsx:203-340 | each Address Change select shows what was chosen; re-choosing the shown value changes nothing; each select leaves the other's display alone and keeps the form well typed |

## Left out

- Element collection (`querySelectorAll` with a CSS selector, `Array.from`), `closest('[data-row]')`, `focus()` and `click()` are browser calls. The focus order, the enclosing row and the tag are parameters. For the grid they are derived from the rendered controls (`DataTable.Focusables`, `DataTable.EnclosingRow`, `DataTable.Tag`). Selector matching itself is not modelled.
- The listener registration (source lines 117-121), the effect's dependency list, and the `!containerRef.current` guard are React and DOM plumbing. Only the `enabled` gate is modelled.
- The model always has a focused element, so the case where `document.activeElement` is null is not modelled. When no focusable element has focus, it is an element outside the list, so `indexOf` gives -1.
- The field label in the column header, the required `*` marker, widths as CSS classes, and the "No data available" text are rendering detail. They are not modelled.
- `row.id || rowIndex` as the React key is reconciliation detail. It is not modelled.
- DataTable.ToLower: lower-cases ASCII letters only. JavaScript's `toLowerCase` also folds other Unicode letters.
- Numbers are integers. IEEE floating point, NaN and the `toLocaleString` formatting of the total amount are not modelled.
- The grid forwards `e.target.value`, which is always a string. The page handlers then store it as is. So in JavaScript an edited numeric field becomes a string, and `+` in the challan total concatenates strings. The model takes the edited value to be of the column's declared kind, as the record interfaces declare. The concatenation is not modelled.
- Challans.SetField: a value of the wrong kind, or a field the record does not declare, leaves the record unchanged. The object spread would store it. The model's record types keep only the declared fields.
- Deductions.SetField: the same restriction as Challans.SetField. `reasonForLowerDeduction` is optional in the interface, but is a plain string here, since every record the page creates sets it.
- Deductees.SetField: the same restriction as Challans.SetField. Only string values are stored.
- The new-record id `Date.now().toString()` is a parameter. `Challans.IdsStayDistinct` states that a fresh id keeps ids distinct.
- The deductions page's hard-coded Challan Amount, Amount Deducted and Balance figures (source lines 104-109) are constants in markup and are not modelled.
- A clicked control's own handler is not modelled: the hook's click is recorded, but what Add Row (appending a record) or Delete (removing the focused row) then does is the page handlers' business, modelled separately as HandleAdd and HandleDelete. So after Enter on a Delete button the focused element is gone from the page, which the focus model does not follow.
- `handleEdit`, `handleSave`, the Previous and Next buttons' (absent) actions, the `navigate` calls and `console.log` have no effect on state. They are not modelled.
- src/services/api.ts, src/components/FormHeader.tsx, src/components/FormField.tsx and src/components/FormSection.tsx are not part of this model. They are the network wrapper and presentational components.
- DeductorForm: the form's other JSX is layout. Only handleInputChange, the initial state and the two Address Change selects change state.
- Behaviour of the code worth noting:
  - Enter on a select or a button also suppresses the default action, because `preventDefault` runs before the tag test.
  - ArrowRight from an element of a row that is not itself in the row's focusable list gets index -1, and so moves to the row's first control (KeyboardNavigation.RowStepFromOutside).
  - A select column without options renders an input whose `type` is "select".
  - A select column whose options list is empty still renders a drop-down with only "Select...", because an empty array is truthy.
  - A challan component's absent value counts as 0 through `|| 0`. On the integers that every challan created by the page holds, this is the identity.
- Challans.DepositExample: the worked example is stated on the record edit applied to a new challan. Its link to the page is `Challans.HandleCellChange`'s contract, which applies that edit to the matching row.
