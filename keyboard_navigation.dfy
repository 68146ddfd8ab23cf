/**
 * The keyboard focus-traversal hook. The container's focusable elements are
 * given, in document order, as the sequence `elements` that the configured
 * selector matches at the moment of the key press (the list is re-queried on
 * every key press, never cached). `active` is the document's active element,
 * `activeTag` its tag name, and `row` the focusable elements of its closest
 * `[data-row]` ancestor, if it has one.
 */
module KeyboardNavigation {
  import opened Wrappers

  const DefaultSelector := "input, select, button, textarea, [tabindex]:not([tabindex=\"-1\"])"

  /** The hook's options object; an absent member is `undefined`. */
  datatype Options = Options(enabled: Option<bool>, wrap: Option<bool>, selector: Option<string>)

  /** The options after destructuring with defaults. */
  datatype Config = Config(enabled: bool, wrap: bool, selector: string)

  /** What one key press does: the element to focus (None: focus stays), and the two side effects. */
  datatype Outcome<E> = Outcome(focus: Option<E>, prevented: bool, clicked: bool)

  /** Destructuring with defaults: an absent option takes its default, a present one is kept. */
  function Resolve(o: Options): (c: Config)
    ensures c.enabled == (o.enabled == None || o.enabled == Some(true))
    ensures c.wrap == (o.wrap == None || o.wrap == Some(true))
    ensures o.selector == None ==> c.selector == DefaultSelector
    ensures o.selector.Some? ==> c.selector == o.selector.value
  {
    Config(o.enabled.GetOr(true), o.wrap.GetOr(true), o.selector.GetOr(DefaultSelector))
  }

  /** `useKeyboardNavigation()` with no options enables navigation with wrap-around and the default selector. */
  lemma DefaultOptions()
    ensures Resolve(Options(None, None, None)) == Config(true, true, DefaultSelector)
  {
  }

  /** `Array.prototype.indexOf`: the first position of `x`, or -1. */
  function IndexOf<E(==)>(s: seq<E>, x: E): (i: int)
    ensures -1 <= i < |s|
    ensures i == -1 <==> x !in s
    ensures 0 <= i ==> s[i] == x && forall j :: 0 <= j < i ==> s[j] != x
  {
    if s == [] then -1
    else if s[0] == x then 0
    else var k := IndexOf(s[1..], x); if k == -1 then -1 else k + 1
  }

  predicate Distinct<E(==)>(s: seq<E>) {
    forall i, j :: 0 <= i < j < |s| ==> s[i] != s[j]
  }

  lemma IndexOfDistinct<E>(s: seq<E>, i: nat)
    requires i < |s| && Distinct(s)
    ensures IndexOf(s, s[i]) == i
  {
  }

  /**
   * The ArrowDown rule over positions: the next position, wrapping to the first
   * from the last one when `wrap` is set; nothing on an empty list. Position -1
   * (focus outside the list) counts as one before the first.
   */
  function StepDown(i: int, n: nat, wrap: bool): (t: Option<nat>)
    requires -1 <= i < n
    ensures t.Some? ==> t.value < n
    ensures n == 0 ==> t == None
    ensures wrap && n > 0 ==> t == Some((i + 1) % n)
    ensures !wrap ==> t == if i + 1 < n then Some(i + 1) else None
  {
    if i < n - 1 then assert (i + 1) % n == i + 1; Some(i + 1)
    else if wrap && n > 0 then assert i + 1 == n; Some(0)
    else None
  }

  /**
   * The ArrowUp rule over positions: the previous position; from the first
   * position or from outside the list, the last position when `wrap` is set.
   */
  function StepUp(i: int, n: nat, wrap: bool): (t: Option<nat>)
    requires -1 <= i < n
    ensures t.Some? ==> t.value < n
    ensures n == 0 ==> t == None
    ensures wrap && 0 <= i ==> t == Some((i - 1 + n) % n)
    ensures i == -1 ==> t == if wrap && n > 0 then Some(n - 1) else None
    ensures !wrap && 0 <= i ==> t == if i > 0 then Some(i - 1) else None
  {
    if i > 0 then Some(i - 1)
    else if wrap && n > 0 then Some(n - 1)
    else None
  }

  /** With wrap-around, ArrowUp undoes ArrowDown and ArrowDown undoes ArrowUp. */
  lemma StepsInverse(i: nat, n: nat)
    requires i < n
    ensures StepUp(StepDown(i, n, true).value, n, true) == Some(i)
    ensures StepDown(StepUp(i, n, true).value, n, true) == Some(i)
  {
  }

  /** The element at an optional position. */
  function At<E>(s: seq<E>, t: Option<nat>): (r: Option<E>)
    requires t.Some? ==> t.value < |s|
    ensures r.Some? <==> t.Some?
    ensures t.Some? ==> r.value == s[t.value]
  {
    if t.Some? then Some(s[t.value]) else None
  }

  /** Move to the previous (`delta` = -1) or next (+1) element of the enclosing row, never past its ends. */
  function RowStep<E(==)>(row: Option<seq<E>>, active: E, delta: int): (r: Option<E>)
    requires delta == -1 || delta == 1
    ensures r.Some? ==> row.Some? && r.value in row.value
  {
    match row
    case None => None
    case Some(rs) =>
      var j := IndexOf(rs, active);
      if delta == -1 then (if j > 0 then Some(rs[j - 1]) else None)
      else (if j < |rs| - 1 then Some(rs[j + 1]) else None)
  }

  function NoAction<E>(): Outcome<E> {
    Outcome(None, false, false)
  }

  /** The keys whose default action the handler suppresses. */
  const HandledKeys := {"ArrowDown", "Enter", "ArrowUp", "ArrowLeft", "ArrowRight", "Home", "End"}

  /** `handleKeyDown`: the case analysis on `event.key`. */
  function HandleKey<E(==)>(wrap: bool, key: string, elements: seq<E>, active: E,
                            activeTag: string, row: Option<seq<E>>): (o: Outcome<E>)
    ensures o.prevented <==> key in HandledKeys
    ensures o.clicked ==> key == "Enter" && o.focus == None
    ensures o.focus.Some? && key != "ArrowLeft" && key != "ArrowRight" ==> o.focus.value in elements
    ensures o.focus.Some? && (key == "ArrowLeft" || key == "ArrowRight") ==> row.Some? && o.focus.value in row.value
  {
    var n := |elements|;
    var i := IndexOf(elements, active);
    if key == "ArrowDown" then Outcome(At(elements, StepDown(i, n, wrap)), true, false)
    else if key == "Enter" then
      if activeTag == "SELECT" || activeTag == "BUTTON" then Outcome(None, true, true)
      else Outcome(At(elements, StepDown(i, n, wrap)), true, false)
    else if key == "ArrowUp" then Outcome(At(elements, StepUp(i, n, wrap)), true, false)
    else if key == "ArrowLeft" then Outcome(RowStep(row, active, -1), true, false)
    else if key == "ArrowRight" then Outcome(RowStep(row, active, 1), true, false)
    else if key == "Home" then Outcome(if n > 0 then Some(elements[0]) else None, true, false)
    else if key == "End" then Outcome(if n > 0 then Some(elements[n - 1]) else None, true, false)
    else NoAction()  // Tab keeps the browser's default; every other key is ignored
  }

  /** The listener is only installed while navigation is enabled. */
  function HandleKeyDown<E(==)>(c: Config, key: string, elements: seq<E>, active: E,
                                activeTag: string, row: Option<seq<E>>): (o: Outcome<E>)
    ensures !c.enabled ==> o == NoAction()
    ensures c.enabled ==> o == HandleKey(c.wrap, key, elements, active, activeTag, row)
  {
    if c.enabled then HandleKey(c.wrap, key, elements, active, activeTag, row) else NoAction()
  }

  /** ArrowDown from position `i` of the list. */
  lemma ArrowDownFrom<E>(wrap: bool, elements: seq<E>, i: nat, tag: string, row: Option<seq<E>>)
    requires i < |elements| && Distinct(elements)
    ensures HandleKey(wrap, "ArrowDown", elements, elements[i], tag, row).focus ==
      if i + 1 < |elements| then Some(elements[i + 1])
      else if wrap then Some(elements[0])
      else None
  {
    IndexOfDistinct(elements, i);
  }

  /** ArrowDown with focus outside the list lands on the first element, if any. */
  lemma ArrowDownFromOutside<E>(wrap: bool, elements: seq<E>, active: E, tag: string, row: Option<seq<E>>)
    requires active !in elements
    ensures HandleKey(wrap, "ArrowDown", elements, active, tag, row).focus ==
      if |elements| > 0 then Some(elements[0]) else None
  {
  }

  /** ArrowUp from position `i` of the list. */
  lemma ArrowUpFrom<E>(wrap: bool, elements: seq<E>, i: nat, tag: string, row: Option<seq<E>>)
    requires i < |elements| && Distinct(elements)
    ensures HandleKey(wrap, "ArrowUp", elements, elements[i], tag, row).focus ==
      if i > 0 then Some(elements[i - 1])
      else if wrap then Some(elements[|elements| - 1])
      else None
  {
    IndexOfDistinct(elements, i);
  }

  /** ArrowUp with focus outside the list lands on the last element only with wrap-around. */
  lemma ArrowUpFromOutside<E>(wrap: bool, elements: seq<E>, active: E, tag: string, row: Option<seq<E>>)
    requires active !in elements
    ensures HandleKey(wrap, "ArrowUp", elements, active, tag, row).focus ==
      if wrap && |elements| > 0 then Some(elements[|elements| - 1]) else None
  {
  }

  /** Enter on a select or a button clicks it in place; elsewhere it is ArrowDown. */
  lemma EnterRule<E>(wrap: bool, elements: seq<E>, active: E, tag: string, row: Option<seq<E>>)
    ensures tag == "SELECT" || tag == "BUTTON" ==>
      HandleKey(wrap, "Enter", elements, active, tag, row) == Outcome(None, true, true)
    ensures tag != "SELECT" && tag != "BUTTON" ==>
      HandleKey(wrap, "Enter", elements, active, tag, row) == HandleKey(wrap, "ArrowDown", elements, active, tag, row)
  {
  }

  /** ArrowLeft and ArrowRight from position `j` of the enclosing row: one step, never past either end. */
  lemma RowStepFrom<E>(wrap: bool, elements: seq<E>, rs: seq<E>, j: nat, tag: string)
    requires j < |rs| && Distinct(rs)
    ensures HandleKey(wrap, "ArrowLeft", elements, rs[j], tag, Some(rs)).focus ==
      if j > 0 then Some(rs[j - 1]) else None
    ensures HandleKey(wrap, "ArrowRight", elements, rs[j], tag, Some(rs)).focus ==
      if j + 1 < |rs| then Some(rs[j + 1]) else None
  {
    IndexOfDistinct(rs, j);
  }

  /**
   * From outside its row, ArrowRight enters the row at its first control and
   * ArrowLeft moves nowhere (the index is -1, so there is no previous one).
   */
  lemma RowStepFromOutside<E>(wrap: bool, elements: seq<E>, active: E, tag: string, rs: seq<E>)
    requires |rs| > 0 && active !in rs
    ensures HandleKey(wrap, "ArrowRight", elements, active, tag, Some(rs)).focus == Some(rs[0])
    ensures HandleKey(wrap, "ArrowLeft", elements, active, tag, Some(rs)).focus == None
  {
  }

  /** Without an enclosing row, ArrowLeft and ArrowRight only suppress the default action. */
  lemma RowStepNoRow<E>(wrap: bool, elements: seq<E>, active: E, tag: string)
    ensures HandleKey(wrap, "ArrowLeft", elements, active, tag, None) == Outcome(None, true, false)
    ensures HandleKey(wrap, "ArrowRight", elements, active, tag, None) == Outcome(None, true, false)
  {
  }

  /** Home and End land on the first and last element wherever focus was. */
  lemma HomeEnd<E>(wrap: bool, elements: seq<E>, active: E, tag: string, row: Option<seq<E>>)
    ensures HandleKey(wrap, "Home", elements, active, tag, row).focus ==
      if |elements| > 0 then Some(elements[0]) else None
    ensures HandleKey(wrap, "End", elements, active, tag, row).focus ==
      if |elements| > 0 then Some(elements[|elements| - 1]) else None
  {
  }

  /** Tab and every key outside the handled set get no action and keep their default. */
  lemma OtherKeys<E>(wrap: bool, key: string, elements: seq<E>, active: E, tag: string, row: Option<seq<E>>)
    requires key !in HandledKeys
    ensures HandleKey(wrap, key, elements, active, tag, row) == NoAction()
  {
  }

  /**
   * The document's focus, as the hook changes it: `active` is
   * `document.activeElement`, `clicks` the elements clicked so far.
   */
  class FocusTracker<E(==)> {
    var active: E
    var clicks: seq<E>

    constructor (initial: E)
      ensures active == initial && clicks == []
    {
      active := initial;
      clicks := [];
    }

    /**
     * One keydown event in the container. `elements`, `activeTag` and `row`
     * are what the DOM holds at this instant.
     */
    method KeyDown(c: Config, key: string, elements: seq<E>, activeTag: string, row: Option<seq<E>>)
      returns (prevented: bool)
      modifies this
      ensures var o := HandleKeyDown(c, key, elements, old(active), activeTag, row);
        && prevented == o.prevented
        && active == (if o.focus.Some? then o.focus.value else old(active))
        && clicks == old(clicks) + (if o.clicked then [old(active)] else [])
    {
      var o := HandleKeyDown(c, key, elements, active, activeTag, row);
      prevented := o.prevented;
      if o.clicked {
        clicks := clicks + [active];
      }
      if o.focus.Some? {
        active := o.focus.value;
      }
    }
  }
}
