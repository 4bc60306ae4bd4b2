/**
 * The state of the select component as a value, and each of its operations as
 * a function from the state before to the state after. The callbacks it calls
 * and the notifications it pushes are kept in an event log, so that "fires
 * once" and "nothing fires" can be stated.
 */
module SelectState {
  import opened Values
  import opened OptionFilter

  /** A registered callback, told apart by an identifier. */
  type HookId = nat

  /** The no-op callbacks `onChange` and `onTouched` start out as. */
  const NoopHook: HookId := 0

  datatype Event =
    | ChangeCalled(hook: HookId, arg: JsValue)  // onChange(value)
    | TouchedCalled(hook: HookId)               // onTouched()
    | StateChanged                              // stateChanges.next()
    | Published(items: seq<Item>)               // filteredOptions$.next(items)

  /** The fields of the component that its operations read or write. */
  datatype Widget = Widget(
    value: JsValue,                // control.value
    controlEnabled: bool,          // control.enabled
    focused: bool,
    touched: bool,
    disabled: bool,                // _disabled
    onChange: HookId,
    onTouched: HookId,
    options: seq<Item>,            // _options
    exclude: seq<string>,          // _exclude
    mainKey: string,
    search: JsValue,               // selectFilterCtrl.value
    lastSearch: Option<JsValue>,   // last search value let through by distinctUntilChanged
    published: seq<Item>,          // current value of filteredOptions$
    log: seq<Event>)

  /** A freshly constructed component. */
  function Initial(): Widget {
    Widget(Null, true, false, false, false, NoopHook, NoopHook,
           [], [], "id", Null, None, [], [])
  }

  // ---------------------------------------------------------------------------
  // Getters

  predicate Empty(w: Widget) {
    Falsy(w.value)
  }

  predicate ShouldLabelFloat(w: Widget) {
    (w.focused || !Empty(w)) && !w.disabled
  }

  /** `errorState`; the validity of the wrapped control is an input. */
  predicate ErrorState(w: Widget, controlInvalid: bool) {
    controlInvalid && w.touched
  }

  // ---------------------------------------------------------------------------
  // Control state operations

  /** The `value` setter. */
  function SetValue(w: Widget, v: JsValue): Widget {
    if v == w.value then w
    else w.(value := v, log := w.log + [ChangeCalled(w.onChange, v), TouchedCalled(w.onTouched), StateChanged])
  }

  /** `writeValue`: truthy values go through the setter; falsy ones reset the control to null. */
  function WriteValue(w: Widget, v: JsValue): Widget {
    if Truthy(v) then SetValue(w, v)
    else if v != w.value then w.(value := Null)
    else w
  }

  function FocusIn(w: Widget): Widget {
    if !w.focused && !w.disabled then w.(focused := true, log := w.log + [StateChanged])
    else w
  }

  /** `onFocusOut`; `insideControl` says whether focus moved to an element inside the component. */
  function FocusOut(w: Widget, insideControl: bool): Widget {
    if !insideControl then
      w.(touched := true, focused := false, log := w.log + [TouchedCalled(w.onTouched), StateChanged])
    else w
  }

  /** The `disabled` setter. */
  function SetDisabled(w: Widget, b: bool): Widget {
    w.(disabled := b, controlEnabled := !b, log := w.log + [StateChanged])
  }

  function SetDisabledState(w: Widget, b: bool): Widget {
    w.(disabled := b)
  }

  function RegisterOnChange(w: Widget, h: HookId): Widget {
    w.(onChange := h)
  }

  function RegisterOnTouched(w: Widget, h: HookId): Widget {
    w.(onTouched := h)
  }

  // ---------------------------------------------------------------------------
  // Option list operations

  /** What `filterOptions` needs: the `mainKey` property on every option when searching. */
  predicate CanFilter(w: Widget) {
    Truthy(w.search) ==> AllHaveField(w.options, w.mainKey)
  }

  /** `filterOptions`: compute the visible list and push it into `filteredOptions$`. */
  function Publish(w: Widget): Widget
    requires CanFilter(w)
  {
    var r := FilterOptions(w.options, w.exclude, w.value, w.search, w.mainKey);
    w.(published := r, log := w.log + [Published(r)])
  }

  /** `null` and `undefined` become the empty list. */
  function OrEmpty<T>(v: Option<seq<T>>): seq<T> {
    if v.Some? then v.value else []
  }

  /** The `options` setter. */
  function SetOptions(w: Widget, v: Option<seq<Item>>): Widget
    requires Truthy(w.search) ==> AllHaveField(OrEmpty(v), w.mainKey)
  {
    Publish(w.(options := OrEmpty(v)))
  }

  /** The `exclude` setter. */
  function SetExclude(w: Widget, v: Option<seq<string>>): Widget
    requires CanFilter(w)
  {
    Publish(w.(exclude := OrEmpty(v)))
  }

  /**
   * A new value in the search box. The subscription behind `distinctUntilChanged`
   * filters again only when the value differs from the last one it let through.
   */
  function SetSearch(w: Widget, v: JsValue): Widget
    requires Truthy(v) && w.lastSearch != Some(v) ==> AllHaveField(w.options, w.mainKey)
  {
    if w.lastSearch == Some(v) then w.(search := v)
    else Publish(w.(search := v, lastSearch := Some(v)))
  }

  /** The `mainKey` input: a plain field, nothing is filtered again. */
  function SetMainKey(w: Widget, k: string): Widget {
    w.(mainKey := k)
  }

  // ---------------------------------------------------------------------------
  // Counting events

  function CountWhere(log: seq<Event>, p: Event -> bool): nat {
    if log == [] then 0 else (if p(log[0]) then 1 else 0) + CountWhere(log[1..], p)
  }

  lemma {:induction false} CountWhereAppend(a: seq<Event>, b: seq<Event>, p: Event -> bool)
    ensures CountWhere(a + b, p) == CountWhere(a, p) + CountWhere(b, p)
  {
    if a == [] {
      assert a + b == b;
    } else {
      assert (a + b)[1..] == a[1..] + b;
      CountWhereAppend(a[1..], b, p);
    }
  }

  predicate IsStateChange(e: Event) {
    e.StateChanged?
  }

  predicate IsCallback(e: Event) {
    e.ChangeCalled? || e.TouchedCalled?
  }

  /** How many times `stateChanges` has emitted. */
  function StateChanges(log: seq<Event>): nat {
    CountWhere(log, IsStateChange)
  }

  /** How many times `onChange` or `onTouched` has been called. */
  function Callbacks(log: seq<Event>): nat {
    CountWhere(log, IsCallback)
  }

  /** What a step appended to the log. */
  function NewEvents(before: Widget, after: Widget): seq<Event>
    requires |before.log| <= |after.log|
  {
    after.log[|before.log|..]
  }

  // ---------------------------------------------------------------------------
  // Invariant

  /** The value `filteredOptions$` replays to a late subscriber: the last list pushed, or `[]`. */
  ghost function LastPublished(log: seq<Event>): seq<Item> {
    if log == [] then []
    else if log[|log| - 1].Published? then log[|log| - 1].items
    else LastPublished(log[..|log| - 1])
  }

  lemma {:induction false} LastPublishedAppend(log: seq<Event>, es: seq<Event>)
    requires forall i :: 0 <= i < |es| ==> !es[i].Published?
    ensures LastPublished(log + es) == LastPublished(log)
  {
    if es == [] {
      assert log + es == log;
    } else {
      var init := es[..|es| - 1];
      assert (log + es)[..|log + es| - 1] == log + init;
      LastPublishedAppend(log, init);
    }
  }

  /**
   * The states the component can be in: the published list is taken, in order,
   * from the current options and is the last list pushed into the stream, and
   * the search box holds the last value the distinct filter let through.
   */
  ghost predicate Valid(w: Widget) {
    IsSubsequence(w.published, w.options) &&
    w.published == LastPublished(w.log) &&
    w.search == (if w.lastSearch.Some? then w.lastSearch.value else Null)
  }

  /** An input from the form framework or the view. */
  datatype Op =
    | AssignValue(v: JsValue)
    | WriteValueOp(v: JsValue)
    | FocusInOp
    | FocusOutOp(insideControl: bool)
    | AssignDisabled(b: bool)
    | SetDisabledStateOp(b: bool)
    | RegisterOnChangeOp(h: HookId)
    | RegisterOnTouchedOp(h: HookId)
    | AssignOptions(options: Option<seq<Item>>)
    | AssignExclude(exclude: Option<seq<string>>)
    | SearchInput(v: JsValue)
    | AssignMainKey(k: string)

  /** Whether `op` can run without faulting in `w`. */
  predicate CanStep(w: Widget, op: Op) {
    match op
    case AssignOptions(o) => Truthy(w.search) ==> AllHaveField(OrEmpty(o), w.mainKey)
    case AssignExclude(_) => CanFilter(w)
    case SearchInput(v) => Truthy(v) && w.lastSearch != Some(v) ==> AllHaveField(w.options, w.mainKey)
    case _ => true
  }

  function Step(w: Widget, op: Op): Widget
    requires CanStep(w, op)
  {
    match op
    case AssignValue(v) => SetValue(w, v)
    case WriteValueOp(v) => WriteValue(w, v)
    case FocusInOp => FocusIn(w)
    case FocusOutOp(inside) => FocusOut(w, inside)
    case AssignDisabled(b) => SetDisabled(w, b)
    case SetDisabledStateOp(b) => SetDisabledState(w, b)
    case RegisterOnChangeOp(h) => RegisterOnChange(w, h)
    case RegisterOnTouchedOp(h) => RegisterOnTouched(w, h)
    case AssignOptions(o) => SetOptions(w, o)
    case AssignExclude(e) => SetExclude(w, e)
    case SearchInput(v) => SetSearch(w, v)
    case AssignMainKey(k) => SetMainKey(w, k)
  }

  lemma PublishValid(w: Widget)
    requires CanFilter(w)
    requires w.search == (if w.lastSearch.Some? then w.lastSearch.value else Null)
    ensures Valid(Publish(w))
  {
  }

  /** Every operation keeps the invariant. */
  lemma StepPreservesValid(w: Widget, op: Op)
    requires Valid(w) && CanStep(w, op)
    ensures Valid(Step(w, op))
  {
    match op
    case AssignValue(v) =>
      if v != w.value {
        LastPublishedAppend(w.log, [ChangeCalled(w.onChange, v), TouchedCalled(w.onTouched), StateChanged]);
      }
    case FocusInOp =>
      LastPublishedAppend(w.log, [StateChanged]);
    case FocusOutOp(inside) =>
      LastPublishedAppend(w.log, [TouchedCalled(w.onTouched), StateChanged]);
    case AssignDisabled(b) =>
      LastPublishedAppend(w.log, [StateChanged]);
    case WriteValueOp(v) =>
      if Truthy(v) && v != w.value {
        LastPublishedAppend(w.log, [ChangeCalled(w.onChange, v), TouchedCalled(w.onTouched), StateChanged]);
      }
    case AssignOptions(o) =>
      PublishValid(w.(options := OrEmpty(o)));
    case AssignExclude(e) =>
      PublishValid(w.(exclude := OrEmpty(e)));
    case SearchInput(v) =>
      if w.lastSearch != Some(v) {
        PublishValid(w.(search := v, lastSearch := Some(v)));
      }
    case _ =>
  }

  /** Whether every operation of `ops`, run in order from `w`, can run without faulting. */
  ghost predicate Runnable(w: Widget, ops: seq<Op>)
    decreases |ops|
  {
    ops == [] || (CanStep(w, ops[0]) && Runnable(Step(w, ops[0]), ops[1..]))
  }

  function Run(w: Widget, ops: seq<Op>): Widget
    requires Runnable(w, ops)
    decreases |ops|
  {
    if ops == [] then w else Run(Step(w, ops[0]), ops[1..])
  }

  /** Every state reachable from a fresh component satisfies the invariant. */
  lemma {:induction false} RunPreservesValid(w: Widget, ops: seq<Op>)
    requires Valid(w) && Runnable(w, ops)
    ensures Valid(Run(w, ops))
    decreases |ops|
  {
    if ops != [] {
      StepPreservesValid(w, ops[0]);
      RunPreservesValid(Step(w, ops[0]), ops[1..]);
    }
  }

  lemma ReachableValid(ops: seq<Op>)
    requires Runnable(Initial(), ops)
    ensures Valid(Run(Initial(), ops))
  {
    RunPreservesValid(Initial(), ops);
  }

  // ---------------------------------------------------------------------------
  // Properties of the control state operations

  /** Assigning the current value changes nothing, and only that changes nothing. */
  lemma SetValueNoOpIff(w: Widget, v: JsValue)
    ensures SetValue(w, v) == w <==> v == w.value
  {
  }

  /**
   * Assigning a different value stores it, calls the current `onChange` with it,
   * then the current `onTouched`, then notifies once; nothing else changes.
   */
  lemma SetValueNotifies(w: Widget, v: JsValue)
    requires v != w.value
    ensures var r := SetValue(w, v);
      r.value == v && r.(value := w.value, log := w.log) == w &&
      NewEvents(w, r) == [ChangeCalled(w.onChange, v), TouchedCalled(w.onTouched), StateChanged]
  {
  }

  /** `stateChanges` emits once when the value changes and never otherwise; the callbacks fire twice or not at all. */
  lemma SetValueEmissions(w: Widget, v: JsValue)
    ensures StateChanges(SetValue(w, v).log) == StateChanges(w.log) + (if v != w.value then 1 else 0)
    ensures Callbacks(SetValue(w, v).log) == Callbacks(w.log) + (if v != w.value then 2 else 0)
  {
    if v != w.value {
      var es := [ChangeCalled(w.onChange, v), TouchedCalled(w.onTouched), StateChanged];
      CountWhereAppend(w.log, es, IsStateChange);
      CountWhereAppend(w.log, es, IsCallback);
      var tail := [TouchedCalled(w.onTouched), StateChanged];
      assert es[1..] == tail && tail[1..] == [StateChanged] && [StateChanged][1..] == [];
      assert CountWhere([StateChanged], IsStateChange) == 1 && CountWhere([StateChanged], IsCallback) == 0;
      assert CountWhere(tail, IsStateChange) == 1 && CountWhere(tail, IsCallback) == 1;
    }
  }

  /** A truthy value written by the form framework takes the same path as the `value` setter. */
  lemma WriteValueTruthy(w: Widget, v: JsValue)
    requires Truthy(v)
    ensures WriteValue(w, v) == SetValue(w, v)
  {
  }

  /**
   * A falsy value resets the control to null when it differs from the current
   * value and is ignored when it equals it; either way no callback fires and
   * nothing is notified.
   */
  lemma WriteValueFalsy(w: Widget, v: JsValue)
    requires Falsy(v)
    ensures WriteValue(w, v).value == (if v == w.value then w.value else Null)
    ensures WriteValue(w, v).(value := w.value) == w
  {
  }

  /** Writing the same value twice is the same as writing it once. */
  lemma WriteValueIdempotent(w: Widget, v: JsValue)
    ensures WriteValue(WriteValue(w, v), v) == WriteValue(w, v)
  {
  }

  /** Writing the same value twice in a row notifies at most once. */
  lemma WriteValueTwiceEmitsAtMostOnce(w: Widget, v: JsValue)
    ensures StateChanges(WriteValue(WriteValue(w, v), v).log) <= StateChanges(w.log) + 1
  {
    WriteValueIdempotent(w, v);
    if Truthy(v) {
      SetValueEmissions(w, v);
    }
  }

  /**
   * `onFocusIn` sets `focused` and notifies once exactly when neither focused
   * nor disabled; once it has run on an enabled component the label floats.
   */
  lemma FocusInSpec(w: Widget)
    ensures !w.disabled ==> ShouldLabelFloat(FocusIn(w))
    ensures var r := FocusIn(w);
      if !w.focused && !w.disabled then
        r.focused && r.(focused := w.focused, log := w.log) == w && NewEvents(w, r) == [StateChanged]
      else r == w
  {
  }

  /**
   * `onFocusOut` to a target outside marks the control touched and unfocused,
   * calls `onTouched` and notifies once; to a target inside it does nothing.
   */
  lemma FocusOutSpec(w: Widget, insideControl: bool)
    ensures var r := FocusOut(w, insideControl);
      if !insideControl then
        r.touched && !r.focused && r.(touched := w.touched, focused := w.focused, log := w.log) == w &&
        NewEvents(w, r) == [TouchedCalled(w.onTouched), StateChanged]
      else r == w
  {
  }

  /**
   * Focus in then out: one notification for each, the control ends touched and
   * unfocused, and an error shows exactly when the control is invalid. Focus
   * moving inside leaves the control focused with nothing emitted.
   */
  lemma FocusCycle(w: Widget, controlInvalid: bool)
    requires !w.focused && !w.disabled
    ensures var w1 := FocusIn(w);
      w1.focused && StateChanges(w1.log) == StateChanges(w.log) + 1 &&
      FocusOut(w1, true) == w1 &&
      var w2 := FocusOut(w1, false);
      w2.touched && !w2.focused && StateChanges(w2.log) == StateChanges(w.log) + 2 &&
      (ErrorState(w2, controlInvalid) <==> controlInvalid)
  {
    var w1 := FocusIn(w);
    CountWhereAppend(w.log, [StateChanged], IsStateChange);
    CountWhereAppend(w1.log, [TouchedCalled(w.onTouched), StateChanged], IsStateChange);
    assert [TouchedCalled(w.onTouched), StateChanged][1..] == [StateChanged];
  }

  /** The label floats when focused or holding a value, and never while disabled. */
  lemma LabelFloatRule(w: Widget)
    ensures Empty(w) ==> (ShouldLabelFloat(w) <==> w.focused && !w.disabled)
    ensures !Empty(w) ==> (ShouldLabelFloat(w) <==> !w.disabled)
  {
  }

  /**
   * No error shows on a fresh component; once focus has left it, an error
   * shows exactly when the wrapped control is invalid.
   */
  lemma ErrorStateAfterBlur(w: Widget, controlInvalid: bool)
    ensures !ErrorState(Initial(), controlInvalid)
    ensures ErrorState(FocusOut(w, false), controlInvalid) <==> controlInvalid
  {
  }

  /**
   * No modelled operation clears `touched`, so an error, once shown, stays
   * while the control is invalid. The `touchedChanges` subscription, which
   * can copy `false` back from the wrapped control, is not part of this model.
   */
  lemma TouchedNeverCleared(w: Widget, op: Op, controlInvalid: bool)
    requires CanStep(w, op) && w.touched
    ensures Step(w, op).touched
    ensures ErrorState(w, controlInvalid) ==> ErrorState(Step(w, op), controlInvalid)
  {
  }

  /**
   * The `disabled` setter also disables or enables the wrapped control and
   * notifies once; while disabled, the label does not float and focusing in
   * is ignored.
   */
  lemma DisabledSetter(w: Widget, b: bool)
    ensures SetDisabled(w, b).disabled == b && SetDisabled(w, b).controlEnabled == !b
    ensures NewEvents(w, SetDisabled(w, b)) == [StateChanged]
    ensures b ==> !ShouldLabelFloat(SetDisabled(w, b)) && FocusIn(SetDisabled(w, b)) == SetDisabled(w, b)
  {
  }

  /**
   * `setDisabledState` only sets the flag: the wrapped control's enabled flag
   * stays as it was and nothing is notified.
   */
  lemma SetDisabledStateOnlyFlag(w: Widget, b: bool)
    ensures SetDisabledState(w, b).disabled == b
    ensures SetDisabledState(w, b).(disabled := w.disabled) == w
    ensures b ==> !ShouldLabelFloat(SetDisabledState(w, b))
  {
  }

  /** A registered callback replaces the previous one: the next change calls the new hook and no other. */
  lemma RegisterOnChangeReplaces(w: Widget, h: HookId, v: JsValue)
    requires v != w.value
    ensures var r := SetValue(RegisterOnChange(w, h), v);
      ChangeCalled(h, v) in NewEvents(w, r) &&
      forall e :: e in NewEvents(w, r) && e.ChangeCalled? ==> e == ChangeCalled(h, v)
  {
  }

  lemma RegisterOnTouchedReplaces(w: Widget, h: HookId, insideControl: bool)
    ensures var r := FocusOut(RegisterOnTouched(w, h), insideControl);
      (!insideControl ==> TouchedCalled(h) in NewEvents(w, r)) &&
      forall e :: e in NewEvents(w, r) && e.TouchedCalled? ==> e == TouchedCalled(h)
  {
  }

  // ---------------------------------------------------------------------------
  // Properties of the option list operations

  /** Typing the same search value twice in a row filters once: the second time nothing is published. */
  lemma SearchDistinct(w: Widget, v: JsValue)
    requires Truthy(v) && w.lastSearch != Some(v) ==> AllHaveField(w.options, w.mainKey)
    ensures SetSearch(SetSearch(w, v), v) == SetSearch(w, v)
  {
  }

  /** A new search value publishes, once, the options filtered with it. */
  lemma SearchPublishes(w: Widget, v: JsValue)
    requires w.lastSearch != Some(v)
    requires Truthy(v) ==> AllHaveField(w.options, w.mainKey)
    ensures var r := SetSearch(w, v);
      r.published == FilterOptions(w.options, w.exclude, w.value, v, w.mainKey) &&
      NewEvents(w, r) == [Published(r.published)]
  {
  }

  /** Setting `options` to null publishes the empty list. */
  lemma SetOptionsNullPublishesEmpty(w: Widget)
    ensures SetOptions(w, None).options == [] && SetOptions(w, None).published == []
    ensures NewEvents(w, SetOptions(w, None)) == [Published([])]
  {
  }

  /** Changing the selected value does not filter again: the published list is left as it was. */
  lemma SetValueKeepsPublished(w: Widget, v: JsValue)
    ensures SetValue(w, v).published == w.published
    ensures LastPublished(SetValue(w, v).log) == LastPublished(w.log)
  {
    if v != w.value {
      LastPublishedAppend(w.log, [ChangeCalled(w.onChange, v), TouchedCalled(w.onTouched), StateChanged]);
    }
  }
}
