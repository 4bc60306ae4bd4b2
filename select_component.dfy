/**
 * The select component as an object: its fields, and one method per setter,
 * event handler and value-accessor call, each updating the fields in place.
 * Every method is proved to take the component to the state the matching
 * function of SelectState gives, and to keep SelectState.Valid.
 */
module Select {
  import opened Values
  import opened OptionFilter
  import SelectState

  class SelectComponent {
    var value: JsValue              // control.value
    var controlEnabled: bool        // control.enabled
    var focused: bool
    var touched: bool
    var disabled: bool              // _disabled
    var onChange: SelectState.HookId
    var onTouched: SelectState.HookId
    var options: seq<Item>          // _options
    var exclude: seq<string>        // _exclude
    var mainKey: string
    var search: JsValue             // selectFilterCtrl.value
    var lastSearch: Option<JsValue> // what distinctUntilChanged compares against
    var published: seq<Item>        // current value of filteredOptions$
    var log: seq<SelectState.Event> // callbacks called and notifications pushed, in order

    /** The fields as a value. */
    function Snapshot(): SelectState.Widget
      reads this
    {
      SelectState.Widget(value, controlEnabled, focused, touched, disabled, onChange, onTouched,
                         options, exclude, mainKey, search, lastSearch, published, log)
    }

    ghost predicate Valid()
      reads this
    {
      SelectState.Valid(Snapshot())
    }

    constructor ()
      ensures Valid() && Snapshot() == SelectState.Initial()
    {
      value, controlEnabled := Null, true;
      focused, touched, disabled := false, false, false;
      onChange, onTouched := SelectState.NoopHook, SelectState.NoopHook;
      options, exclude, mainKey := [], [], "id";
      search, lastSearch := Null, None;
      published, log := [], [];
    }

    /** The `value` setter. */
    method SetValue(v: JsValue)
      requires Valid()
      modifies this
      ensures Valid() && Snapshot() == SelectState.SetValue(old(Snapshot()), v)
    {
      ghost var w := Snapshot();
      if v != value {
        value := v;
        log := log + [SelectState.ChangeCalled(onChange, v), SelectState.TouchedCalled(onTouched),
                      SelectState.StateChanged];
      }
      SelectState.StepPreservesValid(w, SelectState.AssignValue(v));
    }

    method WriteValue(v: JsValue)
      requires Valid()
      modifies this
      ensures Valid() && Snapshot() == SelectState.WriteValue(old(Snapshot()), v)
    {
      if Truthy(v) {
        SetValue(v);
      } else if v != value {
        value := Null;
      }
    }

    method OnFocusIn()
      requires Valid()
      modifies this
      ensures Valid() && Snapshot() == SelectState.FocusIn(old(Snapshot()))
    {
      ghost var w := Snapshot();
      if !focused && !disabled {
        focused := true;
        log := log + [SelectState.StateChanged];
      }
      SelectState.StepPreservesValid(w, SelectState.FocusInOp);
    }

    /** `insideControl`: the element receiving focus lies inside the component. */
    method OnFocusOut(insideControl: bool)
      requires Valid()
      modifies this
      ensures Valid() && Snapshot() == SelectState.FocusOut(old(Snapshot()), insideControl)
    {
      ghost var w := Snapshot();
      if !insideControl {
        touched := true;
        focused := false;
        log := log + [SelectState.TouchedCalled(onTouched), SelectState.StateChanged];
      }
      SelectState.StepPreservesValid(w, SelectState.FocusOutOp(insideControl));
    }

    /** The `disabled` setter. */
    method SetDisabled(b: bool)
      requires Valid()
      modifies this
      ensures Valid() && Snapshot() == SelectState.SetDisabled(old(Snapshot()), b)
    {
      ghost var w := Snapshot();
      disabled := b;
      controlEnabled := !disabled;
      log := log + [SelectState.StateChanged];
      assert Snapshot() == SelectState.SetDisabled(w, b);
      SelectState.StepPreservesValid(w, SelectState.AssignDisabled(b));
    }

    method SetDisabledState(b: bool)
      requires Valid()
      modifies this
      ensures Valid() && Snapshot() == SelectState.SetDisabledState(old(Snapshot()), b)
    {
      disabled := b;
    }

    method RegisterOnChange(h: SelectState.HookId)
      requires Valid()
      modifies this
      ensures Valid() && Snapshot() == SelectState.RegisterOnChange(old(Snapshot()), h)
    {
      onChange := h;
    }

    method RegisterOnTouched(h: SelectState.HookId)
      requires Valid()
      modifies this
      ensures Valid() && Snapshot() == SelectState.RegisterOnTouched(old(Snapshot()), h)
    {
      onTouched := h;
    }

    /** `filterOptions`. */
    method Refilter()
      requires Truthy(search) ==> AllHaveField(options, mainKey)
      requires search == (if lastSearch.Some? then lastSearch.value else Null)
      modifies this
      ensures Valid() && Snapshot() == SelectState.Publish(old(Snapshot()))
    {
      ghost var w := Snapshot();
      var r := FilterOptions(options, exclude, value, search, mainKey);
      published := r;
      log := log + [SelectState.Published(r)];
      SelectState.PublishValid(w);
    }

    /** The `options` setter; `None` stands for `null` or `undefined`. */
    method SetOptions(v: Option<seq<Item>>)
      requires Valid()
      requires Truthy(search) ==> AllHaveField(SelectState.OrEmpty(v), mainKey)
      modifies this
      ensures Valid() && Snapshot() == SelectState.SetOptions(old(Snapshot()), v)
    {
      options := if v.Some? then v.value else [];
      Refilter();
    }

    /** The `exclude` setter; `None` stands for `null` or `undefined`. */
    method SetExclude(v: Option<seq<string>>)
      requires Valid()
      requires Truthy(search) ==> AllHaveField(options, mainKey)
      modifies this
      ensures Valid() && Snapshot() == SelectState.SetExclude(old(Snapshot()), v)
    {
      exclude := if v.Some? then v.value else [];
      Refilter();
    }

    /** A new value in the search box, as seen by the `distinctUntilChanged` subscription. */
    method SetSearch(v: JsValue)
      requires Valid()
      requires Truthy(v) && lastSearch != Some(v) ==> AllHaveField(options, mainKey)
      modifies this
      ensures Valid() && Snapshot() == SelectState.SetSearch(old(Snapshot()), v)
    {
      search := v;
      if lastSearch != Some(v) {
        lastSearch := Some(v);
        Refilter();
      }
    }

    /** The `mainKey` input. */
    method SetMainKey(k: string)
      requires Valid()
      modifies this
      ensures Valid() && Snapshot() == SelectState.SetMainKey(old(Snapshot()), k)
    {
      mainKey := k;
    }
  }
}
