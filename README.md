# SelectorSearch select component: a verified model

`select.component.ts` is an Angular Material form-field control: a dropdown
with a search box and an exclusion list. This project models its two
non-framework parts in Dafny and proves what they promise.

- **The option filter** (`filterOptions`). It is a pure function of the option list, the
  excluded ids, the selected value, the search text and `mainKey`
  (`OptionFilter.FilterOptions`). Its result is characterised exactly:
  - it is an order-preserving selection;
  - each shown option keeps its multiplicity;
  - membership is given branch by branch.
  `Array.prototype.filter`, `String.prototype.indexOf` and `toLowerCase` are
  modelled as `Filter`, `IndexOf` and `Lower`, each with its own contract.
- **The control state machine**:
  - the `value` setter, `writeValue`, `onFocusIn` and `onFocusOut`;
  - the `disabled` setter, `setDisabledState` and `registerOnChange`/`registerOnTouched`;
  - the `options`/`exclude` setters, the `distinctUntilChanged` search
    subscription and the `mainKey` input;
  - the getters `empty`, `shouldLabelFloat` and `errorState`.

  `SelectState` gives each operation as a function from state to state over
  the `Widget` record. An event log records every `onChange(v)` and
  `onTouched()` call, every `stateChanges.next()` and every
  `filteredOptions$.next(list)`, so "fires exactly once" and "nothing fires"
  can be stated. `Select.SelectComponent` is the component as a class:
  its fields are updated in place. Each method is proved to reach the state
  the matching `SelectState` function gives, and to keep the invariant
  `SelectState.Valid`:
  - the published list is an order-preserving selection of the current
    options;
  - it is the value `filteredOptions$` replays;
  - the search box holds the last value the distinct filter let through.

Modules: `Values` (JavaScript values `undefined`/`null`/string and their
falsiness), `OptionFilter`, `SelectState`, `Select`.

Three behaviours of the code worth knowing:
- Setting `options` to `null` does not keep the previously published list.
  The setter turns `null` into `[]` and filters again, so `[]` is published
  (`SetOptionsNullPublishesEmpty`). The `!this.options` guard in
  `filterOptions` can never fire, and the model leaves it out.
- `setDisabledState` only sets `_disabled`. It does not enable or disable the
  wrapped control and does not notify (`SetDisabledStateOnlyFlag`). Only the
  `disabled` setter does both (`DisabledSetter`).
- The selected option is exempt from exclusion only while the search box is
  empty. This asymmetry is kept as written
  (`SelectedExcludedHiddenWhileSearching`).

## Model

| member | source | states |
|---|---|---|
| `OptionFilter.FilterOptions` | select.component.ts:259-280 | The published list is an order-preserving selection of the options, each shown option with all its copies. With no search text and no exclusions it is the whole list. With no search text, an option is shown iff its id is the selected value or is not excluded. With search text, an option is shown iff it is not excluded and its lower-cased `mainKey` property contains the lower-cased text. The `mainKey` property is required only when there is search text. |
| `OptionFilter.Filter` | select.component.ts:267 | `Array.filter`: the result is a subsequence of the input, holds exactly the accepted elements, and holds each of them as often as the input does. |
| `OptionFilter.IndexOf` | select.component.ts:278 | `indexOf` returns -1 or an index where the needle occurs, and no occurrence lies before it. It returns -1 only when the needle occurs nowhere. |
| `OptionFilter.IndexOfFindsSubstring` | select.component.ts:278 | `indexOf(t) > -1` holds exactly when `t` is a substring. |
| `OptionFilter.Lower` | select.component.ts:274 | `toLowerCase` keeps the length and maps each character through the per-character lower-casing. |
| `OptionFilter.LowerIdempotent` | select.component.ts:274 | Lower-casing twice is the same as lower-casing once. |
| `OptionFilter.LowerChar` | select.component.ts:278 | The lower-cased character is never an upper-case letter. Only upper-case letters change, and each becomes a lower-case letter. |
| `OptionFilter.SelectedShownWithoutSearch` | select.component.ts:264-268 | With no search text, the selected option is always shown, excluded or not. |
| `OptionFilter.SelectedExcludedHiddenWhileSearching` | select.component.ts:264-279 | With search text, a selected but excluded option is hidden. With the search box empty, the same option is shown. |
| `OptionFilter.SearchNarrows` | select.component.ts:263-279 | What is shown while searching is an order-preserving selection of what is shown with the search box empty. |
| `OptionFilter.FilterMonotone` | select.component.ts:267-278 | Filtering with a weaker test keeps, in order, everything a stronger test keeps. |
| `OptionFilter.SelectedExemptCase` | select.component.ts:264-268 | Options 1 and 2, 1 excluded and selected, empty search: both are shown. |
| `OptionFilter.ExcludedWhileSearchingCase` | select.component.ts:273-279 | The same options with search text "b": only option 2 is shown. |
| `OptionFilter.CaseInsensitiveCase` | select.component.ts:274-278 | Search text "AL" over "Alpha" and "Beta" shows only "Alpha". |
| `SelectState.SetValueNoOpIff` | select.component.ts:127-134 | Assigning a value leaves the whole state, log included, unchanged exactly when it equals the control value. |
| `SelectState.SetValueNotifies` | select.component.ts:127-134 | Assigning a different value stores it, calls the current `onChange` with it, then the current `onTouched`, then notifies once. Nothing else changes. |
| `SelectState.SetValueEmissions` | select.component.ts:127-134 | The value setter notifies exactly once when the value changes and never otherwise. It calls the callbacks twice or not at all. |
| `SelectState.SetValueKeepsPublished` | select.component.ts:127-134 | Changing the value does not filter again: the published list and the replayed value stay as they were. |
| `SelectState.WriteValueTruthy` | select.component.ts:231-233 | `writeValue` with a truthy value is exactly the value setter. |
| `SelectState.WriteValueFalsy` | select.component.ts:234-236 | `writeValue` with a falsy value resets the control value to null when it differs and leaves it alone when it is equal. No callback fires, nothing is notified, and nothing else changes. |
| `SelectState.WriteValueIdempotent` | select.component.ts:231-237 | Writing the same value twice is the same as writing it once. |
| `SelectState.WriteValueTwiceEmitsAtMostOnce` | select.component.ts:231-237 | Writing the same value twice in a row notifies at most once. |
| `SelectState.FocusInSpec` | select.component.ts:186-191 | When neither focused nor disabled, focusing in sets `focused` and appends exactly one notification. Otherwise nothing changes. On an enabled component the label floats afterwards. |
| `SelectState.FocusOutSpec` | select.component.ts:193-200 | Focus moving outside sets `touched`, clears `focused`, calls `onTouched` and then notifies once. Focus moving inside changes nothing. |
| `SelectState.FocusCycle` | select.component.ts:186-200 | Focusing in then out notifies once for each step. The control ends touched and unfocused, and an error then shows iff the control is invalid. Focus moving inside leaves the control focused. |
| `SelectState.LabelFloatRule` | select.component.ts:103-109 | With no value the label floats iff focused and not disabled. With a value it floats iff not disabled. |
| `SelectState.ErrorStateAfterBlur` | select.component.ts:149-151 | A fresh component shows no error. After focus leaves, an error shows iff the control is invalid. |
| `SelectState.TouchedNeverCleared` | select.component.ts:149-151 | No modelled operation clears `touched`, so an error that shows keeps showing while the control is invalid. This holds only because the `touchedChanges` subscription is left out. |
| `SelectState.DisabledSetter` | select.component.ts:143-147 | The `disabled` setter sets the flag, sets the control's enabled flag to its negation and notifies once. While disabled, the label does not float and focusing in is ignored. |
| `SelectState.SetDisabledStateOnlyFlag` | select.component.ts:251-253 | `setDisabledState` sets only the flag: no enable/disable of the control and no notification. |
| `SelectState.RegisterOnChangeReplaces` | select.component.ts:223-225 | After registering a hook, the next value change calls that hook with the new value, and calls no other `onChange` hook. |
| `SelectState.RegisterOnTouchedReplaces` | select.component.ts:243-245 | After registering a hook, a blur to a target outside calls that hook, and no blur calls any other `onTouched` hook. |
| `SelectState.SearchDistinct` | select.component.ts:166-171 | The same search value twice in a row filters once: the second input changes nothing and publishes nothing. |
| `SelectState.SearchPublishes` | select.component.ts:166-171 | A new search value publishes exactly one list: the options filtered with that value. |
| `SelectState.SetOptionsNullPublishesEmpty` | select.component.ts:67-70 | Setting `options` to null stores and publishes the empty list, and pushes it once. |
| `SelectState.StepPreservesValid` | select.component.ts:55-70 | Every operation keeps the invariant: the published list is a selection of the current options, is the last list pushed, and the search box holds the last distinct value. |
| `SelectState.ReachableValid` | select.component.ts:36-70 | Every state reached from a fresh component by operations that do not fault satisfies the invariant. |
| `Select.SelectComponent.constructor` | select.component.ts:25-37 | A new component holds the initial state (null value, no-op hooks, `mainKey` "id", nothing published) and satisfies the invariant. |
| `Select.SelectComponent.SetValue` | select.component.ts:127-134 | The value setter updates the fields in place, as `SelectState.SetValue` says. |
| `Select.SelectComponent.WriteValue` | select.component.ts:231-237 | `writeValue` updates the fields in place, as `SelectState.WriteValue` says. |
| `Select.SelectComponent.OnFocusIn` | select.component.ts:186-191 | `onFocusIn` updates the fields in place, as `SelectState.FocusIn` says. |
| `Select.SelectComponent.OnFocusOut` | select.component.ts:193-200 | `onFocusOut` updates the fields in place, as `SelectState.FocusOut` says. |
| `Select.SelectComponent.SetDisabled` | select.component.ts:143-147 | The `disabled` setter updates the fields in place, as `SelectState.SetDisabled` says. |
| `Select.SelectComponent.SetDisabledState` | select.component.ts:251-253 | `setDisabledState` sets only `disabled`. |
| `Select.SelectComponent.RegisterOnChange` | select.component.ts:223-225 | Replaces the `onChange` hook. |
| `Select.SelectComponent.RegisterOnTouched` | select.component.ts:243-245 | Replaces the `onTouched` hook. |
| `Select.SelectComponent.Refilter` | select.component.ts:259-280 | `filterOptions` stores `FilterOptions` of the current fields as the published list and pushes it once. |
| `Select.SelectComponent.SetOptions` | select.component.ts:67-70 | Stores the options, with null as `[]`, then filters and publishes. |
| `Select.SelectComponent.SetExclude` | select.component.ts:55-58 | Stores the exclusions, with null as `[]`, then filters and publishes. |
| `Select.SelectComponent.SetSearch` | select.component.ts:166-171 | Stores the search value. It filters and publishes only when the value differs from the last one let through. |
| `Select.SelectComponent.SetMainKey` | select.component.ts:34 | Stores `mainKey` without filtering again. |

## Left out

- Angular decorators, dependency injection, `HostBinding`, `controlType` and the static `nextId` counter. These are framework wiring, and the widget id plays no part in the logic.
- `ngAfterContentInit`: replacing `control` by the parent `NgControl`'s control, copying its `touched`, and the `touchedChanges` subscription (whose source is not part of this model). The model starts from an initialised component whose search subscription is active.
- TouchedNeverCleared: holds only in this model. With a bound `NgControl`, `writeValue` with a falsy value calls `control.reset(null)` (select.component.ts:235), which marks the wrapped control untouched. The `touchedChanges` subscription (select.component.ts:158-163) then copies `false` into `touched` and notifies. That subscription is not modelled.
- `ngOnDestroy`, subject completion and unsubscription. This is library behaviour of RxJS; no operation is modelled after teardown.
- `onContainerClick` and the `MatSelect` focus/open calls. The DOM `contains` test in `onFocusOut` is the boolean `insideControl`; a missing `elementRef` counts as outside.
- The `multiple`, `required`, `placeholder` and `aria-describedby` inputs, and `setDescribedByIds`. They store a value and, except for `aria-describedby` and `setDescribedByIds`, notify once; no logic here reads them.
- `coerceBooleanProperty`: the `disabled` input is taken as a boolean, on which that coercion is the identity.
- `FormControl` internals. The wrapped control's validity is an input of `ErrorState`. `reset(null)` is modelled only as setting the value to null; its pristine/untouched marking and its own value-change events are not.
- Values other than strings, `null` and `undefined` (numbers, objects) for the control value and the search box.
- `Lower`: only ASCII A-Z are lower-cased. Unicode case mapping, including mappings that change the length, is not modelled.
- Callbacks are identified by a number. What a registered callback does when called is outside the component; the log records only which hook was called with which argument.
