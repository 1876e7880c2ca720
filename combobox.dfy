/** components/ui/combobox.tsx: a searchable single-choice picker. The
    chosen value comes from the parent; the component itself only keeps
    whether its popover is open. Picking the chosen option again reports
    the empty string, which a parent reads as "deselect". */
module Combobox {
  import opened Wrappers

  /** `ComboboxOption`; `labelText` is its `label`, and `hasPreview` says
      whether the optional preview node is given. */
  datatype Choice = Choice(value: string, labelText: string, hasPreview: bool,
                           fontFamily: Option<string>, primaryColor: Option<string>)

  /** `options.find((option) => option.value === value)`. */
  function Selected(options: seq<Choice>, value: Option<string>): (r: Option<Choice>)
    ensures r.None? <==> forall k :: 0 <= k < |options| ==> Some(options[k].value) != value
    ensures r.Some? ==> exists k :: 0 <= k < |options| && options[k] == r.value
                          && Some(r.value.value) == value
                          && forall j :: 0 <= j < k ==> Some(options[j].value) != value
    decreases |options|
  {
    if options == [] then None
    else if Some(options[0].value) == value then Some(options[0])
    else
      var r := Selected(options[1..], value);
      assert forall k :: 0 < k < |options| ==> options[k] == options[1..][k - 1];
      r
  }

  /** The text on the closed picker: the label of the selected option, or
      the placeholder (by default `"Select option..."`). */
  function Shown(options: seq<Choice>, value: Option<string>, placeholder: Option<string>): string {
    var sel := Selected(options, value);
    if sel.Some? then sel.value.labelText else placeholder.GetOr("Select option...")
  }

  /** `fontFamily ? { fontFamily } : undefined`: the label is styled only by
      a non-empty font family. */
  function LabelFont(option: Choice): (r: Option<string>)
    ensures r.Some? <==> option.fontFamily.Some? && option.fontFamily.value != ""
    ensures r.Some? ==> r == option.fontFamily
  {
    if option.fontFamily.Some? && option.fontFamily.value != "" then option.fontFamily else None
  }

  /** `value === option.value ? "opacity-100" : "opacity-0"` */
  predicate Checked(option: Choice, value: Option<string>) {
    value == Some(option.value)
  }

  /** What `onSelect` passes to `onValueChange`. */
  function Reported(option: Choice, value: Option<string>): (r: string)
    ensures Checked(option, value) ==> r == ""
    ensures !Checked(option, value) ==> r == option.value
  {
    if value == Some(option.value) then "" else option.value
  }

  /** The displayed option is checked, and it is the only checked option
      before it; a value no option carries shows the placeholder and no
      check mark. */
  lemma ShownIsChecked(options: seq<Choice>, value: Option<string>, placeholder: Option<string>)
    ensures Selected(options, value).Some? ==>
              Checked(Selected(options, value).value, value)
              && Shown(options, value, placeholder) == Selected(options, value).value.labelText
    ensures Selected(options, value).None? ==>
              Shown(options, value, placeholder) == placeholder.GetOr("Select option...")
              && forall k :: 0 <= k < |options| ==> !Checked(options[k], value)
  {
  }

  /** Picking twice: the second pick, made after the parent took the first
      report as its new value, reports the empty string. */
  lemma SecondPickClears(option: Choice, value: Option<string>)
    requires !Checked(option, value)
    ensures Reported(option, Some(Reported(option, value))) == ""
  {
  }

  /** The popover state, the one piece of state the picker owns. */
  class Picker {
    var open: bool
    var options: seq<Choice>
    var value: Option<string>
    var hasHandler: bool

    /** `useState(false)` on first render. */
    constructor(options: seq<Choice>, value: Option<string>, hasHandler: bool)
      ensures !open && this.options == options && this.value == value && this.hasHandler == hasHandler
    {
      open := false;
      this.options := options;
      this.value := value;
      this.hasHandler := hasHandler;
    }

    /** A later render with new props keeps the open flag. */
    method Rerender(options: seq<Choice>, value: Option<string>, hasHandler: bool)
      modifies this
      ensures open == old(open)
      ensures this.options == options && this.value == value && this.hasHandler == hasHandler
    {
      this.options := options;
      this.value := value;
      this.hasHandler := hasHandler;
    }

    /** `onOpenChange={setOpen}` */
    method OpenChange(b: bool)
      modifies this
      ensures open == b
      ensures options == old(options) && value == old(value) && hasHandler == old(hasHandler)
    {
      open := b;
    }

    /** `onSelect` of the option at index `k`: reports to the handler, when
        there is one, and closes the popover. */
    method Select(k: nat) returns (report: Option<string>)
      requires k < |options|
      modifies this
      ensures !open
      ensures options == old(options) && value == old(value) && hasHandler == old(hasHandler)
      ensures report == if hasHandler then Some(Reported(options[k], value)) else None
    {
      report := if hasHandler then Some(Reported(options[k], value)) else None;
      open := false;
    }
  }
}
