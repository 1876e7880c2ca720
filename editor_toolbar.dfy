/** components/editor/EditorToolbar.tsx: the bar above the editor. The
    read-only flag, the unsaved-changes flag and the save state decide
    which controls appear and which of them are enabled. */
module EditorToolbar {
  import opened Wrappers
  import SaveStatusIndicator
  import ThemeSelector

  /** The props; `readOnly` and `hasChanges` are optional. */
  datatype Props = Props(displayName: Option<string>, description: Option<string>, currentTheme: string,
                         saveStatus: SaveStatusIndicator.SaveStatus, readOnly: Option<bool>,
                         hasChanges: Option<bool>)

  /** What the bar shows. `themeSelector` is the theme the selector treats
      as current; `reset` and `save` hold whether the button is disabled. */
  datatype Bar = Bar(title: Option<string>, description: Option<string>, themeSelector: Option<string>,
                     status: SaveStatusIndicator.Badge, reset: Option<bool>, save: Option<bool>)

  /** `{text && <…>}`: an optional text is shown when it is present and
      not empty. */
  function ShownText(text: Option<string>): (r: Option<string>)
    ensures r.Some? <==> text.Some? && text.value != ""
    ensures r.Some? ==> r == text
  {
    if text.Some? && text.value != "" then text else None
  }

  /** The bar for the given props. The selector gets no stylesheet, so the
      theme it treats as current is computed without `detect`. */
  function Render(p: Props, detect: string -> string): (b: Bar)
    ensures b.status == SaveStatusIndicator.Render(p.saveStatus, p.hasChanges)
    ensures p.readOnly == Some(true) ==> b.themeSelector.None? && b.reset.None? && b.save.None?
    ensures p.readOnly != Some(true) ==> b.themeSelector == Some(p.currentTheme)
    ensures p.readOnly != Some(true) ==> b.reset == Some(!SaveStatusIndicator.HasChanges(p.hasChanges))
    ensures b.save.Some? <==> p.readOnly != Some(true) && p.hasChanges == Some(true)
    ensures b.save.Some? ==> (b.save.value <==> p.saveStatus == SaveStatusIndicator.Saving)
  {
    var hasChanges := SaveStatusIndicator.HasChanges(p.hasChanges);
    var readOnly := p.readOnly.GetOr(false);
    Bar(ShownText(p.displayName), ShownText(p.description),
        if readOnly then None else Some(ThemeSelector.Effective(None, p.currentTheme, detect)),
        SaveStatusIndicator.Indicate(p.saveStatus, hasChanges),
        if readOnly then None else Some(!hasChanges),
        if !readOnly && hasChanges then Some(p.saveStatus == SaveStatusIndicator.Saving) else None)
  }

  /** Without `hasChanges` the reset button is disabled and there is no
      save button, and the badge shows a text. */
  lemma {:induction false} DefaultIsClean(p: Props, detect: string -> string)
    requires p.hasChanges.None? && p.readOnly != Some(true)
    ensures Render(p, detect).reset == Some(true)
    ensures Render(p, detect).save.None?
    ensures Render(p, detect).status.text.Some?
  {
    SaveStatusIndicator.MissingFlagIsFalse(p.saveStatus);
  }

  /** In an editable idle editor the orange dot and the save button come
      together: the badge is the bare dot exactly when saving is offered. */
  lemma {:induction false} DotMeansSave(p: Props, detect: string -> string)
    requires p.readOnly != Some(true) && p.saveStatus == SaveStatusIndicator.Idle
    ensures Render(p, detect).status.icon == SaveStatusIndicator.PulsingDot <==> Render(p, detect).save.Some?
  {
    var b := Render(p, detect);
    assert b.status == SaveStatusIndicator.Indicate(SaveStatusIndicator.Idle, p.hasChanges.GetOr(false));
  }

  /** An offered save button is enabled exactly when the badge does not say
      that a save is under way. */
  lemma {:induction false} SaveEnabledUnlessSaving(p: Props, detect: string -> string)
    requires Render(p, detect).save.Some?
    ensures !Render(p, detect).save.value <==> Render(p, detect).status.text != Some("Saving changes")
  {
    var b := Render(p, detect);
    assert b.status == SaveStatusIndicator.Indicate(p.saveStatus, p.hasChanges.GetOr(false));
  }
}
