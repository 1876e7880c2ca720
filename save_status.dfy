/** components/editor/SaveStatusIndicator.tsx: the small status badge of
    the editor. The four save states and the "unsaved changes" flag decide
    an icon, a colour and an optional text. */
module SaveStatusIndicator {
  import opened Wrappers

  /** `type SaveStatus = 'idle' | 'saving' | 'saved' | 'error'`. */
  datatype SaveStatus = Idle | Saving | Saved | Error

  datatype Icon = PulsingDot | Check | Spinner | Cross

  datatype Tone = Orange | Green | Blue | Red

  /** What the badge shows: an icon, its colour and, except for the bare
      unsaved dot, a text. */
  datatype Badge = Badge(icon: Icon, tone: Tone, text: Option<string>)

  /** The optional `hasChanges` prop, which defaults to `false`. */
  function HasChanges(flag: Option<bool>): bool {
    flag.GetOr(false)
  }

  /** The chain of `if (status === ...)` returns. */
  function Indicate(status: SaveStatus, hasChanges: bool): (b: Badge)
    ensures b.text.None? <==> status == Idle && hasChanges
    ensures b.text == Some("Saved") <==> status == Saved || (status == Idle && !hasChanges)
    ensures b.text == Some("Saving changes") <==> status == Saving
    ensures b.text == Some("Error") <==> status == Error
    ensures b.icon == PulsingDot <==> b.text.None?
  {
    match status
    case Idle =>
      if hasChanges then Badge(PulsingDot, Orange, None)
      else Badge(Check, Green, Some("Saved"))
    case Saving => Badge(Spinner, Blue, Some("Saving changes"))
    case Saved => Badge(Check, Green, Some("Saved"))
    case Error => Badge(Cross, Red, Some("Error"))
  }

  /** The badge for the props as given, with the default applied. */
  function Render(status: SaveStatus, hasChanges: Option<bool>): Badge {
    Indicate(status, HasChanges(hasChanges))
  }

  /** Only the idle state looks at the flag; every other state shows the
      same badge with or without unsaved changes. */
  lemma FlagMattersOnlyWhenIdle(status: SaveStatus)
    ensures Indicate(status, true) == Indicate(status, false) <==> status != Idle
  {
  }

  /** Leaving out `hasChanges` is the same as passing `false`. */
  lemma MissingFlagIsFalse(status: SaveStatus)
    ensures Render(status, None) == Indicate(status, false)
    ensures Render(status, None).text.Some?
  {
  }

  /** An idle editor without changes and a saved editor look alike. */
  lemma IdleCleanLooksSaved(hasChanges: bool)
    ensures Indicate(Idle, false) == Indicate(Saved, hasChanges)
  {
  }
}
