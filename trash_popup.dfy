/** components/TrashPopup.tsx: the drawer listing a user's deleted
    components. Each card counts down the days until the component is
    deleted for good and offers a restore button; one restore at a time is
    tracked as in progress. */
module TrashPopup {
  import opened Wrappers
  import opened Strings

  /** Milliseconds in a day, and the seven days a deleted component is
      kept. */
  const DayMs: int := 24 * 60 * 60 * 1000
  const KeepMs: int := 7 * DayMs

  /** `Math.ceil(x / d)` for a positive `d`. */
  function CeilDiv(x: int, d: int): (q: int)
    requires d > 0
    ensures (q - 1) * d < x <= q * d
  {
    -((-x) / d)
  }

  /** `daysUntilPermanent`: a missing or zero `deletedAt` (falsy in the
      source) gives 0. */
  function DaysLeft(deletedAt: Option<int>, now: int): int {
    if deletedAt.None? || deletedAt.value == 0 then 0
    else CeilDiv(KeepMs - (now - deletedAt.value), DayMs)
  }

  /** Days remain exactly while less than seven days have passed; a
      component deleted no earlier than now has at most seven days left,
      and the count is the number of started days before the deadline. */
  lemma DaysLeftSpec(deletedAt: int, now: int)
    requires deletedAt != 0
    ensures var days := DaysLeft(Some(deletedAt), now);
            (days > 0 <==> now - deletedAt < KeepMs)
            && (now - deletedAt >= 0 ==> days <= 7)
            && (days - 1) * DayMs < KeepMs - (now - deletedAt) <= days * DayMs
  {
    var days := DaysLeft(Some(deletedAt), now);
    MulMonotone(days, 0, DayMs);
    MulMonotone(8, days, DayMs);
  }

  /** Multiplying by a positive factor keeps the order of the other one. */
  lemma MulMonotone(a: int, b: int, d: int)
    requires d > 0
    ensures a <= b ==> a * d <= b * d
  {
    if a <= b {
      assert b * d - a * d == (b - a) * d;
    }
  }

  /** The line under the date: shown only while days remain, with "day"
      for one day and "days" otherwise. */
  function Countdown(days: int): (line: Option<string>)
    ensures line.Some? <==> days > 0
  {
    if days > 0 then Some("Permanently deleted in " + IntToString(days) + " day" + (if days == 1 then "" else "s"))
    else None
  }

  /** The header line for a list of `count` components, `None` while the
      list is loading. */
  function Header(count: Option<nat>): string {
    if count.None? then "Loading..."
    else if count.value == 0 then "No deleted components"
    else IntToString(count.value) + " deleted component" + (if count.value == 1 then "" else "s")
  }

  /** Both texts use the plural exactly when the number is not one. */
  lemma PluralUnlessOne(n: nat)
    requires n > 0
    ensures EndsWith(Header(Some(n)), "s") <==> n != 1
    ensures EndsWith(Countdown(n).value, "s") <==> n != 1
  {
    var h := Header(Some(n));
    var c := Countdown(n).value;
    assert h[|h| - 1] == (if n == 1 then 't' else 's');
    assert c[|c| - 1] == (if n == 1 then 'y' else 's');
    assert h[|h| - 1..] == [h[|h| - 1]];
    assert c[|c| - 1..] == [c[|c| - 1]];
  }

  /** The name the preview card is given: the catalog id when it is
      non-empty, else the name in lower case with each run of blanks
      turned into one `-`. */
  function PreviewName(catalogId: Option<string>, name: string): string {
    if catalogId.Some? && catalogId.value != "" then catalogId.value
    else ReplaceRuns(Lower(name), IsSpace, "-")
  }

  /** A derived preview name holds no blank and no upper-case ASCII
      letter. */
  lemma PreviewNameClean(name: string)
    ensures var r := PreviewName(None, name);
            forall i :: 0 <= i < |r| ==> !IsSpace(r[i]) && !('A' <= r[i] <= 'Z')
  {
    var r := PreviewName(None, name);
    var low := Lower(name);
    ReplaceRunsChars(low, IsSpace, "-");
    forall i | 0 <= i < |r| ensures !IsSpace(r[i]) && !('A' <= r[i] <= 'Z') {
      assert r[i] in r;
      if r[i] in low {
        var k :| 0 <= k < |low| && low[k] == r[i];
        assert low[k] == LowerChar(name[k]);
      }
    }
  }

  /** A user component id. */
  type Id = nat

  /** The restore button of the card for `id`: disabled and labelled
      "Restoring..." exactly while that component is being restored. */
  function RestoreButton(restoringId: Option<Id>, id: Id): (b: (bool, string))
    ensures b.0 <==> restoringId == Some(id)
    ensures b.1 == (if b.0 then "Restoring..." else "Restore")
  {
    if restoringId == Some(id) then (true, "Restoring...") else (false, "Restore")
  }

  datatype Toast = Success(message: string) | Failure(message: string)

  /** The drawer's one piece of state. */
  class Drawer {
    var restoringId: Option<Id>

    constructor()
      ensures restoringId.None?
    {
      restoringId := None;
    }

    /** `handleRestore(id)` before the call: the card of `id`, and only
        it, shows the restore as under way. */
    method Begin(id: Id)
      modifies this
      ensures restoringId == Some(id)
      ensures forall c :: RestoreButton(restoringId, c).0 <==> c == id
    {
      restoringId := Some(id);
    }

    /** The call settles: a toast says how it went and no card is shown
        as restoring any more, whatever the outcome. */
    method Settle(succeeded: bool) returns (toast: Toast)
      modifies this
      ensures restoringId.None?
      ensures toast == if succeeded then Success("Component restored successfully")
                       else Failure("Failed to restore component")
      ensures forall c :: RestoreButton(restoringId, c) == (false, "Restore")
    {
      if succeeded {
        toast := Success("Component restored successfully");
      } else {
        toast := Failure("Failed to restore component");
      }
      restoringId := None;
    }
  }
}
