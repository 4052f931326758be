/**
 * The card-click selection rule that both registries implement
 * (`TrackCurveMediator.clickedOnCurveCard` and
 * `TrackSegmentObserver.clickedOnSegment`), stated on the set of selected keys.
 * The two classes differ only in the guard that turns a click into a no-op;
 * each class states its own guard.
 */
module SelectionRule {

  /**
   * The selection after a click on the card of `ident`, given the selection
   * `sel` and the registered keys `keys`. Shift toggles the clicked key; a plain
   * click on the only selected key clears the selection; any other plain click
   * makes the clicked key the whole selection (nothing, for an unknown key).
   */
  function ClickSelection(sel: set<string>, keys: set<string>, shift: bool, ident: string): (r: set<string>)
    ensures sel <= keys ==> r <= keys
  {
    if shift then
      if ident in sel then sel - {ident}
      else if ident in keys then sel + {ident}
      else sel
    else if |sel| == 1 && ident in sel then {}
    else if ident in keys then {ident}
    else {}
  }

  /** Shift-click flips the clicked key and leaves every other key's flag alone. */
  lemma ShiftClickTogglesOnlyClicked(sel: set<string>, keys: set<string>, ident: string)
    requires sel <= keys
    ensures forall k :: k != ident ==> (k in ClickSelection(sel, keys, true, ident) <==> k in sel)
    ensures ident in ClickSelection(sel, keys, true, ident) <==> ident !in sel && ident in keys
  {
  }

  /** Two shift-clicks on the same card restore the selection. */
  lemma ShiftClickTwiceRestores(sel: set<string>, keys: set<string>, ident: string)
    requires sel <= keys
    ensures ClickSelection(ClickSelection(sel, keys, true, ident), keys, true, ident) == sel
  {
  }

  /**
   * A plain click has two outcomes: when the clicked key is the only selected
   * one nothing stays selected; otherwise the selection becomes exactly the
   * clicked key, or nothing when the key is not registered.
   */
  lemma {:induction false} PlainClickOutcome(sel: set<string>, keys: set<string>, ident: string)
    requires sel <= keys
    ensures sel == {ident} ==> ClickSelection(sel, keys, false, ident) == {}
    ensures sel != {ident} ==> ClickSelection(sel, keys, false, ident) == {ident} * keys
  {
    if |sel| == 1 && ident in sel {
      OnlyMember(sel, ident);
    }
  }

  /** A one-element set that holds `ident` is `{ident}`. */
  lemma OnlyMember(sel: set<string>, ident: string)
    requires |sel| == 1 && ident in sel
    ensures sel == {ident}
  {
    assert |sel - {ident}| == 0;
  }
}
