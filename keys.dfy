/**
 * The keyboard dispatch table of `MatrixView.keypress`.  The key tests are
 * pure: they decide which one handler a key event runs.
 */
module Keys {
  import opened Base

  /**
   * The fields of a MooTools key event the dispatch reads: the modifiers,
   * the key code (`event.code`) and the key name (`event.key`).
   */
  datatype KeyEvent = KeyEvent(meta: bool, shift: bool, code: int, key: string)

  /** The handler a key event selects; `Missing` names a method that does not exist. */
  datatype Command =
    | NoCommand
    | SelectAllCmd
    | ExpandCmd(dir: Dir)
    | MoveCmd(dir: Dir)
    | OpenCmd
    | DeleteCmd
    | Missing(name: string)

  /** Meta-A (either case of the letter), tested on the event's key code. */
  predicate IsSelectAll(ev: KeyEvent) {
    ev.meta && (ev.code == 97 || ev.code == 65)
  }

  /** The arrow key names of the event, as directions. */
  function Arrow(key: string): Option<Dir> {
    if key == "left" then Some(Left)
    else if key == "right" then Some(Right)
    else if key == "up" then Some(Up)
    else if key == "down" then Some(Down)
    else None
  }

  /**
   * The dispatch with the evident intent: shift with an arrow expands the
   * selection that way, tab moves right.  `selected` is `selectedItems.length`.
   */
  function Dispatch(ev: KeyEvent, selected: nat): (c: Command)
    ensures c == OpenCmd ==> selected == 1
    ensures !c.Missing?
    ensures IsSelectAll(ev) ==> c == SelectAllCmd
    ensures ev.shift && !IsSelectAll(ev) && Arrow(ev.key).Some? ==> c == ExpandCmd(Arrow(ev.key).value)
    ensures !ev.shift && !IsSelectAll(ev) && Arrow(ev.key).Some? ==> c == MoveCmd(Arrow(ev.key).value)
  {
    if IsSelectAll(ev) then SelectAllCmd
    else if ev.shift then
      if Arrow(ev.key).Some? then ExpandCmd(Arrow(ev.key).value)
      else if ev.key == "tab" && selected > 0 then MoveCmd(Left)
      else NoCommand
    else if ev.key == "enter" then (if selected == 1 then OpenCmd else NoCommand)
    else if ev.key == "delete" || ev.key == "backspace" then DeleteCmd
    else if Arrow(ev.key).Some? then MoveCmd(Arrow(ev.key).value)
    else if ev.key == "tab" && selected > 0 then MoveCmd(Right)
    else NoCommand
  }

  /**
   * The dispatch as the source spells it: the meta-A test reads
   * `event.keyCode`, which a MooTools event does not carry, so it never
   * holds; shift expansion is keyed on the names "top" and "bottom", which
   * resolve to methods that do not exist; and tab calls the misspelt
   * `moveRigth`.
   */
  function DispatchAsWritten(ev: KeyEvent, selected: nat): Command {
    if ev.shift then
      if ev.key == "left" then ExpandCmd(Left)
      else if ev.key == "right" then ExpandCmd(Right)
      else if ev.key == "top" then Missing("expandSelectionTop")
      else if ev.key == "bottom" then Missing("expandSelectionBottom")
      else if ev.key == "tab" && selected > 0 then MoveCmd(Left)
      else NoCommand
    else if ev.key == "enter" then (if selected == 1 then OpenCmd else NoCommand)
    else if ev.key == "delete" || ev.key == "backspace" then DeleteCmd
    else if Arrow(ev.key).Some? then MoveCmd(Arrow(ev.key).value)
    else if ev.key == "tab" && selected > 0 then Missing("moveRigth")
    else NoCommand
  }

  /** As written, no key event ever reaches vertical expansion. */
  lemma NoVerticalExpansionAsWritten(ev: KeyEvent, selected: nat)
    ensures DispatchAsWritten(ev, selected) != ExpandCmd(Up)
    ensures DispatchAsWritten(ev, selected) != ExpandCmd(Down)
  {
  }

  /** As written, shift with the down arrow does nothing at all. */
  lemma ShiftDownIgnoredAsWritten(selected: nat)
    ensures DispatchAsWritten(KeyEvent(false, true, 40, "down"), selected) == NoCommand
    ensures Dispatch(KeyEvent(false, true, 40, "down"), selected) == ExpandCmd(Down)
  {
  }

  /** As written, tab with a selection calls a method that does not exist. */
  lemma TabMissingAsWritten(selected: nat)
    requires selected > 0
    ensures DispatchAsWritten(KeyEvent(false, false, 9, "tab"), selected) == Missing("moveRigth")
    ensures Dispatch(KeyEvent(false, false, 9, "tab"), selected) == MoveCmd(Right)
  {
  }

  /**
   * Apart from meta-A, the two tables differ exactly on shift with up or
   * down (and on the key names "top" and "bottom") and on unshifted tab
   * with a selection.
   */
  lemma DispatchDiffersOnlyThere(ev: KeyEvent, selected: nat)
    requires !IsSelectAll(ev)
    requires ev.shift ==> ev.key !in ["up", "down", "top", "bottom"]
    requires !ev.shift ==> ev.key != "tab" || selected == 0
    ensures Dispatch(ev, selected) == DispatchAsWritten(ev, selected)
  {
  }

  /** As written, no key event selects all, and meta-A itself does nothing. */
  lemma MetaAIgnoredAsWritten(shift: bool, selected: nat)
    ensures DispatchAsWritten(KeyEvent(true, shift, 65, "a"), selected) == NoCommand
    ensures DispatchAsWritten(KeyEvent(true, shift, 97, "a"), selected) == NoCommand
    ensures forall ev :: DispatchAsWritten(ev, selected) != SelectAllCmd
    ensures Dispatch(KeyEvent(true, shift, 65, "a"), selected) == SelectAllCmd
  {
  }

  /** Meta-A selects everything, whatever else is held. */
  lemma MetaASelectsAll(shift: bool, key: string, selected: nat)
    ensures Dispatch(KeyEvent(true, shift, 65, key), selected) == SelectAllCmd
    ensures Dispatch(KeyEvent(true, shift, 97, key), selected) == SelectAllCmd
  {
  }
}
