/** The picker's state machine (`Switcheroo` and `update` in src/ui.rs). */
module Ui {
  import opened Wrappers
  import opened Bytes
  import opened Windows
  import opened Listing

  /** Identifies a picker window of the user-interface toolkit. */
  type WindowId = nat

  datatype Message =
    | ShowPicker
    | HidePicker
    | QueryChanged(query: string)
    | SelectNext
    | SelectPrev
    | Confirm
    | WindowClosed(id: WindowId)
    | NoOp

  /** The toolkit task `update` hands back. */
  datatype Task = NoTask | OpenPicker(id: WindowId) | ClosePicker(id: WindowId)

  /** What `update` observes besides the state: the system for a refresh and
      for focusing, the fuzzy matcher, and the id the toolkit gives a newly
      opened picker window. */
  datatype World = World(snapshot: Snapshot, matcher: Matcher, focus: FocusOracle, openedWindow: WindowId)

  /** The selection is empty or points into the list. */
  predicate InRange(selected: Option<nat>, count: nat) {
    selected.None? || selected.value < count
  }

  /** The selection after the list is rebuilt: the first row, if there is one. */
  function FreshSelection(count: nat): (r: Option<nat>)
    ensures r.Some? <==> count > 0
    ensures r.Some? ==> r.value == 0
  {
    if count > 0 then Some(0) else None
  }

  /** `SelectNext`: nothing on an empty list; otherwise one row down, stopping at the last. */
  function NextSelection(selected: Option<nat>, count: nat): (r: Option<nat>)
    ensures count == 0 ==> r == selected
    ensures count > 0 ==> r.Some? && r.value < count
    ensures count > 0 && selected.None? ==> r == Some(0)
    ensures count > 0 && selected.Some? && selected.value < count ==>
              && selected.value <= r.value <= selected.value + 1
              && (r.value == selected.value <==> selected.value == count - 1)
  {
    if count == 0 then selected
    else Some(match selected
              case Some(idx) => if idx + 1 < count - 1 then idx + 1 else count - 1
              case None => 0)
  }

  /** `SelectPrev`: no selection on an empty list; otherwise one row up, stopping at the first. */
  function PrevSelection(selected: Option<nat>, count: nat): (r: Option<nat>)
    ensures count == 0 ==> r == None
    ensures count > 0 ==> r.Some?
    ensures count > 0 && selected.Some? && 0 < selected.value ==> r == Some(selected.value - 1)
    ensures count > 0 && (selected.None? || selected.value == 0) ==> r == Some(0)
  {
    if count == 0 then None
    else match selected
      case Some(idx) => if idx > 0 then Some(idx - 1) else Some(0)
      case None => Some(0)
  }

  /** Every selection transition keeps the selection in range. */
  lemma TransitionsStayInRange(selected: Option<nat>, count: nat)
    requires InRange(selected, count)
    ensures InRange(NextSelection(selected, count), count)
    ensures InRange(PrevSelection(selected, count), count)
    ensures InRange(FreshSelection(count), count)
  {
  }

  /** Moving down and then up returns to the same row, unless at the last row. */
  lemma PrevUndoesNext(idx: nat, count: nat)
    requires idx + 1 < count
    ensures PrevSelection(NextSelection(Some(idx), count), count) == Some(idx)
  {
  }

  /** Moving up and then down returns to the same row, unless at the first row. */
  lemma NextUndoesPrev(idx: nat, count: nat)
    requires 0 < idx < count
    ensures NextSelection(PrevSelection(Some(idx), count), count) == Some(idx)
  {
  }

  /** Moving down repeatedly ends on the last row. */
  lemma {:induction false} NextReachesLast(idx: nat, count: nat, steps: nat)
    requires idx < count && idx + steps >= count - 1
    ensures Iterate(Some(idx), count, steps) == Some(count - 1)
    decreases steps
  {
    if steps > 0 {
      var next := NextSelection(Some(idx), count);
      if idx < count - 1 {
        NextReachesLast(next.value, count, steps - 1);
      } else {
        IterateAtLast(count, steps - 1);
      }
    }
  }

  lemma {:induction false} IterateAtLast(count: nat, steps: nat)
    requires count > 0
    ensures Iterate(Some(count - 1), count, steps) == Some(count - 1)
  {
    if steps > 0 {
      IterateAtLast(count, steps - 1);
    }
  }

  /** `steps` presses of `SelectNext`. */
  function Iterate(selected: Option<nat>, count: nat, steps: nat): Option<nat>
    decreases steps
  {
    if steps == 0 then selected else Iterate(NextSelection(selected, count), count, steps - 1)
  }

  /** The picker application state. */
  class Switcheroo {
    var query: string
    var selected: Option<nat>
    var filteredCount: nat
    var manager: Manager
    var pickerWindow: Option<WindowId>

    ghost predicate Valid()
      reads this, manager
    {
      manager.Valid() && InRange(selected, filteredCount)
    }

    /** `boot()`: empty query, no selection, no picker, and a manager refreshed once. */
    constructor Boot(os: Snapshot)
      ensures Valid()
      ensures query == "" && selected == None && filteredCount == 0 && pickerWindow == None
      ensures Refreshed(map[], map[], map[], manager.appMap, manager.axCache, manager.iconCache, os)
    {
      query := "";
      selected := None;
      filteredCount := 0;
      manager := new Manager.New(os);
      pickerWindow := None;
    }

    /** `update(state, message)`. */
    method Update(msg: Message, world: World) returns (task: Task, focusTrace: seq<FocusStep>, ghost order: seq<i32>)
      requires Valid()
      modifies this, manager
      ensures Valid()
      ensures manager == old(manager)
      // ShowPicker refreshes the manager when no picker is open
      ensures msg.ShowPicker? && old(pickerWindow).None? ==>
                Refreshed(old(manager.appMap), old(manager.axCache), old(manager.iconCache),
                          manager.appMap, manager.axCache, manager.iconCache, world.snapshot)
      // no other message changes the manager
      ensures !(msg.ShowPicker? && old(pickerWindow).None?) ==>
                manager.appMap == old(manager.appMap) && manager.axCache == old(manager.axCache)
                && manager.iconCache == old(manager.iconCache)
      // only Confirm focuses, and only a row inside the list
      ensures msg.Confirm? && old(selected).Some? ==> Enumerates(order, manager.appMap)
      ensures (focusTrace != []) <==>
                && msg.Confirm? && old(selected).Some?
                && old(selected).value < |SortItems(Collect(manager.appMap, order, old(query), world.matcher))|
      ensures focusTrace != [] ==>
                && msg.Confirm? && old(selected).Some? && Enumerates(order, manager.appMap)
                && old(selected).value < |SortItems(Collect(manager.appMap, order, old(query), world.matcher))|
                && var item := SortItems(Collect(manager.appMap, order, old(query), world.matcher))[old(selected).value];
                exists r :: FocusRun(item.window, item.app.app.pid, world.focus, r, focusTrace)
      ensures match msg
        case ShowPicker =>
          if old(pickerWindow).Some? then
            && query == old(query) && selected == old(selected) && filteredCount == old(filteredCount)
            && pickerWindow == old(pickerWindow) && task == NoTask
          else
            && Enumerates(order, manager.appMap)
            && query == "" && filteredCount == |Collect(manager.appMap, order, "", world.matcher)|
            && selected == FreshSelection(filteredCount)
            && pickerWindow == Some(world.openedWindow) && task == OpenPicker(world.openedWindow)
        case HidePicker =>
          && filteredCount == old(filteredCount)
          && (if old(pickerWindow).Some? then
                query == "" && selected == None && pickerWindow == None && task == ClosePicker(old(pickerWindow).value)
              else
                query == old(query) && selected == old(selected) && pickerWindow == None && task == NoTask)
        case QueryChanged(q) =>
          && Enumerates(order, manager.appMap)
          && query == q && filteredCount == |Collect(manager.appMap, order, q, world.matcher)|
          && selected == FreshSelection(filteredCount)
          && pickerWindow == old(pickerWindow) && task == NoTask
        case SelectNext =>
          && query == old(query) && filteredCount == old(filteredCount) && pickerWindow == old(pickerWindow)
          && selected == NextSelection(old(selected), filteredCount) && task == NoTask
        case SelectPrev =>
          && query == old(query) && filteredCount == old(filteredCount) && pickerWindow == old(pickerWindow)
          && selected == PrevSelection(old(selected), filteredCount) && task == NoTask
        case Confirm =>
          && filteredCount == old(filteredCount)
          && (if old(pickerWindow).Some? then
                query == "" && selected == None && pickerWindow == None && task == ClosePicker(old(pickerWindow).value)
              else
                query == old(query) && selected == old(selected) && pickerWindow == None && task == NoTask)
        case WindowClosed(id) =>
          && query == old(query) && selected == old(selected) && filteredCount == old(filteredCount)
          && pickerWindow == (if old(pickerWindow) == Some(id) then None else old(pickerWindow))
          && task == NoTask
        case NoOp =>
          && query == old(query) && selected == old(selected) && filteredCount == old(filteredCount)
          && pickerWindow == old(pickerWindow) && task == NoTask
    {
      task, focusTrace, order := NoTask, [], [];
      match msg {
        case ShowPicker =>
          if pickerWindow.Some? {
            return;
          }
          task, order := OpenAndList(world);
        case HidePicker =>
          task := ClosePickerWindow();
        case QueryChanged(q) =>
          query := q;
          order := ListAndSelect(world.matcher);
        case SelectNext =>
          if filteredCount == 0 {
            return;
          }
          selected := NextSelection(selected, filteredCount);
        case SelectPrev =>
          selected := PrevSelection(selected, filteredCount);
        case Confirm =>
          focusTrace, order := FocusSelected(world);
          task := ClosePickerWindow();
        case WindowClosed(id) =>
          if pickerWindow == Some(id) {
            pickerWindow := None;
          }
        case NoOp =>
      }
    }

    /** The `ShowPicker` branch once no picker is open: refresh, clear the
        query, relist, select the first row and open the picker. */
    method OpenAndList(world: World) returns (task: Task, ghost order: seq<i32>)
      requires Valid()
      modifies this, manager
      ensures Valid() && manager == old(manager)
      ensures Refreshed(old(manager.appMap), old(manager.axCache), old(manager.iconCache),
                        manager.appMap, manager.axCache, manager.iconCache, world.snapshot)
      ensures Enumerates(order, manager.appMap)
      ensures query == "" && filteredCount == |Collect(manager.appMap, order, "", world.matcher)|
      ensures selected == FreshSelection(filteredCount)
      ensures pickerWindow == Some(world.openedWindow) && task == OpenPicker(world.openedWindow)
    {
      var _, _ := manager.Refresh(world.snapshot);
      query := "";
      order := ListAndSelect(world.matcher);
      pickerWindow := Some(world.openedWindow);
      task := OpenPicker(world.openedWindow);
    }

    /** Recounts the rows for the current query and selects the first one. */
    method ListAndSelect(matcher: Matcher) returns (ghost order: seq<i32>)
      requires manager.Valid()
      modifies this`filteredCount, this`selected
      ensures Valid()
      ensures Enumerates(order, manager.appMap)
      ensures filteredCount == |Collect(manager.appMap, order, query, matcher)|
      ensures selected == FreshSelection(filteredCount)
    {
      var items;
      items, order := GetFilteredItems(manager.appMap, query, matcher);
      filteredCount := |items|;
      selected := FreshSelection(filteredCount);
    }

    /** Closes an open picker, clearing the query and the selection. */
    method ClosePickerWindow() returns (task: Task)
      modifies this`pickerWindow, this`query, this`selected
      ensures old(pickerWindow).Some? ==>
                query == "" && selected == None && task == ClosePicker(old(pickerWindow).value)
      ensures old(pickerWindow).None? ==> query == old(query) && selected == old(selected) && task == NoTask
      ensures pickerWindow == None
    {
      task := NoTask;
      if pickerWindow.Some? {
        var id := pickerWindow.value;
        pickerWindow := None;
        query := "";
        selected := None;
        task := ClosePicker(id);
      }
    }

    /** The focusing half of `Confirm`: focuses the selected row when the
        selection lies inside the freshly built list. */
    method FocusSelected(world: World) returns (focusTrace: seq<FocusStep>, ghost order: seq<i32>)
      ensures Enumerates(order, manager.appMap)
      ensures (focusTrace != []) <==>
                selected.Some? && selected.value < |SortItems(Collect(manager.appMap, order, query, world.matcher))|
      ensures focusTrace != [] ==>
                && selected.Some? && selected.value < |SortItems(Collect(manager.appMap, order, query, world.matcher))|
                && var item := SortItems(Collect(manager.appMap, order, query, world.matcher))[selected.value];
                exists r :: FocusRun(item.window, item.app.app.pid, world.focus, r, focusTrace)
    {
      focusTrace := [];
      var items;
      items, order := GetFilteredItems(manager.appMap, query, world.matcher);
      if selected.Some? && selected.value < |items| {
        var item := items[selected.value];
        var r;
        r, focusTrace := Focus(item.window, item.app.app, world.focus);
      }
    }
  }
}
