/** The earlier immediate-mode picker (`App` in src/app.rs): its column
    width and the per-frame selection logic. */
module LegacyPicker {
  import opened Wrappers
  import opened Bytes
  import opened Windows
  import opened Listing
  import Ui

  /** The number of bytes of the UTF-8 encoding of `c`. */
  function Utf8Width(c: char): (n: nat)
    ensures 1 <= n <= 4
    ensures n == 1 <==> (c as int) < 0x80
  {
    if (c as int) < 0x80 then 1
    else if (c as int) < 0x800 then 2
    else if (c as int) < 0x1_0000 then 3
    else 4
  }

  /** `s.len()`: the length of `s` in UTF-8 bytes. */
  function Utf8Len(s: string): (n: nat)
    ensures |s| <= n <= 4 * |s|
  {
    if s == [] then 0 else Utf8Len(s[..|s| - 1]) + Utf8Width(s[|s| - 1])
  }

  /** The byte length and the character count agree exactly on ASCII text. */
  lemma {:induction false} Utf8LenAscii(s: string)
    ensures Utf8Len(s) == |s| <==> forall i :: 0 <= i < |s| ==> (s[i] as int) < 0x80
  {
    if s != [] {
      var init := s[..|s| - 1];
      Utf8LenAscii(init);
      assert forall i :: 0 <= i < |init| ==> init[i] == s[i];
      if Utf8Len(s) == |s| {
        assert Utf8Len(init) == |init|;
      }
    }
  }

  /** The width used when there are no applications. */
  const DefaultWidth: nat := 10

  /** `w` is the largest byte length of an application name, or the default
      when there are no applications. */
  ghost predicate IsMaxWidth(windows: map<i32, App>, w: nat) {
    if windows == map[] then w == DefaultWidth
    else
      && (exists p :: p in windows && w == Utf8Len(windows[p].name))
      && (forall p :: p in windows ==> Utf8Len(windows[p].name) <= w)
  }

  /** The maximum is unique. */
  lemma MaxWidthUnique(windows: map<i32, App>, a: nat, b: nat)
    requires IsMaxWidth(windows, a) && IsMaxWidth(windows, b)
    ensures a == b
  {
    if windows != map[] {
      var p :| p in windows && a == Utf8Len(windows[p].name);
      var q :| q in windows && b == Utf8Len(windows[q].name);
      assert a <= b && b <= a;
    }
  }

  /** `windows.values().map(|app| app.name.len()).max().unwrap_or(10)`. */
  method MaxWidth(windows: map<i32, App>) returns (w: nat)
    ensures IsMaxWidth(windows, w)
  {
    var best: Option<nat> := None;
    var pending := windows.Keys;
    while pending != {}
      invariant pending <= windows.Keys
      invariant best.None? <==> pending == windows.Keys
      invariant best.Some? ==>
        && (exists p :: p in windows && p !in pending && best.value == Utf8Len(windows[p].name))
        && (forall p :: p in windows && p !in pending ==> Utf8Len(windows[p].name) <= best.value)
      decreases pending
    {
      var p :| p in pending;
      var len := Utf8Len(windows[p].name);
      if best.None? || best.value < len {
        best := Some(len);
      }
      pending := pending - {p};
    }
    w := best.GetOr(DefaultWidth);
    if windows == map[] {
      assert best.None?;
    } else {
      assert windows.Keys != {};
    }
  }

  /** A selection at or past the end of the list is dropped. */
  function Clamped(selected: Option<nat>, len: nat): (r: Option<nat>)
    ensures r.None? || r.value < len
    ensures selected.Some? && selected.value < len ==> r == selected
    ensures selected.None? || selected.value >= len ==> r.None?
  {
    if selected.Some? && selected.value >= len then None else selected
  }

  /** Arrow up: one row up; from the first row the selection is dropped. */
  function ArrowUp(selected: Option<nat>): (r: Option<nat>)
    ensures selected.None? ==> r.None?
    ensures selected.Some? && selected.value > 0 ==> r == Some(selected.value - 1)
    ensures selected == Some(0) ==> r.None?
  {
    match selected
    case Some(idx) => if idx > 0 then Some(idx - 1) else None
    case None => None
  }

  /** Arrow down is the `SelectNext` transition of the newer picker.  Arrow
      up undoes it except at the last row, and from no selection, down then
      up returns to no selection. */
  lemma ArrowUpUndoesDown(selected: Option<nat>, len: nat)
    requires len > 0 && (selected.None? || selected.value + 1 < len)
    ensures ArrowUp(Ui.NextSelection(selected, len)) == (if selected.None? then None else selected)
  {
  }

  /** The frame's keyboard input. */
  datatype Keys = Keys(arrowDown: bool, arrowUp: bool, enter: bool, escape: bool)

  /** What one frame observes: the text field's contents after editing, the
      keys, the fuzzy matcher and the system for focusing. */
  datatype Frame = Frame(query: string, keys: Keys, matcher: Matcher, focus: FocusOracle)

  /** The selection after one frame's keys, starting from the clamped selection. */
  function FrameSelection(selected: Option<nat>, len: nat, keys: Keys): (r: Option<nat>)
    ensures r.None? || r.value < len
  {
    var clamped := Clamped(selected, len);
    var down := if keys.arrowDown then Ui.NextSelection(clamped, len) else clamped;
    if keys.arrowUp then ArrowUp(down) else down
  }

  class PickerApp {
    var query: string
    var windows: map<i32, App>
    var selected: Option<nat>
    var maxWidth: nat

    /** `App::new(windows)`. */
    constructor (windows: map<i32, App>)
      ensures this.windows == windows && query == "" && selected == None
      ensures IsMaxWidth(windows, maxWidth)
    {
      var width := MaxWidth(windows);
      this.windows := windows;
      query := "";
      selected := None;
      maxWidth := width;
    }

    /** The selection and focusing part of one `update` frame.  `closes`
        counts the close commands sent to the viewport. */
    method Update(frame: Frame) returns (closes: nat, focusTrace: seq<FocusStep>,
                                         ghost items: seq<Item>, ghost order: seq<i32>)
      modifies this`query, this`selected
      ensures query == frame.query
      ensures Enumerates(order, windows)
      ensures items == SortItems(Collect(windows, order, frame.query, frame.matcher)) && Sorted(items)
      ensures selected == FrameSelection(old(selected), |items|, frame.keys)
      ensures (focusTrace != []) <==> frame.keys.enter && selected.Some?
      ensures focusTrace != [] ==>
                selected.Some? && selected.value < |items| &&
                var item := items[selected.value];
                exists r :: FocusRun(item.window, item.app.app.pid, frame.focus, r, focusTrace)
      ensures closes == (if frame.keys.escape then 1 else 0) + (if focusTrace != [] then 1 else 0)
    {
      query := frame.query;
      var filtered;
      filtered, order := GetFilteredItems(windows, query, frame.matcher);
      items := filtered;

      selected := Clamped(selected, |filtered|);

      closes := 0;
      if frame.keys.escape {
        closes := closes + 1;
      }

      if frame.keys.arrowDown && |filtered| > 0 {
        selected := Ui.NextSelection(selected, |filtered|);
      }

      if frame.keys.arrowUp && selected.Some? {
        selected := ArrowUp(selected);
      }

      focusTrace := [];
      if frame.keys.enter && selected.Some? && selected.value < |filtered| {
        var item := filtered[selected.value];
        var r;
        r, focusTrace := Focus(item.window, item.app.app, frame.focus);
        closes := closes + 1;
      }
    }
  }
}
