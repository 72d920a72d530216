/** The on-screen window catalogue: the set of window ids assigned to some
    space of some display (get_visible_window_ids) and the filtered window list
    (get_window_info_list), both in src/macos.rs. */
module WindowCatalog {
  import opened Wrappers
  import opened Bytes

  /** One entry of the managed-display list: the "id64" of each of its spaces, in order. */
  datatype ManagedDisplay = ManagedDisplay(spaceIds: seq<int>)

  /** `SLSCopyWindowsWithOptionsAndTags` for a single space: the window numbers
      it lists for (space id, options). */
  type SpaceWindowQuery = (int, int) -> seq<int>

  /** Option flags passed for every space. */
  const SpaceListOptions: int := 0x2

  /** The window numbers listed for one space. */
  function SpaceWindows(query: SpaceWindowQuery, spaceId: int): seq<int> {
    query(spaceId, SpaceListOptions)
  }

  /** The reference set: the u32 truncation of every number listed for any
      space of any display. */
  ghost function VisibleIds(displays: seq<ManagedDisplay>, query: SpaceWindowQuery): set<u32> {
    set d, s, k | 0 <= d < |displays| && 0 <= s < |displays[d].spaceIds|
                  && 0 <= k < |SpaceWindows(query, displays[d].spaceIds[s])|
      :: TruncateU32(SpaceWindows(query, displays[d].spaceIds[s])[k])
  }

  ghost predicate OnSpace(query: SpaceWindowQuery, spaceId: int, w: u32, upTo: nat) {
    exists k :: 0 <= k < upTo && k < |SpaceWindows(query, spaceId)|
                && TruncateU32(SpaceWindows(query, spaceId)[k]) == w
  }

  ghost predicate OnDisplay(query: SpaceWindowQuery, display: ManagedDisplay, w: u32, upTo: nat) {
    exists s :: 0 <= s < upTo && s < |display.spaceIds|
                && OnSpace(query, display.spaceIds[s], w, |SpaceWindows(query, display.spaceIds[s])|)
  }

  ghost predicate OnSomeDisplay(displays: seq<ManagedDisplay>, query: SpaceWindowQuery, w: u32, upTo: nat) {
    exists d :: 0 <= d < upTo && d < |displays| && OnDisplay(query, displays[d], w, |displays[d].spaceIds|)
  }

  lemma VisibleIdsMembership(displays: seq<ManagedDisplay>, query: SpaceWindowQuery, w: u32)
    ensures w in VisibleIds(displays, query) <==> OnSomeDisplay(displays, query, w, |displays|)
  {
    if OnSomeDisplay(displays, query, w, |displays|) {
      var d :| 0 <= d < |displays| && OnDisplay(query, displays[d], w, |displays[d].spaceIds|);
      var s :| 0 <= s < |displays[d].spaceIds|
               && OnSpace(query, displays[d].spaceIds[s], w, |SpaceWindows(query, displays[d].spaceIds[s])|);
      var k :| 0 <= k < |SpaceWindows(query, displays[d].spaceIds[s])|
               && TruncateU32(SpaceWindows(query, displays[d].spaceIds[s])[k]) == w;
      assert w in VisibleIds(displays, query);
    }
  }

  /** `get_visible_window_ids`: for every display and every space of it, ask
      for the space's windows and insert each truncated number into the set. */
  method GetVisibleWindowIds(displays: seq<ManagedDisplay>, query: SpaceWindowQuery)
    returns (visible: set<u32>)
    ensures visible == VisibleIds(displays, query)
  {
    visible := {};
    var d := 0;
    while d < |displays|
      invariant 0 <= d <= |displays|
      invariant forall w :: w in visible <==> OnSomeDisplay(displays, query, w, d)
    {
      var spaces := displays[d].spaceIds;
      var s := 0;
      while s < |spaces|
        invariant 0 <= s <= |spaces|
        invariant forall w :: w in visible <==>
          OnSomeDisplay(displays, query, w, d) || OnDisplay(query, displays[d], w, s)
      {
        var windows := SpaceWindows(query, spaces[s]);
        var k := 0;
        while k < |windows|
          invariant 0 <= k <= |windows|
          invariant forall w :: w in visible <==>
            OnSomeDisplay(displays, query, w, d) || OnDisplay(query, displays[d], w, s)
            || OnSpace(query, spaces[s], w, k)
        {
          visible := visible + {TruncateU32(windows[k])};
          k := k + 1;
        }
        s := s + 1;
      }
      d := d + 1;
    }
    forall w: u32
      ensures w in visible <==> w in VisibleIds(displays, query)
    {
      VisibleIdsMembership(displays, query, w);
    }
  }

  /** One entry of `CGWindowListCopyWindowInfo`: layer, owner pid, the window
      name if present, and the window number. */
  datatype WindowEntry = WindowEntry(layer: i32, ownerPid: i32, name: Option<string>, number: int)

  /** `WindowInfo`: a window kept by the filter. */
  datatype WindowInfo = WindowInfo(id: u32, title: string, pid: i32)

  datatype CatalogError = WindowListUnavailable

  /** An entry is kept when it is on layer 0 and its id is listed on some space. */
  predicate Keeps(visible: set<u32>, e: WindowEntry) {
    e.layer == 0 && TruncateU32(e.number) in visible
  }

  function InfoOf(e: WindowEntry): WindowInfo {
    WindowInfo(TruncateU32(e.number), e.name.GetOr(""), e.ownerPid)
  }

  /** The infos of the kept entries, in list order. */
  function Listed(entries: seq<WindowEntry>, visible: set<u32>): (r: seq<WindowInfo>)
    ensures |r| <= |entries|
  {
    if entries == [] then []
    else
      var rest := Listed(entries[..|entries| - 1], visible);
      var e := entries[|entries| - 1];
      if Keeps(visible, e) then rest + [InfoOf(e)] else rest
  }

  /** `get_window_info_list`: Err when the window list cannot be copied,
      otherwise the kept entries' infos in list order. */
  method GetWindowInfoList(visible: set<u32>, windowList: Option<seq<WindowEntry>>)
    returns (r: Result<seq<WindowInfo>, CatalogError>)
    ensures windowList.None? ==> r == Err(WindowListUnavailable)
    ensures windowList.Some? ==> r == Ok(Listed(windowList.value, visible))
  {
    if windowList.None? {
      return Err(WindowListUnavailable);
    }
    var entries := windowList.value;
    var result := [];
    var i := 0;
    while i < |entries|
      invariant 0 <= i <= |entries|
      invariant result == Listed(entries[..i], visible)
    {
      var e := entries[i];
      var id := TruncateU32(e.number);
      assert entries[..i + 1][..i] == entries[..i];
      if e.layer != 0 || id !in visible {
        i := i + 1;
        continue;
      }
      result := result + [WindowInfo(id, e.name.GetOr(""), e.ownerPid)];
      i := i + 1;
    }
    assert entries[..i] == entries;
    return Ok(result);
  }

  /** Listing is a filter: listing a concatenation lists each part in turn,
      so kept entries stay in list order. */
  lemma {:induction false} ListedAppend(a: seq<WindowEntry>, b: seq<WindowEntry>, visible: set<u32>)
    ensures Listed(a + b, visible) == Listed(a, visible) + Listed(b, visible)
    decreases |b|
  {
    if b == [] {
      assert a + b == a;
    } else {
      assert (a + b)[..|a + b| - 1] == a + b[..|b| - 1];
      ListedAppend(a, b[..|b| - 1], visible);
    }
  }

  /** An info is listed exactly when some entry is on layer 0, visible, and has that info. */
  lemma {:induction false} ListedMembership(entries: seq<WindowEntry>, visible: set<u32>, x: WindowInfo)
    ensures x in Listed(entries, visible) <==>
              exists i :: 0 <= i < |entries| && Keeps(visible, entries[i]) && InfoOf(entries[i]) == x
  {
    if entries != [] {
      var init := entries[..|entries| - 1];
      ListedMembership(init, visible, x);
      if x in Listed(entries, visible) && x !in Listed(init, visible) {
        assert Keeps(visible, entries[|entries| - 1]) && InfoOf(entries[|entries| - 1]) == x;
      }
      if exists i :: 0 <= i < |entries| && Keeps(visible, entries[i]) && InfoOf(entries[i]) == x {
        var i :| 0 <= i < |entries| && Keeps(visible, entries[i]) && InfoOf(entries[i]) == x;
        if i < |init| {
          assert init[i] == entries[i];
        }
      }
    }
  }

  /** Every listed window is on layer 0 and listed on some space of some display. */
  lemma ListedWindowsAreVisible(entries: seq<WindowEntry>, displays: seq<ManagedDisplay>,
                                query: SpaceWindowQuery, x: WindowInfo)
    requires x in Listed(entries, VisibleIds(displays, query))
    ensures exists i :: 0 <= i < |entries| && entries[i].layer == 0 && TruncateU32(entries[i].number) == x.id
                        && entries[i].ownerPid == x.pid
    ensures OnSomeDisplay(displays, query, x.id, |displays|)
  {
    ListedMembership(entries, VisibleIds(displays, query), x);
    VisibleIdsMembership(displays, query, x.id);
  }
}
