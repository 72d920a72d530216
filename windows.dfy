/** The inventory manager and the focus protocol (src/windows.rs). */
module Windows {
  import opened Wrappers
  import opened Bytes
  import opened KeyWindow
  import opened AxResolver
  import opened WindowCatalog
  import opened IconNormalizer

  datatype ActivationPolicy = Regular | Accessory | Prohibited

  /** A running application as the workspace reports it.  `icon` is the
      rasterised 16x16 form of its icon: None when the application has no
      icon or rasterising it fails. */
  datatype RunningApp = RunningApp(pid: i32, localizedName: Option<string>, policy: ActivationPolicy,
                                   terminated: bool, icon: Option<RasterImage>)

  /** A published window: title, window id and its cached accessibility handle. */
  datatype Window = Window(title: string, id: u32, axElement: AxElement)

  /** A published application and its windows. */
  datatype App = App(app: RunningApp, pid: i32, name: string, windows: seq<Window>)

  /** `App::new`: an application record with the running app's pid and no windows yet. */
  function NewApp(app: RunningApp, name: string): (a: App)
    ensures a.pid == app.pid && a.app == app && a.name == name && a.windows == []
  {
    App(app, app.pid, name, [])
  }

  /** Everything one refresh observes of the system. */
  datatype Snapshot = Snapshot(
    displays: seq<ManagedDisplay>,            // SLSCopyManagedDisplaySpaces
    spaceWindows: SpaceWindowQuery,           // SLSCopyWindowsWithOptionsAndTags
    windowList: Option<seq<WindowEntry>>,     // CGWindowListCopyWindowInfo
    runningApps: seq<RunningApp>,             // NSWorkspace.runningApplications
    elements: ElementSource,                  // _AXUIElementCreateWithRemoteToken
    halfFloat: HalfFloatDecoder)              // the 64-bpp icon branch

  datatype RefreshError = WindowInfoListFailed(cause: CatalogError)

  /* ---------- reference definitions of one refresh ---------- */

  /** The window infos a refresh works from. */
  ghost function Infos(os: Snapshot): seq<WindowInfo>
    requires os.windowList.Some?
  {
    Listed(os.windowList.value, VisibleIds(os.displays, os.spaceWindows))
  }

  function ActivePids(infos: seq<WindowInfo>): set<i32> {
    set i | 0 <= i < |infos| :: infos[i].pid
  }

  function ActiveWids(infos: seq<WindowInfo>): set<u32> {
    set i | 0 <= i < |infos| :: infos[i].id
  }

  /** An application is published when it owns a listed window, has the
      Regular activation policy and is not terminated. */
  predicate Tracked(a: RunningApp, activePids: set<i32>) {
    a.pid in activePids && a.policy == Regular && !a.terminated
  }

  /** The new application map before windows are attached; a later entry with
      the same pid replaces an earlier one. */
  function KeptApps(apps: seq<RunningApp>, activePids: set<i32>): map<i32, App> {
    if apps == [] then map[]
    else
      var m := KeptApps(apps[..|apps| - 1], activePids);
      var a := apps[|apps| - 1];
      if Tracked(a, activePids) then m[a.pid := NewApp(a, a.localizedName.GetOr(""))] else m
  }

  /** The icon cache after the application loop: an icon is converted and
      stored only for a tracked pid that has none yet. */
  ghost function FetchIcons(cache: map<i32, IconData>, apps: seq<RunningApp>, activePids: set<i32>,
                            halfFloat: HalfFloatDecoder): map<i32, IconData>
  {
    if apps == [] then cache
    else
      var c := FetchIcons(cache, apps[..|apps| - 1], activePids, halfFloat);
      var a := apps[|apps| - 1];
      var icon := Normalized(a.icon, halfFloat);
      if Tracked(a, activePids) && a.pid !in c && icon.Some? then c[a.pid := icon.value] else c
  }

  /** `HashMap::retain` with a membership test. */
  function Restrict<K, V>(m: map<K, V>, keys: set<K>): (r: map<K, V>)
    ensures r.Keys == m.Keys * keys
    ensures forall k :: k in r ==> r[k] == m[k]
  {
    map k | k in m && k in keys :: m[k]
  }

  /** `uncached_by_pid`: for each listed window without a cached handle,
      its id is added to the entry of its pid. */
  function Uncached(infos: seq<WindowInfo>, cache: map<u32, AxElement>): map<i32, set<u32>> {
    if infos == [] then map[]
    else
      var u := Uncached(infos[..|infos| - 1], cache);
      var info := infos[|infos| - 1];
      if info.id in cache then u
      else u[info.pid := (if info.pid in u then u[info.pid] else {}) + {info.id}]
  }

  /** The grouping holds exactly the pids that own a listed window without a
      handle, each with exactly those windows' ids. */
  lemma {:induction false} UncachedMembership(infos: seq<WindowInfo>, cache: map<u32, AxElement>, p: i32, w: u32)
    ensures p in Uncached(infos, cache) <==>
              exists i :: 0 <= i < |infos| && infos[i].pid == p && infos[i].id !in cache
    ensures p in Uncached(infos, cache) ==>
              (w in Uncached(infos, cache)[p] <==>
                 exists i :: 0 <= i < |infos| && infos[i].pid == p && infos[i].id == w && infos[i].id !in cache)
  {
    if infos != [] {
      var init := infos[..|infos| - 1];
      UncachedMembership(init, cache, p, w);
      assert forall i :: 0 <= i < |init| ==> init[i] == infos[i];
    }
  }

  /** Every id grouped under a pid is a listed window id without a cached handle. */
  lemma UncachedIds(infos: seq<WindowInfo>, cache: map<u32, AxElement>)
    ensures forall p :: p in Uncached(infos, cache) ==>
              Uncached(infos, cache)[p] <= ActiveWids(infos) && Uncached(infos, cache)[p] !! cache.Keys
  {
    forall p, w | p in Uncached(infos, cache) && w in Uncached(infos, cache)[p]
      ensures w in ActiveWids(infos) && w !in cache
    {
      UncachedMembership(infos, cache, p, w);
    }
  }

  /** The published windows of `pid`: its listed windows that have a handle, in list order. */
  function WindowsOf(infos: seq<WindowInfo>, pid: i32, cache: map<u32, AxElement>): seq<Window> {
    if infos == [] then []
    else
      var rest := WindowsOf(infos[..|infos| - 1], pid, cache);
      var info := infos[|infos| - 1];
      if info.id in cache && info.pid == pid then rest + [Window(info.title, info.id, cache[info.id])]
      else rest
  }

  /** The published map: every kept application with its windows attached. */
  function Published(kept: map<i32, App>, infos: seq<WindowInfo>, cache: map<u32, AxElement>): map<i32, App> {
    map p | p in kept :: kept[p].(windows := kept[p].windows + WindowsOf(infos, p, cache))
  }

  /** One call of the resolver made by a refresh. */
  datatype ResolverCall = ResolverCall(pid: i32, wids: set<u32>)

  /** The pids the resolver was called for. */
  function CallPids(calls: seq<ResolverCall>): set<i32> {
    set i | 0 <= i < |calls| :: calls[i].pid
  }

  /** The handle cache after the resolver round: `retained` grown by the
      answers of one resolver call per entry of `uncached`. */
  ghost predicate ResolvedCache(cache: map<u32, AxElement>, retained: map<u32, AxElement>,
                                uncached: map<i32, set<u32>>, elements: ElementSource,
                                calls: seq<ResolverCall>)
  {
    && (forall i, j :: 0 <= i < j < |calls| ==> calls[i].pid != calls[j].pid)
    && (forall i :: 0 <= i < |calls| ==> calls[i].pid in uncached && calls[i].wids == uncached[calls[i].pid])
    && CallPids(calls) == uncached.Keys
    && (forall w :: w in retained ==> w in cache && cache[w] == retained[w])
    && (forall w :: w in cache && w !in retained ==>
          exists i :: 0 <= i < |calls| && w in Resolution(elements, calls[i].pid, calls[i].wids)
                      && cache[w] == Resolution(elements, calls[i].pid, calls[i].wids)[w])
    && (forall i, w :: 0 <= i < |calls| && w in Resolution(elements, calls[i].pid, calls[i].wids) ==> w in cache)
  }

  /** The manager state `(appMap, axCache, iconCache)` is what `refresh`
      makes of `(oldApps, oldAx, oldIcons)` for `os`: without a window list
      nothing changes; otherwise the caches are evicted to the live ids, new
      icons are fetched, one resolver round fills the handle cache, and the
      kept applications are published with their cached windows. */
  ghost predicate Refreshed(oldApps: map<i32, App>, oldAx: map<u32, AxElement>, oldIcons: map<i32, IconData>,
                            appMap: map<i32, App>, axCache: map<u32, AxElement>, iconCache: map<i32, IconData>,
                            os: Snapshot)
  {
    if os.windowList.None? then
      appMap == oldApps && axCache == oldAx && iconCache == oldIcons
    else
      var infos := Infos(os);
      var retained := Restrict(oldAx, ActiveWids(infos));
      && iconCache == Restrict(FetchIcons(oldIcons, os.runningApps, ActivePids(infos), os.halfFloat),
                               ActivePids(infos))
      && (exists calls :: ResolvedCache(axCache, retained, Uncached(infos, retained), os.elements, calls))
      && appMap == Published(KeptApps(os.runningApps, ActivePids(infos)), infos, axCache)
  }

  /** The manager owns the published map and both caches. */
  class Manager {
    var appMap: map<i32, App>
    var axCache: map<u32, AxElement>
    var iconCache: map<i32, IconData>

    /** Every cached handle is a window element of its own window id, and every
        published window carries the cached handle of its id. */
    ghost predicate Valid()
      reads this
    {
      && (forall w :: w in axCache ==> IsWindow(axCache[w]) && axCache[w].windowId == Some(w))
      && (forall p :: p in appMap ==> appMap[p].pid == p)
      && (forall p, x :: p in appMap && x in appMap[p].windows ==>
            x.id in axCache && axCache[x.id] == x.axElement)
    }

    /** `Manager::default()`: nothing published, nothing cached. */
    constructor ()
      ensures Valid()
      ensures appMap == map[] && axCache == map[] && iconCache == map[]
    {
      appMap, axCache, iconCache := map[], map[], map[];
    }

    /** `Manager::new().unwrap_or_default()`: a refresh of the empty manager;
        when that refresh fails the manager stays empty. */
    constructor New(os: Snapshot)
      ensures Valid()
      ensures Refreshed(map[], map[], map[], appMap, axCache, iconCache, os)
    {
      appMap, axCache, iconCache := map[], map[], map[];
      new;
      var _, _ := Refresh(os);
    }

    /** `app_map()`: the published applications, by pid. */
    function AppMap(): (m: map<i32, App>)
      reads this
      requires Valid()
      ensures forall p :: p in m ==> m[p].pid == p
      ensures forall p, x :: p in m && x in m[p].windows ==> x.id in axCache && axCache[x.id] == x.axElement
    {
      appMap
    }

    /** `get_icon(pid)`: the cached icon of `pid`, if any. */
    function GetIcon(pid: i32): (r: Option<IconData>)
      reads this
      ensures r.Some? <==> pid in iconCache
      ensures r.Some? ==> r.value == iconCache[pid]
    {
      if pid in iconCache then Some(iconCache[pid]) else None
    }

    /** `refresh()`.  On failure nothing changes; on success the caches are
        evicted to the live ids, new icons are fetched once per pid, the
        resolver runs once per pid that has windows without a handle, and the
        new application map is published. */
    method Refresh(os: Snapshot) returns (r: Outcome<RefreshError>, ghost calls: seq<ResolverCall>)
      requires Valid()
      modifies this
      ensures Valid()
      ensures os.windowList.None? ==> r == Fail(WindowInfoListFailed(WindowListUnavailable))
      // the resolver calls made are the ones the new handle cache is built from
      ensures os.windowList.Some? ==>
        var retained := Restrict(old(axCache), ActiveWids(Infos(os)));
        r == Pass && ResolvedCache(axCache, retained, Uncached(Infos(os), retained), os.elements, calls)
      ensures Refreshed(old(appMap), old(axCache), old(iconCache), appMap, axCache, iconCache, os)
    {
      calls := [];
      var visible := GetVisibleWindowIds(os.displays, os.spaceWindows);
      var listed := GetWindowInfoList(visible, os.windowList);
      if listed.Err? {
        return Fail(WindowInfoListFailed(listed.error)), calls;
      }
      calls := Rebuild(listed.value, os.runningApps, os.elements, os.halfFloat);
      return Pass, calls;
    }

    /** The part of `refresh` after the window list is known: evict, fetch
        icons, resolve the uncached windows and publish. */
    method Rebuild(infos: seq<WindowInfo>, apps: seq<RunningApp>, elements: ElementSource, halfFloat: HalfFloatDecoder)
      returns (ghost calls: seq<ResolverCall>)
      requires Valid()
      modifies this
      ensures Valid()
      ensures var retained := Restrict(old(axCache), ActiveWids(infos));
        && iconCache == Restrict(FetchIcons(old(iconCache), apps, ActivePids(infos), halfFloat), ActivePids(infos))
        && ResolvedCache(axCache, retained, Uncached(infos, retained), elements, calls)
        && appMap == Published(KeptApps(apps, ActivePids(infos)), infos, axCache)
    {
      var activePids := ActivePids(infos);
      var activeWids := ActiveWids(infos);

      var newAppMap := CollectApps(apps, activePids, halfFloat);
      ghost var fetched := iconCache;

      axCache := Restrict(axCache, activeWids);
      iconCache := Restrict(iconCache, activePids);
      ghost var retained := axCache;
      assert ValidHandles(retained);

      var uncached := GroupUncached(infos, axCache);
      UncachedIds(infos, axCache);
      calls := ResolveUncached(uncached, elements);
      assert ResolvedCache(axCache, retained, Uncached(infos, retained), elements, calls);

      newAppMap := AttachWindows(newAppMap, infos, axCache);
      appMap := newAppMap;
      PublishedHandles(apps, activePids, infos, axCache);
      assert iconCache == Restrict(fetched, activePids);
    }

    /** The application loop of `refresh`: builds the new application map
        and stores a freshly converted icon for each tracked pid without one. */
    method CollectApps(apps: seq<RunningApp>, activePids: set<i32>, halfFloat: HalfFloatDecoder)
      returns (newAppMap: map<i32, App>)
      modifies this`iconCache
      ensures newAppMap == KeptApps(apps, activePids)
      ensures iconCache == FetchIcons(old(iconCache), apps, activePids, halfFloat)
    {
      newAppMap := map[];
      var i := 0;
      while i < |apps|
        invariant 0 <= i <= |apps|
        invariant newAppMap == KeptApps(apps[..i], activePids)
        invariant iconCache == FetchIcons(old(iconCache), apps[..i], activePids, halfFloat)
      {
        var app := apps[i];
        assert apps[..i + 1][..i] == apps[..i];
        var pid := app.pid;
        if pid !in activePids || app.policy != Regular || app.terminated {
          i := i + 1;
          continue;
        }
        var name := app.localizedName.GetOr("");
        if pid !in iconCache {
          var data := NsImageToRgba(app.icon, halfFloat);
          if data.Some? {
            iconCache := iconCache[pid := data.value];
          }
        }
        newAppMap := newAppMap[pid := NewApp(app, name)];
        i := i + 1;
      }
      assert apps[..i] == apps;
    }

    /** The resolver loop of `refresh`: one resolver call per entry of
        `uncached`, in unspecified order, each answer merged into the cache. */
    method ResolveUncached(uncached: map<i32, set<u32>>, elements: ElementSource)
      returns (ghost calls: seq<ResolverCall>)
      requires ValidHandles(axCache)
      requires forall p :: p in uncached ==> uncached[p] !! axCache.Keys
      modifies this`axCache
      ensures ValidHandles(axCache)
      ensures ResolvedCache(axCache, old(axCache), uncached, elements, calls)
    {
      calls := [];
      var pending := uncached.Keys;
      while pending != {}
        invariant pending <= uncached.Keys
        invariant ValidHandles(axCache)
        invariant CallPids(calls) == uncached.Keys - pending
        invariant ResolvedCachePart(axCache, old(axCache), uncached, elements, calls)
        decreases pending
      {
        var pid :| pid in pending;
        assert pid !in CallPids(calls);
        axCache := ResolveInto(axCache, old(axCache), uncached, elements, calls, pid);
        CallPidsStep(calls, ResolverCall(pid, uncached[pid]));
        calls := calls + [ResolverCall(pid, uncached[pid])];
        pending := pending - {pid};
      }
    }
  }

  /** Every handle in the cache is a window element of its own id. */
  ghost predicate ValidHandles(cache: map<u32, AxElement>) {
    forall w :: w in cache ==> IsWindow(cache[w]) && cache[w].windowId == Some(w)
  }

  /** ResolvedCache without the requirement that every pid has been handled. */
  ghost predicate ResolvedCachePart(cache: map<u32, AxElement>, retained: map<u32, AxElement>,
                                    uncached: map<i32, set<u32>>, elements: ElementSource,
                                    calls: seq<ResolverCall>)
  {
    && (forall i, j :: 0 <= i < j < |calls| ==> calls[i].pid != calls[j].pid)
    && (forall i :: 0 <= i < |calls| ==> calls[i].pid in uncached && calls[i].wids == uncached[calls[i].pid])
    && (forall w :: w in retained ==> w in cache && cache[w] == retained[w])
    && (forall w :: w in cache && w !in retained ==>
          exists i :: 0 <= i < |calls| && w in Resolution(elements, calls[i].pid, calls[i].wids)
                      && cache[w] == Resolution(elements, calls[i].pid, calls[i].wids)[w])
    && (forall i, w :: 0 <= i < |calls| && w in Resolution(elements, calls[i].pid, calls[i].wids) ==> w in cache)
  }

  /** One resolver call of the loop: the answers for `pid` merged into the cache. */
  method ResolveInto(cache: map<u32, AxElement>, ghost retained: map<u32, AxElement>,
                     uncached: map<i32, set<u32>>, elements: ElementSource,
                     ghost calls: seq<ResolverCall>, pid: i32)
    returns (cache': map<u32, AxElement>)
    requires ValidHandles(cache)
    requires ResolvedCachePart(cache, retained, uncached, elements, calls)
    requires forall p :: p in uncached ==> uncached[p] !! retained.Keys
    requires pid in uncached && pid !in CallPids(calls)
    ensures ValidHandles(cache')
    ensures ResolvedCachePart(cache', retained, uncached, elements, calls + [ResolverCall(pid, uncached[pid])])
  {
    var resolved, _, _ := ResolveAxForPid(pid, uncached[pid], elements);
    cache' := cache + resolved;
    ResolvedStep(cache, cache', retained, uncached, elements, calls, pid, resolved);
  }

  lemma CallPidsStep(calls: seq<ResolverCall>, c: ResolverCall)
    ensures CallPids(calls + [c]) == CallPids(calls) + {c.pid}
  {
    var calls' := calls + [c];
    assert calls'[|calls|] == c;
    forall p | p in CallPids(calls)
      ensures p in CallPids(calls')
    {
      var i :| 0 <= i < |calls| && calls[i].pid == p;
      assert calls'[i] == calls[i];
    }
  }

  lemma ResolvedStep(before: map<u32, AxElement>, after: map<u32, AxElement>, retained: map<u32, AxElement>,
                     uncached: map<i32, set<u32>>, elements: ElementSource, calls: seq<ResolverCall>,
                     pid: i32, resolved: map<u32, AxElement>)
    requires ResolvedCachePart(before, retained, uncached, elements, calls)
    requires forall p :: p in uncached ==> uncached[p] !! retained.Keys
    requires pid in uncached && pid !in CallPids(calls)
    requires resolved == Resolution(elements, pid, uncached[pid])
    requires after == before + resolved
    ensures ResolvedCachePart(after, retained, uncached, elements, calls + [ResolverCall(pid, uncached[pid])])
  {
    var calls' := calls + [ResolverCall(pid, uncached[pid])];
    forall w | w in after && w !in retained
      ensures exists i :: 0 <= i < |calls'| && w in Resolution(elements, calls'[i].pid, calls'[i].wids)
                          && after[w] == Resolution(elements, calls'[i].pid, calls'[i].wids)[w]
    {
      if w in resolved {
        assert calls'[|calls|].pid == pid;
      } else {
        var i :| 0 <= i < |calls| && w in Resolution(elements, calls[i].pid, calls[i].wids)
                 && before[w] == Resolution(elements, calls[i].pid, calls[i].wids)[w];
        assert calls'[i] == calls[i];
      }
    }
    forall w | w in retained
      ensures w in after && after[w] == retained[w]
    {
      assert w !in uncached[pid];
    }
  }

  /** The grouping loop of `refresh`: the listed windows without a handle, by pid. */
  method GroupUncached(infos: seq<WindowInfo>, cache: map<u32, AxElement>)
    returns (uncached: map<i32, set<u32>>)
    ensures uncached == Uncached(infos, cache)
  {
    uncached := map[];
    var i := 0;
    while i < |infos|
      invariant 0 <= i <= |infos|
      invariant uncached == Uncached(infos[..i], cache)
    {
      var info := infos[i];
      assert infos[..i + 1][..i] == infos[..i];
      if info.id !in cache {
        var wids := if info.pid in uncached then uncached[info.pid] else {};
        uncached := uncached[info.pid := wids + {info.id}];
      }
      i := i + 1;
    }
    assert infos[..i] == infos;
  }

  /** The attaching loop of `refresh`: each listed window with a handle is
      appended to its application's window list, in list order. */
  method AttachWindows(kept: map<i32, App>, infos: seq<WindowInfo>, cache: map<u32, AxElement>)
    returns (m: map<i32, App>)
    ensures m == Published(kept, infos, cache)
  {
    m := kept;
    var i := 0;
    forall p | p in kept
      ensures m[p] == Published(kept, infos[..0], cache)[p]
    {
      assert infos[..0] == [];
      assert kept[p].windows + [] == kept[p].windows;
    }
    while i < |infos|
      invariant 0 <= i <= |infos|
      invariant m == Published(kept, infos[..i], cache)
    {
      var info := infos[i];
      ghost var before := m;
      if info.id in cache && info.pid in m {
        var app := m[info.pid];
        m := m[info.pid := app.(windows := app.windows + [Window(info.title, info.id, cache[info.id])])];
      }
      AttachStep(kept, infos, cache, i, before, m);
      i := i + 1;
    }
    assert infos[..i] == infos;
  }

  lemma AttachStep(kept: map<i32, App>, infos: seq<WindowInfo>, cache: map<u32, AxElement>, i: nat,
                   before: map<i32, App>, after: map<i32, App>)
    requires i < |infos|
    requires before == Published(kept, infos[..i], cache)
    requires var info := infos[i];
      if info.id in cache && info.pid in before
      then after == before[info.pid := before[info.pid].(windows := before[info.pid].windows
                                                         + [Window(info.title, info.id, cache[info.id])])]
      else after == before
    ensures after == Published(kept, infos[..i + 1], cache)
  {
    var info := infos[i];
    var prefix := infos[..i + 1];
    assert prefix[..i] == infos[..i] && prefix[i] == info;
    var next := Published(kept, prefix, cache);
    assert next.Keys == kept.Keys == before.Keys == after.Keys;
    forall p | p in kept
      ensures after[p] == next[p]
    {
      var w := WindowsOf(infos[..i], p, cache);
      assert before[p].windows == kept[p].windows + w;
      if info.id in cache && info.pid == p {
        assert WindowsOf(prefix, p, cache) == w + [Window(info.title, info.id, cache[info.id])];
        assert after[p].windows == (kept[p].windows + w) + [Window(info.title, info.id, cache[info.id])];
      } else {
        assert WindowsOf(prefix, p, cache) == w;
      }
    }
  }

  /** Every application of the kept map sits under its own pid and has no windows yet. */
  lemma {:induction false} KeptAppsShape(apps: seq<RunningApp>, activePids: set<i32>)
    ensures forall p :: p in KeptApps(apps, activePids) ==>
              KeptApps(apps, activePids)[p].pid == p && KeptApps(apps, activePids)[p].windows == []
  {
    if apps != [] {
      KeptAppsShape(apps[..|apps| - 1], activePids);
    }
  }

  /** Every window attached for `pid` is a listed window of `pid` and carries
      the cached handle of its id. */
  lemma {:induction false} WindowsOfCached(infos: seq<WindowInfo>, pid: i32, cache: map<u32, AxElement>, x: Window)
    requires x in WindowsOf(infos, pid, cache)
    ensures x.id in cache && x.axElement == cache[x.id]
    ensures exists i :: 0 <= i < |infos| && infos[i].pid == pid && infos[i].id == x.id && infos[i].title == x.title
  {
    var init := infos[..|infos| - 1];
    if x in WindowsOf(init, pid, cache) {
      WindowsOfCached(init, pid, cache, x);
      var i :| 0 <= i < |init| && init[i].pid == pid && init[i].id == x.id && init[i].title == x.title;
      assert infos[i] == init[i];
    }
  }

  /** Published windows carry the handle cached for their id. */
  lemma PublishedHandles(apps: seq<RunningApp>, activePids: set<i32>, infos: seq<WindowInfo>,
                         cache: map<u32, AxElement>)
    ensures var m := Published(KeptApps(apps, activePids), infos, cache);
      && (forall p :: p in m ==> m[p].pid == p)
      && (forall p, x :: p in m && x in m[p].windows ==> x.id in cache && cache[x.id] == x.axElement)
  {
    var kept := KeptApps(apps, activePids);
    KeptAppsShape(apps, activePids);
    var m := Published(kept, infos, cache);
    forall p, x | p in m && x in m[p].windows
      ensures x.id in cache && cache[x.id] == x.axElement
    {
      assert m[p].windows == WindowsOf(infos, p, cache);
      WindowsOfCached(infos, p, cache, x);
    }
  }

  /** After the resolver round every cached handle belongs to a listed
      window, provided the retained part did. */
  lemma CacheKeysLive(cache: map<u32, AxElement>, retained: map<u32, AxElement>, infos: seq<WindowInfo>,
                      elements: ElementSource, calls: seq<ResolverCall>)
    requires retained.Keys <= ActiveWids(infos)
    requires ResolvedCache(cache, retained, Uncached(infos, retained), elements, calls)
    ensures cache.Keys <= ActiveWids(infos)
  {
    var uncached := Uncached(infos, retained);
    UncachedIds(infos, retained);
    forall w | w in cache && w !in retained
      ensures w in ActiveWids(infos)
    {
      var i :| 0 <= i < |calls| && w in Resolution(elements, calls[i].pid, calls[i].wids)
               && cache[w] == Resolution(elements, calls[i].pid, calls[i].wids)[w];
      assert calls[i].wids == uncached[calls[i].pid] && w in calls[i].wids;
    }
  }

  /** Icons already cached are never replaced, and a new icon is the
      conversion of the icon of a tracked application with that pid. */
  lemma {:induction false} FetchIconsKeepsExisting(cache: map<i32, IconData>, apps: seq<RunningApp>,
                                                  activePids: set<i32>, halfFloat: HalfFloatDecoder)
    ensures var r := FetchIcons(cache, apps, activePids, halfFloat);
      && (forall p :: p in cache ==> p in r && r[p] == cache[p])
      && (forall p :: p in r && p !in cache ==>
            exists i :: 0 <= i < |apps| && apps[i].pid == p && Tracked(apps[i], activePids)
                        && Normalized(apps[i].icon, halfFloat) == Some(r[p]))
  {
    if apps != [] {
      var init := apps[..|apps| - 1];
      FetchIconsKeepsExisting(cache, init, activePids, halfFloat);
      var c := FetchIcons(cache, init, activePids, halfFloat);
      var r := FetchIcons(cache, apps, activePids, halfFloat);
      forall p | p in r && p !in cache
        ensures exists i :: 0 <= i < |apps| && apps[i].pid == p && Tracked(apps[i], activePids)
                            && Normalized(apps[i].icon, halfFloat) == Some(r[p])
      {
        if p in c {
          var i :| 0 <= i < |init| && init[i].pid == p && Tracked(init[i], activePids)
                   && Normalized(init[i].icon, halfFloat) == Some(c[p]);
          assert apps[i] == init[i];
        } else {
          assert apps[|apps| - 1].pid == p;
        }
      }
    }
  }

  /** A pid is published exactly when some running application with that pid is tracked. */
  lemma {:induction false} KeptAppsMembership(apps: seq<RunningApp>, activePids: set<i32>, p: i32)
    ensures p in KeptApps(apps, activePids) <==> exists i :: 0 <= i < |apps| && apps[i].pid == p && Tracked(apps[i], activePids)
  {
    if apps != [] {
      var init := apps[..|apps| - 1];
      KeptAppsMembership(init, activePids, p);
      assert forall i :: 0 <= i < |init| ==> init[i] == apps[i];
    }
  }

  /** The windows attached for `pid` are exactly its listed windows that have a
      cached handle; listing order is kept because WindowsOf only appends. */
  lemma {:induction false} WindowsOfMembership(infos: seq<WindowInfo>, pid: i32, cache: map<u32, AxElement>, x: Window)
    ensures x in WindowsOf(infos, pid, cache) <==>
              exists i :: 0 <= i < |infos| && infos[i].pid == pid && infos[i].id in cache
                          && x == Window(infos[i].title, infos[i].id, cache[infos[i].id])
  {
    if infos != [] {
      var init := infos[..|infos| - 1];
      WindowsOfMembership(init, pid, cache, x);
      assert forall i :: 0 <= i < |init| ==> init[i] == infos[i];
    }
  }

  /** A pid without an icon after the fetch had none before, and no tracked
      application with that pid has a convertible icon. */
  lemma {:induction false} FetchIconsMissing(cache: map<i32, IconData>, apps: seq<RunningApp>,
                                             activePids: set<i32>, halfFloat: HalfFloatDecoder, p: i32)
    requires p !in FetchIcons(cache, apps, activePids, halfFloat)
    ensures p !in cache
    ensures forall i :: 0 <= i < |apps| && apps[i].pid == p && Tracked(apps[i], activePids) ==>
              Normalized(apps[i].icon, halfFloat).None?
  {
    if apps != [] {
      var init := apps[..|apps| - 1];
      FetchIconsMissing(cache, init, activePids, halfFloat, p);
      assert forall i :: 0 <= i < |init| ==> init[i] == apps[i];
    }
  }

  /** The fetch changes nothing when no tracked application without a cached
      icon has a convertible one. */
  lemma {:induction false} FetchIconsStable(cache: map<i32, IconData>, apps: seq<RunningApp>,
                                            activePids: set<i32>, halfFloat: HalfFloatDecoder)
    requires forall i :: 0 <= i < |apps| && Tracked(apps[i], activePids) && apps[i].pid !in cache ==>
               Normalized(apps[i].icon, halfFloat).None?
    ensures FetchIcons(cache, apps, activePids, halfFloat) == cache
  {
    if apps != [] {
      var init := apps[..|apps| - 1];
      assert forall i :: 0 <= i < |init| ==> init[i] == apps[i];
      FetchIconsStable(cache, init, activePids, halfFloat);
    }
  }

  /** A second icon fetch over the same applications adds nothing. */
  lemma IconsIdempotent(icons: map<i32, IconData>, apps: seq<RunningApp>, activePids: set<i32>,
                        halfFloat: HalfFloatDecoder)
    ensures var once := Restrict(FetchIcons(icons, apps, activePids, halfFloat), activePids);
      Restrict(FetchIcons(once, apps, activePids, halfFloat), activePids) == once
  {
    var fetched := FetchIcons(icons, apps, activePids, halfFloat);
    var once := Restrict(fetched, activePids);
    forall i | 0 <= i < |apps| && Tracked(apps[i], activePids) && apps[i].pid !in once
      ensures Normalized(apps[i].icon, halfFloat).None?
    {
      FetchIconsMissing(icons, apps, activePids, halfFloat, apps[i].pid);
    }
    FetchIconsStable(once, apps, activePids, halfFloat);
  }

  /** A window still without a handle after a resolver round was probed in
      that round and matched no probe, so probing its pid again finds nothing. */
  lemma UnresolvedStaysUnresolved(once: map<u32, AxElement>, retained: map<u32, AxElement>,
                                  infos: seq<WindowInfo>, elements: ElementSource,
                                  calls: seq<ResolverCall>, p: i32, w: u32)
    requires ResolvedCache(once, retained, Uncached(infos, retained), elements, calls)
    requires p in Uncached(infos, once) && w in Uncached(infos, once)[p]
    ensures w !in Resolution(elements, p, Uncached(infos, once)[p])
  {
    UncachedMembership(infos, once, p, w);
    var i :| 0 <= i < |infos| && infos[i].pid == p && infos[i].id == w && infos[i].id !in once;
    UncachedMembership(infos, retained, p, w);
    assert p in CallPids(calls);
    var k :| 0 <= k < |calls| && calls[k].pid == p;
    assert w in calls[k].wids && w !in Resolution(elements, p, calls[k].wids);
    assert !FoundBefore(elements, p, w, ProbeLimit);
  }

  /** A resolver round whose every call resolves nothing leaves the cache as retained. */
  lemma NothingResolved(cache: map<u32, AxElement>, retained: map<u32, AxElement>,
                        uncached: map<i32, set<u32>>, elements: ElementSource, calls: seq<ResolverCall>)
    requires ResolvedCache(cache, retained, uncached, elements, calls)
    requires forall j :: 0 <= j < |calls| ==> Resolution(elements, calls[j].pid, calls[j].wids) == map[]
    ensures cache == retained
  {
  }

  /** Every call of a second resolver round, made for the windows still
      without a handle, resolves nothing. */
  lemma SecondRoundEmpty(once: map<u32, AxElement>, retained: map<u32, AxElement>, infos: seq<WindowInfo>,
                         elements: ElementSource, calls1: seq<ResolverCall>, calls2: seq<ResolverCall>)
    requires ResolvedCache(once, retained, Uncached(infos, retained), elements, calls1)
    requires forall j :: 0 <= j < |calls2| ==>
               calls2[j].pid in Uncached(infos, once) && calls2[j].wids == Uncached(infos, once)[calls2[j].pid]
    ensures forall j :: 0 <= j < |calls2| ==> Resolution(elements, calls2[j].pid, calls2[j].wids) == map[]
  {
    var uncached := Uncached(infos, once);
    forall j, w | 0 <= j < |calls2| && w in calls2[j].wids
      ensures w !in Resolution(elements, calls2[j].pid, calls2[j].wids)
    {
      UnresolvedStaysUnresolved(once, retained, infos, elements, calls1, calls2[j].pid, w);
    }
  }

  /** A second resolver round over the same listing and element source adds
      no handle. */
  lemma HandlesIdempotent(retained: map<u32, AxElement>, once: map<u32, AxElement>, twice: map<u32, AxElement>,
                          infos: seq<WindowInfo>, elements: ElementSource,
                          calls1: seq<ResolverCall>, calls2: seq<ResolverCall>)
    requires ResolvedCache(once, retained, Uncached(infos, retained), elements, calls1)
    requires ResolvedCache(twice, once, Uncached(infos, once), elements, calls2)
    ensures twice == once
  {
    SecondRoundEmpty(once, retained, infos, elements, calls1, calls2);
    NothingResolved(twice, once, Uncached(infos, once), elements, calls2);
  }

  /** After a resolver round every handle belongs to a listed window, so a
      second eviction over the same listing removes nothing. */
  lemma EvictionKeepsRound(cache: map<u32, AxElement>, retained: map<u32, AxElement>, infos: seq<WindowInfo>,
                           elements: ElementSource, calls: seq<ResolverCall>)
    requires retained.Keys <= ActiveWids(infos)
    requires ResolvedCache(cache, retained, Uncached(infos, retained), elements, calls)
    ensures Restrict(cache, ActiveWids(infos)) == cache
  {
    CacheKeysLive(cache, retained, infos, elements, calls);
  }

  /** Two resolver rounds over the same listing, each after evicting the
      handles of windows no longer listed, end with the same handle cache. */
  lemma RoundsKeepHandles(ax0: map<u32, AxElement>, ax1: map<u32, AxElement>, ax2: map<u32, AxElement>,
                          infos: seq<WindowInfo>, elements: ElementSource)
    requires var retained := Restrict(ax0, ActiveWids(infos));
      exists calls :: ResolvedCache(ax1, retained, Uncached(infos, retained), elements, calls)
    requires var retained := Restrict(ax1, ActiveWids(infos));
      exists calls :: ResolvedCache(ax2, retained, Uncached(infos, retained), elements, calls)
    ensures ax2 == ax1
  {
    var retained0 := Restrict(ax0, ActiveWids(infos));
    var retained1 := Restrict(ax1, ActiveWids(infos));
    var calls1 :| ResolvedCache(ax1, retained0, Uncached(infos, retained0), elements, calls1);
    var calls2 :| ResolvedCache(ax2, retained1, Uncached(infos, retained1), elements, calls2);
    EvictionKeepsRound(ax1, retained0, infos, elements, calls1);
    HandlesIdempotent(retained0, ax1, ax2, infos, elements, calls1, calls2);
  }

  /** `refresh` is idempotent: refreshing again against the same system state
      leaves the published map and both caches as they are. */
  lemma RefreshIdempotent(apps0: map<i32, App>, ax0: map<u32, AxElement>, icons0: map<i32, IconData>,
                          apps1: map<i32, App>, ax1: map<u32, AxElement>, icons1: map<i32, IconData>,
                          apps2: map<i32, App>, ax2: map<u32, AxElement>, icons2: map<i32, IconData>,
                          os: Snapshot)
    requires Refreshed(apps0, ax0, icons0, apps1, ax1, icons1, os)
    requires Refreshed(apps1, ax1, icons1, apps2, ax2, icons2, os)
    ensures apps2 == apps1 && ax2 == ax1 && icons2 == icons1
  {
    if os.windowList.Some? {
      var infos := Infos(os);
      RoundsKeepHandles(ax0, ax1, ax2, infos, os.elements);
      IconsIdempotent(icons0, os.runningApps, ActivePids(infos), os.halfFloat);
    }
  }


  /* ---------- Window::focus ---------- */

  /** Window bounds and points, in screen coordinates. */
  datatype Rect = Rect(x: real, y: real, width: real, height: real)
  datatype Point = Point(x: real, y: real)

  /** The centre of a rectangle: equally far from both edges on each axis. */
  function Centre(b: Rect): (c: Point)
    ensures c.x - b.x == (b.x + b.width) - c.x
    ensures c.y - b.y == (b.y + b.height) - c.y
  {
    Point(b.x + b.width / 2.0, b.y + b.height / 2.0)
  }

  /** The options `focus` passes to `_SLPSSetFrontProcessWithOptions`. */
  const FrontOptions: int := 0x200

  /** One step of the focus protocol, as performed. */
  datatype FocusStep =
    | LookupPsn(pid: i32)                                    // GetProcessForPID
    | SetFrontProcess(psn: Psn, wid: u32, options: int)      // _SLPSSetFrontProcessWithOptions
    | PostEventRecord(psn: Psn, record: seq<byte>)           // SLPSPostEventRecordTo
    | Raise(element: AxElement)                              // AXRaise
    | GetWindowBounds(wid: u32)                              // SLSGetWindowBounds
    | WarpCursor(to: Point)                                  // CGWarpMouseCursorPosition

  /** The system's answers to the steps of `focus`. */
  datatype FocusOracle = FocusOracle(
    processForPid: i32 -> Option<Psn>,
    setFront: (Psn, u32, int) -> CGError,
    post: (Psn, seq<byte>) -> CGError,
    windowBounds: u32 -> Option<Rect>)

  datatype FocusError = PsnUnavailable | FrontProcessFailed(code: CGError) | KeyWindowFailed | BoundsUnavailable

  /** The complete, successful run of the protocol. */
  function FullTrace(w: Window, pid: i32, psn: Psn, bounds: Rect): (t: seq<FocusStep>)
    ensures |t| == 7
    ensures t[0].LookupPsn? && t[1].SetFrontProcess? && t[2].PostEventRecord? && t[3].PostEventRecord?
    ensures t[4].Raise? && t[5].GetWindowBounds? && t[6].WarpCursor?
  {
    [LookupPsn(pid), SetFrontProcess(psn, w.id, FrontOptions),
     PostEventRecord(psn, Record(w.id, KeyDown)), PostEventRecord(psn, Record(w.id, KeyUp)),
     Raise(w.axElement), GetWindowBounds(w.id), WarpCursor(Centre(bounds))]
  }

  /** Whether a performed step succeeded; the raise and the warp cannot fail. */
  predicate StepSucceeded(os: FocusOracle, step: FocusStep) {
    match step
    case LookupPsn(pid) => os.processForPid(pid).Some?
    case SetFrontProcess(psn, wid, options) => os.setFront(psn, wid, options) == Success
    case PostEventRecord(psn, record) => os.post(psn, record) == Success
    case Raise(_) => true
    case GetWindowBounds(wid) => os.windowBounds(wid).Some?
    case WarpCursor(_) => true
  }

  /** The error reported when `step` fails. */
  function FailureOf(os: FocusOracle, step: FocusStep): FocusError {
    match step
    case LookupPsn(_) => PsnUnavailable
    case SetFrontProcess(psn, wid, options) => FrontProcessFailed(os.setFront(psn, wid, options))
    case PostEventRecord(_, _) => KeyWindowFailed
    case _ => BoundsUnavailable
  }

  /** A run of `focus`: the trace is a prefix of the full protocol, every step
      but the last succeeded, and the run passes exactly when the whole
      protocol ran; otherwise it reports the failure of its last step. */
  ghost predicate FocusRun(w: Window, pid: i32, os: FocusOracle, r: Outcome<FocusError>, trace: seq<FocusStep>) {
    && 1 <= |trace| <= 7
    && trace[0] == LookupPsn(pid)
    && (|trace| >= 2 ==>
          && os.processForPid(pid).Some?
          && var psn := os.processForPid(pid).value;
          && trace[1] == SetFrontProcess(psn, w.id, FrontOptions)
          && (|trace| >= 3 ==> trace[2] == PostEventRecord(psn, Record(w.id, KeyDown)))
          && (|trace| >= 4 ==> trace[3] == PostEventRecord(psn, Record(w.id, KeyUp)))
          && (|trace| >= 5 ==> trace[4] == Raise(w.axElement))
          && (|trace| >= 6 ==> trace[5] == GetWindowBounds(w.id))
          && (|trace| == 7 ==> os.windowBounds(w.id).Some? && trace[6] == WarpCursor(Centre(os.windowBounds(w.id).value))))
    && (forall i :: 0 <= i < |trace| - 1 ==> StepSucceeded(os, trace[i]))
    && (r.Pass? <==> |trace| == 7)
    && (r.Fail? ==> !StepSucceeded(os, trace[|trace| - 1]) && r.error == FailureOf(os, trace[|trace| - 1]))
  }

  /** `Window::focus`: brings `app` to the front with `w` as its key window,
      raises `w` and centres the cursor on it, stopping at the first failure. */
  method Focus(w: Window, app: RunningApp, os: FocusOracle) returns (r: Outcome<FocusError>, trace: seq<FocusStep>)
    ensures FocusRun(w, app.pid, os, r, trace)
  {
    var pid := app.pid;
    trace := [LookupPsn(pid)];
    var found := os.processForPid(pid);
    if found.None? {
      return Fail(PsnUnavailable), trace;
    }
    var psn := found.value;

    trace := trace + [SetFrontProcess(psn, w.id, FrontOptions)];
    var res := os.setFront(psn, w.id, FrontOptions);
    if res != Success {
      return Fail(FrontProcessFailed(res)), trace;
    }

    var keyRes, posted := MakeKeyWindow(w.id, psn, os.post);
    RecordUnique(posted[0], w.id, KeyDown);
    trace := trace + [PostEventRecord(psn, posted[0])];
    if |posted| == 2 {
      RecordUnique(posted[1], w.id, KeyUp);
      trace := trace + [PostEventRecord(psn, posted[1])];
    }
    if keyRes != Success {
      return Fail(KeyWindowFailed), trace;
    }

    trace := trace + [Raise(w.axElement)];

    trace := trace + [GetWindowBounds(w.id)];
    var bounds := os.windowBounds(w.id);
    if bounds.None? {
      return Fail(BoundsUnavailable), trace;
    }

    trace := trace + [WarpCursor(Centre(bounds.value))];
    return Pass, trace;
  }

  /** Focus passes exactly when every oracle answers with success. */
  lemma FocusPassesIffAllSucceed(w: Window, pid: i32, os: FocusOracle, r: Outcome<FocusError>, trace: seq<FocusStep>)
    requires FocusRun(w, pid, os, r, trace)
    ensures r.Pass? <==>
      && os.processForPid(pid).Some?
      && var psn := os.processForPid(pid).value;
      && os.setFront(psn, w.id, FrontOptions) == Success
      && os.post(psn, Record(w.id, KeyDown)) == Success
      && os.post(psn, Record(w.id, KeyUp)) == Success
      && os.windowBounds(w.id).Some?
    ensures r.Pass? ==> trace == FullTrace(w, pid, os.processForPid(pid).value, os.windowBounds(w.id).value)
  {
    if r.Fail? {
      var last := |trace| - 1;
      assert !StepSucceeded(os, trace[last]);
    } else {
      assert StepSucceeded(os, trace[1]) && StepSucceeded(os, trace[2]);
      assert StepSucceeded(os, trace[3]) && StepSucceeded(os, trace[5]);
    }
  }

  /** A failed PSN lookup performs no later step. */
  lemma FocusPsnFailure(w: Window, pid: i32, os: FocusOracle, r: Outcome<FocusError>, trace: seq<FocusStep>)
    requires FocusRun(w, pid, os, r, trace)
    requires os.processForPid(pid).None?
    ensures trace == [LookupPsn(pid)] && r == Fail(PsnUnavailable)
  {
  }

  /** A failed set-front posts no key-window record. */
  lemma FocusFrontFailure(w: Window, pid: i32, os: FocusOracle, r: Outcome<FocusError>, trace: seq<FocusStep>)
    requires FocusRun(w, pid, os, r, trace)
    requires os.processForPid(pid).Some?
    requires os.setFront(os.processForPid(pid).value, w.id, FrontOptions) != Success
    ensures |trace| == 2 && r == Fail(FrontProcessFailed(os.setFront(os.processForPid(pid).value, w.id, FrontOptions)))
    ensures forall i :: 0 <= i < |trace| ==> !trace[i].PostEventRecord?
  {
    assert !StepSucceeded(os, trace[1]);
  }

  /** A failed key-window post means the window is not raised; a failed
      key-down post means no key-up post. */
  lemma FocusKeyWindowFailure(w: Window, pid: i32, os: FocusOracle, r: Outcome<FocusError>, trace: seq<FocusStep>)
    requires FocusRun(w, pid, os, r, trace)
    requires os.processForPid(pid).Some?
    requires var psn := os.processForPid(pid).value;
      && os.setFront(psn, w.id, FrontOptions) == Success
      && (os.post(psn, Record(w.id, KeyDown)) != Success || os.post(psn, Record(w.id, KeyUp)) != Success)
    ensures r == Fail(KeyWindowFailed)
    ensures forall i :: 0 <= i < |trace| ==> !trace[i].Raise?
    ensures os.post(os.processForPid(pid).value, Record(w.id, KeyDown)) != Success ==> |trace| == 3
  {
    var psn := os.processForPid(pid).value;
    assert StepSucceeded(os, trace[0]);
    if os.post(psn, Record(w.id, KeyDown)) != Success {
      assert |trace| >= 4 ==> StepSucceeded(os, trace[2]);
    } else {
      assert |trace| >= 5 ==> StepSucceeded(os, trace[3]);
    }
  }

  /** A failed bounds query reports an error after the raise and never warps the cursor. */
  lemma FocusBoundsFailure(w: Window, pid: i32, os: FocusOracle, r: Outcome<FocusError>, trace: seq<FocusStep>)
    requires FocusRun(w, pid, os, r, trace)
    requires os.processForPid(pid).Some?
    requires var psn := os.processForPid(pid).value;
      && os.setFront(psn, w.id, FrontOptions) == Success
      && os.post(psn, Record(w.id, KeyDown)) == Success
      && os.post(psn, Record(w.id, KeyUp)) == Success
    requires os.windowBounds(w.id).None?
    ensures r == Fail(BoundsUnavailable)
    ensures |trace| == 6 && trace[4] == Raise(w.axElement)
    ensures forall i :: 0 <= i < |trace| ==> !trace[i].WarpCursor?
  {
    var last := |trace| - 1;
    assert !StepSucceeded(os, trace[last]);
  }
}
