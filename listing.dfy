/** The picker's item list: every published window, filtered by the fuzzy
    matcher when a query is typed, in the three-key sort order
    (get_filtered_items in src/ui.rs; the same listing inside App::update in src/app.rs). */
module Listing {
  import opened Wrappers
  import opened Bytes
  import opened Windows

  /** A fuzzy match: its score and the matched character positions. */
  datatype Match = Match(score: nat, indices: seq<nat>)

  /** The fuzzy matcher, as a black box: `matcher(haystack, needle)`. */
  type Matcher = (string, string) -> Option<Match>

  /** One row of the picker. */
  datatype Item = Item(pid: i32, app: App, window: Window, score: nat, indices: seq<nat>)

  /** The text a window is matched against: application name, a space, window title. */
  function SearchText(app: App, win: Window): string {
    app.name + " " + win.title
  }

  /** The row of window `win` of `app`, if it is listed: always, with score 0
      and no indices, for the empty query; otherwise exactly when the matcher
      accepts its search text, with the matcher's score and indices. */
  function Candidate(pid: i32, app: App, win: Window, query: string, matcher: Matcher): (r: Option<Item>)
    ensures query == [] ==> r == Some(Item(pid, app, win, 0, []))
    ensures query != [] ==> (r.Some? <==> matcher(SearchText(app, win), query).Some?)
    ensures query != [] && r.Some? ==>
              var m := matcher(SearchText(app, win), query).value;
              r.value.score == m.score && r.value.indices == m.indices
    ensures r.Some? ==> r.value.pid == pid && r.value.app == app && r.value.window == win
  {
    if query == [] then Some(Item(pid, app, win, 0, []))
    else
      match matcher(SearchText(app, win), query)
      case None => None
      case Some(m) => Some(Item(pid, app, win, m.score, m.indices))
  }

  /** The rows of the windows `wins` of `app`, in window order. */
  function AppItems(pid: i32, app: App, wins: seq<Window>, query: string, matcher: Matcher): seq<Item> {
    if wins == [] then []
    else
      var rest := AppItems(pid, app, wins[..|wins| - 1], query, matcher);
      match Candidate(pid, app, wins[|wins| - 1], query, matcher)
      case None => rest
      case Some(item) => rest + [item]
  }

  /** The unsorted rows: the applications in map iteration order `order`,
      each with its windows in order. */
  function Collect(appMap: map<i32, App>, order: seq<i32>, query: string, matcher: Matcher): seq<Item>
    requires forall i :: 0 <= i < |order| ==> order[i] in appMap
  {
    if order == [] then []
    else
      var p := order[|order| - 1];
      Collect(appMap, order[..|order| - 1], query, matcher) + AppItems(p, appMap[p], appMap[p].windows, query, matcher)
  }

  /** `order` visits every key of `appMap` exactly once. */
  ghost predicate Enumerates(order: seq<i32>, appMap: map<i32, App>) {
    && (forall i, j :: 0 <= i < j < |order| ==> order[i] != order[j])
    && (forall p :: p in appMap <==> p in order)
  }

  lemma {:induction false} AppItemsMembership(pid: i32, app: App, wins: seq<Window>, query: string,
                                             matcher: Matcher, x: Item)
    ensures x in AppItems(pid, app, wins, query, matcher) <==>
              exists j :: 0 <= j < |wins| && Candidate(pid, app, wins[j], query, matcher) == Some(x)
  {
    if wins != [] {
      var init := wins[..|wins| - 1];
      AppItemsMembership(pid, app, init, query, matcher, x);
      assert forall j :: 0 <= j < |init| ==> init[j] == wins[j];
    }
  }

  /** `x` is the row of the `j`th window of application `p`. */
  ghost predicate RowOf(appMap: map<i32, App>, p: i32, j: int, query: string, matcher: Matcher, x: Item) {
    p in appMap && 0 <= j < |appMap[p].windows|
    && Candidate(p, appMap[p], appMap[p].windows[j], query, matcher) == Some(x)
  }

  /** A row is listed exactly when it is the row of some window of some
      application visited by `order`. */
  lemma CollectMembership(appMap: map<i32, App>, order: seq<i32>, query: string, matcher: Matcher, x: Item)
    requires forall i :: 0 <= i < |order| ==> order[i] in appMap
    ensures x in Collect(appMap, order, query, matcher) <==>
              exists i, j :: 0 <= i < |order| && RowOf(appMap, order[i], j, query, matcher, x)
  {
    if x in Collect(appMap, order, query, matcher) {
      CollectSound(appMap, order, query, matcher, x);
    }
    if exists i, j :: 0 <= i < |order| && RowOf(appMap, order[i], j, query, matcher, x) {
      var i, j :| 0 <= i < |order| && RowOf(appMap, order[i], j, query, matcher, x);
      CollectComplete(appMap, order, query, matcher, x, i, j);
    }
  }

  lemma {:induction false} CollectSound(appMap: map<i32, App>, order: seq<i32>, query: string, matcher: Matcher, x: Item)
    requires forall i :: 0 <= i < |order| ==> order[i] in appMap
    requires x in Collect(appMap, order, query, matcher)
    ensures exists i, j :: 0 <= i < |order| && RowOf(appMap, order[i], j, query, matcher, x)
  {
    var init := order[..|order| - 1];
    var last := |order| - 1;
    var p := order[last];
    if x in Collect(appMap, init, query, matcher) {
      CollectSound(appMap, init, query, matcher, x);
      var i, j :| 0 <= i < |init| && RowOf(appMap, init[i], j, query, matcher, x);
      assert init[i] == order[i];
    } else {
      AppItemsMembership(p, appMap[p], appMap[p].windows, query, matcher, x);
      var j :| 0 <= j < |appMap[p].windows| && Candidate(p, appMap[p], appMap[p].windows[j], query, matcher) == Some(x);
      assert RowOf(appMap, order[last], j, query, matcher, x);
    }
  }

  lemma {:induction false} CollectComplete(appMap: map<i32, App>, order: seq<i32>, query: string, matcher: Matcher,
                                          x: Item, i: nat, j: nat)
    requires forall k :: 0 <= k < |order| ==> order[k] in appMap
    requires i < |order| && RowOf(appMap, order[i], j, query, matcher, x)
    ensures x in Collect(appMap, order, query, matcher)
  {
    var init := order[..|order| - 1];
    var last := |order| - 1;
    var p := order[last];
    if i < last {
      assert init[i] == order[i];
      CollectComplete(appMap, init, query, matcher, x, i, j);
    } else {
      AppItemsMembership(p, appMap[p], appMap[p].windows, query, matcher, x);
    }
  }

  /** With the empty query every window of every application is listed, with
      score 0 and no indices, and nothing else is. */
  lemma EmptyQueryListsEveryWindow(appMap: map<i32, App>, order: seq<i32>, matcher: Matcher, x: Item)
    requires Enumerates(order, appMap)
    ensures x in Collect(appMap, order, "", matcher) <==>
              x.pid in appMap && x.app == appMap[x.pid] && x.window in appMap[x.pid].windows
              && x.score == 0 && x.indices == []
  {
    CollectMembership(appMap, order, "", matcher, x);
    if x.pid in appMap && x.app == appMap[x.pid] && x.window in appMap[x.pid].windows && x.score == 0 && x.indices == [] {
      var i :| 0 <= i < |order| && order[i] == x.pid;
      var j :| 0 <= j < |appMap[x.pid].windows| && appMap[x.pid].windows[j] == x.window;
      assert RowOf(appMap, order[i], j, "", matcher, x);
    }
  }

  /** With a non-empty query a row is listed exactly when the matcher accepts
      its window, and it carries the matcher's score and indices. */
  lemma QueryListsMatches(appMap: map<i32, App>, order: seq<i32>, query: string, matcher: Matcher, x: Item)
    requires Enumerates(order, appMap) && query != []
    ensures x in Collect(appMap, order, query, matcher) <==>
              && x.pid in appMap && x.app == appMap[x.pid] && x.window in appMap[x.pid].windows
              && matcher(SearchText(x.app, x.window), query) == Some(Match(x.score, x.indices))
  {
    CollectMembership(appMap, order, query, matcher, x);
    if && x.pid in appMap && x.app == appMap[x.pid] && x.window in appMap[x.pid].windows
       && matcher(SearchText(x.app, x.window), query) == Some(Match(x.score, x.indices)) {
      var i :| 0 <= i < |order| && order[i] == x.pid;
      var j :| 0 <= j < |appMap[x.pid].windows| && appMap[x.pid].windows[j] == x.window;
      assert RowOf(appMap, order[i], j, query, matcher, x);
    }
  }

  /* ---------- the sort order ---------- */

  datatype Ordering = Less | Equal | Greater

  function Flip(o: Ordering): Ordering {
    match o
    case Less => Greater
    case Equal => Equal
    case Greater => Less
  }

  /** `a.cmp(&b)` on integers. */
  function NatCmp(a: nat, b: nat): (o: Ordering)
    ensures o == Less <==> a < b
    ensures o == Equal <==> a == b
  {
    if a < b then Less else if a == b then Equal else Greater
  }

  /** `a.cmp(&b)` on strings: lexicographic by character, a proper prefix first. */
  function StrCmp(a: string, b: string): Ordering {
    if a == [] then (if b == [] then Equal else Less)
    else if b == [] then Greater
    else if a[0] < b[0] then Less
    else if b[0] < a[0] then Greater
    else StrCmp(a[1..], b[1..])
  }

  lemma {:induction false} StrCmpEqual(a: string, b: string)
    ensures StrCmp(a, b) == Equal <==> a == b
  {
    if a != [] && b != [] && a[0] == b[0] {
      StrCmpEqual(a[1..], b[1..]);
      assert a == [a[0]] + a[1..] && b == [b[0]] + b[1..];
    }
  }

  lemma {:induction false} StrCmpFlip(a: string, b: string)
    ensures StrCmp(b, a) == Flip(StrCmp(a, b))
  {
    if a != [] && b != [] && a[0] == b[0] {
      StrCmpFlip(a[1..], b[1..]);
    }
  }

  lemma {:induction false} StrCmpTrans(a: string, b: string, c: string)
    requires StrCmp(a, b) == Less && StrCmp(b, c) == Less
    ensures StrCmp(a, c) == Less
  {
    if a != [] && b != [] && c != [] && a[0] == b[0] && b[0] == c[0] {
      StrCmpTrans(a[1..], b[1..], c[1..]);
    }
  }

  /** `o1.then_with(|| o2)`. */
  function ThenWith(o1: Ordering, o2: Ordering): Ordering {
    if o1 == Equal then o2 else o1
  }

  /** The comparator of the sort: descending score, then ascending
      application name, then ascending window title. */
  function CompareItems(a: Item, b: Item): Ordering {
    ThenWith(NatCmp(b.score, a.score), ThenWith(StrCmp(a.app.name, b.app.name), StrCmp(a.window.title, b.window.title)))
  }

  /** The comparator is antisymmetric. */
  lemma CompareFlip(a: Item, b: Item)
    ensures CompareItems(b, a) == Flip(CompareItems(a, b))
  {
    StrCmpFlip(a.app.name, b.app.name);
    StrCmpFlip(a.window.title, b.window.title);
  }

  lemma Lexicographic(x: string, y: string, z: string, u: string, v: string, w: string)
    requires ThenWith(StrCmp(x, y), StrCmp(u, v)) != Greater
    requires ThenWith(StrCmp(y, z), StrCmp(v, w)) != Greater
    ensures ThenWith(StrCmp(x, z), StrCmp(u, w)) != Greater
  {
    StrCmpEqual(x, y); StrCmpEqual(y, z); StrCmpEqual(x, z);
    StrCmpEqual(u, v); StrCmpEqual(v, w);
    if StrCmp(x, y) == Less && StrCmp(y, z) == Less {
      StrCmpTrans(x, y, z);
    } else if StrCmp(x, y) == Equal && StrCmp(y, z) == Equal {
      if StrCmp(u, v) == Less && StrCmp(v, w) == Less {
        StrCmpTrans(u, v, w);
      }
    }
  }

  /** The comparator is transitive. */
  lemma CompareTrans(a: Item, b: Item, c: Item)
    requires CompareItems(a, b) != Greater && CompareItems(b, c) != Greater
    ensures CompareItems(a, c) != Greater
  {
    if a.score == b.score && b.score == c.score {
      Lexicographic(a.app.name, b.app.name, c.app.name, a.window.title, b.window.title, c.window.title);
    }
  }

  /** Every earlier row compares below or equal to every later one. */
  ghost predicate Sorted(s: seq<Item>) {
    forall i, j :: 0 <= i < j < |s| ==> CompareItems(s[i], s[j]) != Greater
  }

  /** Stable insertion: `x` goes after every row that does not compare above it. */
  function Insert(x: Item, s: seq<Item>): seq<Item> {
    if s == [] then [x]
    else if CompareItems(s[0], x) == Greater then [x] + s
    else [s[0]] + Insert(x, s[1..])
  }

  /** `sort_by` with the comparator above: a stable sort. */
  function SortItems(s: seq<Item>): seq<Item> {
    if s == [] then []
    else Insert(s[|s| - 1], SortItems(s[..|s| - 1]))
  }

  lemma {:induction false} InsertPermutes(x: Item, s: seq<Item>)
    ensures multiset(Insert(x, s)) == multiset(s) + multiset{x}
  {
    if s != [] && CompareItems(s[0], x) != Greater {
      InsertPermutes(x, s[1..]);
      assert s == [s[0]] + s[1..];
    }
  }

  lemma {:induction false} InsertSorted(x: Item, s: seq<Item>)
    requires Sorted(s)
    ensures Sorted(Insert(x, s))
  {
    if s == [] {
    } else if CompareItems(s[0], x) == Greater {
      CompareFlip(s[0], x);
      forall j | 0 <= j < |s|
        ensures CompareItems(x, s[j]) != Greater
      {
        if j > 0 {
          CompareTrans(x, s[0], s[j]);
        }
      }
      var r := [x] + s;
      assert forall i :: 0 < i < |r| ==> r[i] == s[i - 1];
    } else {
      var tail := s[1..];
      InsertSorted(x, tail);
      InsertPermutes(x, tail);
      var t := Insert(x, tail);
      forall j | 0 <= j < |t|
        ensures CompareItems(s[0], t[j]) != Greater
      {
        assert t[j] in multiset(t);
        if t[j] != x {
          assert t[j] in multiset(tail);
          var k :| 0 <= k < |tail| && tail[k] == t[j];
          assert tail[k] == s[k + 1];
        }
      }
      var r := [s[0]] + t;
      assert forall i :: 0 < i < |r| ==> r[i] == t[i - 1];
    }
  }

  /** The sort returns a sorted permutation of its input. */
  lemma {:induction false} SortItemsCorrect(s: seq<Item>)
    ensures Sorted(SortItems(s))
    ensures multiset(SortItems(s)) == multiset(s)
  {
    if s != [] {
      var init := s[..|s| - 1];
      SortItemsCorrect(init);
      InsertSorted(s[|s| - 1], SortItems(init));
      InsertPermutes(s[|s| - 1], SortItems(init));
      assert s == init + [s[|s| - 1]];
    }
  }

  /* ---------- get_filtered_items ---------- */

  /** `get_filtered_items`: one row per window of every published
      application (visited in unspecified map order), kept or dropped by
      the query, then sorted. */
  method GetFilteredItems(appMap: map<i32, App>, query: string, matcher: Matcher)
    returns (items: seq<Item>, ghost order: seq<i32>)
    ensures Enumerates(order, appMap)
    ensures items == SortItems(Collect(appMap, order, query, matcher))
    ensures Sorted(items) && multiset(items) == multiset(Collect(appMap, order, query, matcher))
    ensures |items| == |Collect(appMap, order, query, matcher)|
  {
    var collected: seq<Item> := [];
    order := [];
    var pending := appMap.Keys;
    while pending != {}
      invariant pending <= appMap.Keys
      invariant forall i :: 0 <= i < |order| ==> order[i] in appMap && order[i] !in pending
      invariant forall i, j :: 0 <= i < j < |order| ==> order[i] != order[j]
      invariant forall p :: p in appMap && p !in pending ==> p in order
      invariant collected == Collect(appMap, order, query, matcher)
      decreases pending
    {
      var pid :| pid in pending;
      var app := appMap[pid];
      var j := 0;
      while j < |app.windows|
        invariant 0 <= j <= |app.windows|
        invariant collected == Collect(appMap, order, query, matcher) + AppItems(pid, app, app.windows[..j], query, matcher)
      {
        var win := app.windows[j];
        assert app.windows[..j + 1][..j] == app.windows[..j];
        if query == [] {
          collected := collected + [Item(pid, app, win, 0, [])];
        } else {
          var found := matcher(SearchText(app, win), query);
          if found.Some? {
            collected := collected + [Item(pid, app, win, found.value.score, found.value.indices)];
          }
        }
        j := j + 1;
      }
      assert app.windows[..j] == app.windows;
      ghost var order' := order + [pid];
      assert order'[..|order'| - 1] == order;
      order := order';
      pending := pending - {pid};
    }
    items := SortItems(collected);
    SortItemsCorrect(collected);
    assert |items| == |multiset(items)| == |multiset(collected)| == |collected|;
  }
}
