/** The item registry of `YouTubeDownloader`: the insertion-ordered dict
    `self.items`, the handlers that change it, and the predicates behind
    the download button. */
module Registry {
  import opened Text
  import opened UrlValidation
  import opened DownloadItems

  /** The check `_on_download` applies before starting an item
      (`item.status not in ["downloading", "completed"]`). */
  predicate Eligible(s: ItemState) {
    !IsBlank(s.url) && ValidateUrl(s.url).None? && s.status != Downloading && s.status != Completed
  }

  /** The stricter check of `has_valid` in `_update_download_btn`, which
      also leaves out "exists". */
  predicate Startable(s: ItemState) {
    Eligible(s) && s.status != Exists
  }

  /** What `_on_download` does to one item. */
  function AfterStartAll(s: ItemState): ItemState {
    if Eligible(s) then Started(s) else s
  }

  /** The ids that `_on_download` starts, in visiting order. */
  function EligibleIds(order: seq<string>, view: map<string, ItemState>): (r: seq<string>)
    requires forall k | k in order :: k in view
    ensures forall k :: k in r <==> k in order && Eligible(view[k])
    ensures |r| <= |order|
    decreases |order|
  {
    if order == [] then []
    else
      var last := order[|order| - 1];
      var front := EligibleIds(order[..|order| - 1], view);
      assert forall k :: k in order <==> k in order[..|order| - 1] || k == last;
      if Eligible(view[last]) then front + [last] else front
  }

  /** `any(... for item in self.items.values())` over a list of states. */
  function AnyStartable(states: seq<ItemState>): (r: bool)
    ensures r <==> exists i | 0 <= i < |states| :: Startable(states[i])
    decreases |states|
  {
    if states == [] then false
    else if Startable(states[0]) then true
    else
      var r := AnyStartable(states[1..]);
      assert forall i | 1 <= i < |states| :: states[i] == states[1..][i - 1];
      assert forall i | 0 <= i < |states| - 1 :: states[1..][i] == states[i + 1];
      r
  }

  function AnyDownloading(states: seq<ItemState>): (r: bool)
    ensures r <==> exists i | 0 <= i < |states| :: states[i].status == Downloading
    decreases |states|
  {
    if states == [] then false
    else if states[0].status == Downloading then true
    else
      var r := AnyDownloading(states[1..]);
      assert forall i | 1 <= i < |states| :: states[i] == states[1..][i - 1];
      assert forall i | 0 <= i < |states| - 1 :: states[1..][i] == states[i + 1];
      r
  }

  /** A non-blank url passes `_validate_url` exactly when the regex accepts
      it, so after an edit the item can be started exactly then. */
  lemma EditedItemEligible(s: ItemState, url: string)
    ensures Eligible(ResetForUrl(s, url)) <==> !IsBlank(url) && RegexMatches(url)
    ensures Startable(ResetForUrl(s, url)) <==> Eligible(ResetForUrl(s, url))
  {
  }

  /** One row after `_on_download`: an eligible row is now "downloading",
      and no row is left that the button would count. */
  lemma AfterStartAllSettles(s: ItemState)
    ensures Eligible(s) ==> AfterStartAll(s).status == Downloading
    ensures !Startable(AfterStartAll(s))
  {
  }

  /** The button is enabled only when pressing it starts something, and
      pressing it leaves nothing for the button to start. */
  lemma ButtonMatchesStartAll(order: seq<string>, view: map<string, ItemState>)
    requires forall k | k in order :: k in view
    ensures (exists k | k in order :: Startable(view[k])) ==> EligibleIds(order, view) != []
    ensures forall k | k in order :: !Startable(AfterStartAll(view[k]))
    ensures EligibleIds(order, view) != [] ==> exists k | k in order :: AfterStartAll(view[k]).status == Downloading
  {
    var ids := EligibleIds(order, view);
    if exists k | k in order :: Startable(view[k]) {
      var k :| k in order && Startable(view[k]);
      assert k in ids;
    }
    forall k | k in order ensures !Startable(AfterStartAll(view[k])) {
      AfterStartAllSettles(view[k]);
    }
    if ids != [] {
      var k := ids[0];
      assert k in ids;
      AfterStartAllSettles(view[k]);
    }
  }

  /** "exists" items are restarted by the download handler although the
      button does not count them. */
  lemma ExistsRestartedButNotCounted(s: ItemState)
    requires s.status == Exists && !IsBlank(s.url) && RegexMatches(s.url)
    ensures Eligible(s) && !Startable(s)
  {
  }

  /** Three rows: a text that is no link, a finished download and an idle
      row with an accepted link. Exactly the idle one is started. */
  lemma ThreeItemScenario(view: map<string, ItemState>, bad: string, good: string)
    requires bad == "not a link" && !IsBlank(good) && RegexMatches(good)
    requires view == map["a" := NewItemState(bad),
                         "b" := NewItemState(good).(status := Completed, progress := 100.0),
                         "c" := NewItemState(good)]
    ensures EligibleIds(["a", "b", "c"], view) == ["c"]
  {
    LeadingCharRejected(bad);
    assert !Eligible(view["a"]) && !Eligible(view["b"]) && Eligible(view["c"]);
    assert EligibleIds(["a"], view) == [] by {
      assert ["a"][..0] == [];
    }
    assert EligibleIds(["a", "b"], view) == [] by {
      assert ["a", "b"][..1] == ["a"];
    }
    assert ["a", "b", "c"][..2] == ["a", "b"];
  }

  /** `_on_cancel` and then `_on_download` while the first run is still in
      its transfer: the cancelled row is eligible again, and restarting it
      lowers the flag of the object the first run shares, so that run's hook
      no longer raises and a normal end completes the row. */
  lemma RestartUncancelsRunningTransfer(s: ItemState, events: seq<ProgressEvent>)
    requires !IsBlank(s.url) && MatchesYouTube(s.url)
    ensures Eligible(MarkCancelled(s))
    ensures var r := AfterStartAll(MarkCancelled(s));
      && r == Started(MarkCancelled(s)) && !r.cancelFlag
      && !RunHooks(r, events).raised
      && Transfer(r, events, TransferOk).status == Completed
  {
    MatchesIffRegex(s.url);
    RunHooksKeepsLifecycle(Started(MarkCancelled(s)), events);
  }

  /** `_on_cancel` and then `_on_download` while the first run is still in
      `extract_info`: the restart lowers the shared flag, so that run's
      check after the metadata step no longer stops it, and it goes on to
      the transfer. Without the restart it would stop as "cancelled". */
  lemma RestartUncancelsPendingMetadata(s: ItemState, dir: string, info: Metadata)
    requires !IsBlank(s.url) && MatchesYouTube(s.url)
    ensures Eligible(MarkCancelled(s))
    ensures !Resolve(MarkCancelled(s), dir, Fetched(info), false).transfer
    ensures Resolve(AfterStartAll(MarkCancelled(s)), dir, Fetched(info), false).transfer
  {
    MatchesIffRegex(s.url);
  }

  /** `idx` picks, in increasing positions of `s`, the entries of `r`. */
  ghost predicate Embeds(idx: seq<nat>, r: seq<string>, s: seq<string>) {
    && |idx| == |r|
    && (forall a | 0 <= a < |idx| :: idx[a] < |s| && s[idx[a]] == r[a])
    && (forall a, b | 0 <= a < b < |idx| :: idx[a] < idx[b])
  }

  /** `r` is `s` with some entries left out, the rest in their order. */
  ghost predicate SubsequenceOf(r: seq<string>, s: seq<string>) {
    exists idx: seq<nat> :: Embeds(idx, r, s)
  }

  /** `_on_download` starts the eligible ids in the order the dict lists
      them. */
  lemma {:induction false} EligibleIdsInOrder(order: seq<string>, view: map<string, ItemState>)
    requires forall k | k in order :: k in view
    ensures SubsequenceOf(EligibleIds(order, view), order)
    decreases |order|
  {
    if order == [] {
      assert Embeds([], [], order);
    } else {
      var n := |order| - 1;
      var front := EligibleIds(order[..n], view);
      EligibleIdsInOrder(order[..n], view);
      var idx :| Embeds(idx, front, order[..n]);
      if Eligible(view[order[n]]) {
        assert EligibleIds(order, view) == front + [order[n]];
        EmbedsAppend(idx, front, order);
      } else {
        assert EligibleIds(order, view) == front;
        EmbedsWiden(idx, front, order);
      }
    }
  }

  /** An embedding into all but the last entry is one into the whole list. */
  lemma EmbedsWiden(idx: seq<nat>, r: seq<string>, s: seq<string>)
    requires |s| > 0 && Embeds(idx, r, s[..|s| - 1])
    ensures Embeds(idx, r, s)
  {
    assert forall a | 0 <= a < |idx| :: s[..|s| - 1][idx[a]] == s[idx[a]];
  }

  /** Taking the last entry as well extends the embedding by its position. */
  lemma EmbedsAppend(idx: seq<nat>, r: seq<string>, s: seq<string>)
    requires |s| > 0 && Embeds(idx, r, s[..|s| - 1])
    ensures Embeds(idx + [|s| - 1], r + [s[|s| - 1]], s)
  {
    EmbedsWiden(idx, r, s);
  }

  /** `YouTubeDownloader` reduced to its state: `items` with its insertion
      order and the download directory. */
  class Downloader {
    var items: map<string, DownloadItem>
    var order: seq<string>
    const downloadPath: string

    /** The registry is well formed (see `Registered`). */
    ghost predicate Valid()
      reads this
    {
      Registered(items, order)
    }

    /** The rows' current field values. */
    function View(): map<string, ItemState>
      reads this, items.Values
    {
      map k | k in items :: items[k].Snapshot()
    }

    /** The rows' field values in insertion order. */
    function States(): (r: seq<ItemState>)
      reads this, items.Values
      requires Valid()
      ensures |r| == |order| && forall i | 0 <= i < |order| :: r[i] == View()[order[i]]
    {
      var view, ids := View(), order;
      seq(|ids|, i requires 0 <= i < |ids| && ids[i] in view => view[ids[i]])
    }

    /** `__init__` with the initial row of `_build_ui`. */
    constructor (initialId: string, downloadPath: string)
      ensures Valid() && this.downloadPath == downloadPath
      ensures order == [initialId] && View() == map[initialId := NewItemState("")]
      ensures initialId in items && fresh(items[initialId])
    {
      var item := new DownloadItem(initialId, "");
      items := map[initialId := item];
      order := [initialId];
      this.downloadPath := downloadPath;
    }

    /** The start of `download()` for the row object the thread holds, up
        to the call of `ydl.download`: `mkdir` of the download directory,
        then the metadata step with the expected file under that directory.
        A failing `mkdir` raises before the `try`, leaving the row as it is. */
    method FetchMetadata(item: DownloadItem, dirCreated: bool, fetch: FetchResult, fileExists: bool)
      returns (transfer: bool)
      modifies item
      ensures dirCreated ==>
        Resolution(item.Snapshot(), transfer) == Resolve(old(item.Snapshot()), downloadPath, fetch, fileExists)
      ensures !dirCreated ==> !transfer && item.Snapshot() == old(item.Snapshot())
    {
      transfer := false;
      if dirCreated {
        transfer := item.ResolveMetadata(downloadPath, fetch, fileExists);
      }
    }

    /** `has_valid`: some row could be started. */
    function HasStartable(): (r: bool)
      reads this, items.Values
      requires Valid()
      ensures r <==> exists k | k in items :: Startable(View()[k])
    {
      var states := States();
      assert forall k | k in items :: exists i | 0 <= i < |order| :: order[i] == k;
      AnyStartable(states)
    }

    /** `is_downloading`: some row is downloading. */
    function IsDownloading(): (r: bool)
      reads this, items.Values
      requires Valid()
      ensures r <==> exists k | k in items :: View()[k].status == Downloading
    {
      var states := States();
      assert forall k | k in items :: exists i | 0 <= i < |order| :: order[i] == k;
      AnyDownloading(states)
    }

    /** `_on_add` with the id it generated; ids are assumed not to collide. */
    method Add(id: string)
      requires Valid() && id !in items
      modifies this
      ensures Valid()
      ensures order == old(order) + [id]
      ensures fresh(items[id]) && items == old(items)[id := items[id]]
      ensures View() == old(View())[id := NewItemState("")]
    {
      var item := new DownloadItem(id, "");
      RegisteredAdd(items, order, id, item);
      items := items[id := item];
      order := order + [id];
    }

    /** `_on_url_change`: a known row takes the new url and forgets its run;
        its cancel flag and every other row stay as they were. */
    method UrlChange(id: string, url: string)
      requires Valid()
      modifies if id in items then {items[id]} else {}
      ensures Valid()
      ensures id in old(View()) ==> View() == old(View())[id := ResetForUrl(old(View())[id], url)]
      ensures id !in old(View()) ==> View() == old(View())
    {
      if id !in items {
        return;
      }
      var item := items[id];
      item.Edit(url);
      assert forall k | k in items && k != id :: items[k] != item;
    }

    /** `_on_clear`: the only row is reset to a fresh one; otherwise the row
        is flagged for cancellation and dropped, the others keep their order. */
    method Clear(id: string)
      requires Valid() && id in items
      modifies this, items[id]
      ensures Valid()
      ensures old(|order|) == 1 ==>
        order == old(order) && items == old(items) && View() == old(View())[id := NewItemState("")]
      ensures old(|order|) > 1 ==>
        && (exists i | 0 <= i < old(|order|) :: old(order)[i] == id && order == old(order)[..i] + old(order)[i + 1..])
        && items == old(items) - {id}
        && View() == old(View()) - {id}
        && old(items)[id].Snapshot() == old(items[id].Snapshot()).(cancelFlag := true)
    {
      if |order| == 1 {
        ResetOnlyRow(id);
      } else {
        DropRow(id);
      }
    }

    /** The branch of `_on_clear` for the last remaining row. */
    method ResetOnlyRow(id: string)
      requires Valid() && id in items && |order| == 1
      modifies items[id]
      ensures Valid()
      ensures View() == old(View())[id := NewItemState("")]
    {
      var item := items[id];
      item.Blank();
      assert items.Keys == {id};
    }

    /** The branch of `_on_clear` when other rows remain. */
    method DropRow(id: string)
      requires Valid() && id in items && |order| > 1
      modifies this, items[id]
      ensures Valid()
      ensures exists i | 0 <= i < old(|order|) :: old(order)[i] == id && order == old(order)[..i] + old(order)[i + 1..]
      ensures items == old(items) - {id}
      ensures View() == old(View()) - {id}
      ensures old(items)[id].Snapshot() == old(items[id].Snapshot()).(cancelFlag := true)
    {
      var item := items[id];
      Unlink(id);
      assert item !in items.Values;
      item.cancelFlag := true;
    }

    /** `del self.items[item_id]`: the key leaves the dict and the other keys
        keep their order; no row object is touched. */
    method Unlink(id: string)
      requires Valid() && id in items && |order| > 1
      modifies this
      ensures Valid()
      ensures exists i | 0 <= i < old(|order|) :: old(order)[i] == id && order == old(order)[..i] + old(order)[i + 1..]
      ensures items == old(items) - {id}
    {
      var i := IndexOf(order, id);
      RegisteredRemove(items, order, i);
      ghost var oldOrder := order;
      items := items - {id};
      order := order[..i] + order[i + 1..];
      assert oldOrder[i] == id && order == oldOrder[..i] + oldOrder[i + 1..];
    }

    /** `_on_cancel`: a known row is flagged and shown as cancelled, whatever
        its status; nothing else changes. */
    method Cancel(id: string)
      requires Valid()
      modifies if id in items then {items[id]} else {}
      ensures Valid()
      ensures id in old(View()) ==> View() == old(View())[id := MarkCancelled(old(View())[id])]
      ensures id !in old(View()) ==> View() == old(View())
    {
      if id in items {
        var item := items[id];
        item.Cancel();
        assert forall k | k in items && k != id :: items[k] != item;
      }
    }

    /** `_start_download` up to spawning the thread; the returned object is
        the one the thread's hook and `download()` work on. */
    method StartDownload(id: string) returns (item: DownloadItem)
      requires Valid() && id in items
      modifies items[id]
      ensures Valid() && item == items[id]
      ensures View() == old(View())[id := Started(old(View())[id])]
    {
      item := items[id];
      item.Start();
      assert forall k | k in items && k != id :: items[k] != item;
    }

    /** One pass of the loop in `_on_download`: the row is started when it
        is eligible, and left alone otherwise. */
    method StartIfEligible(id: string) returns (ok: bool)
      requires Valid() && id in items
      modifies items[id]
      ensures Valid()
      ensures ok <==> Eligible(old(View())[id])
      ensures View() == old(View())[id := AfterStartAll(old(View())[id])]
    {
      var item := items[id];
      ghost var cur := View();
      assert item.Snapshot() == cur[id];
      ok := !IsBlank(item.url) && ValidateUrl(item.url).None?
        && item.status != Downloading && item.status != Completed;
      if ok {
        var _ := StartDownload(id);
      } else {
        assert cur == cur[id := AfterStartAll(cur[id])];
      }
    }

    /** The `i`-th pass of that loop, in terms of the rows as they were
        before the loop: the i-th key is started exactly when its row was
        eligible then, and `started` is extended by it exactly then. */
    method VisitRow(i: nat, ghost before: map<string, ItemState>, started: seq<string>) returns (next: seq<string>)
      requires Valid() && i < |order| && View() == Visited(order[..i], before)
      requires started == EligibleIds(order[..i], before)
      modifies items[order[i]]
      ensures Valid()
      ensures View() == Visited(order[..i + 1], before)
      ensures next == EligibleIds(order[..i + 1], before)
    {
      VisitStep(order, i, before);
      EligibleIdsStep(order, before, i);
      var ok := StartIfEligible(order[i]);
      next := if ok then started + [order[i]] else started;
    }

    /** `_on_download`: visits the rows in insertion order and starts each
        eligible one; `started` lists them in that order. */
    method DownloadAll() returns (started: seq<string>)
      requires Valid()
      modifies items.Values
      ensures Valid()
      ensures started == EligibleIds(order, old(View()))
      ensures View() == Visited(order, old(View()))
    {
      ghost var before := View();
      started := [];
      var i := 0;
      while i < |order|
        invariant 0 <= i <= |order|
        invariant View() == Visited(order[..i], before)
        invariant started == EligibleIds(order[..i], before)
      {
        started := VisitRow(i, before, started);
        i := i + 1;
      }
      assert order[..i] == order;
    }
  }

  /** The dict's keys in insertion order, each row filed under its own id
      (so no object holds two rows), and at least one row. */
  ghost predicate Registered(items: map<string, DownloadItem>, order: seq<string>) {
    && |order| >= 1
    && Distinct(order)
    && (forall k :: k in items <==> k in order)
    && (forall k | k in items :: items[k].id == k)
  }

  /** Inserting a new key at the end keeps the registry well formed. */
  lemma RegisteredAdd(items: map<string, DownloadItem>, order: seq<string>, id: string, item: DownloadItem)
    requires Registered(items, order) && id !in items && item.id == id
    ensures Registered(items[id := item], order + [id])
  {
    assert forall k :: k in order + [id] <==> k in order || k == id;
  }

  /** Deleting a key that is not the last one keeps the registry well formed. */
  lemma RegisteredRemove(items: map<string, DownloadItem>, order: seq<string>, i: nat)
    requires Registered(items, order) && i < |order| && |order| > 1
    ensures Registered(items - {order[i]}, order[..i] + order[i + 1..])
  {
    RemoveAt(order, i);
  }

  /** No id appears twice. */
  predicate Distinct(s: seq<string>) {
    forall i, j | 0 <= i < j < |s| :: s[i] != s[j]
  }

  /** Dropping one entry of a list without repeats keeps it without repeats
      and loses exactly that entry. */
  lemma RemoveAt(s: seq<string>, i: nat)
    requires Distinct(s) && i < |s|
    ensures Distinct(s[..i] + s[i + 1..])
    ensures forall k :: k in s[..i] + s[i + 1..] <==> k in s && k != s[i]
  {
    var r := s[..i] + s[i + 1..];
    assert |r| == |s| - 1;
    assert forall a | 0 <= a < |r| :: r[a] == s[if a < i then a else a + 1];
    forall k ensures k in r <==> k in s && k != s[i] {
      if k in r {
        var a :| 0 <= a < |r| && r[a] == k;
        assert s[if a < i then a else a + 1] == k;
      }
      if k in s && k != s[i] {
        var b :| 0 <= b < |s| && s[b] == k;
        assert r[if b < i then b else b - 1] == k;
      }
    }
  }

  /** The rows after `_on_download` has visited the ids in `done`. */
  ghost function Visited(done: seq<string>, before: map<string, ItemState>): (r: map<string, ItemState>)
    ensures r.Keys == before.Keys
  {
    map k | k in before :: if k in done then AfterStartAll(before[k]) else before[k]
  }

  /** Visiting the next id of a list without repeats updates only its row,
      which has not been touched yet. */
  lemma VisitStep(order: seq<string>, i: nat, before: map<string, ItemState>)
    requires Distinct(order) && i < |order| && order[i] in before
    ensures Visited(order[..i], before)[order[i]] == before[order[i]]
    ensures Visited(order[..i + 1], before)
      == Visited(order[..i], before)[order[i] := AfterStartAll(before[order[i]])]
  {
    var id := order[i];
    assert order[..i + 1] == order[..i] + [id];
    assert id !in order[..i];
  }

  /** Once every id has been visited each row has been through `AfterStartAll`. */
  lemma VisitedAll(order: seq<string>, before: map<string, ItemState>)
    requires forall k | k in before :: k in order
    ensures Visited(order, before) == map k | k in before :: AfterStartAll(before[k])
  {
  }

  lemma EligibleIdsStep(order: seq<string>, view: map<string, ItemState>, i: nat)
    requires i < |order| && forall k | k in order :: k in view
    ensures EligibleIds(order[..i + 1], view)
      == EligibleIds(order[..i], view) + if Eligible(view[order[i]]) then [order[i]] else []
  {
    assert order[..i + 1][..i] == order[..i];
  }

  /** Position of `id` in a list that holds it once. */
  function IndexOf(order: seq<string>, id: string): (i: nat)
    requires id in order
    ensures i < |order| && order[i] == id
    ensures forall j | 0 <= j < i :: order[j] != id
  {
    if order[0] == id then 0 else 1 + IndexOf(order[1..], id)
  }
}
