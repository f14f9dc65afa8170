/** One download row (`DownloadItem`) and what a download run does to it:
    the progress hook and the body of `download()`. The run only ever holds
    the item object, so a row removed from the registry is still updated by
    its own run. */
module DownloadItems {
  import opened Text
  import opened ErrorClassification

  /** The status strings of the source. */
  datatype Status = Idle | Downloading | Completed | Exists | Error | Cancelled

  predicate IsTerminal(s: Status) {
    s == Completed || s == Exists || s == Error || s == Cancelled
  }

  /** The value of all mutable fields of an item. */
  datatype ItemState = ItemState(
    url: string,
    status: Status,
    progress: real,
    title: string,
    filename: string,
    error: Option<string>,
    cancelFlag: bool)

  /** `DownloadItem(id=..., url=url)` with the dataclass defaults. */
  function NewItemState(url: string): ItemState {
    ItemState(url, Idle, 0.0, "", "", None, false)
  }

  /** Placeholder title while metadata is fetched, and the title used when the
      metadata has none. */
  const FetchingTitle := "Получение информации..."
  const UntitledTitle := "Загрузка..."
  /** Extension assumed when the metadata names none. */
  const DefaultExt := "mp4"
  /** What `str(ex)` reads when `extract_info` returned `None` and `.get`
      was called on it. */
  const NoInfoError := "'NoneType' object has no attribute 'get'"

  /** The field resets of the handlers, as values. */
  function ResetForUrl(s: ItemState, url: string): ItemState {
    s.(url := url, status := Idle, progress := 0.0, error := None, title := "", filename := "")
  }

  function MarkCancelled(s: ItemState): ItemState {
    s.(cancelFlag := true, status := Cancelled)
  }

  function Started(s: ItemState): ItemState {
    s.(status := Downloading, progress := 0.0, error := None, cancelFlag := false, title := FetchingTitle)
  }

  /** A progress event of the extraction client. Absent keys are `None`
      (for the byte counts) and `""` (for the file name). */
  datatype ProgressEvent =
    | DownloadingEvent(downloadedBytes: Option<real>, totalBytes: Option<real>,
                       totalBytesEstimate: Option<real>, filename: string)
    | FinishedEvent(filename: string)
    | OtherEvent

  /** `d.get('total_bytes') or d.get('total_bytes_estimate')`, with 0
      standing for every falsy outcome (absent, `None` or zero). */
  function EffectiveTotal(totalBytes: Option<real>, estimate: Option<real>): (r: real)
    ensures totalBytes.Some? && totalBytes.value != 0.0 ==> r == totalBytes.value
    ensures (totalBytes.None? || totalBytes.value == 0.0) ==> r == estimate.GetOr(0.0)
  {
    if totalBytes.Some? && totalBytes.value != 0.0 then totalBytes.value
    else if estimate.Some? then estimate.value
    else 0.0
  }

  /** What the hook leaves behind, and whether it raised `DownloadCancelled`. */
  datatype HookOutcome = HookOutcome(state: ItemState, raised: bool)

  /** `progress_hook` applied to one event. */
  function Hook(s: ItemState, e: ProgressEvent): (r: HookOutcome)
    ensures r.raised == s.cancelFlag
    ensures s.cancelFlag ==> r.state == s
    ensures r.state.(progress := s.progress, title := s.title, filename := s.filename) == s
    ensures !s.cancelFlag && e.DownloadingEvent? ==>
      var total := EffectiveTotal(e.totalBytes, e.totalBytesEstimate);
      && r.state.progress == (if total != 0.0 then e.downloadedBytes.GetOr(0.0) / total * 100.0 else 0.0)
      && (if e.filename != "" && s.title == ""
          then r.state.title == Stem(e.filename) && r.state.filename == e.filename
          else r.state.title == s.title && r.state.filename == s.filename)
    ensures !s.cancelFlag && e.FinishedEvent? ==>
      && r.state.progress == 100.0
      && (if e.filename != ""
          then r.state.title == Stem(e.filename) && r.state.filename == e.filename
          else r.state.title == s.title && r.state.filename == s.filename)
    ensures e.OtherEvent? ==> r.state == s
  {
    if s.cancelFlag then HookOutcome(s, true)
    else
      match e
      case DownloadingEvent(downloaded, totalBytes, estimate, name) =>
        var total := EffectiveTotal(totalBytes, estimate);
        var s1 := s.(progress := if total != 0.0 then downloaded.GetOr(0.0) / total * 100.0 else 0.0);
        var s2 := if name != "" && s1.title == "" then s1.(title := Stem(name), filename := name) else s1;
        HookOutcome(s2, false)
      case FinishedEvent(name) =>
        var s1 := s.(progress := 100.0);
        var s2 := if name != "" then s1.(filename := name, title := Stem(name)) else s1;
        HookOutcome(s2, false)
      case OtherEvent => HookOutcome(s, false)
  }

  /** The metadata dictionary `extract_info` returns: its `title` and `ext`
      entries, and whether it holds any other key (an empty dict is falsy). */
  datatype Metadata = Metadata(title: Option<string>, ext: Option<string>, otherKeys: bool) {
    predicate Truthy() {
      title.Some? || ext.Some? || otherKeys
    }
  }

  /** What `extract_info` gave: a dictionary, `None`, or an exception. */
  datatype FetchResult = Fetched(info: Metadata) | FetchedNothing | FetchFailed(message: string)

  /** How the content transfer `ydl.download` ended. */
  datatype TransferResult = TransferOk | TransferCancelled | TransferFailed(message: string)

  /** `output_template % {'title': title, 'ext': ext}` for the template
      `<dir>/%(title)s.%(ext)s`. */
  function ExpectedFile(dir: string, title: string, ext: string): string {
    dir + "/" + title + "." + ext
  }

  /** The state after the metadata step, and whether the transfer runs. */
  datatype Resolution = Resolution(state: ItemState, transfer: bool)

  /** Lines 340-357 of `download()` with the exception handler: set the title,
      stop with "exists" if the expected file is present, stop with
      "cancelled" if the flag is set, else go on to the transfer. */
  function Resolve(s: ItemState, dir: string, fetch: FetchResult, fileExists: bool): (r: Resolution)
    ensures r.transfer ==> fetch.Fetched? && !fileExists && !s.cancelFlag && r.state.status == s.status
    ensures fetch.FetchFailed? ==> !r.transfer && r.state == s.(status := Error, error := Some(Classify(fetch.message)))
    ensures fetch.FetchedNothing? ==> !r.transfer && r.state == s.(status := Error, error := Some(Classify(NoInfoError)))
    ensures fetch.Fetched? ==>
      var title := if fetch.info.Truthy() then fetch.info.title.GetOr(UntitledTitle) else s.title;
      var path := ExpectedFile(dir, fetch.info.title.GetOr(""), fetch.info.ext.GetOr(DefaultExt));
      && (fileExists ==> !r.transfer && r.state == s.(title := title, filename := path, status := Exists, progress := 100.0))
      && (!fileExists && s.cancelFlag ==> !r.transfer && r.state == s.(title := title, status := Cancelled))
      && (!fileExists && !s.cancelFlag ==> r.transfer && r.state == s.(title := title))
  {
    match fetch
    case FetchFailed(msg) => Resolution(s.(status := Error, error := Some(Classify(msg))), false)
    case FetchedNothing => Resolution(s.(status := Error, error := Some(Classify(NoInfoError))), false)
    case Fetched(info) =>
      var s1 := if info.Truthy() then s.(title := info.title.GetOr(UntitledTitle)) else s;
      var path := ExpectedFile(dir, info.title.GetOr(""), info.ext.GetOr(DefaultExt));
      if fileExists then Resolution(s1.(filename := path, status := Exists, progress := 100.0), false)
      else if s1.cancelFlag then Resolution(s1.(status := Cancelled), false)
      else Resolution(s1, true)
  }

  /** Lines 360-386 of `download()`: the final status after the transfer. A
      transfer that ends normally completes the item unless it is already
      "cancelled" or "exists". */
  function Finish(s: ItemState, t: TransferResult): (r: ItemState)
    ensures r.url == s.url && r.title == s.title && r.filename == s.filename && r.cancelFlag == s.cancelFlag
    ensures t.TransferOk? && s.status != Cancelled && s.status != Exists ==>
      r.status == Completed && r.progress == 100.0 && r.error == s.error
    ensures t.TransferOk? && (s.status == Cancelled || s.status == Exists) ==> r == s
    ensures t.TransferCancelled? ==> r == s.(status := Cancelled)
    ensures t.TransferFailed? ==> r == s.(status := Error, error := Some(Classify(t.message)))
  {
    match t
    case TransferOk =>
      if s.status != Cancelled && s.status != Exists then s.(status := Completed, progress := 100.0) else s
    case TransferCancelled => s.(status := Cancelled)
    case TransferFailed(msg) => s.(status := Error, error := Some(Classify(msg)))
  }

  /** The events the client delivers, each through the hook, until one of
      them raises. */
  function RunHooks(s: ItemState, events: seq<ProgressEvent>): HookOutcome
    decreases |events|
  {
    if events == [] then HookOutcome(s, false)
    else
      var h := Hook(s, events[0]);
      if h.raised then h else RunHooks(h.state, events[1..])
  }

  /** The transfer: a raise from the hook ends it as cancelled; otherwise the
      client's own result applies. */
  function Transfer(s: ItemState, events: seq<ProgressEvent>, result: TransferResult): ItemState {
    var h := RunHooks(s, events);
    Finish(h.state, if h.raised then TransferCancelled else result)
  }

  /** A whole run of `download()` without interference from the user.
      `dirCreated` is the outcome of `mkdir`, which runs before the `try`:
      when it raises, the thread dies with the item untouched. */
  function Download(s: ItemState, dir: string, dirCreated: bool, fetch: FetchResult, fileExists: bool,
                    events: seq<ProgressEvent>, result: TransferResult): ItemState
  {
    if !dirCreated then s
    else
      var p := Resolve(s, dir, fetch, fileExists);
      if p.transfer then Transfer(p.state, events, result) else p.state
  }

  /** The hook never touches the url, the status, the error or the flag, and
      it raises exactly when the flag is set. */
  lemma {:induction false} RunHooksKeepsLifecycle(s: ItemState, events: seq<ProgressEvent>)
    ensures var r := RunHooks(s, events);
      && r.state.url == s.url && r.state.status == s.status
      && r.state.error == s.error && r.state.cancelFlag == s.cancelFlag
      && r.raised == (s.cancelFlag && events != [])
    decreases |events|
  {
    if events != [] {
      var h := Hook(s, events[0]);
      if !h.raised {
        RunHooksKeepsLifecycle(h.state, events[1..]);
      }
    }
  }

  /** Once the flag is set, a late event changes nothing: the first one
      raises and leaves the item as it was. */
  lemma {:induction false} HooksAfterCancelChangeNothing(s: ItemState, events: seq<ProgressEvent>)
    requires s.cancelFlag
    ensures RunHooks(s, events) == HookOutcome(s, events != [])
  {
  }

  /** A run without user interference whose directory could be created ends
      in a terminal status, and which one is decided by the outcomes of the
      external calls. When `mkdir` fails the row stays "downloading". */
  lemma UninterruptedRun(s: ItemState, dir: string, dirCreated: bool, fetch: FetchResult, fileExists: bool,
                         events: seq<ProgressEvent>, result: TransferResult)
    ensures var t := Download(Started(s), dir, dirCreated, fetch, fileExists, events, result);
      && t.url == s.url && !t.cancelFlag
      && (!dirCreated ==> t == Started(s) && t.status == Downloading)
      && (dirCreated ==> IsTerminal(t.status))
      && (dirCreated && fetch.FetchFailed? ==> t.status == Error && t.error == Some(Classify(fetch.message)))
      && (dirCreated && fetch.FetchedNothing? ==> t.status == Error && t.error == Some(Classify(NoInfoError)))
      && (dirCreated && fetch.Fetched? && fileExists ==>
            t.status == Exists && t.progress == 100.0
            && t.filename == ExpectedFile(dir, fetch.info.title.GetOr(""), fetch.info.ext.GetOr(DefaultExt)))
      && (dirCreated && fetch.Fetched? && !fileExists && result.TransferOk? ==>
            t.status == Completed && t.progress == 100.0 && t.error == None)
      && (dirCreated && fetch.Fetched? && !fileExists && result.TransferCancelled? ==> t.status == Cancelled)
      && (dirCreated && fetch.Fetched? && !fileExists && result.TransferFailed? ==>
            t.status == Error && t.error == Some(Classify(result.message)))
  {
    var p := Resolve(Started(s), dir, fetch, fileExists);
    if dirCreated && p.transfer {
      RunHooksKeepsLifecycle(p.state, events);
    }
  }

  /** When the expected file already exists the transfer never runs: the
      outcome does not depend on anything the transfer would deliver. */
  lemma ExistingFileSkipsTransfer(s: ItemState, dir: string, info: Metadata,
                                  events1: seq<ProgressEvent>, result1: TransferResult,
                                  events2: seq<ProgressEvent>, result2: TransferResult)
    ensures Download(s, dir, true, Fetched(info), true, events1, result1)
         == Download(s, dir, true, Fetched(info), true, events2, result2)
    ensures var t := Download(s, dir, true, Fetched(info), true, events1, result1);
      t.status == Exists && t.progress == 100.0
  {
  }

  /** A cancel request during the transfer: any further event raises, and a
      normal or cancelled end keeps the item "cancelled", untouched. A transfer
      that instead fails with no further event turns it into "error". */
  lemma CancelDuringTransfer(s: ItemState, events: seq<ProgressEvent>, result: TransferResult)
    ensures var c := MarkCancelled(s);
      var t := Transfer(c, events, result);
      && (events != [] || !result.TransferFailed? ==> t == c)
      && (events == [] && result.TransferFailed? ==> t.status == Error && t.cancelFlag)
  {
    HooksAfterCancelChangeNothing(MarkCancelled(s), events);
  }

  /** A cancel request before the metadata step: the transfer never runs, but
      an existing file still wins over the cancellation. */
  lemma CancelBeforeMetadata(s: ItemState, dir: string, info: Metadata, fileExists: bool)
    ensures var p := Resolve(MarkCancelled(s), dir, Fetched(info), fileExists);
      && !p.transfer && p.state.cancelFlag
      && (fileExists ==> p.state.status == Exists)
      && (!fileExists ==> p.state.status == Cancelled)
  {
  }

  /** A run whose only event is "finished" for the expected file completes
      with the title and file name the hook takes from that event, whatever
      the url and the download directory. */
  lemma FinishedRunCompletes(url: string, dir: string, title: string, ext: string)
    requires |title| > 0 && forall j | 0 <= j < |title| :: title[j] != '/'
    requires |ext| > 0 && forall j | 0 <= j < |ext| :: ext[j] != '/' && ext[j] != '.'
    ensures var s := Started(NewItemState(url));
      var path := ExpectedFile(dir, title, ext);
      var t := Download(s, dir, true, Fetched(Metadata(Some(title), Some(ext), true)), false,
                        [FinishedEvent(path)], TransferOk);
      && t.status == Completed && t.progress == 100.0
      && t.title == title && t.filename == path && t.error == None
  {
    var s := Started(NewItemState(url));
    var path := ExpectedFile(dir, title, ext);
    var info := Metadata(Some(title), Some(ext), true);
    var p := Resolve(s, dir, Fetched(info), false);
    assert p.transfer && p.state == s.(title := title);
    StemOfFile(dir, title, ext);
    var h := Hook(p.state, FinishedEvent(path));
    assert h == HookOutcome(p.state.(progress := 100.0, filename := path, title := title), false);
    assert RunHooks(p.state, [FinishedEvent(path)]) == h;
  }

  /** Resetting the only row (`_on_clear`) lowers its cancel flag, so a
      transfer still running on that object is not stopped: it goes on
      through the hook and ends "completed" on the emptied row. */
  lemma ResetRowKeepsTransfer(events: seq<ProgressEvent>)
    ensures var t := Transfer(NewItemState(""), events, TransferOk);
      t.status == Completed && t.url == "" && t.progress == 100.0
  {
    RunHooksKeepsLifecycle(NewItemState(""), events);
  }

  /** Progress is not monotone: an event without any total after one with a
      total drops it back to 0. */
  lemma ProgressCanDrop(s: ItemState)
    requires !s.cancelFlag
    ensures var h1 := Hook(s, DownloadingEvent(Some(50.0), Some(100.0), None, ""));
      var h2 := Hook(h1.state, DownloadingEvent(Some(60.0), None, None, ""));
      h1.state.progress == 50.0 && h2.state.progress == 0.0
  {
  }

  /** One row, updated in place by the handlers and by its own download run. */
  class DownloadItem {
    const id: string
    var url: string
    var status: Status
    var progress: real
    var title: string
    var filename: string
    var error: Option<string>
    var cancelFlag: bool

    function Snapshot(): ItemState
      reads this
    {
      ItemState(url, status, progress, title, filename, error, cancelFlag)
    }

    constructor (id: string, url: string)
      ensures this.id == id && Snapshot() == NewItemState(url)
    {
      this.id := id;
      this.url := url;
      status := Idle;
      progress := 0.0;
      title := "";
      filename := "";
      error := None;
      cancelFlag := false;
    }

    /** The field writes `_on_url_change` makes to the row it edits. */
    method Edit(url: string)
      modifies this
      ensures Snapshot() == ResetForUrl(old(Snapshot()), url)
    {
      this.url := url;
      status := Idle;
      progress := 0.0;
      error := None;
      title := "";
      filename := "";
    }

    /** The field writes `_on_clear` makes to the last remaining row: it is
        a fresh row again, its cancel flag lowered. */
    method Blank()
      modifies this
      ensures Snapshot() == NewItemState("")
    {
      url := "";
      status := Idle;
      progress := 0.0;
      title := "";
      filename := "";
      error := None;
      cancelFlag := false;
    }

    /** The field writes of `_on_cancel`. */
    method Cancel()
      modifies this
      ensures Snapshot() == MarkCancelled(old(Snapshot()))
    {
      cancelFlag := true;
      status := Cancelled;
    }

    /** The field writes of `_start_download` before the thread starts. */
    method Start()
      modifies this
      ensures Snapshot() == Started(old(Snapshot()))
    {
      status := Downloading;
      progress := 0.0;
      error := None;
      cancelFlag := false;
      title := FetchingTitle;
    }

    /** `progress_hook(d)`: `raised` stands for raising `DownloadCancelled`. */
    method ProgressHook(e: ProgressEvent) returns (raised: bool)
      modifies this
      ensures HookOutcome(Snapshot(), raised) == Hook(old(Snapshot()), e)
    {
      raised := cancelFlag;
      if raised {
        return;
      }
      match e
      case DownloadingEvent(downloaded, totalBytes, estimate, name) =>
        var total := EffectiveTotal(totalBytes, estimate);
        if total != 0.0 {
          progress := downloaded.GetOr(0.0) / total * 100.0;
        } else {
          progress := 0.0;
        }
        if name != "" && title == "" {
          title := Stem(name);
          filename := name;
        }
      case FinishedEvent(name) =>
        progress := 100.0;
        if name != "" {
          filename := name;
          title := Stem(name);
        }
      case OtherEvent =>
    }

    /** The metadata step of `download()`; `transfer` says whether
        `ydl.download` is called next. */
    method ResolveMetadata(dir: string, fetch: FetchResult, fileExists: bool) returns (transfer: bool)
      modifies this
      ensures Resolution(Snapshot(), transfer) == Resolve(old(Snapshot()), dir, fetch, fileExists)
    {
      transfer := false;
      match fetch
      case FetchFailed(msg) =>
        status := Error;
        error := Some(Classify(msg));
      case FetchedNothing =>
        status := Error;
        error := Some(Classify(NoInfoError));
      case Fetched(info) =>
        if info.Truthy() {
          title := info.title.GetOr(UntitledTitle);
        }
        var expected := ExpectedFile(dir, info.title.GetOr(""), info.ext.GetOr(DefaultExt));
        if fileExists {
          filename := expected;
          status := Exists;
          progress := 100.0;
          return;
        }
        if cancelFlag {
          status := Cancelled;
          return;
        }
        transfer := true;
    }

    /** The end of `download()` once `ydl.download` has returned or raised. */
    method CompleteTransfer(result: TransferResult)
      modifies this
      ensures Snapshot() == Finish(old(Snapshot()), result)
    {
      match result
      case TransferOk =>
        if status != Cancelled && status != Exists {
          status := Completed;
          progress := 100.0;
        }
      case TransferCancelled =>
        status := Cancelled;
      case TransferFailed(msg) =>
        status := Error;
        error := Some(Classify(msg));
    }
  }
}
