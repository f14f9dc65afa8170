# YouTube downloader: item state machine

A Dafny model of the logic inside `YouTubeDownloader` (`main.py`). This is
a desktop front end that downloads YouTube videos through `yt_dlp`, and
the model keeps everything except the Flet user interface and the library
calls:

- **`DownloadItem`**: the per-row record. It is a class, because the
  handlers and the download thread update its fields in place.
- **The registry**: the insertion-ordered dict `self.items`, modelled as a
  map plus a sequence of its keys in insertion order.
- **The handlers**: `_on_add`, `_on_url_change`, `_on_clear`, `_on_cancel`,
  `_on_download` and `_start_download`, each as a method on the registry
  class `Registry.Downloader`.
- **The link check**: `YOUTUBE_REGEX` and `_validate_url`.
- **The button predicates**: `has_valid` and `is_downloading` from
  `_update_download_btn`.
- **The download thread**: `progress_hook` and the body of `download()`,
  including the classification of error messages.

The modules follow this structure:

- `Text`: the Python string operations used by the core. These are
  `strip()` emptiness, ASCII `lower()`, `in`, slicing and `Path.stem`.
- `UrlValidation`: the regular expression. It is given both as a
  reference predicate, where some choice of alternatives matches, and as a
  deterministic stripping check. The module proves the two equal.
- `ErrorClassification`: the `except Exception` cascade. The module proves
  it equal to an ordered rule table in which the first rule that fires
  decides.
- `DownloadItems`: two layers.
  - Pure transitions on an `ItemState` value: the hook, the metadata step
    and the final status. Lemmas compose these into whole runs.
  - The class `DownloadItem`, whose methods are proved against those
    transitions.
- `Registry`: the class `Downloader`. Its `Valid()` states that:
  - the keys are in order, without repeats;
  - each row is filed under its own id;
  - there is at least one row.

  `View()` gives the rows' current values, and each handler is specified
  by how it changes `View()`.

The external world is made of explicit inputs:

- what `extract_info` returned: a metadata record, `None` or an exception
  message;
- whether the expected file exists;
- the events the client feeds to the hook;
- how `ydl.download` ended: normally, by the hook raising, or with an
  exception message.

A run of `download()` is two atomic steps:

1. `Downloader.FetchMetadata`, up to the call of `ydl.download`. It
   creates the download directory first, which may fail, and then runs
   `DownloadItem.ResolveMetadata` with the expected file under the
   registry's `downloadPath`.
2. `CompleteTransfer`, after `ydl.download` returns or raises.

Hook calls and user handlers may come between the two, and the lemmas
about `Transfer` describe those interleavings.

The code is followed where it differs from the intent its messages suggest:

- A cancel request followed by a transfer that fails for another reason
  ends in "error", not "cancelled".
- An existing file wins over a cancel request made before the metadata
  step.
- Progress can drop back to 0 when an event carries no total.
- `_on_download` restarts "exists" rows although the button does not count
  them.
- Clearing the only row lowers its cancel flag, so a transfer still
  running on it carries on and completes the emptied row.
- `_on_cancel` followed by `_on_download` while the first run is still
  going restarts the row, and `_start_download` lowers the cancel flag of
  the object both runs share (line 290). The first run is thereby
  un-cancelled. If it was in its transfer, its hook no longer raises. If it
  was still in `extract_info` (line 340), the flag test at line 355 lets
  it go on to `ydl.download`.
- `mkdir` of the download directory (line 326) runs before the `try` (line
  337). When it raises, no handler and no `finally` runs, so the row stays
  "downloading", and the button keeps "Загрузка...", until the user
  presses the row's cancel button. That button is shown for every
  "downloading" row (lines 115-130 and 476), and `_on_cancel` sets
  "cancelled" whatever the status.

## Model

| member | source | states |
|---|---|---|
| Text.IsBlank | main.py:52 | `not url.strip()`: the text is empty or consists of whitespace only |
| Text.ToLower | main.py:371-381 | `s.lower()` on ASCII letters: same length, each character lower-cased on its own |
| Text.Contains | main.py:371-381 | Python's `p in s`: true exactly when `p` occurs at some index of `s` |
| Text.Take | main.py:380 | `s[:n]`: the first `min(n, len(s))` characters of `s` |
| Text.Stem | main.py:310-312 | `Path(f).stem` keeps a prefix of the last path component and contains no '/' |
| Text.StemOfFile | main.py:319-321 | the stem of `<dir>/<name>.<ext>` is `name` when `name` has no '/' and `ext` has neither '/' nor '.' |
| UrlValidation.RegexMatches | main.py:24-26 | the start-anchored pattern: some scheme, some optional `www.` and some route, in that order at the start, followed by 11 identifier characters |
| UrlValidation.MatchesYouTube | main.py:24-26 | the pattern evaluated deterministically: strip a scheme, then `www.`, then a route, and look for 11 identifier characters |
| UrlValidation.MatchesImpliesRegex | main.py:24-26 | every string the prefix-stripping check accepts matches the pattern for some choice of alternatives |
| UrlValidation.RegexImpliesMatches | main.py:24-26 | every string the pattern matches is accepted by the prefix-stripping check |
| UrlValidation.MatchesIffRegex | main.py:24-26 | the deterministic check and the start-anchored pattern accept exactly the same strings |
| UrlValidation.ValidateUrl | main.py:51-56 | an error is returned exactly for input that is not blank and that the pattern rejects, and the error is always "Некорректная ссылка YouTube" |
| UrlValidation.TrailingTextIgnored | main.py:24-26 | anything appended to a matching link still matches and passes validation |
| UrlValidation.LeadingWhitespaceRejected | main.py:51-56 | non-blank input starting with whitespace is rejected, because the pattern runs on the unstripped text |
| UrlValidation.LeadingCharRejected | main.py:51-56 | a non-blank text whose first character is not 'h', 'w', 'y' or whitespace is rejected |
| UrlValidation.LinkAccepted | main.py:24-26 | each of the 3×2×3 combinations of scheme, `www.` and route, followed by an 11-character identifier and anything else, is accepted |
| UrlValidation.ShortLinkAccepted | main.py:24-26 | `https://youtu.be/dQw4w9WgXcQ` is accepted |
| UrlValidation.ShortIdRejected | main.py:24-26 | a 10-character identifier is rejected with the fixed message |
| ErrorClassification.Classify | main.py:368-386 | the `except Exception` cascade as written: the first substring test that holds, on the raw or the lower-cased text, picks the message; otherwise the text cut to 100 characters |
| ErrorClassification.ClassifyIsFirstMatch | main.py:368-386 | the cascade of substring tests equals the ordered rule table evaluated first-match |
| ErrorClassification.FirstFiringRuleWins | main.py:371-382 | in any table, the first rule that fires decides whatever follows it |
| ErrorClassification.ClassifyByRule | main.py:368-386 | the message is that of the first firing rule, and when no rule fires it is the raw text cut to 100 characters |
| ErrorClassification.NoRuleKeepsRawText | main.py:383-386 | with no rule firing, a text of at most 100 characters is kept unchanged and a longer one is cut to exactly 100 |
| ErrorClassification.ClassifyShape | main.py:368-386 | every result is a fixed message, the path prefix plus at most 50 leading characters, or a prefix of at most 100 characters of the text |
| ErrorClassification.SignInOutranksAll | main.py:371-372 | a text containing "Sign in" is classified as needing authorisation, whatever else it mentions |
| ErrorClassification.PrivateVideoMessage | main.py:375-376 | "Video is private" is classified as a private video |
| DownloadItems.NewItemState | main.py:11-20 | the dataclass defaults for a row with the given url |
| DownloadItems.ResetForUrl | main.py:214-219 | the field values `_on_url_change` writes: the new url, "idle", progress 0, no error, empty title and file name |
| DownloadItems.MarkCancelled | main.py:267-268 | the field values `_on_cancel` writes: flag raised, status "cancelled" |
| DownloadItems.Started | main.py:287-291 | the field values `_start_download` writes: "downloading", progress 0, no error, flag lowered, placeholder title |
| DownloadItems.ExpectedFile | main.py:327-346 | `output_template % {...}` for the template `<dir>/%(title)s.%(ext)s` |
| DownloadItems.EffectiveTotal | main.py:301 | `total_bytes or total_bytes_estimate`: the first total when it is present and non-zero, otherwise the estimate, with 0 when absent |
| DownloadItems.Hook | main.py:294-322 | a hook call raises exactly when the flag is set, changes nothing then, and otherwise sets only progress, title and filename as each event kind prescribes |
| DownloadItems.Resolve | main.py:340-357 | the metadata step: a failure or `None` ends in "error" with the classified message; an existing file gives "exists", progress 100 and the expected path; a set flag gives "cancelled"; otherwise the transfer runs with the status unchanged |
| DownloadItems.Finish | main.py:360-386 | a normal end completes the item unless it is "cancelled" or "exists"; a raised cancel gives "cancelled"; a failure gives "error" with the classified message |
| DownloadItems.RunHooks | main.py:294-322 | the events fed to the hook one by one, up to and including the first that raises |
| DownloadItems.Transfer | main.py:358-386 | the hook calls of `ydl.download` and then its end: cancelled when the hook raised, otherwise the client's own outcome |
| DownloadItems.Download | main.py:324-386 | a whole run: nothing changes when `mkdir` fails; otherwise the metadata step and, when it lets the transfer run, the transfer |
| DownloadItems.RunHooksKeepsLifecycle | main.py:294-322 | a run of hook calls never changes url, status, error or flag, and it raises exactly when the flag is set and an event arrives |
| DownloadItems.HooksAfterCancelChangeNothing | main.py:294-296 | once the flag is set, the first event raises and leaves the item as it was |
| DownloadItems.UninterruptedRun | main.py:285-386 | a started run without user interference whose `mkdir` succeeds ends in a terminal status that the external outcomes determine; when `mkdir` fails the row stays "downloading" unchanged; the url is kept and the flag stays low |
| DownloadItems.ExistingFileSkipsTransfer | main.py:346-353 | with the expected file present the outcome does not depend on the transfer, and it is "exists" with progress 100 |
| DownloadItems.CancelDuringTransfer | main.py:294-296 | after `_on_cancel` during the transfer, any event or a normal end leaves the item "cancelled" and untouched, while a failure with no event turns it into "error" |
| DownloadItems.CancelBeforeMetadata | main.py:346-357 | a cancel before the metadata step stops the transfer, but an existing file still wins over the cancellation |
| DownloadItems.FinishedRunCompletes | main.py:316-321 | a run whose only event is "finished" for the expected file completes, and takes its title and file name from that event |
| DownloadItems.ResetRowKeepsTransfer | main.py:236-243 | a transfer running on a row reset by `_on_clear` is not stopped, and it completes the emptied row |
| DownloadItems.ProgressCanDrop | main.py:300-307 | an event without a total after one with a total sets progress from 50 back to 0 |
| DownloadItems.DownloadItem.constructor | main.py:11-20 | a new row has the dataclass defaults: "idle", progress 0, empty title and filename, no error, flag low |
| DownloadItems.DownloadItem.Edit | main.py:214-219 | the row takes the url, becomes "idle" with progress 0, no error and empty title and filename; its flag is kept |
| DownloadItems.DownloadItem.Blank | main.py:237-243 | the row becomes a fresh empty row with its flag lowered |
| DownloadItems.DownloadItem.Cancel | main.py:267-268 | the flag is raised and the status becomes "cancelled", whatever it was |
| DownloadItems.DownloadItem.Start | main.py:287-291 | the row becomes "downloading", with progress 0, no error, flag low and the placeholder title |
| DownloadItems.DownloadItem.ProgressHook | main.py:294-322 | the in-place hook leaves the fields and raises exactly as `Hook` prescribes |
| DownloadItems.DownloadItem.ResolveMetadata | main.py:340-357 | the in-place metadata step leaves the fields and decides the transfer exactly as `Resolve` prescribes |
| DownloadItems.DownloadItem.CompleteTransfer | main.py:360-386 | the in-place final step leaves the fields exactly as `Finish` prescribes |
| Registry.Eligible | main.py:282 | the test of `_on_download`: a non-blank url that passes `_validate_url`, and a status other than "downloading" and "completed" |
| Registry.Startable | main.py:490-493 | the test of `has_valid`: eligible and not "exists" |
| Registry.AfterStartAll | main.py:281-291 | one row after `_on_download`: started when eligible, unchanged otherwise |
| Registry.EligibleIds | main.py:280-283 | the ids `_on_download` starts are exactly the listed ids whose rows are eligible |
| Registry.EligibleIdsInOrder | main.py:280-283 | those ids form a subsequence of the dict's insertion order: they are started in that order |
| Registry.AnyStartable | main.py:490-493 | `has_valid` is true exactly when some row is eligible and not "exists" |
| Registry.AnyDownloading | main.py:494 | `is_downloading` is true exactly when some row is "downloading" |
| Registry.EditedItemEligible | main.py:210-219 | after an edit the row can be started exactly when the new url is non-blank and matches the pattern, and the button counts it exactly then |
| Registry.AfterStartAllSettles | main.py:282-291 | after `_on_download` an eligible row is "downloading" and no row is left that the button would count |
| Registry.ButtonMatchesStartAll | main.py:280-283 | the button is enabled only when pressing it starts some row, and afterwards leaves no row that it counts |
| Registry.ExistsRestartedButNotCounted | main.py:282 | an "exists" row with a valid link is restarted by `_on_download` although `has_valid` (line 491) does not count it |
| Registry.RestartUncancelsRunningTransfer | main.py:265-296 | a cancelled row with a valid link is eligible again; restarting it lowers the flag, so the hook of the run still transferring on that object no longer raises and a normal end completes the row |
| Registry.RestartUncancelsPendingMetadata | main.py:265-357 | a cancelled row with a valid link is eligible again; restarting it lowers the flag, so a run still in `extract_info` on that object goes on to the transfer when the file does not exist, instead of stopping as "cancelled" |
| Registry.ThreeItemScenario | main.py:280-283 | of a non-link, a completed row and an idle valid row, exactly the idle one is started |
| Registry.VisitedAll | main.py:280-283 | once every key has been visited, every row has been through the eligibility test and the start |
| Registry.Downloader.constructor | main.py:28-33 | the registry starts with the download directory given and, as `_build_ui` adds at lines 567-568, one empty row under the initial id |
| Registry.Downloader.FetchMetadata | main.py:324-357 | a failing `mkdir` stops the run with the row unchanged and no transfer; otherwise the row's update and the transfer decision are those of `Resolve` with the expected file under the registry's directory |
| Registry.Downloader.HasStartable | main.py:490-493 | true exactly when some row is eligible and not "exists" |
| Registry.Downloader.IsDownloading | main.py:494 | true exactly when some row is "downloading" |
| Registry.Downloader.Add | main.py:271-273 | a fresh empty row is appended under the new id; every other row is unchanged |
| Registry.Downloader.UrlChange | main.py:210-219 | a known row is reset for the new url and nothing else changes; an unknown id changes nothing |
| Registry.Downloader.Clear | main.py:235-260 | the only row becomes a fresh one with the flag lowered and the count stays 1; otherwise the row's flag is raised, the row leaves the dict, and the other rows and their order are unchanged |
| Registry.Downloader.ResetOnlyRow | main.py:236-243 | the only row becomes a fresh empty row; nothing else changes |
| Registry.Downloader.DropRow | main.py:256-258 | the dropped row's object has its flag raised, leaves the dict and the order, and the rest keep their order and values |
| Registry.Downloader.Unlink | main.py:258 | the key leaves the dict, and the remaining keys keep their order |
| Registry.Downloader.Cancel | main.py:265-268 | a known row is flagged and "cancelled" whatever its status, and nothing else changes; an unknown id changes nothing |
| Registry.Downloader.StartDownload | main.py:285-291 | the row gets the start values and is the object the thread works on; the other rows are unchanged |
| Registry.Downloader.StartIfEligible | main.py:282-283 | the row is started exactly when it is eligible, and left alone otherwise |
| Registry.Downloader.VisitRow | main.py:281-283 | the i-th pass of the loop starts the i-th key exactly when its row was eligible before the loop |
| Registry.Downloader.DownloadAll | main.py:280-283 | the rows are visited in insertion order; the started ids are `EligibleIds`, the eligible ones in that order (`EligibleIdsInOrder`); each row ends as `AfterStartAll` of its value before |

## Left out

- The Flet interface is left out: `_setup_page`, `_build_ui`,
  `_create_input_row`, `_update_item_ui`, the button text and icon, and
  `_show_exists_snackbar`. It is presentation only. Because of this, the
  model has no counterpart of `item_controls`.
- `yt_dlp` is replaced by inputs: what `extract_info` returned, the hook
  events and how `ydl.download` ended. The format selection and the
  options dictionary are not modelled.
- Threads are not modelled. Each handler call, each hook call and each of
  the two steps of `download()` is one atomic step. Two runs on the same
  object are not tracked as one combined state. Such runs arise when
  `_on_cancel` and then `_on_download` hit a row whose first run is still
  going. The first run may be in its transfer or still in `extract_info`.
  `Registry.RestartUncancelsRunningTransfer` and
  `Registry.RestartUncancelsPendingMetadata` cover what the restart does
  to that first run in each case.
- The filesystem is not modelled: `_open_folder` and
  `_get_download_path_display` are left out. The outcome of `mkdir` and
  the result of `Path.exists()` are boolean inputs. A failing `mkdir`
  raises outside the `try`, so it ends the thread with the row untouched.
- `Path(...)` normalisation of the expected file name is not modelled.
  The name is the plain text `<dir>/<title>.<ext>`, and a '%' in the
  directory is taken literally.
- Paths are POSIX paths. Text.BaseName, Text.Stem and
  DownloadItems.ExpectedFile split on '/' only and do not drop trailing
  separators. On Windows, which the program also targets (lines 506 and
  520), `Path` splits on `\` as well, and that case is not modelled.
- `_generate_id` is not modelled (random ids). `Registry.Downloader.Add`
  takes the id as a parameter and requires it to be new, because the
  source does not check for collisions.
- Registry.Downloader.Clear requires the id to be present. In the source a
  missing id raises `KeyError`, and the interface only passes ids of
  existing rows.
- Text.ToLower lower-cases ASCII letters only. Python's `lower()` also
  maps other letters, for example the Kelvin sign to 'k', which can make
  a pattern such as "cookie" match in Python but not here.
- Progress is a `real`, not a float. Rounding is not modelled, and
  `downloaded / total` is not clamped, just as in the source.
- Keys of the metadata dictionary that are present with the value `None`
  are treated as absent.
- Hook events whose `downloaded_bytes` key is present with the value
  `None` are treated as if the key were absent. The two differ only when
  the event carries a non-zero total (lines 304-305): the source then
  raises a `TypeError` inside the hook, while the model divides 0 by the
  total. Without a total, both set progress to 0.
