# netmonrs core in Dafny

netmonrs is a terminal monitor for the network connections of one process.
A background thread polls `sudo lsof -i -P -n -p <pid>` once a second. It
extracts the remote endpoint of every connection line and announces each
endpoint the first time it appears, as a history entry `"[HH:MM:SS] <endpoint>"`.
It then sends the sorted active set, the new entries and a status line to the
UI thread. The UI thread keeps a view model (`App`) with two lists, a focus, a
selection cursor per list and an index of the endpoints named by the newest
1000 history entries.

This project models that core, all of it in `src/main.rs`:

- `text.dfy` (module `Text`): the parts of Rust's `str`/`char` API the code
  relies on. These are `str::lines`, `char::is_whitespace` (the Unicode
  White_Space set) and `split_whitespace().last()`.
- `endpoint.dfy` (module `Endpoint`): the per-line endpoint extraction, as
  pure functions. `Candidate` is one line's endpoint and `ListedEndpoints` is
  every endpoint of one listing, in line order.
- `poller.dfy` (module `Polling`): the `Poller` class. It owns the set of
  endpoints already announced (`seen_ips_thread_copy`). Its `Scan` method is
  the lsof loop. The module also holds the sort of the active set, with the
  `IpAddr` parser and order as parameters.
- `view.dfy` (module `View`): the `App` class, covering `App::new`, `next`,
  `previous`, `toggle_focus`, `update_seen_ips`, the handling of one
  `BackgroundEvent` and the drain loop over the pending messages.
- `pipeline.dfy` (module `Pipeline`): one poll end to end. The poller scans,
  sorts and sends; the view applies. A session invariant holds across polls:
  every history entry names a distinct endpoint the poller has announced.

How each behaviour is specified:

- Each loop of the source is a method with loop invariants. It is proved
  against a recursive function that replays the loop one line or one
  message at a time (`Replay`, `TokensUpTo`, `NewEntries`).
- Lemmas tie those functions to what the code promises: membership,
  first-seen order, no duplicates, bounds, and the unit tests of
  `update_seen_ips`.
- The clock is the function `clock: nat -> string`. `clock(k)` is the
  time string read for the k-th new entry of a poll.

### Behaviour of the code worth knowing

- The address is cut at the first `:`, so an accepted endpoint never holds a
  `:`. The `ip.contains(':')` test and the bracket stripping therefore never
  change the outcome for an IPv6 peer.
  - `...->[2001:db8::1]:443` yields the candidate `[2001`, which has no `.`
    and is dropped. It does not yield `2001:db8::1`.
  - The same goes for an unbracketed IPv6 peer (`Endpoint.Ipv6EndpointDropped`,
    `Endpoint.BracketedIpv6Example`).
- A line with whitespace right after `->` (`10.0.0.1:55 -> 192.168.1.1:80`)
  yields an empty candidate and is dropped (`Endpoint.SpacedArrowDropped`).
  lsof prints no such space.
- `previous` from a stored index past the end only moves up by one, so a
  cursor two or more past the end stays past it (`View.PreviousFromStale`).
  `next` always lands on the list.

## Model

| member | source | states |
|---|---|---|
| Text.Lines | src/main.rs:181 | `lines()` yields no line for empty output, and never more lines than characters |
| Text.LinesHaveNoNewline | src/main.rs:181 | no line that `lines()` yields contains a line feed |
| Text.LinesCons | src/main.rs:181 | text up to the first line feed is the first line, with a '\r' before that line feed dropped, and the rest of the text splits into the remaining lines |
| Text.LinesOfOneLine | src/main.rs:181 | non-empty text without a line feed is a single line, kept whole |
| Text.IsWhitespace | src/main.rs:186 | `char::is_whitespace`: exactly the Unicode White_Space code points |
| Text.LastToken | src/main.rs:120 | `split_whitespace().last()`; its meaning is stated by `Text.LastTokenSpec` and `Text.LastTokenUnique` |
| Text.LastTokenSpec | src/main.rs:120 | `split_whitespace().last()` is None exactly for all-whitespace text; otherwise it is a whole word followed only by whitespace |
| Text.LastTokenUnique | src/main.rs:120 | conversely, any whole word followed only by whitespace is the one `split_whitespace().last()` returns |
| Text.LastTokenNonEmpty | src/main.rs:120-121 | the last word is never empty, so the `!ip.is_empty()` test never rejects one |
| Text.LastTokenOfJoin | src/main.rs:120 | the last word of `prefix + word + trailing whitespace` is that word |
| Endpoint.FindArrow | src/main.rs:182 | `find("->")`: a returned position is one where "->" starts |
| Endpoint.FindArrowSpec | src/main.rs:182 | `find("->")` returns the first index at which "->" starts, or None when it occurs nowhere |
| Endpoint.CutIndex | src/main.rs:186 | the end of the address part never lies beyond the text after the arrow |
| Endpoint.CutIndexSpec | src/main.rs:186 | the cut lies at the first whitespace or ':' of the text after the arrow, or at its end |
| Endpoint.StripBrackets | src/main.rs:190-194 | the result is the address itself, or the address it encloses when it is wrapped in '[' and ']' |
| Endpoint.Candidate | src/main.rs:182-194 | a line contributes an endpoint only when it has "->" with text after it |
| Endpoint.CandidateSpec | src/main.rs:182-194 | an accepted endpoint is non-empty, holds a '.', holds no ':' or whitespace, and comes from a line with "->" and text after it |
| Endpoint.StripBracketsWellFormed | src/main.rs:189-194 | an address that passes the emptiness and '.'/':' test is still well formed once its brackets are removed |
| Endpoint.AfterHeader | src/main.rs:181 | `skip(1)`: the lines after the column header; an empty output has none |
| Endpoint.ExtractedSound | src/main.rs:181-197 | every extracted endpoint is the candidate of some line |
| Endpoint.ExtractedComplete | src/main.rs:181-197 | every line's candidate is extracted |
| Endpoint.ExtractedBound | src/main.rs:181-197 | a line contributes at most one endpoint |
| Endpoint.ListedEndpoints | src/main.rs:181-197 | a listing yields at most one endpoint per line after the header |
| Endpoint.ListedEndpointShape | src/main.rs:181-194 | every endpoint of a listing is well formed and is the candidate of a line after the header that has "->" with text after it |
| Endpoint.HeaderOnlyListsNothing | src/main.rs:181 | output holding only the header line, with or without its line feed, lists no endpoint |
| Endpoint.ListingExample | src/main.rs:181-194 | a header line and one line `...->93.184.216.34:<port>`, each ended by a line feed, list exactly `93.184.216.34` |
| Endpoint.FirstArrowAfter | src/main.rs:182 | when the text before "->" holds no arrow, `find` returns the position right after that text |
| Endpoint.CandidateOfEndpointLine | src/main.rs:182-194 | an endpoint right after the first "->", ended by whitespace, ':' or the line end, is extracted without its brackets |
| Endpoint.Ipv6EndpointDropped | src/main.rs:186-189 | an endpoint whose text before its first ':' holds no '.' is dropped, as every IPv6 peer is |
| Endpoint.SpacedArrowDropped | src/main.rs:183-189 | whitespace right after the first "->" makes the line contribute nothing |
| Endpoint.NoArrowNoCandidate | src/main.rs:182-184 | a line without "->", or with nothing after it, contributes nothing |
| Endpoint.Ipv4Example | src/main.rs:182-194 | `...->93.184.216.34:443 ...` contributes `93.184.216.34` |
| Endpoint.BracketedIpv6Example | src/main.rs:186-189 | `...->[2001:...` contributes nothing |
| Endpoint.SpacedArrowExample | src/main.rs:183-189 | `...-> ...` contributes nothing |
| Polling.HistoryEntry | src/main.rs:202 | the entry `"[ts] <endpoint>"`; `View.HistoryEntryToken` states that its last word is the endpoint |
| Polling.FirstContacts | src/main.rs:196-203 | the endpoints one poll announces; `Polling.FirstContactsMembers`, `Polling.FirstContactsDistinct` and `Polling.FirstSeenOrder` state what they are |
| Polling.FirstContactsMembers | src/main.rs:197-203 | one poll announces exactly the listed endpoints that were not announced before |
| Polling.FirstContactsDistinct | src/main.rs:199-203 | no endpoint is announced twice in one poll |
| Polling.FirstContactsStep | src/main.rs:199-203 | one more listed endpoint is announced exactly when it is neither announced nor listed earlier |
| Polling.FirstContactsPrefix | src/main.rs:199-202 | announcements are made incrementally: those of the first k endpoints are a prefix of those of all of them |
| Polling.FirstSeenOrder | src/main.rs:199-202 | announcements come in first-seen order |
| Polling.FirstContactsAppend | src/main.rs:199-203 | two polls in a row announce what one poll over both listings would |
| Polling.StampedStep | src/main.rs:201-202 | the next new entry is stamped with the next clock reading |
| Polling.ReplaySets | src/main.rs:178-200 | after n lines the active set is exactly the endpoints listed so far, and the announced set has grown by exactly those |
| Polling.ReplayEntries | src/main.rs:178-203 | after n lines the new entries are the first contacts among the endpoints listed so far, stamped in order |
| Polling.Poller.constructor | src/main.rs:157 | a new poller has announced nothing |
| Polling.Poller.Scan | src/main.rs:178-207 | one pass returns the listed endpoints as the active set, grows the announced set by them, and returns one stamped entry per first contact, in first-seen order |
| Polling.LexCompare | src/main.rs:214 | `str::cmp` returns Equal exactly for equal strings |
| Polling.LexCompareAntisymmetric | src/main.rs:214 | swapping the operands of `str::cmp` reverses the outcome |
| Polling.CompareEndpoints | src/main.rs:211-215 | the sort's comparator: the address order when both sides parse, otherwise `str::cmp`; `Polling.LexCompare` states the latter |
| Polling.SortConnections | src/main.rs:210-216 | the sorted list holds each endpoint of the active set exactly once |
| Polling.SetPermutationDistinct | src/main.rs:210 | a list with the same elements as a set has no duplicates |
| View.Toggled | src/main.rs:104-109 | `toggle_focus` always changes the focus |
| View.ToggledInvolution | src/main.rs:104-109 | toggling twice restores the focus |
| View.NextIndex | src/main.rs:83-86 | `next` on a non-empty list always selects an entry of it, even from a stale index |
| View.PreviousIndex | src/main.rs:97-100 | `previous` selects an entry of the list unless the stored index was past the end |
| View.PreviousUndoesNext | src/main.rs:83-100 | on the list, `previous` undoes `next` |
| View.NextUndoesPrevious | src/main.rs:83-100 | on the list, `next` undoes `previous` |
| View.PreviousFromStale | src/main.rs:97-100 | from an index two or more past the end, `previous` stays off the list |
| View.NextTimes | src/main.rs:76-88 | pressing `next` repeatedly stays on the list |
| View.NextTimesIsRotation | src/main.rs:83-86 | `next` pressed k times advances by k and wraps to 0 after the last entry |
| View.NextFullCycle | src/main.rs:83-86 | pressing `next` as often as the list is long returns to the start |
| View.RecentWindow | src/main.rs:113-117 | the checked part of the history is its last min(len, 1000) entries: a suffix of that length |
| View.TokensUpToSound | src/main.rs:119-125 | every indexed endpoint is the last word of a checked entry |
| View.TokensUpToComplete | src/main.rs:119-125 | the last word of every checked entry is indexed |
| View.TokensUpToBound | src/main.rs:119-125 | each entry adds at most one endpoint to the index |
| View.TokensUpToDistinct | src/main.rs:119-125 | entries with distinct last words add one endpoint each |
| View.CollectSeen | src/main.rs:112-125 | the loop builds exactly the set of last words of the newest 1000 entries |
| View.SeenIndex | src/main.rs:111-127 | the value `update_seen_ips` computes; `View.SeenIndexSound`, `View.SeenIndexComplete` and `View.SeenIndexBound` state what it holds |
| View.SeenIndexBound | src/main.rs:111-127 | `seen_ips` never holds more than 1000 endpoints, nor more than there are entries |
| View.SeenIndexSound | src/main.rs:113-125 | each endpoint in `seen_ips` is the last word of one of the newest 1000 entries |
| View.SeenIndexComplete | src/main.rs:113-125 | the last word of each of the newest 1000 entries is in `seen_ips` |
| View.OldestExcluded | src/main.rs:113-117 | an endpoint named only by entries older than the newest 1000 is not in `seen_ips` |
| View.HistoryEntryToken | src/main.rs:202 | the last word of `"[ts] <endpoint>"` is the endpoint |
| View.SeenIndexOfStamped | src/main.rs:352-401 | the index of up to 1000 poller entries is the set of their endpoints, duplicates, IPv6 text and ports included |
| View.SeenIndexOfAppended | src/main.rs:265-268 | the endpoint of each of up to 1000 newly appended entries is indexed |
| View.LimitedHistory | src/main.rs:404-413 | with over 1000 entries naming distinct endpoints, the index holds exactly 1000, including the newest and excluding the oldest |
| View.ErrorsAddNoEntries | src/main.rs:270-273 | error messages add nothing to the history |
| View.NewEntriesPrefix | src/main.rs:265-267 | the history only grows: what earlier messages add is a prefix of what later ones add |
| View.App.constructor | src/main.rs:62-74 | a new view has empty lists and index, status "Initializing...", focus on the active list and no selections |
| View.App.Next | src/main.rs:76-88 | only the focused list's cursor moves, by `NextIndex`, and only when that list is non-empty |
| View.App.Previous | src/main.rs:90-102 | only the focused list's cursor moves, by `PreviousIndex`, and only when that list is non-empty |
| View.App.ToggleFocus | src/main.rs:104-109 | the focus flips and nothing else changes |
| View.App.UpdateSeenIps | src/main.rs:111-127 | `seen_ips` becomes the index of the current history and nothing else changes |
| View.App.Apply | src/main.rs:260-274 | a data update replaces the active list and status, appends its entries and rebuilds the index; an error replaces the status, empties the active list and keeps history and index |
| View.App.Drain | src/main.rs:259-275 | draining appends every message's entries in order, the latest message decides the active list and status, and the index stays current |
| Pipeline.StampedNames | src/main.rs:196-202 | each entry of a poll names, in order, a listed endpoint not announced before |
| Pipeline.PollKeepsNamesAnnounced | src/main.rs:196-203 | after a poll every history entry still names an announced endpoint |
| Pipeline.PollKeepsNamesDistinct | src/main.rs:196-203 | after a poll no two history entries name the same endpoint |
| Pipeline.PollOnce | src/main.rs:177-222 | one poll delivered to the view: the active list is the listed endpoints, each once; the history grows by the poll's first contacts; the status is "Monitoring PID: <pid>"; the target name, focus and both cursors are unchanged; the session invariant is kept |

## Left out

- The `pgrep -f` and `sudo lsof` subprocesses, the PID-line extraction and the error statuses they produce (src/main.rs:163-175, 224-230) are operating-system I/O. The lsof output and the PID are parameters of `Pipeline.PollOnce`, and the error statuses reach the view only as `Error(msg)` messages.
- `String::from_utf8_lossy` (src/main.rs:167, 177) is a decoding step. The model takes the output as already-decoded text.
- The background thread and the `mpsc` channel (src/main.rs:154-156, 218-222, 259) are concurrency. `View.App.Drain` takes the pending messages as a sequence, oldest first.
- The one-second pacing and sleep (src/main.rs:161, 233-236) are timing and are not modelled.
- `chrono::Local::now()` (src/main.rs:201) is a clock. It is the parameter `clock`.
- `IpAddr` parsing and ordering (src/main.rs:212-213) are a foreign library. They are the parameters `parse` and `ipCmp`.
- Polling.SortConnections: states only that the result lists the active set once each, not that it is sorted. The mixed address/lexicographic comparator need not be a total order. It is modelled as an insertion sort over whatever order the set is collected in; Rust's `sort_by` is a merge sort. Since Rust 1.81 `sort_by` may panic when its comparator is not a total order, while the model's sort always returns. That cannot happen while every endpoint parses as an address, which the numeric output of `lsof -n` gives for IPv4 peers.
- View.PreviousIndex: promises a result on the list only when the stored index is at most the length, because the code as written does not do more (see above).
- Terminal setup, key dispatch (including the ten-step PageUp/PageDown loops) and `ui` rendering (src/main.rs:131-148, 240-257, 279-345) are UI. `View.NextTimes` covers repeated `next` presses.
- The command-line parsing with clap (src/main.rs:24-28, 132) is not modelled.
- `ListState` is reduced to its selected index. Its scroll offset is used only for rendering.
- Rust slices strings by byte offset, and the model slices by character. Every cut point is a character boundary: `find` returns the start of the match, the arrow and the brackets are one-byte ASCII characters, and the end of the address is the start of the first whitespace or ':' character, whatever its byte length. So both give the same strings.
- Polling.Poller.Scan updates the announced set through a local copy and assigns it once after the loop. The final state is the one the in-place inserts produce.
- View.App.Apply appends the new entries to a local copy of the history and assigns it after the loop. The final state is the same as pushing in place.
