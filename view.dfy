/** The terminal view model `App` (src/main.rs:31-127) and the application of
    the poller's messages to it (src/main.rs:259-275). */
module View {
  import opened Text
  import opened Polling

  /** Which of the two lists the cursor keys act on. */
  datatype Focus = ActiveList | HistoryList

  /** A message from the poller thread. */
  datatype BackgroundEvent =
    | DataUpdate(active: seq<string>, newHistoryEntries: seq<string>, pidMsg: string)
    | Error(msg: string)

  /** How many of the newest history entries feed `seen_ips`. */
  const SeenWindow: nat := 1000

  /** `toggle_focus`: the other list. */
  function Toggled(f: Focus): (g: Focus)
    ensures g != f
  {
    match f
    case ActiveList => HistoryList
    case HistoryList => ActiveList
  }

  /** Toggling twice gives back the original focus. */
  lemma ToggledInvolution(f: Focus)
    ensures Toggled(Toggled(f)) == f
  {
  }

  // ---------------------------------------------------------------------------
  // Selection cursors (ListState::selected) of a non-empty list of length `len`

  /** `next`: no selection or the last (or a stale) index wraps to 0,
      anything else moves down one. The result is always on the list. */
  function NextIndex(sel: Option<nat>, len: nat): (r: nat)
    requires len > 0
    ensures r < len
  {
    match sel
    case None => 0
    case Some(i) => if i >= len - 1 then 0 else i + 1
  }

  /** `previous`: no selection goes to 0, index 0 wraps to the last entry,
      anything else moves up one. The result is on the list unless the
      stored index was already past the end. */
  function PreviousIndex(sel: Option<nat>, len: nat): (r: nat)
    requires len > 0
    ensures (sel.None? || sel.value <= len) ==> r < len
  {
    match sel
    case None => 0
    case Some(i) => if i == 0 then len - 1 else i - 1
  }

  /** On the list, `previous` undoes `next`. */
  lemma PreviousUndoesNext(i: nat, len: nat)
    requires i < len
    ensures PreviousIndex(Some(NextIndex(Some(i), len)), len) == i
  {
  }

  /** On the list, `next` undoes `previous`. */
  lemma NextUndoesPrevious(i: nat, len: nat)
    requires i < len
    ensures NextIndex(Some(PreviousIndex(Some(i), len)), len) == i
  {
  }

  /** A stored index two or more past the end stays off the list under
      `previous`: it only moves up by one. */
  lemma PreviousFromStale(i: nat, len: nat)
    requires 0 < len < i
    ensures PreviousIndex(Some(i), len) == i - 1 >= len
  {
  }

  /** `next` pressed `k` times from `i`. */
  function NextTimes(i: nat, len: nat, k: nat): (r: nat)
    requires i < len
    ensures r < len
  {
    if k == 0 then i else NextIndex(Some(NextTimes(i, len, k - 1)), len)
  }

  /** `next` from an index on the list visits the following indices in turn
      and wraps to 0 after the last one. */
  lemma {:induction false} NextTimesIsRotation(i: nat, len: nat, k: nat)
    requires i < len && k <= len
    ensures NextTimes(i, len, k) == if i + k < len then i + k else i + k - len
  {
    if k > 0 {
      NextTimesIsRotation(i, len, k - 1);
    }
  }

  /** Pressing `next` as many times as the list is long comes back to the
      starting entry. */
  lemma NextFullCycle(i: nat, len: nat)
    requires i < len
    ensures NextTimes(i, len, len) == i
  {
    NextTimesIsRotation(i, len, len);
  }

  // ---------------------------------------------------------------------------
  // The seen-endpoint index

  /** The newest `SeenWindow` history entries, or all of them when there are
      fewer. */
  function RecentWindow(history: seq<string>): (w: seq<string>)
    ensures |w| == if |history| > SeenWindow then SeenWindow else |history|
    ensures w == history[|history| - |w|..]
  {
    if |history| > SeenWindow then history[|history| - SeenWindow..] else history
  }

  /** The last whitespace-delimited tokens of the first `n` entries, without
      empty ones. */
  function TokensUpTo(entries: seq<string>, n: nat): set<string>
    requires n <= |entries|
  {
    if n == 0 then {}
    else
      var prev := TokensUpTo(entries, n - 1);
      match LastToken(entries[n - 1])
      case None => prev
      case Some(ip) => if ip != [] then prev + {ip} else prev
  }

  /** Every token of the index is the last token of one of the entries. */
  lemma {:induction false} TokensUpToSound(entries: seq<string>, n: nat, t: string) returns (k: nat)
    requires n <= |entries| && t in TokensUpTo(entries, n)
    ensures k < n && LastToken(entries[k]) == Some(t)
  {
    if LastToken(entries[n - 1]) == Some(t) {
      k := n - 1;
    } else {
      k := TokensUpToSound(entries, n - 1, t);
    }
  }

  /** The last token of every entry is in the index. */
  lemma {:induction false} TokensUpToComplete(entries: seq<string>, n: nat, k: nat)
    requires k < n <= |entries| && LastToken(entries[k]).Some?
    ensures LastToken(entries[k]).value in TokensUpTo(entries, n)
  {
    if k < n - 1 {
      TokensUpToComplete(entries, n - 1, k);
    } else {
      LastTokenNonEmpty(entries[k]);
    }
  }

  /** Each entry adds at most one token. */
  lemma {:induction false} TokensUpToBound(entries: seq<string>, n: nat)
    requires n <= |entries|
    ensures |TokensUpTo(entries, n)| <= n
  {
    if n > 0 {
      TokensUpToBound(entries, n - 1);
    }
  }

  /** When every entry has a last token and no two share one, each entry adds
      exactly one. */
  lemma {:induction false} TokensUpToDistinct(entries: seq<string>, n: nat)
    requires n <= |entries|
    requires forall k :: 0 <= k < n ==> LastToken(entries[k]).Some?
    requires forall j, k :: 0 <= j < k < n ==> LastToken(entries[j]) != LastToken(entries[k])
    ensures |TokensUpTo(entries, n)| == n
  {
    if n > 0 {
      TokensUpToDistinct(entries, n - 1);
      LastTokenNonEmpty(entries[n - 1]);
      var t := LastToken(entries[n - 1]).value;
      if t in TokensUpTo(entries, n - 1) {
        var k := TokensUpToSound(entries, n - 1, t);
        assert false;
      }
    }
  }

  /** `seen_ips` as `update_seen_ips` computes it from a history. */
  function SeenIndex(history: seq<string>): set<string>
  {
    var w := RecentWindow(history);
    TokensUpTo(w, |w|)
  }

  /** The loop of `update_seen_ips` (src/main.rs:112-125): the last token
      of each of the newest `SeenWindow` entries, skipping empty ones. */
  method CollectSeen(history: seq<string>) returns (seen: set<string>)
    ensures seen == SeenIndex(history)
  {
    seen := {};
    var toCheck := if |history| > SeenWindow then history[|history| - SeenWindow..] else history;
    var i := 0;
    while i < |toCheck|
      invariant 0 <= i <= |toCheck|
      invariant seen == TokensUpTo(toCheck, i)
    {
      match LastToken(toCheck[i]) {
        case None =>
        case Some(ip) =>
          if ip != [] {
            seen := seen + {ip};
          }
      }
      i := i + 1;
    }
  }

  /** The index never holds more than `SeenWindow` endpoints, nor more than
      there are entries. */
  lemma SeenIndexBound(history: seq<string>)
    ensures |SeenIndex(history)| <= SeenWindow
    ensures |SeenIndex(history)| <= |history|
  {
    var w := RecentWindow(history);
    TokensUpToBound(w, |w|);
  }

  /** Every endpoint of the index is the last token of one of the newest
      `SeenWindow` entries. */
  lemma SeenIndexSound(history: seq<string>, t: string) returns (k: nat)
    requires t in SeenIndex(history)
    ensures |history| - |RecentWindow(history)| <= k < |history|
    ensures LastToken(history[k]) == Some(t)
  {
    var w := RecentWindow(history);
    var j := TokensUpToSound(w, |w|, t);
    k := |history| - |w| + j;
    assert history[k] == w[j];
  }

  /** The last token of each of the newest `SeenWindow` entries is in the
      index. */
  lemma SeenIndexComplete(history: seq<string>, k: nat)
    requires |history| - |RecentWindow(history)| <= k < |history|
    requires LastToken(history[k]).Some?
    ensures LastToken(history[k]).value in SeenIndex(history)
  {
    var w := RecentWindow(history);
    var j := k - (|history| - |w|);
    assert w[j] == history[k];
    TokensUpToComplete(w, |w|, j);
  }

  /** An entry older than the newest `SeenWindow` contributes nothing of its
      own: its endpoint is indexed only if a newer entry names it too. */
  lemma OldestExcluded(history: seq<string>, k: nat, t: string)
    requires k < |history| - SeenWindow
    requires forall j :: k < j < |history| ==> LastToken(history[j]) != Some(t)
    ensures t !in SeenIndex(history)
  {
    if t in SeenIndex(history) {
      var j := SeenIndexSound(history, t);
      assert false;
    }
  }

  /** The last token of a first-contact history entry is its endpoint. */
  lemma HistoryEntryToken(ts: string, ep: string)
    requires ep != [] && NoWhitespace(ep)
    ensures LastToken(HistoryEntry(ts, ep)) == Some(ep)
  {
    var prefix := "[" + ts + "] ";
    assert HistoryEntry(ts, ep) == prefix + ep + [];
    assert prefix[|prefix| - 1] == ' ';
    LastTokenOfJoin(prefix, ep, []);
  }

  /** The index of the entries one poll adds, when there are at most
      `SeenWindow` of them, is the set of their endpoints (the situations of
      the unit tests at src/main.rs:352-401 and 417-426). */
  lemma SeenIndexOfStamped(eps: seq<string>, clock: nat -> string)
    requires |eps| <= SeenWindow
    requires forall k :: 0 <= k < |eps| ==> eps[k] != [] && NoWhitespace(eps[k])
    ensures SeenIndex(Stamped(eps, clock)) == set e | e in eps
  {
    var h := Stamped(eps, clock);
    forall t | t in SeenIndex(h)
      ensures t in eps
    {
      var k := SeenIndexSound(h, t);
      HistoryEntryToken(clock(k), eps[k]);
    }
    forall t | t in eps
      ensures t in SeenIndex(h)
    {
      var k :| 0 <= k < |eps| && eps[k] == t;
      HistoryEntryToken(clock(k), eps[k]);
      SeenIndexComplete(h, k);
    }
  }

  /** Entries appended to a history, at most `SeenWindow` of them, all have
      their endpoints indexed. */
  lemma SeenIndexOfAppended(history: seq<string>, eps: seq<string>, clock: nat -> string, k: nat)
    requires |eps| <= SeenWindow && k < |eps|
    requires eps[k] != [] && NoWhitespace(eps[k])
    ensures eps[k] in SeenIndex(history + Stamped(eps, clock))
  {
    var h := history + Stamped(eps, clock);
    assert h[|history| + k] == HistoryEntry(clock(k), eps[k]);
    HistoryEntryToken(clock(k), eps[k]);
    SeenIndexComplete(h, |history| + k);
  }

  /** With more than `SeenWindow` entries naming distinct endpoints, the
      index holds exactly `SeenWindow` of them: the newest endpoint is in it,
      the oldest is not (the unit test at src/main.rs:404-413). */
  lemma LimitedHistory(history: seq<string>)
    requires |history| > SeenWindow
    requires forall k :: 0 <= k < |history| ==> LastToken(history[k]).Some?
    requires forall j, k :: 0 <= j < k < |history| ==> LastToken(history[j]) != LastToken(history[k])
    ensures |SeenIndex(history)| == SeenWindow
    ensures LastToken(history[|history| - 1]).value in SeenIndex(history)
    ensures LastToken(history[0]).value !in SeenIndex(history)
  {
    var w := RecentWindow(history);
    var d := |history| - |w|;
    assert forall k :: 0 <= k < |w| ==> w[k] == history[d + k];
    TokensUpToDistinct(w, |w|);
    SeenIndexComplete(history, |history| - 1);
    OldestExcluded(history, 0, LastToken(history[0]).value);
  }

  /** The history entries a message carries. */
  function Carried(ev: BackgroundEvent): seq<string>
  {
    match ev
    case DataUpdate(_, entries, _) => entries
    case Error(_) => []
  }

  /** The active list a message puts on screen. */
  function ShownActive(ev: BackgroundEvent): seq<string>
  {
    match ev
    case DataUpdate(active, _, _) => active
    case Error(_) => []
  }

  /** The status line a message puts on screen. */
  function ShownStatus(ev: BackgroundEvent): string
  {
    match ev
    case DataUpdate(_, _, pidMsg) => pidMsg
    case Error(msg) => msg
  }

  /** The history entries the first `n` messages carry, in order. */
  function NewEntries(events: seq<BackgroundEvent>, n: nat): seq<string>
    requires n <= |events|
  {
    if n == 0 then [] else NewEntries(events, n - 1) + Carried(events[n - 1])
  }

  /** The active list shown after the first `n` messages: the latest of them
      decides it. */
  function ActiveAfter(active: seq<string>, events: seq<BackgroundEvent>, n: nat): seq<string>
    requires n <= |events|
  {
    if n == 0 then active else ShownActive(events[n - 1])
  }

  /** The status line after the first `n` messages: the latest of them
      decides it. */
  function StatusAfter(status: string, events: seq<BackgroundEvent>, n: nat): string
    requires n <= |events|
  {
    if n == 0 then status else ShownStatus(events[n - 1])
  }

  lemma AppendAssociative(a: seq<string>, b: seq<string>, c: seq<string>)
    ensures (a + b) + c == a + (b + c)
  {
  }

  /** Error messages carry nothing for the history. */
  lemma {:induction false} ErrorsAddNoEntries(events: seq<BackgroundEvent>, n: nat)
    requires n <= |events|
    requires forall k :: 0 <= k < n ==> events[k].Error?
    ensures NewEntries(events, n) == []
  {
    if n > 0 {
      ErrorsAddNoEntries(events, n - 1);
    }
  }

  /** The history only grows: what the first `m` messages add is a prefix of
      what the first `n` add. */
  lemma {:induction false} NewEntriesPrefix(events: seq<BackgroundEvent>, m: nat, n: nat)
    requires m <= n <= |events|
    ensures NewEntries(events, m) <= NewEntries(events, n)
    decreases n - m
  {
    if m < n {
      NewEntriesPrefix(events, m, n - 1);
    }
  }

  // ---------------------------------------------------------------------------
  // The view model

  class App {
    var targetName: string
    var activeConnections: seq<string>
    var historyLog: seq<string>
    var seenIps: set<string>
    var lastStatusMsg: string
    var focus: Focus
    var activeSelected: Option<nat>
    var historySelected: Option<nat>

    /** `seen_ips` is the index of the current history. */
    predicate SeenIndexCurrent()
      reads this
    {
      seenIps == SeenIndex(historyLog)
    }

    /** `App::new`. */
    constructor (target: string)
      ensures targetName == target
      ensures activeConnections == [] && historyLog == [] && seenIps == {}
      ensures lastStatusMsg == "Initializing..."
      ensures focus == ActiveList
      ensures activeSelected == None && historySelected == None
      ensures SeenIndexCurrent()
    {
      targetName := target;
      activeConnections := [];
      historyLog := [];
      seenIps := {};
      lastStatusMsg := "Initializing...";
      focus := ActiveList;
      activeSelected := None;
      historySelected := None;
    }

    /** `next`: moves the focused list's cursor down, wrapping; does nothing
        on an empty list. */
    method Next()
      modifies this
      ensures targetName == old(targetName) && focus == old(focus)
      ensures activeConnections == old(activeConnections) && historyLog == old(historyLog)
      ensures seenIps == old(seenIps) && lastStatusMsg == old(lastStatusMsg)
      ensures focus == ActiveList ==>
                historySelected == old(historySelected)
                && activeSelected == (if |activeConnections| == 0 then old(activeSelected)
                                      else Some(NextIndex(old(activeSelected), |activeConnections|)))
      ensures focus == HistoryList ==>
                activeSelected == old(activeSelected)
                && historySelected == (if |historyLog| == 0 then old(historySelected)
                                       else Some(NextIndex(old(historySelected), |historyLog|)))
    {
      match focus
      case ActiveList =>
        if |activeConnections| > 0 {
          activeSelected := Some(NextIndex(activeSelected, |activeConnections|));
        }
      case HistoryList =>
        if |historyLog| > 0 {
          historySelected := Some(NextIndex(historySelected, |historyLog|));
        }
    }

    /** `previous`: moves the focused list's cursor up, wrapping; does
        nothing on an empty list. */
    method Previous()
      modifies this
      ensures targetName == old(targetName) && focus == old(focus)
      ensures activeConnections == old(activeConnections) && historyLog == old(historyLog)
      ensures seenIps == old(seenIps) && lastStatusMsg == old(lastStatusMsg)
      ensures focus == ActiveList ==>
                historySelected == old(historySelected)
                && activeSelected == (if |activeConnections| == 0 then old(activeSelected)
                                      else Some(PreviousIndex(old(activeSelected), |activeConnections|)))
      ensures focus == HistoryList ==>
                activeSelected == old(activeSelected)
                && historySelected == (if |historyLog| == 0 then old(historySelected)
                                       else Some(PreviousIndex(old(historySelected), |historyLog|)))
    {
      match focus
      case ActiveList =>
        if |activeConnections| > 0 {
          activeSelected := Some(PreviousIndex(activeSelected, |activeConnections|));
        }
      case HistoryList =>
        if |historyLog| > 0 {
          historySelected := Some(PreviousIndex(historySelected, |historyLog|));
        }
    }

    /** `toggle_focus`: switches the focus and nothing else. */
    method ToggleFocus()
      modifies this
      ensures focus == Toggled(old(focus))
      ensures targetName == old(targetName)
      ensures activeConnections == old(activeConnections) && historyLog == old(historyLog)
      ensures seenIps == old(seenIps) && lastStatusMsg == old(lastStatusMsg)
      ensures activeSelected == old(activeSelected) && historySelected == old(historySelected)
    {
      focus := Toggled(focus);
    }

    /** `update_seen_ips`: rebuilds `seen_ips` from the newest history
        entries; nothing else changes. */
    method UpdateSeenIps()
      modifies this
      ensures SeenIndexCurrent()
      ensures targetName == old(targetName) && focus == old(focus)
      ensures activeConnections == old(activeConnections) && historyLog == old(historyLog)
      ensures lastStatusMsg == old(lastStatusMsg)
      ensures activeSelected == old(activeSelected) && historySelected == old(historySelected)
    {
      seenIps := CollectSeen(historyLog);
    }

    /** Applies one poller message (src/main.rs:260-274). A data update
        replaces the active list and the status, appends the new entries to
        the history and rebuilds the index; an error replaces the status and
        empties the active list. */
    method Apply(ev: BackgroundEvent)
      modifies this
      ensures targetName == old(targetName) && focus == old(focus)
      ensures activeSelected == old(activeSelected) && historySelected == old(historySelected)
      ensures activeConnections == ShownActive(ev) && lastStatusMsg == ShownStatus(ev)
      ensures historyLog == old(historyLog) + Carried(ev)
      ensures ev.DataUpdate? ==> SeenIndexCurrent()
      ensures ev.Error? ==> seenIps == old(seenIps)
      ensures old(SeenIndexCurrent()) ==> SeenIndexCurrent()
    {
      match ev
      case DataUpdate(active, entries, pidMsg) =>
        activeConnections := active;
        lastStatusMsg := pidMsg;
        var log := historyLog;
        var i := 0;
        while i < |entries|
          invariant 0 <= i <= |entries|
          invariant log == old(historyLog) + entries[..i]
        {
          log := log + [entries[i]];
          i := i + 1;
        }
        historyLog := log;
        UpdateSeenIps();
      case Error(msg) =>
        lastStatusMsg := msg;
        activeConnections := [];
    }


    /** The drain loop `while let Ok(msg) = rx.try_recv()` over the
        messages waiting in the channel, oldest first. */
    method Drain(events: seq<BackgroundEvent>)
      modifies this
      ensures targetName == old(targetName) && focus == old(focus)
      ensures activeSelected == old(activeSelected) && historySelected == old(historySelected)
      ensures historyLog == old(historyLog) + NewEntries(events, |events|)
      ensures activeConnections == ActiveAfter(old(activeConnections), events, |events|)
      ensures lastStatusMsg == StatusAfter(old(lastStatusMsg), events, |events|)
      ensures old(SeenIndexCurrent()) ==> SeenIndexCurrent()
    {
      var i := 0;
      while i < |events|
        invariant 0 <= i <= |events|
        invariant targetName == old(targetName) && focus == old(focus)
        invariant activeSelected == old(activeSelected) && historySelected == old(historySelected)
        invariant historyLog == old(historyLog) + NewEntries(events, i)
        invariant activeConnections == ActiveAfter(old(activeConnections), events, i)
        invariant lastStatusMsg == StatusAfter(old(lastStatusMsg), events, i)
        invariant old(SeenIndexCurrent()) ==> SeenIndexCurrent()
      {
        Apply(events[i]);
        AppendAssociative(old(historyLog), NewEntries(events, i), Carried(events[i]));
        i := i + 1;
      }
    }
  }
}
