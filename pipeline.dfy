/** One poll end to end (src/main.rs:177-222 and 261-268): the poller scans
    an lsof listing, sorts the active set and sends a data update, which the
    view applies. Across a session, the history names every endpoint the
    poller has announced, each exactly once. */
module Pipeline {
  import opened Text
  import opened Endpoint
  import opened Polling
  import opened View

  /** Every history entry names an endpoint of `announced`. */
  predicate NamesAnnounced(history: seq<string>, announced: set<string>)
  {
    forall k :: 0 <= k < |history| ==> LastToken(history[k]).Some? && LastToken(history[k]).value in announced
  }

  /** No two history entries name the same endpoint. */
  predicate NamesDistinct(history: seq<string>)
  {
    forall j, k :: 0 <= j < k < |history| ==> LastToken(history[j]) != LastToken(history[k])
  }

  /** The entries one poll adds name, in order, the endpoints it announces:
      listed endpoints that were not announced before. */
  lemma StampedNames(output: string, announced: set<string>, clock: nat -> string)
    ensures forall k :: 0 <= k < |FirstContacts(ListedEndpoints(output), announced)| ==>
              && LastToken(Stamped(FirstContacts(ListedEndpoints(output), announced), clock)[k])
                 == Some(FirstContacts(ListedEndpoints(output), announced)[k])
              && FirstContacts(ListedEndpoints(output), announced)[k] in ListedEndpoints(output)
              && FirstContacts(ListedEndpoints(output), announced)[k] !in announced
  {
    var eps := FirstContacts(ListedEndpoints(output), announced);
    FirstContactsMembers(ListedEndpoints(output), announced);
    forall k | 0 <= k < |eps|
      ensures LastToken(Stamped(eps, clock)[k]) == Some(eps[k])
    {
      assert eps[k] in eps;
      ListedEndpointShape(output, eps[k]);
      HistoryEntryToken(clock(k), eps[k]);
    }
  }

  /** After a poll every history entry still names an announced endpoint. */
  lemma PollKeepsNamesAnnounced(history: seq<string>, announced: set<string>, output: string, clock: nat -> string)
    requires NamesAnnounced(history, announced)
    ensures NamesAnnounced(history + Stamped(FirstContacts(ListedEndpoints(output), announced), clock),
                           announced + set e | e in ListedEndpoints(output))
  {
    var eps := FirstContacts(ListedEndpoints(output), announced);
    var h := history + Stamped(eps, clock);
    StampedNames(output, announced, clock);
    assert forall k :: |history| <= k < |h| ==> h[k] == Stamped(eps, clock)[k - |history|];
  }

  /** After a poll no two history entries name the same endpoint: the new
      ones name endpoints never announced before, each once. */
  lemma PollKeepsNamesDistinct(history: seq<string>, announced: set<string>, output: string, clock: nat -> string)
    requires NamesAnnounced(history, announced) && NamesDistinct(history)
    ensures NamesDistinct(history + Stamped(FirstContacts(ListedEndpoints(output), announced), clock))
  {
    var eps := FirstContacts(ListedEndpoints(output), announced);
    var added := Stamped(eps, clock);
    var h := history + added;
    StampedNames(output, announced, clock);
    FirstContactsDistinct(ListedEndpoints(output), announced);
    forall j, k | 0 <= j < k < |h|
      ensures LastToken(h[j]) != LastToken(h[k])
    {
      if k >= |history| {
        assert h[k] == added[k - |history|];
        if j >= |history| {
          assert h[j] == added[j - |history|];
        }
      }
    }
  }

  /** One iteration of the poller loop on lsof output `output`, delivered to
      the view: the message carries the sorted active set, the new entries
      and "Monitoring PID: <pid>". */
  method PollOnce<Ip>(poller: Poller, app: App, output: string, clock: nat -> string,
                      parse: string -> Option<Ip>, ipCmp: (Ip, Ip) -> Ordering, pid: string)
    modifies poller, app
    ensures poller.announced == old(poller.announced) + set e | e in ListedEndpoints(output)
    ensures multiset(app.activeConnections) == multiset(set e | e in ListedEndpoints(output))
    ensures app.historyLog
         == old(app.historyLog) + Stamped(FirstContacts(ListedEndpoints(output), old(poller.announced)), clock)
    ensures app.lastStatusMsg == "Monitoring PID: " + pid
    ensures app.SeenIndexCurrent()
    ensures app.targetName == old(app.targetName) && app.focus == old(app.focus)
    ensures app.activeSelected == old(app.activeSelected) && app.historySelected == old(app.historySelected)
    ensures NamesAnnounced(old(app.historyLog), old(poller.announced)) && NamesDistinct(old(app.historyLog))
            ==> NamesAnnounced(app.historyLog, poller.announced) && NamesDistinct(app.historyLog)
  {
    ghost var history0, announced0 := app.historyLog, poller.announced;
    var active, newEntries := poller.Scan(output, clock);
    var sorted := SortConnections(active, parse, ipCmp);
    app.Apply(DataUpdate(sorted, newEntries, "Monitoring PID: " + pid));
    if NamesAnnounced(history0, announced0) && NamesDistinct(history0) {
      PollKeepsNamesAnnounced(history0, announced0, output, clock);
      PollKeepsNamesDistinct(history0, announced0, output, clock);
    }
  }
}
