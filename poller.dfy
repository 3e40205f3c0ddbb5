/** The background poller's per-poll work once the lsof output is in hand
    (src/main.rs:157, 178-216): extract the endpoints, announce the ones never
    announced before as history entries, and sort the active set. */
module Polling {
  import opened Text
  import opened Endpoint

  /** A first-contact history entry: "[<time>] <endpoint>". */
  function HistoryEntry(ts: string, ep: string): string
  {
    "[" + ts + "] " + ep
  }

  /** The endpoints of `eps` that are not in `announced`, each once, in the
      order of their first occurrence in `eps`: the entries one poll adds to
      the history. */
  function FirstContacts(eps: seq<string>, announced: set<string>): seq<string>
  {
    if eps == [] then []
    else
      var prev := FirstContacts(eps[..|eps| - 1], announced);
      var e := eps[|eps| - 1];
      if e in announced || e in prev then prev else prev + [e]
  }

  /** Exactly the endpoints of `eps` outside `announced` are announced. */
  lemma {:induction false} FirstContactsMembers(eps: seq<string>, announced: set<string>)
    ensures forall x :: x in FirstContacts(eps, announced) <==> x in eps && x !in announced
  {
    if eps != [] {
      var n := |eps| - 1;
      FirstContactsMembers(eps[..n], announced);
      assert eps == eps[..n] + [eps[n]];
    }
  }

  /** No endpoint is announced twice. */
  lemma {:induction false} FirstContactsDistinct(eps: seq<string>, announced: set<string>)
    ensures forall i, j :: 0 <= i < j < |FirstContacts(eps, announced)|
              ==> FirstContacts(eps, announced)[i] != FirstContacts(eps, announced)[j]
  {
    if eps != [] {
      FirstContactsDistinct(eps[..|eps| - 1], announced);
    }
  }

  /** One more endpoint is announced exactly when it is neither already
      announced nor among the endpoints before it. */
  lemma FirstContactsStep(eps: seq<string>, e: string, announced: set<string>)
    ensures FirstContacts(eps + [e], announced)
         == if e in announced || e in eps then FirstContacts(eps, announced)
            else FirstContacts(eps, announced) + [e]
  {
    assert (eps + [e])[..|eps|] == eps;
    FirstContactsMembers(eps, announced);
  }

  /** Announcing is incremental: what the first `k` endpoints announce is a
      prefix of what all of them announce. */
  lemma {:induction false} FirstContactsPrefix(eps: seq<string>, k: nat, announced: set<string>)
    requires k <= |eps|
    ensures FirstContacts(eps[..k], announced) <= FirstContacts(eps, announced)
    decreases |eps| - k
  {
    if k < |eps| {
      var n := |eps| - 1;
      assert eps[..n][..k] == eps[..k];
      FirstContactsPrefix(eps[..n], k, announced);
    } else {
      assert eps[..k] == eps;
    }
  }

  /** First-seen order: an announced endpoint that occurs among the first `k`
      endpoints comes before one that does not. */
  lemma FirstSeenOrder(eps: seq<string>, announced: set<string>, k: nat, i: nat, j: nat)
    requires k <= |eps|
    requires i < |FirstContacts(eps, announced)| && j < |FirstContacts(eps, announced)|
    requires FirstContacts(eps, announced)[i] in eps[..k]
    requires FirstContacts(eps, announced)[j] !in eps[..k]
    ensures i < j
  {
    var all := FirstContacts(eps, announced);
    var early := FirstContacts(eps[..k], announced);
    FirstContactsPrefix(eps, k, announced);
    FirstContactsMembers(eps, announced);
    FirstContactsMembers(eps[..k], announced);
    FirstContactsDistinct(eps, announced);
    assert all[i] in early;
    var i' :| 0 <= i' < |early| && early[i'] == all[i];
    assert all[i'] == all[i];
    if j < |early| {
      assert false;
    }
  }

  /** Announcing `eps` after `earlier` from `announced` yields what `earlier`
      yields followed by what `eps` yields from the enlarged set: two polls
      in a row announce what one poll over both listings would. */
  lemma {:induction false} FirstContactsAppend(earlier: seq<string>, eps: seq<string>, announced: set<string>)
    ensures FirstContacts(earlier + eps, announced)
         == FirstContacts(earlier, announced)
            + FirstContacts(eps, announced + (set x | x in earlier))
    decreases |eps|
  {
    if eps == [] {
      assert earlier + eps == earlier;
    } else {
      var n := |eps| - 1;
      assert (earlier + eps)[..|earlier + eps| - 1] == earlier + eps[..n];
      FirstContactsAppend(earlier, eps[..n], announced);
      FirstContactsMembers(earlier + eps[..n], announced);
      FirstContactsMembers(eps[..n], announced + (set x | x in earlier));
    }
  }

  /** The history entries of one poll: the k-th new endpoint stamped with the
      k-th reading of the clock. */
  function Stamped(eps: seq<string>, clock: nat -> string): seq<string>
  {
    seq(|eps|, k requires 0 <= k < |eps| => HistoryEntry(clock(k), eps[k]))
  }

  /** Stamping one more endpoint appends its entry, stamped with the next
      reading of the clock. */
  lemma StampedStep(eps: seq<string>, e: string, clock: nat -> string)
    ensures Stamped(eps + [e], clock) == Stamped(eps, clock) + [HistoryEntry(clock(|eps|), e)]
  {
  }

  /** The three collections the lsof loop carries: `active`, the poller's
      announced set, and `new_entries`. */
  datatype Tally = Tally(active: set<string>, seen: set<string>, entries: seq<string>)

  /** The collections after the loop has handled the first `n` lines of
      `body`, starting from the announced set `announced0`. */
  function Replay(body: seq<string>, n: nat, announced0: set<string>, clock: nat -> string): Tally
    requires n <= |body|
  {
    if n == 0 then Tally({}, announced0, [])
    else
      var t := Replay(body, n - 1, announced0, clock);
      match Candidate(body[n - 1])
      case None => t
      case Some(s) =>
        if s in t.seen then Tally(t.active + {s}, t.seen, t.entries)
        else Tally(t.active + {s}, t.seen + {s}, t.entries + [HistoryEntry(clock(|t.entries|), s)])
  }

  /** After `n` lines the active set holds exactly the endpoints listed so
      far, and the announced set has grown by exactly those. */
  lemma {:induction false} ReplaySets(body: seq<string>, n: nat, announced0: set<string>, clock: nat -> string)
    requires n <= |body|
    ensures Replay(body, n, announced0, clock).active == set e | e in Extracted(body, n)
    ensures Replay(body, n, announced0, clock).seen == announced0 + Replay(body, n, announced0, clock).active
  {
    if n > 0 {
      ReplaySets(body, n - 1, announced0, clock);
    }
  }

  /** After `n` lines the new entries are the first contacts among the
      endpoints listed so far, stamped in order. */
  lemma {:induction false} ReplayEntries(body: seq<string>, n: nat, announced0: set<string>, clock: nat -> string)
    requires n <= |body|
    ensures Replay(body, n, announced0, clock).entries
         == Stamped(FirstContacts(Extracted(body, n), announced0), clock)
  {
    if n > 0 {
      ReplayEntries(body, n - 1, announced0, clock);
      ReplaySets(body, n - 1, announced0, clock);
      var t := Replay(body, n - 1, announced0, clock);
      var prev := Extracted(body, n - 1);
      var before := FirstContacts(prev, announced0);
      match Candidate(body[n - 1])
      case None =>
      case Some(s) =>
        assert Extracted(body, n) == prev + [s];
        FirstContactsStep(prev, s, announced0);
        if s !in t.seen {
          assert |t.entries| == |before|;
          StampedStep(before, s, clock);
        }
    }
  }

  /** The poller thread's private memory: `seen_ips_thread_copy`, the set of
      endpoints already announced. It is never pruned. */
  class Poller {
    var announced: set<string>

    constructor ()
      ensures announced == {}
    {
      announced := {};
    }

    /** One pass of the lsof loop (src/main.rs:178-207) over the output
        `output`. `clock(k)` is the time of day read when the k-th new entry
        of this pass is formed. Returns the pass's active set and its new
        history entries. */
    method Scan(output: string, clock: nat -> string) returns (active: set<string>, newEntries: seq<string>)
      modifies this
      ensures active == set e | e in ListedEndpoints(output)
      ensures announced == old(announced) + active
      ensures newEntries == Stamped(FirstContacts(ListedEndpoints(output), old(announced)), clock)
    {
      var body := AfterHeader(Lines(output));
      var seen := announced;
      active := {};
      newEntries := [];
      var i := 0;
      while i < |body|
        invariant 0 <= i <= |body|
        invariant Tally(active, seen, newEntries) == Replay(body, i, old(announced), clock)
      {
        var c := Candidate(body[i]);
        if c.Some? {
          var s := c.value;
          active := active + {s};
          if s !in seen {
            seen := seen + {s};
            newEntries := newEntries + [HistoryEntry(clock(|newEntries|), s)];
          }
        }
        i := i + 1;
      }
      announced := seen;
      ReplaySets(body, |body|, old(announced), clock);
      ReplayEntries(body, |body|, old(announced), clock);
    }
  }

  // ---------------------------------------------------------------------------
  // Sorting the active set (src/main.rs:210-216)

  datatype Ordering = Less | Equal | Greater

  function Reversed(o: Ordering): Ordering
  {
    match o
    case Less => Greater
    case Equal => Equal
    case Greater => Less
  }

  /** `str::cmp`: lexicographic by code point (the same as UTF-8 byte order). */
  function LexCompare(a: string, b: string): (r: Ordering)
    ensures r == Equal <==> a == b
  {
    if a == [] then (if b == [] then Equal else Less)
    else if b == [] then Greater
    else if a[0] < b[0] then Less
    else if a[0] > b[0] then Greater
    else
      assert a == [a[0]] + a[1..] && b == [b[0]] + b[1..];
      LexCompare(a[1..], b[1..])
  }

  /** Swapping the operands of `LexCompare` reverses the outcome. */
  lemma {:induction false} LexCompareAntisymmetric(a: string, b: string)
    ensures LexCompare(b, a) == Reversed(LexCompare(a, b))
  {
    if a != [] && b != [] && a[0] == b[0] {
      LexCompareAntisymmetric(a[1..], b[1..]);
    }
  }

  /** The comparator of `sort_by`: both endpoints parsed as IP addresses are
      compared as addresses, anything else lexicographically. Parsing and
      address order belong to the standard library and are parameters. */
  function CompareEndpoints<Ip>(parse: string -> Option<Ip>, ipCmp: (Ip, Ip) -> Ordering, a: string, b: string): Ordering
  {
    match (parse(a), parse(b))
    case (Some(x), Some(y)) => ipCmp(x, y)
    case _ => LexCompare(a, b)
  }

  /** `active.iter().cloned().collect()` followed by `sort_by`: the active set
      laid out as a sequence and sorted by a stable insertion sort. Whatever
      the comparator, the result holds each endpoint of the set exactly once. */
  method SortConnections<Ip>(active: set<string>, parse: string -> Option<Ip>, ipCmp: (Ip, Ip) -> Ordering)
    returns (sorted: seq<string>)
    ensures multiset(sorted) == multiset(active)
    ensures forall i, j :: 0 <= i < j < |sorted| ==> sorted[i] != sorted[j]
  {
    // Collect the set, in whatever order iteration yields.
    var collected: seq<string> := [];
    var rest := active;
    while rest != {}
      invariant rest <= active
      invariant multiset(collected) + multiset(rest) == multiset(active)
      decreases rest
    {
      var x :| x in rest;
      collected := collected + [x];
      rest := rest - {x};
    }
    // Insert each element after the run of elements that do not compare greater.
    sorted := [];
    var i := 0;
    while i < |collected|
      invariant 0 <= i <= |collected|
      invariant multiset(sorted) == multiset(collected[..i])
    {
      var x := collected[i];
      var k := |sorted|;
      while k > 0 && CompareEndpoints(parse, ipCmp, sorted[k - 1], x) == Greater
        invariant 0 <= k <= |sorted|
      {
        k := k - 1;
      }
      assert sorted == sorted[..k] + sorted[k..];
      assert collected[..i + 1] == collected[..i] + [x];
      sorted := sorted[..k] + [x] + sorted[k..];
      i := i + 1;
    }
    assert collected[..i] == collected;
    SetPermutationDistinct(sorted, active);
  }

  /** A sequence with the same multiset as a set has no repeated element. */
  lemma SetPermutationDistinct(s: seq<string>, a: set<string>)
    requires multiset(s) == multiset(a)
    ensures forall i, j :: 0 <= i < j < |s| ==> s[i] != s[j]
  {
    forall i, j | 0 <= i < j < |s|
      ensures s[i] != s[j]
    {
      var x := s[i];
      assert s == s[..i] + [x] + s[i + 1..j] + [s[j]] + s[j + 1..];
      assert multiset(s)[x] >= 1 + multiset([s[j]])[x];
      assert multiset(a)[x] <= 1;
    }
  }
}
