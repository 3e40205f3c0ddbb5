/** Extraction of remote endpoints from `lsof -i -P -n` output, one line at a
    time (src/main.rs:181-194). Pure: no state, no failure. */
module Endpoint {
  import opened Text

  /** The two-character marker "->" starts at index `q` of `s`. */
  predicate ArrowAt(s: string, q: int)
  {
    0 <= q && q + 1 < |s| && s[q] == '-' && s[q + 1] == '>'
  }

  /** `s.find("->")`: the first index at which the arrow starts. */
  function FindArrow(s: string): (r: Option<nat>)
    ensures r.Some? ==> ArrowAt(s, r.value)
  {
    if |s| < 2 then None
    else if s[0] == '-' && s[1] == '>' then Some(0)
    else
      match FindArrow(s[1..])
      case None => None
      case Some(p) => Some(p + 1)
  }

  lemma {:induction false} FindArrowSpec(s: string)
    ensures FindArrow(s).Some? ==> ArrowAt(s, FindArrow(s).value) && forall q :: 0 <= q < FindArrow(s).value ==> !ArrowAt(s, q)
    ensures FindArrow(s).None? ==> forall q :: !ArrowAt(s, q)
  {
    if |s| >= 2 && !(s[0] == '-' && s[1] == '>') {
      FindArrowSpec(s[1..]);
      assert forall q :: 1 <= q ==> (ArrowAt(s, q) <==> ArrowAt(s[1..], q - 1));
    }
  }

  /** A character that ends the address part of an endpoint: whitespace or
      the port separator ':'. */
  predicate IsCut(c: char)
  {
    IsWhitespace(c) || c == ':'
  }

  /** `t.find(|c| c.is_whitespace() || c == ':').unwrap_or(t.len())` */
  function CutIndex(t: string): (n: nat)
    ensures n <= |t|
  {
    if t == [] || IsCut(t[0]) then 0 else 1 + CutIndex(t[1..])
  }

  lemma {:induction false} CutIndexSpec(t: string)
    ensures forall k :: 0 <= k < CutIndex(t) ==> !IsCut(t[k])
    ensures CutIndex(t) < |t| ==> IsCut(t[CutIndex(t)])
  {
    if t != [] && !IsCut(t[0]) {
      CutIndexSpec(t[1..]);
    }
  }

  /** A pure bracketed literal "[x]" loses its brackets; anything else is kept. */
  function StripBrackets(ip: string): (r: string)
    ensures r == ip || ip == "[" + r + "]"
    ensures |ip| > 0 && ip[0] == '[' && ip[|ip| - 1] == ']' ==> ip == "[" + r + "]"
  {
    if |ip| > 0 && ip[0] == '[' && ip[|ip| - 1] == ']' then ip[1..|ip| - 1] else ip
  }

  /** What every endpoint the extractor accepts looks like. */
  predicate WellFormedEndpoint(e: string)
  {
    e != [] && '.' in e && ':' !in e && NoWhitespace(e)
  }

  /** The endpoint a single lsof line contributes, if any: the text after the
      first "->" up to the first whitespace or ':', kept when non-empty and
      containing '.' or ':', with surrounding brackets removed. Because the
      cut is at the first ':', an accepted candidate never contains ':', so it
      is always accepted on account of a '.'. */
  function Candidate(line: string): (r: Option<string>)
    ensures r.Some? ==> FindArrow(line).Some? && FindArrow(line).value + 2 < |line|
  {
    match FindArrow(line)
    case None => None
    case Some(pos) =>
      if pos + 2 < |line| then
        var tail := line[pos + 2..];
        var ip := tail[..CutIndex(tail)];
        if ip != [] && ('.' in ip || ':' in ip) then
          Some(StripBrackets(ip))
        else None
      else None
  }

  /** A non-empty address with no cut character and a '.' or ':' in it stays
      well formed once its brackets are removed. */
  lemma StripBracketsWellFormed(ip: string)
    requires ip != [] && ('.' in ip || ':' in ip)
    requires forall k :: 0 <= k < |ip| ==> !IsCut(ip[k])
    ensures WellFormedEndpoint(StripBrackets(ip))
  {
    var d :| 0 <= d < |ip| && (ip[d] == '.' || ip[d] == ':');
    assert ip[d] == '.';
    var e := StripBrackets(ip);
    if e != ip {
      assert 0 < d < |ip| - 1;
      assert e[d - 1] == '.';
      assert forall k :: 0 <= k < |e| ==> e[k] == ip[k + 1];
    }
  }

  /** What `Candidate` promises: the endpoint is well formed and the line has
      an "->" with text after it. */
  lemma CandidateSpec(line: string)
    ensures Candidate(line).Some? ==> WellFormedEndpoint(Candidate(line).value)
    ensures Candidate(line).Some? ==> FindArrow(line).Some? && FindArrow(line).value + 2 < |line|
  {
    if Candidate(line).Some? {
      var pos := FindArrow(line).value;
      var tail := line[pos + 2..];
      CutIndexSpec(tail);
      var ip := tail[..CutIndex(tail)];
      assert forall k :: 0 <= k < |ip| ==> ip[k] == tail[k];
      StripBracketsWellFormed(ip);
    }
  }

  /** `lines().skip(1)`: everything after the column header. */
  function AfterHeader(ls: seq<string>): seq<string>
  {
    if ls == [] then [] else ls[1..]
  }

  /** The endpoints that the first `n` lines of `ls` contribute, in line
      order, one per contributing line (duplicates included). */
  function Extracted(ls: seq<string>, n: nat): seq<string>
    requires n <= |ls|
  {
    if n == 0 then []
    else
      match Candidate(ls[n - 1])
      case None => Extracted(ls, n - 1)
      case Some(e) => Extracted(ls, n - 1) + [e]
  }

  /** No line contributes more than one endpoint. */
  lemma {:induction false} ExtractedBound(ls: seq<string>, n: nat)
    requires n <= |ls|
    ensures |Extracted(ls, n)| <= n
  {
    if n > 0 {
      ExtractedBound(ls, n - 1);
    }
  }

  /** Every extracted endpoint is the candidate of one of the lines. */
  lemma {:induction false} ExtractedSound(ls: seq<string>, n: nat, e: string) returns (j: nat)
    requires n <= |ls| && e in Extracted(ls, n)
    ensures j < n && Candidate(ls[j]) == Some(e)
  {
    if e in Extracted(ls, n - 1) {
      j := ExtractedSound(ls, n - 1, e);
    } else {
      j := n - 1;
    }
  }

  /** The candidate of every line is extracted. */
  lemma {:induction false} ExtractedComplete(ls: seq<string>, n: nat, j: nat)
    requires j < n <= |ls| && Candidate(ls[j]).Some?
    ensures Candidate(ls[j]).value in Extracted(ls, n)
  {
    if j < n - 1 {
      ExtractedComplete(ls, n - 1, j);
    }
  }

  /** The endpoints of one lsof listing, in the order the loop meets them. */
  function ListedEndpoints(output: string): (eps: seq<string>)
    ensures eps != [] ==> |eps| < |Lines(output)|
  {
    var body := AfterHeader(Lines(output));
    ExtractedBound(body, |body|);
    Extracted(body, |body|)
  }

  /** Output holding only the header line, ended or not, lists nothing. */
  lemma HeaderOnlyListsNothing(hdr: string)
    requires '\n' !in hdr
    ensures ListedEndpoints(hdr) == []
    ensures ListedEndpoints(hdr + "\n") == []
  {
    if hdr != [] {
      LinesOfOneLine(hdr);
    }
    LinesCons(hdr, "");
    assert hdr + "\n" == hdr + "\n" + "";
  }

  /** A listing of a header and one IPv4 connection line, each ended by a
      line feed, lists exactly that connection's remote address. */
  lemma ListingExample(hdr: string, pre: string, port: string)
    requires '\n' !in hdr && '\n' !in pre && '\n' !in port && '\r' !in port
    requires forall q :: !ArrowAt(pre, q)
    ensures ListedEndpoints(hdr + "\n" + pre + "->93.184.216.34:" + port + "\n") == ["93.184.216.34"]
  {
    var line := pre + "->93.184.216.34:" + port;
    var output := hdr + "\n" + pre + "->93.184.216.34:" + port + "\n";
    assert output == hdr + "\n" + (line + "\n");
    assert '\n' !in line by {
      forall k | 0 <= k < |line| ensures line[k] != '\n' {
        if k < |pre| { assert line[k] == pre[k]; }
        else if k >= |line| - |port| { assert line[k] == port[k - (|line| - |port|)]; }
      }
    }
    LinesCons(hdr, line + "\n");
    assert line + "\n" == line + "\n" + "";
    LinesCons(line, "");
    assert line[|line| - 1] != '\r' by {
      if port != [] { assert line[|line| - 1] == port[|port| - 1]; }
    }
    assert StripCr(line) == line;
    Ipv4Example(pre, port);
    assert Lines(output) == [StripCr(hdr), line];
  }

  /** Every endpoint of a listing is well formed and comes from a line other
      than the header that has an "->" with text after it. */
  lemma ListedEndpointShape(output: string, e: string)
    requires e in ListedEndpoints(output)
    ensures WellFormedEndpoint(e)
    ensures exists j :: 1 <= j < |Lines(output)| && Candidate(Lines(output)[j]) == Some(e)
                        && FindArrow(Lines(output)[j]).Some?
                        && FindArrow(Lines(output)[j]).value + 2 < |Lines(output)[j]|
  {
    var ls := Lines(output);
    var body := AfterHeader(ls);
    var j := ExtractedSound(body, |body|, e);
    assert body[j] == ls[j + 1];
    CandidateSpec(ls[j + 1]);
  }

  // ---------------------------------------------------------------------------
  // How particular kinds of lsof line fare

  /** No arrow starts anywhere in `pre` followed by "->": the first arrow of
      `pre + "->" + rest` is the one right after `pre`. */
  lemma FirstArrowAfter(pre: string, rest: string)
    requires forall q :: !ArrowAt(pre, q)
    ensures FindArrow(pre + "->" + rest) == Some(|pre|)
  {
    var line := pre + "->" + rest;
    FindArrowSpec(line);
    assert ArrowAt(line, |pre|);
    forall q | 0 <= q < |pre|
      ensures !ArrowAt(line, q)
    {
      if q + 1 < |pre| {
        assert !ArrowAt(pre, q);
      }
    }
  }

  /** A line whose remote endpoint `ep` follows the first "->" directly and
      ends at whitespace, a ':' or the end of the line contributes `ep`
      without its brackets, provided `ep` holds a '.'. */
  lemma CandidateOfEndpointLine(pre: string, ep: string, rest: string)
    requires forall q :: !ArrowAt(pre, q)
    requires ep != [] && '.' in ep
    requires forall k :: 0 <= k < |ep| ==> !IsCut(ep[k])
    requires rest == [] || IsCut(rest[0])
    ensures Candidate(pre + "->" + ep + rest) == Some(StripBrackets(ep))
  {
    var line := pre + "->" + ep + rest;
    assert line == pre + "->" + (ep + rest);
    FirstArrowAfter(pre, ep + rest);
    var tail := line[|pre| + 2..];
    assert tail == ep + rest;
    assert tail[..|ep|] == ep;
    CutIndexSpec(tail);
    assert CutIndex(tail) == |ep| by {
      assert forall k :: 0 <= k < |ep| ==> tail[k] == ep[k];
      if |ep| < |tail| {
        assert tail[|ep|] == rest[0];
      }
    }
  }

  /** An IPv6 endpoint loses everything from its first ':' on, so a bracketed
      literal such as "[2001:db8::1]:443" yields the candidate "[2001" and an
      unbracketed one such as "2001:db8::1:443" the candidate "2001"; neither
      holds a '.', so the line contributes nothing. */
  lemma Ipv6EndpointDropped(pre: string, head: string, rest: string)
    requires forall q :: !ArrowAt(pre, q)
    requires '.' !in head
    requires forall k :: 0 <= k < |head| ==> !IsCut(head[k])
    ensures Candidate(pre + "->" + head + ":" + rest) == None
  {
    var line := pre + "->" + head + ":" + rest;
    assert line == pre + "->" + (head + ":" + rest);
    FirstArrowAfter(pre, head + ":" + rest);
    var tail := line[|pre| + 2..];
    assert tail == head + ":" + rest;
    CutIndexSpec(tail);
    assert CutIndex(tail) == |head| by {
      assert forall k :: 0 <= k < |head| ==> tail[k] == head[k];
      assert tail[|head|] == ':';
    }
    assert tail[..|head|] == head;
  }

  /** A line with whitespace right after the first "->" (as in
      "10.0.0.1:55 -> 192.168.1.1:80") contributes nothing: the candidate is
      empty. */
  lemma SpacedArrowDropped(pre: string, space: char, rest: string)
    requires forall q :: !ArrowAt(pre, q)
    requires IsWhitespace(space)
    ensures Candidate(pre + "->" + [space] + rest) == None
  {
    var line := pre + "->" + [space] + rest;
    assert line == pre + "->" + ([space] + rest);
    FirstArrowAfter(pre, [space] + rest);
    assert line[|pre| + 2..] == [space] + rest;
  }

  /** A line without "->", or with nothing after its first "->", contributes
      nothing. */
  lemma NoArrowNoCandidate(line: string)
    requires FindArrow(line).None? || FindArrow(line).value + 2 == |line|
    ensures Candidate(line) == None
  {
  }

  // ---------------------------------------------------------------------------
  // The same facts on concrete lines, after any prefix that holds no "->"

  /** "...->93.184.216.34:443 (ESTABLISHED)" contributes "93.184.216.34",
      whatever follows the ':'. */
  lemma Ipv4Example(pre: string, port: string)
    requires forall q :: !ArrowAt(pre, q)
    ensures Candidate(pre + "->93.184.216.34:" + port) == Some("93.184.216.34")
  {
    assert pre + "->93.184.216.34:" + port == pre + "->" + "93.184.216.34" + (":" + port);
    CandidateOfEndpointLine(pre, "93.184.216.34", ":" + port);
  }

  /** "...->[2001:db8::1]:443 (ESTABLISHED)" contributes nothing. */
  lemma BracketedIpv6Example(pre: string, rest: string)
    requires forall q :: !ArrowAt(pre, q)
    ensures Candidate(pre + "->[2001:" + rest) == None
  {
    assert pre + "->[2001:" + rest == pre + "->" + "[2001" + ":" + rest;
    Ipv6EndpointDropped(pre, "[2001", rest);
  }

  /** "...-> 192.168.1.1:80 (ESTABLISHED)" contributes nothing. */
  lemma SpacedArrowExample(pre: string, rest: string)
    requires forall q :: !ArrowAt(pre, q)
    ensures Candidate(pre + "-> " + rest) == None
  {
    assert pre + "-> " + rest == pre + "->" + [' '] + rest;
    SpacedArrowDropped(pre, ' ', rest);
  }
}
