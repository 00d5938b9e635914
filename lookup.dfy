/**
 * The `/iplookup` handler of app.py: query validation, the missing-address
 * negative cache (`load_missing_ips` / `save_missing_ip_json`), the
 * first-match scan of the range table, CIDR summarisation of the matched
 * range and the per-prefix NetBox create requests of `send_to_netbox`.
 *
 * The range table is a sequence of rows of raw strings, address parsing is
 * the `Parser` oracle, and NetBox is an oracle from a create request to its
 * reply.  The missing-address file is the sequence of literals it holds
 * (an absent file reads as the empty list).
 */
module RangeLookup {
  import opened Wrappers
  import opened Text
  import opened Cidr
  import opened CidrProperties

  /** One row of the range table, as read: start_ip, end_ip, asn, as_name, as_domain. */
  datatype Row = Row(startIp: string, endIp: string, asn: string, asName: string, asDomain: string)

  /** The JSON body of a successful lookup. */
  datatype LookupResult = LookupResult(
    ipAddress: string, startIp: Address, endIp: Address,
    asn: string, asName: string, asDomain: string, prefixes: seq<Network>)

  /** What the handler answers: 200 with the result, or a status code with an error text. */
  datatype Response = Found(result: LookupResult) | Failed(status: nat, error: string)

  const IpRequired := "IP address is required"
  const InvalidIp := "Invalid IP address"
  const KnownMissing := " IP is in missing list, please check later"
  const NotInDatabase := "IP not found in database"
  /**
   * A placeholder for the body of the 500 answer when the handler raises;
   * only the status is fixed, the body depends on how the server runs.
   */
  const ServerError := "Internal Server Error"

  /** One create request of `send_to_netbox`: `{prefix, description, status}`. */
  datatype PrefixPost = PrefixPost(prefix: Network, description: string, status: string)

  /** A NetBox reply: an HTTP status code, or `requests.post` raised. */
  datatype PostReply = Replied(statusCode: int) | Raised

  type NetboxOracle = PrefixPost -> PostReply

  /** Row `row` is a hit for `q`: both bounds parse, all three versions agree and start <= q <= end. */
  predicate RowMatches(parse: Parser, row: Row, q: Address)
  {
    parse(row.startIp).Some? && parse(row.endIp).Some? &&
    q.version == parse(row.startIp).value.version == parse(row.endIp).value.version &&
    parse(row.startIp).value.value <= q.value <= parse(row.endIp).value.value
  }

  /** The earliest row at or after `from` that is a hit for `q`. */
  function FirstMatchFrom(parse: Parser, table: seq<Row>, q: Address, from: nat): (r: Option<nat>)
    requires from <= |table|
    ensures r.Some? ==> from <= r.value < |table| && RowMatches(parse, table[r.value], q)
    ensures r.Some? ==> forall j :: from <= j < r.value ==> !RowMatches(parse, table[j], q)
    ensures r.None? ==> forall j :: from <= j < |table| ==> !RowMatches(parse, table[j], q)
    decreases |table| - from
  {
    if from == |table| then None
    else if RowMatches(parse, table[from], q) then Some(from)
    else FirstMatchFrom(parse, table, q, from + 1)
  }

  function FirstMatch(parse: Parser, table: seq<Row>, q: Address): Option<nat>
  {
    FirstMatchFrom(parse, table, q, 0)
  }

  /** The description `send_to_netbox` attaches: "{as_name} ({asn}), {as_domain}". */
  function SyncDescription(r: LookupResult): (d: string)
    ensures |d| == |r.asName| + |r.asn| + |r.asDomain| + 5
    ensures d[..|r.asName|] == r.asName && d[|r.asName|..|r.asName| + 2] == " ("
    ensures d[|r.asName| + 2..|r.asName| + 2 + |r.asn|] == r.asn
    ensures d[|r.asName| + 2 + |r.asn|..|r.asName| + 5 + |r.asn|] == "), "
    ensures d[|d| - |r.asDomain|..] == r.asDomain
  {
    var head := r.asName + " (" + r.asn;
    var d := head + "), " + r.asDomain;
    assert d[..|head|] == head;
    assert head[..|r.asName| + 2] == r.asName + " (";
    d
  }

  /** One create request per prefix, in prefix order, all with the same description and status "active". */
  function SyncRequests(r: LookupResult): (reqs: seq<PrefixPost>)
    ensures |reqs| == |r.prefixes|
    ensures forall i :: 0 <= i < |reqs| ==>
      reqs[i] == PrefixPost(r.prefixes[i], SyncDescription(r), "active")
  {
    seq(|r.prefixes|, i requires 0 <= i < |r.prefixes| => PrefixPost(r.prefixes[i], SyncDescription(r), "active"))
  }

  /**
   * The requests actually sent: all of them, in order, up to and including
   * the first one for which `requests.post` raises.
   */
  function Dispatch(reqs: seq<PrefixPost>, netbox: NetboxOracle): (sent: seq<PrefixPost>)
    ensures |sent| <= |reqs|
    ensures |sent| < |reqs| ==> DispatchRaised(sent, netbox)
  {
    DispatchFromShape(reqs, netbox, 0);
    assert reqs[0..] == reqs;
    DispatchFrom(reqs, netbox, 0)
  }

  /** The requests sent from position `i` on. */
  function DispatchFrom(reqs: seq<PrefixPost>, netbox: NetboxOracle, i: nat): (sent: seq<PrefixPost>)
    requires i <= |reqs|
    ensures |sent| <= |reqs| - i
    ensures sent == [] <==> i == |reqs|
    decreases |reqs| - i
  {
    if i == |reqs| then []
    else if netbox(reqs[i]).Raised? then [reqs[i]]
    else [reqs[i]] + DispatchFrom(reqs, netbox, i + 1)
  }

  /**
   * What is sent is a prefix of the requests; every request before the last
   * one sent got a reply; and when the loop stopped short, the last one sent
   * raised.
   */
  lemma {:induction false} DispatchFromShape(reqs: seq<PrefixPost>, netbox: NetboxOracle, i: nat)
    requires i <= |reqs|
    ensures var sent := DispatchFrom(reqs, netbox, i);
      sent <= reqs[i..] &&
      (forall j :: 0 <= j < |sent| - 1 ==> netbox(sent[j]).Replied?) &&
      (|sent| < |reqs| - i ==> |sent| > 0 && netbox(sent[|sent| - 1]).Raised?)
    decreases |reqs| - i
  {
    if i < |reqs| && netbox(reqs[i]).Replied? {
      DispatchFromShape(reqs, netbox, i + 1);
      var rest := DispatchFrom(reqs, netbox, i + 1);
      var sent := DispatchFrom(reqs, netbox, i);
      assert sent == [reqs[i]] + rest;
      assert reqs[i..] == [reqs[i]] + reqs[i + 1..];
      forall j | 1 <= j < |sent|
        ensures sent[j] == rest[j - 1]
      {
      }
    }
  }

  /** `Dispatch` sends a prefix of the requests and stops exactly at the first one that raises. */
  lemma DispatchShape(reqs: seq<PrefixPost>, netbox: NetboxOracle)
    ensures var sent := Dispatch(reqs, netbox);
      sent <= reqs &&
      (forall j :: 0 <= j < |sent| - 1 ==> netbox(sent[j]).Replied?) &&
      (|sent| < |reqs| ==> |sent| > 0 && netbox(sent[|sent| - 1]).Raised?)
  {
    DispatchFromShape(reqs, netbox, 0);
    assert reqs[0..] == reqs;
  }

  /**
   * The state of the send loop after `i` requests: each of them got a
   * reply, and the dispatch is those `i` followed by what is sent from `i` on.
   */
  predicate SentUpTo(reqs: seq<PrefixPost>, netbox: NetboxOracle, i: nat)
    requires i <= |reqs|
  {
    Dispatch(reqs, netbox) == reqs[..i] + DispatchFrom(reqs, netbox, i) &&
    forall j :: 0 <= j < i ==> netbox(reqs[j]).Replied?
  }

  /** Before the loop, nothing has been sent. */
  lemma SentNothing(reqs: seq<PrefixPost>, netbox: NetboxOracle)
    ensures SentUpTo(reqs, netbox, 0)
  {
    assert reqs[..0] == [];
  }

  /**
   * One iteration of the send loop: request `i` is sent, and either it
   * raised and the dispatch is over, or the loop state holds at `i + 1`.
   */
  lemma DispatchStep(reqs: seq<PrefixPost>, netbox: NetboxOracle, i: nat)
    requires i < |reqs| && SentUpTo(reqs, netbox, i)
    ensures reqs[..i + 1] == reqs[..i] + [reqs[i]]
    ensures netbox(reqs[i]).Raised? ==>
      Dispatch(reqs, netbox) == reqs[..i + 1] && DispatchRaised(Dispatch(reqs, netbox), netbox)
    ensures netbox(reqs[i]).Replied? ==> SentUpTo(reqs, netbox, i + 1)
  {
    assert reqs[..i + 1] == reqs[..i] + [reqs[i]];
    if netbox(reqs[i]).Raised? {
      assert reqs[..i + 1][i] == reqs[i];
    }
  }

  /** When every request got a reply, all of them were sent and none raised. */
  lemma DispatchComplete(reqs: seq<PrefixPost>, netbox: NetboxOracle)
    requires SentUpTo(reqs, netbox, |reqs|)
    ensures Dispatch(reqs, netbox) == reqs && !DispatchRaised(reqs, netbox)
  {
    assert reqs[..|reqs|] == reqs;
  }

  /** Some request among those sent raised, which aborts the handler. */
  predicate DispatchRaised(reqs: seq<PrefixPost>, netbox: NetboxOracle)
  {
    exists i :: 0 <= i < |reqs| && netbox(reqs[i]).Raised?
  }

  /**
   * `save_missing_ip_json`: the missing list after recording `ip`.  The
   * literal is compared as a string, with no normalisation.
   */
  function AddMissing(missing: seq<string>, ip: string): (r: seq<string>)
    ensures ip in r && missing <= r && |r| <= |missing| + 1
    ensures forall s :: s in r <==> s in missing || s == ip
    ensures ip in missing <==> r == missing
  {
    if ip in missing then missing else missing + [ip]
  }

  /** Everything one request does: the response, the new missing list, the NetBox requests sent. */
  datatype Outcome = Outcome(response: Response, missing: seq<string>, posts: seq<PrefixPost>)

  /** The result of a lookup that matched row `row`, with bounds `first` and `last`. */
  function MatchResult(ip: string, row: Row, first: Address, last: Address): LookupResult
    requires Summarize(first, last).Ok?
  {
    LookupResult(ip, first, last, row.asn, row.asName, row.asDomain, Summarize(first, last).value)
  }

  /** `ip_lookup` as a function of the table, the oracles, the stored missing list and the query. */
  function Lookup(table: seq<Row>, parse: Parser, netbox: NetboxOracle, missing: seq<string>, query: Option<string>): (o: Outcome)
    ensures o.missing == missing || (query.Some? && query.value !in missing && o.missing == missing + [query.value])
    ensures o.posts != [] ==> o.response.Found? || o.response == Failed(500, ServerError)
    ensures o.response.Found? ==> query == Some(o.response.result.ipAddress)
  {
    if query.None? || query.value == "" then Outcome(Failed(400, IpRequired), missing, [])
    else
      var ip := query.value;
      match parse(ip)
      case None => Outcome(Failed(400, InvalidIp), missing, [])
      case Some(q) =>
        if ip in missing then Outcome(Failed(404, KnownMissing), missing, [])
        else
          match FirstMatch(parse, table, q)
          case None => Outcome(Failed(404, NotInDatabase), AddMissing(missing, ip), [])
          case Some(k) =>
            var row := table[k];
            var result := MatchResult(ip, row, parse(row.startIp).value, parse(row.endIp).value);
            var sent := Dispatch(SyncRequests(result), netbox);
            if DispatchRaised(sent, netbox) then Outcome(Failed(500, ServerError), missing, sent)
            else Outcome(Found(result), missing, sent)
  }

  /** Every address the parser yields fits its version's width. */
  ghost predicate ParsesInWidth(parse: Parser)
  {
    forall s :: parse(s).Some? ==> ValidAddress(parse(s).value)
  }

  /**
   * A lookup rejected before the table is consulted (no query, an
   * unparsable query, or a query already on the missing list) changes
   * nothing and sends nothing; and those are the only 400 and the only
   * "missing list" answers.
   */
  lemma LookupRejects(table: seq<Row>, parse: Parser, netbox: NetboxOracle, missing: seq<string>, query: Option<string>)
    ensures var o := Lookup(table, parse, netbox, missing, query);
      (o.response == Failed(400, IpRequired) <==> query.None? || query.value == "") &&
      (o.response == Failed(400, InvalidIp) <==> query.Some? && query.value != "" && parse(query.value).None?) &&
      (o.response == Failed(404, KnownMissing) <==>
        query.Some? && query.value != "" && parse(query.value).Some? && query.value in missing) &&
      (o.response.Failed? && o.response.status == 400 ==> o.missing == missing && o.posts == []) &&
      (o.response == Failed(404, KnownMissing) ==> o.missing == missing && o.posts == [])
  {
  }

  /**
   * A parsable query on the missing list is answered "missing" whatever the
   * table holds, and NetBox is not contacted.
   */
  lemma KnownMissingIgnoresTable(table1: seq<Row>, table2: seq<Row>, parse: Parser, netbox1: NetboxOracle,
                                 netbox2: NetboxOracle, missing: seq<string>, ip: string)
    requires ip != "" && parse(ip).Some? && ip in missing
    ensures Lookup(table1, parse, netbox1, missing, Some(ip)) == Lookup(table2, parse, netbox2, missing, Some(ip))
    ensures Lookup(table1, parse, netbox1, missing, Some(ip)).posts == []
  {
  }

  /**
   * "Not found" happens exactly when no row of the table is a hit for a
   * new, parsable query, and then the literal is appended to the missing list.
   */
  lemma LookupMiss(table: seq<Row>, parse: Parser, netbox: NetboxOracle, missing: seq<string>, query: Option<string>)
    ensures var o := Lookup(table, parse, netbox, missing, query);
      (o.response == Failed(404, NotInDatabase) <==>
        query.Some? && query.value != "" && parse(query.value).Some? && query.value !in missing &&
        forall j :: 0 <= j < |table| ==> !RowMatches(parse, table[j], parse(query.value).value)) &&
      (o.response == Failed(404, NotInDatabase) ==> o.missing == missing + [query.value] && o.posts == []) &&
      (o.response != Failed(404, NotInDatabase) ==> o.missing == missing)
  {
  }

  /**
   * Once an address was not found, every later lookup of the same literal is
   * answered from the missing list, even after the table changed.
   */
  lemma MissIsPermanent(table: seq<Row>, later: seq<Row>, parse: Parser, netbox: NetboxOracle,
                        netbox2: NetboxOracle, missing: seq<string>, ip: string)
    requires Lookup(table, parse, netbox, missing, Some(ip)).response == Failed(404, NotInDatabase)
    ensures var m := Lookup(table, parse, netbox, missing, Some(ip)).missing;
      Lookup(later, parse, netbox2, m, Some(ip)) == Outcome(Failed(404, KnownMissing), m, [])
  {
    LookupMiss(table, parse, netbox, missing, Some(ip));
  }

  /**
   * A found answer comes from the first row that is a hit: its bounds, ASN,
   * name and domain are that row's, its prefixes summarise the row's range
   * and one of them contains the queried address, and one create request
   * per prefix was sent, each answered.
   */
  lemma LookupFound(table: seq<Row>, parse: Parser, netbox: NetboxOracle, missing: seq<string>, query: Option<string>)
    requires ParsesInWidth(parse)
    ensures var o := Lookup(table, parse, netbox, missing, query);
      o.response.Found? ==>
        var r := o.response.result;
        query == Some(r.ipAddress) && parse(r.ipAddress).Some? && r.ipAddress !in missing &&
        o.missing == missing && o.posts == SyncRequests(r) &&
        (forall j :: 0 <= j < |o.posts| ==> netbox(o.posts[j]).Replied?) &&
        Summarize(r.startIp, r.endIp) == Ok(r.prefixes) &&
        Covered(parse(r.ipAddress).value.value, r.prefixes) &&
        exists k :: FirstMatch(parse, table, parse(r.ipAddress).value) == Some(k) &&
          parse(table[k].startIp) == Some(r.startIp) && parse(table[k].endIp) == Some(r.endIp) &&
          r.asn == table[k].asn && r.asName == table[k].asName && r.asDomain == table[k].asDomain
  {
    var o := Lookup(table, parse, netbox, missing, query);
    if o.response.Found? {
      var r := o.response.result;
      var q := parse(r.ipAddress).value;
      var k := FirstMatch(parse, table, q).value;
      var reqs := SyncRequests(r);
      DispatchShape(reqs, netbox);
      var sent := Dispatch(reqs, netbox);
      assert !DispatchRaised(sent, netbox);
      assert sent == reqs;
      SummarizeCovers(r.startIp.version, r.startIp.value, r.endIp.value, q.value);
    }
  }

  /**
   * The converse of `LookupFound`: a new, parsable query whose first hit is
   * row `k` is answered with that row's result as soon as every create
   * request gets a reply, whatever its status code; when one of them
   * raises, the answer is a 500.  Either way the missing list is unchanged.
   */
  lemma LookupHit(table: seq<Row>, parse: Parser, netbox: NetboxOracle, missing: seq<string>, ip: string, k: nat)
    requires ip != "" && parse(ip).Some? && ip !in missing
    requires FirstMatch(parse, table, parse(ip).value) == Some(k)
    ensures var row := table[k];
      var result := MatchResult(ip, row, parse(row.startIp).value, parse(row.endIp).value);
      var reqs := SyncRequests(result);
      var o := Lookup(table, parse, netbox, missing, Some(ip));
      ((forall j :: 0 <= j < |reqs| ==> netbox(reqs[j]).Replied?) ==> o == Outcome(Found(result), missing, reqs)) &&
      ((exists j :: 0 <= j < |reqs| && netbox(reqs[j]).Raised?) ==> o.response == Failed(500, ServerError) && o.missing == missing)
  {
    var row := table[k];
    var result := MatchResult(ip, row, parse(row.startIp).value, parse(row.endIp).value);
    var reqs := SyncRequests(result);
    DispatchShape(reqs, netbox);
    var sent := Dispatch(reqs, netbox);
    if !DispatchRaised(sent, netbox) {
      assert |sent| == |reqs|;
      assert sent == reqs;
    }
  }

  /**
   * A 500 answer means a create request raised: the requests sent are a
   * prefix of the prefixes' requests ending at the one that raised, and the
   * missing list is unchanged.
   */
  lemma LookupServerError(table: seq<Row>, parse: Parser, netbox: NetboxOracle, missing: seq<string>, query: Option<string>)
    ensures var o := Lookup(table, parse, netbox, missing, query);
      o.response.Failed? && o.response.status == 500 ==>
        o.response.error == ServerError && o.missing == missing && |o.posts| > 0 &&
        netbox(o.posts[|o.posts| - 1]).Raised? &&
        (forall j :: 0 <= j < |o.posts| - 1 ==> netbox(o.posts[j]).Replied?)
  {
    var o := Lookup(table, parse, netbox, missing, query);
    if o.response.Failed? && o.response.status == 500 {
      var ip := query.value;
      var q := parse(ip).value;
      var k := FirstMatch(parse, table, q).value;
      var row := table[k];
      var result := MatchResult(ip, row, parse(row.startIp).value, parse(row.endIp).value);
      var reqs := SyncRequests(result);
      DispatchShape(reqs, netbox);
      var sent := Dispatch(reqs, netbox);
      assert o.posts == sent && DispatchRaised(sent, netbox);
      var i :| 0 <= i < |sent| && netbox(sent[i]).Raised?;
      assert i == |sent| - 1;
    }
  }

  /** Recording a literal keeps the missing list free of duplicates. */
  lemma AddMissingNoDuplicates(missing: seq<string>, ip: string)
    requires NoDuplicates(missing)
    ensures NoDuplicates(AddMissing(missing, ip))
  {
    if ip !in missing {
      var r := missing + [ip];
      forall i, j | 0 <= i < j < |r|
        ensures r[i] != r[j]
      {
        if j == |missing| {
          assert r[i] == missing[i];
        }
      }
    }
  }

  /** Recording the same literal twice is recording it once. */
  lemma AddMissingIdempotent(missing: seq<string>, ip: string)
    ensures AddMissing(AddMissing(missing, ip), ip) == AddMissing(missing, ip)
  {
  }

  /** The lookup service: the loaded table, the two oracles and the state they act on. */
  class LookupService {
    const table: seq<Row>
    const parse: Parser
    const netbox: NetboxOracle
    /** The contents of missing_ips.json. */
    var missing: seq<string>
    /** Every create request sent to NetBox so far, in order. */
    var posts: seq<PrefixPost>

    constructor (table: seq<Row>, parse: Parser, netbox: NetboxOracle, missing: seq<string>)
      ensures this.table == table && this.parse == parse && this.netbox == netbox
      ensures this.missing == missing && posts == []
    {
      this.table := table;
      this.parse := parse;
      this.netbox := netbox;
      this.missing := missing;
      posts := [];
    }

    /** `save_missing_ip_json`: read the list, append the literal if it is new, write it back. */
    method SaveMissingIpJson(ip: string)
      modifies this`missing
      ensures missing == AddMissing(old(missing), ip)
    {
      var missingIps := missing;
      if ip !in missingIps {
        missingIps := missingIps + [ip];
        missing := missingIps;
      }
    }

    /**
     * `send_to_netbox`: one create request per prefix, in order; a non-201
     * reply is only logged, while a raising `requests.post` aborts the loop
     * (reported as `raised`).
     */
    method SendToNetbox(result: LookupResult) returns (raised: bool)
      modifies this`posts
      ensures posts == old(posts) + Dispatch(SyncRequests(result), netbox)
      ensures raised == DispatchRaised(Dispatch(SyncRequests(result), netbox), netbox)
    {
      var description := SyncDescription(result);
      ghost var reqs := SyncRequests(result);
      SentNothing(reqs, netbox);
      for i := 0 to |result.prefixes|
        invariant posts == old(posts) + reqs[..i]
        invariant SentUpTo(reqs, netbox, i)
      {
        var netboxData := PrefixPost(result.prefixes[i], description, "active");
        assert netboxData == reqs[i];
        posts := posts + [netboxData];
        var response := netbox(netboxData);
        DispatchStep(reqs, netbox, i);
        if response.Raised? {
          return true;
        }
      }
      DispatchComplete(reqs, netbox);
      return false;
    }

    /** `ip_lookup` for the query parameter `query` (`None` when absent). */
    method IpLookup(query: Option<string>) returns (response: Response)
      modifies this
      ensures var o := Lookup(table, parse, netbox, old(missing), query);
        response == o.response && missing == o.missing && posts == old(posts) + o.posts
    {
      if query.None? || query.value == "" {
        return Failed(400, IpRequired);
      }
      var ip := query.value;
      var ipObj := parse(ip);
      if ipObj.None? {
        return Failed(400, InvalidIp);
      }
      var q := ipObj.value;
      var missingIps := missing;
      if ip in missingIps {
        return Failed(404, KnownMissing);
      }
      for i := 0 to |table|
        invariant forall j :: 0 <= j < i ==> !RowMatches(parse, table[j], q)
        invariant missing == old(missing) && posts == old(posts)
      {
        var row := table[i];
        var startIp, endIp := parse(row.startIp), parse(row.endIp);
        if startIp.None? || endIp.None? {
          continue;
        }
        if q.version == startIp.value.version == endIp.value.version &&
           startIp.value.value <= q.value <= endIp.value.value {
          var cidrPrefixes := Summarize(startIp.value, endIp.value).value;
          var result := LookupResult(ip, startIp.value, endIp.value, row.asn, row.asName, row.asDomain, cidrPrefixes);
          assert FirstMatchFrom(parse, table, q, i) == Some(i);
          FirstMatchSkips(parse, table, q, i);
          var raised := SendToNetbox(result);
          if raised {
            return Failed(500, ServerError);
          }
          return Found(result);
        }
      }
      FirstMatchSkips(parse, table, q, |table|);
      SaveMissingIpJson(ip);
      return Failed(404, NotInDatabase);
    }
  }

  /** Rows before `i` that are no hit do not change the first match. */
  lemma {:induction false} FirstMatchSkips(parse: Parser, table: seq<Row>, q: Address, i: nat)
    requires i <= |table|
    requires forall j :: 0 <= j < i ==> !RowMatches(parse, table[j], q)
    ensures FirstMatch(parse, table, q) == FirstMatchFrom(parse, table, q, i)
    decreases i
  {
    if i > 0 {
      FirstMatchSkips(parse, table, q, i - 1);
    }
  }
}
