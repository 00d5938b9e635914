/**
 * The fallback resolver of whois_lookup.py: for every address of the
 * missing list that has no entry in the processed ledger yet, ask the
 * Team Cymru whois service, parse the second line of its verbose answer,
 * create the announced prefix in NetBox and record exactly one status per
 * address.
 *
 * The whois subprocess is an oracle from an address to its exit code and
 * output lines (or an exception); NetBox is an oracle from a create request
 * to its reply.  The ledger `processed_ips_dict` is an insertion-ordered
 * dictionary value, and processed_ips.json is the list of entries last
 * written (or whatever the file held when no status was saved yet).
 */
module WhoisResolver {
  import opened Wrappers
  import opened Text

  /** One element of processed_ips.json: `{"ip": ..., "comment": ...}`. */
  datatype Entry = Entry(ip: string, comment: string)

  /** What reading processed_ips.json gives: no file, bad JSON, JSON that is not a list, or the entries. */
  datatype LedgerFile = Missing | Malformed | NotAList | Entries(entries: seq<Entry>)

  /**
   * A Python dictionary from address to comment: the keys in insertion
   * order, and the comment of each key.
   */
  datatype Ledger = Ledger(order: seq<string>, comments: map<string, string>)

  /** The order lists every key exactly once. */
  ghost predicate Valid(l: Ledger)
  {
    NoDuplicates(l.order) && forall k :: k in l.comments <==> k in l.order
  }

  const Empty := Ledger([], map[])

  /**
   * `d[ip] = comment`: a new key goes to the end of the order, an existing
   * key keeps its place and gets the new comment.
   */
  function Put(l: Ledger, ip: string, comment: string): (r: Ledger)
    ensures Valid(l) ==> Valid(r)
  {
    if ip in l.comments then Ledger(l.order, l.comments[ip := comment])
    else Ledger(l.order + [ip], l.comments[ip := comment])
  }

  /**
   * Assignment changes only the entry of `ip`: it holds the new comment,
   * every other key keeps its comment, and the order only grows by `ip`
   * when `ip` is new.
   */
  lemma PutEffect(l: Ledger, ip: string, comment: string)
    ensures var r := Put(l, ip, comment);
      ip in r.comments && r.comments[ip] == comment &&
      (forall k :: k != ip ==> (k in r.comments <==> k in l.comments)) &&
      (forall k :: k != ip && k in l.comments ==> r.comments[k] == l.comments[k]) &&
      (ip in l.comments ==> r.order == l.order) &&
      (ip !in l.comments ==> r.order == l.order + [ip])
  {
  }

  /** `[{'ip': ip, 'comment': comment} for ip, comment in d.items()]`. */
  function Items(l: Ledger): (es: seq<Entry>)
    requires Valid(l)
    ensures |es| == |l.order|
    ensures forall i :: 0 <= i < |es| ==> es[i] == Entry(l.order[i], l.comments[l.order[i]])
  {
    seq(|l.order|, i requires 0 <= i < |l.order| => Entry(l.order[i], l.comments[l.order[i]]))
  }

  /** `{entry['ip']: entry['comment'] for entry in entries}`: the last comment wins, the first position stays. */
  function FromEntries(es: seq<Entry>): (l: Ledger)
    ensures Valid(l)
  {
    if es == [] then Empty
    else Put(FromEntries(es[..|es| - 1]), es[|es| - 1].ip, es[|es| - 1].comment)
  }

  /** The keys of the loaded ledger are exactly the addresses of the entries. */
  lemma {:induction false} FromEntriesKeys(es: seq<Entry>)
    ensures forall k :: k in FromEntries(es).comments <==> exists i :: 0 <= i < |es| && es[i].ip == k
  {
    if es != [] {
      var init := es[..|es| - 1];
      FromEntriesKeys(init);
      PutEffect(FromEntries(init), es[|es| - 1].ip, es[|es| - 1].comment);
      forall k | k in FromEntries(es).comments
        ensures exists i :: 0 <= i < |es| && es[i].ip == k
      {
        if k != es[|es| - 1].ip {
          var i :| 0 <= i < |init| && init[i].ip == k;
          assert es[i].ip == k;
        }
      }
      forall k | exists i :: 0 <= i < |es| && es[i].ip == k
        ensures k in FromEntries(es).comments
      {
        var i :| 0 <= i < |es| && es[i].ip == k;
        if i < |init| {
          assert init[i].ip == k;
        }
      }
    }
  }

  /**
   * When the file lists an address several times, the dictionary keeps the
   * comment of its last entry.
   */
  lemma {:induction false} FromEntriesLastWins(es: seq<Entry>, i: nat)
    requires i < |es|
    requires forall j :: i < j < |es| ==> es[j].ip != es[i].ip
    ensures es[i].ip in FromEntries(es).comments
    ensures FromEntries(es).comments[es[i].ip] == es[i].comment
  {
    var init := es[..|es| - 1];
    PutEffect(FromEntries(init), es[|es| - 1].ip, es[|es| - 1].comment);
    if i < |es| - 1 {
      assert init[i] == es[i];
      FromEntriesLastWins(init, i);
    }
  }

  /** Lines 41-51: the ledger is empty unless the file holds a list. */
  function LoadLedger(file: LedgerFile): (l: Ledger)
    ensures Valid(l)
    ensures !file.Entries? ==> l == Empty
  {
    if file.Entries? then FromEntries(file.entries) else Empty
  }

  /** Saving and reloading the ledger gives the same ledger back: order and comments. */
  lemma SaveLoadRoundTrip(l: Ledger)
    requires Valid(l)
    ensures LoadLedger(Entries(Items(l))) == l
  {
    var es := Items(l);
    ItemsHaveDistinctIps(l);
    FromDistinctEntries(es);
    var r := FromEntries(es);
    assert r.order == l.order;
    forall k | k in l.comments
      ensures k in r.comments && r.comments[k] == l.comments[k]
    {
      var i :| 0 <= i < |l.order| && l.order[i] == k;
      assert es[i].ip == k;
    }
    assert r.comments.Keys == l.comments.Keys;
  }

  /** Entries with distinct addresses load in their own order, each with its own comment. */
  lemma {:induction false} FromDistinctEntries(es: seq<Entry>)
    requires DistinctIps(es)
    ensures LoadedInOrder(FromEntries(es), es)
    decreases |es|
  {
    if es != [] {
      var init, e := es[..|es| - 1], es[|es| - 1];
      DistinctSplit(es);
      FromDistinctEntries(init);
      PutInOrder(FromEntries(init), init, e);
      assert init + [e] == es;
    }
  }

  /** No address occurs twice among the entries. */
  predicate DistinctIps(es: seq<Entry>)
  {
    forall i, j :: 0 <= i < j < |es| ==> es[i].ip != es[j].ip
  }

  lemma DistinctSplit(es: seq<Entry>)
    requires DistinctIps(es) && es != []
    ensures var init := es[..|es| - 1];
      DistinctIps(init) && forall i :: 0 <= i < |init| ==> init[i].ip != es[|es| - 1].ip
  {
  }

  /** The ledger holds exactly the entries `es`, in their order and with their comments. */
  predicate LoadedInOrder(r: Ledger, es: seq<Entry>)
  {
    |r.order| == |es| &&
    forall i :: 0 <= i < |es| ==> r.order[i] == es[i].ip && es[i].ip in r.comments && r.comments[es[i].ip] == es[i].comment
  }

  /** Assigning a new address extends a ledger loaded in order by that entry. */
  lemma PutInOrder(l: Ledger, es: seq<Entry>, e: Entry)
    requires Valid(l) && LoadedInOrder(l, es)
    requires forall i :: 0 <= i < |es| ==> es[i].ip != e.ip
    ensures LoadedInOrder(Put(l, e.ip, e.comment), es + [e])
  {
    assert e.ip !in l.order;
    var r := Put(l, e.ip, e.comment);
    forall i | 0 <= i < |es| + 1
      ensures r.order[i] == (es + [e])[i].ip
    {
    }
  }

  /** Every address of a saved ledger appears once. */
  lemma ItemsHaveDistinctIps(l: Ledger)
    requires Valid(l)
    ensures DistinctIps(Items(l))
  {
  }

  /** What the whois subprocess produced: its exit code and output lines, or an exception. */
  datatype WhoisReply = Completed(returnCode: int, lines: seq<string>) | RunRaised

  type WhoisOracle = string -> WhoisReply

  /** A create request of `post_prefix_to_netbox`: `{prefix, description}`, with no status field. */
  datatype PrefixRequest = PrefixRequest(prefix: string, description: string)

  /** A NetBox reply: a status code, or `requests.post` raised. */
  datatype PostReply = Replied(statusCode: int) | Raised

  type NetboxOracle = PrefixRequest -> PostReply

  /** The result of `post_prefix_to_netbox`: true exactly on status 201. */
  predicate PostSucceeded(reply: PostReply)
  {
    reply == Replied(201)
  }

  const ProcessedSuccessfully := "Processed successfully"
  const NetboxError := "Not processed due to NetBox error"
  const InvalidData := "Not processed due to invalid data"
  const WhoisError := "Not processed due to whois error"
  const ExceptionRaised := "Not processed due to exception"

  /** The four fields read from a verbose Cymru line, stripped. */
  datatype CymruFields = CymruFields(asNumber: string, ipAddress: string, prefix: string, asName: string)

  /** Fields 0, 1, 2 and 6 of the line split on `|`; `None` where indexing field 6 raises IndexError. */
  function ParseCymru(line: string): (r: Option<CymruFields>)
    ensures r.None? <==> Count(line, '|') < 6
  {
    var parts := Split(line, '|');
    if |parts| < 7 then None
    else Some(CymruFields(Strip(parts[0]), Strip(parts[1]), Strip(parts[2]), Strip(parts[6])))
  }

  /** A line made of seven or more `|`-free columns yields columns 0, 1, 2 and 6, stripped. */
  lemma ParseColumns(columns: seq<string>)
    requires |columns| >= 7
    requires forall k :: 0 <= k < |columns| ==> '|' !in columns[k]
    ensures ParseCymru(Join(columns, '|')) ==
      Some(CymruFields(Strip(columns[0]), Strip(columns[1]), Strip(columns[2]), Strip(columns[6])))
  {
    SplitJoin(columns, '|');
  }

  /** The record is rejected: ASN "NA", or an empty prefix or AS name (an empty ASN passes). */
  predicate InvalidFields(f: CymruFields)
  {
    f.asNumber == "NA" || f.prefix == "" || f.asName == ""
  }

  /** `"{as_name} (AS{as_number})"`. */
  function Description(f: CymruFields): (d: string)
    ensures |d| == |f.asName| + |f.asNumber| + 5
    ensures d[..|f.asName|] == f.asName && d[|f.asName|..|f.asName| + 4] == " (AS" && d[|d| - 1] == ')'
    ensures d[|f.asName| + 4..|d| - 1] == f.asNumber
  {
    f.asName + " (AS" + f.asNumber + ")"
  }

  /** The fields of the verbose answer for 8.8.8.8 are valid and give the description "GOOGLE, US (AS15169)". */
  lemma ExampleDescription()
    ensures var f := CymruFields("15169", "8.8.8.8", "8.8.8.0/24", "GOOGLE, US");
      !InvalidFields(f) && Description(f) == "GOOGLE, US (AS15169)"
  {
  }

  /** Padding made only of spaces. */
  predicate Blank(s: string)
  {
    forall k :: 0 <= k < |s| ==> s[k] == ' '
  }

  /** The column `col` is `word` with spaces around it. */
  ghost predicate Padded(col: string, word: string)
  {
    exists a, b :: Blank(a) && Blank(b) && col == a + word + b
  }

  /**
   * The data line of the verbose answer for 8.8.8.8: seven `|`-free columns
   * holding "15169", "8.8.8.8", "8.8.8.0/24" and, last, "GOOGLE, US", each
   * with any space padding, parse to those four fields, which are valid and
   * give the description "GOOGLE, US (AS15169)".
   */
  lemma ExampleCymruLine(c: seq<string>)
    requires |c| == 7 && forall k :: 0 <= k < 7 ==> '|' !in c[k]
    requires Padded(c[0], "15169") && Padded(c[1], "8.8.8.8") && Padded(c[2], "8.8.8.0/24") && Padded(c[6], "GOOGLE, US")
    ensures ParseCymru(Join(c, '|')) == Some(CymruFields("15169", "8.8.8.8", "8.8.8.0/24", "GOOGLE, US"))
    ensures var f := ParseCymru(Join(c, '|')).value;
      !InvalidFields(f) && Description(f) == "GOOGLE, US (AS15169)"
  {
    PaddedLine(c, "15169", "8.8.8.8", "8.8.8.0/24", "GOOGLE, US");
    ExampleDescription();
  }

  /** A word with no whitespace at either end. */
  predicate Word(m: string)
  {
    m != [] && !IsPySpace(m[0]) && !IsPySpace(m[|m| - 1])
  }

  /** A line of seven `|`-free columns whose columns 0, 1, 2 and 6 are padded words parses to those words. */
  lemma PaddedLine(c: seq<string>, asn: string, ip: string, prefix: string, name: string)
    requires |c| == 7 && forall k :: 0 <= k < 7 ==> '|' !in c[k]
    requires Word(asn) && Word(ip) && Word(prefix) && Word(name)
    requires Padded(c[0], asn) && Padded(c[1], ip) && Padded(c[2], prefix) && Padded(c[6], name)
    ensures ParseCymru(Join(c, '|')) == Some(CymruFields(asn, ip, prefix, name))
  {
    PaddedColumn(c[0], asn);
    PaddedColumn(c[1], ip);
    PaddedColumn(c[2], prefix);
    PaddedColumn(c[6], name);
    ParseColumns(c);
  }

  /** A word that neither starts nor ends with whitespace, padded with spaces, strips to itself. */
  lemma PaddedColumn(col: string, m: string)
    requires Padded(col, m) && Word(m)
    ensures Strip(col) == m
  {
    var a, b :| Blank(a) && Blank(b) && col == a + m + b;
    TrimUnique(a, m, b, IsPySpace);
  }

  /** What one attempt for a fresh address does: nothing, or one status, possibly saved, after possibly one post. */
  datatype Verdict =
    | Unrecorded
    | Recorded(comment: string, saved: bool, post: Option<PrefixRequest>)

  /** The outcome of one attempt as a function of the whois reply and NetBox. */
  function Assess(reply: WhoisReply, netbox: NetboxOracle): (v: Verdict)
    ensures v.Recorded? ==> IsStatus(v.comment) && (v.saved <==> v.comment != InvalidData)
  {
    match reply
    case RunRaised => Recorded(ExceptionRaised, true, None)
    case Completed(code, lines) =>
      if code != 0 then Recorded(WhoisError, true, None)
      else if |lines| <= 1 then Unrecorded
      else AssessLine(lines[1], netbox)
  }

  /** The outcome for the data line of a successful whois answer. */
  function AssessLine(line: string, netbox: NetboxOracle): (v: Verdict)
    ensures v.Recorded? && IsStatus(v.comment)
    ensures v.post.Some? ==> ParseCymru(line).Some?
  {
    match ParseCymru(line)
    case None => Recorded(ExceptionRaised, true, None)
    case Some(f) => AssessFields(f, netbox)
  }

  /** The outcome for the fields of a complete data line. */
  function AssessFields(f: CymruFields, netbox: NetboxOracle): (v: Verdict)
    ensures v.Recorded? && IsStatus(v.comment)
    ensures v.saved <==> !InvalidFields(f)
    ensures v.post.Some? <==> !InvalidFields(f)
    ensures v.post.Some? ==> v.post.value.prefix == f.prefix
  {
    if InvalidFields(f) then Recorded(InvalidData, false, None)
    else
      var req := PrefixRequest(f.prefix, Description(f));
      Recorded(if PostSucceeded(netbox(req)) then ProcessedSuccessfully else NetboxError, true, Some(req))
  }

  /** The five statuses an address can end up with. */
  predicate IsStatus(c: string)
  {
    c == ProcessedSuccessfully || c == NetboxError || c == InvalidData || c == WhoisError || c == ExceptionRaised
  }

  /**
   * Each attempt ends in exactly one of the outcomes: a status of the five,
   * saved unless it is the invalid-data status, with a NetBox request only
   * for valid data, where success means status 201.
   */
  lemma AssessOutcomes(reply: WhoisReply, netbox: NetboxOracle)
    ensures var v := Assess(reply, netbox);
      (v.Unrecorded? <==> reply.Completed? && reply.returnCode == 0 && |reply.lines| <= 1) &&
      (v.Recorded? ==> IsStatus(v.comment) && (v.saved <==> v.comment != InvalidData)) &&
      (v.Recorded? && v.comment == WhoisError <==> reply.Completed? && reply.returnCode != 0) &&
      (v.Recorded? && v.post.Some? <==> v.Recorded? && (v.comment == ProcessedSuccessfully || v.comment == NetboxError)) &&
      (v.Recorded? && v.comment == ProcessedSuccessfully ==> PostSucceeded(netbox(v.post.value))) &&
      (v.Recorded? && v.comment == NetboxError ==> !PostSucceeded(netbox(v.post.value)))
  {
  }

  /**
   * A line with fewer than seven columns is an exception; a complete line
   * with invalid data is recorded as such and never posted; a valid one is
   * posted with its prefix and description.
   */
  lemma AssessDataLine(code: int, lines: seq<string>, netbox: NetboxOracle)
    requires code == 0 && |lines| > 1
    ensures var v := Assess(Completed(code, lines), netbox);
      var f := ParseCymru(lines[1]);
      (f.None? ==> v == Recorded(ExceptionRaised, true, None)) &&
      (f.Some? && InvalidFields(f.value) ==> v == Recorded(InvalidData, false, None)) &&
      (f.Some? && !InvalidFields(f.value) ==>
        v.Recorded? && v.saved && v.post == Some(PrefixRequest(f.value.prefix, Description(f.value))))
  {
  }

  /** Everything the run has changed: the ledger, the file, the whois queries and the NetBox requests. */
  datatype RunState = RunState(ledger: Ledger, file: LedgerFile, queried: seq<string>, posts: seq<PrefixRequest>)

  /** One iteration of the main loop (lines 53-109) for address `ip`. */
  function Visit(s: RunState, ip: string, whois: WhoisOracle, netbox: NetboxOracle): (r: RunState)
    requires Valid(s.ledger)
    ensures Valid(r.ledger)
  {
    if ip in s.ledger.comments then s
    else Apply(s.(queried := s.queried + [ip]), ip, Assess(whois(ip), netbox))
  }

  /** The effect of a verdict for `ip`: the post, the status and the save. */
  function Apply(s: RunState, ip: string, v: Verdict): (r: RunState)
    requires Valid(s.ledger)
    ensures Valid(r.ledger)
  {
    match v
    case Unrecorded => s
    case Recorded(comment, saved, post) =>
      var l := Put(s.ledger, ip, comment);
      var file := if saved then Entries(Items(l)) else s.file;
      var posts := if post.Some? then s.posts + [post.value] else s.posts;
      RunState(l, file, s.queried, posts)
  }

  /** The whole loop over the missing list. */
  function RunAll(s: RunState, ips: seq<string>, whois: WhoisOracle, netbox: NetboxOracle): (r: RunState)
    requires Valid(s.ledger)
    ensures Valid(r.ledger)
  {
    if ips == [] then s
    else Visit(RunAll(s, ips[..|ips| - 1], whois, netbox), ips[|ips| - 1], whois, netbox)
  }

  /** An address that already has a status is skipped: no whois query, nothing changes. */
  lemma VisitKnown(s: RunState, ip: string, whois: WhoisOracle, netbox: NetboxOracle)
    requires Valid(s.ledger) && ip in s.ledger.comments
    ensures Visit(s, ip, whois, netbox) == s
  {
  }

  /**
   * A fresh address is queried once, and afterwards only its own entry is
   * new: every other entry keeps its comment and place, it gets a status of
   * the five unless the whois answer had at most one line, the file is
   * rewritten with the whole ledger unless the status is the invalid-data
   * one, and at most one create request is sent.
   */
  lemma VisitFresh(s: RunState, ip: string, whois: WhoisOracle, netbox: NetboxOracle)
    requires Valid(s.ledger) && ip !in s.ledger.comments
    ensures var r := Visit(s, ip, whois, netbox);
      r.queried == s.queried + [ip] &&
      (forall k :: k != ip ==> (k in r.ledger.comments <==> k in s.ledger.comments)) &&
      (forall k :: k in s.ledger.comments ==> r.ledger.comments[k] == s.ledger.comments[k]) &&
      s.ledger.order <= r.ledger.order &&
      (ip in r.ledger.comments <==> Assess(whois(ip), netbox).Recorded?) &&
      (ip in r.ledger.comments ==> IsStatus(r.ledger.comments[ip]) && r.ledger.order == s.ledger.order + [ip]) &&
      (ip !in r.ledger.comments ==> r.ledger == s.ledger && r.file == s.file) &&
      (r.file != s.file ==> r.file == Entries(Items(r.ledger))) &&
      (ip in r.ledger.comments && r.ledger.comments[ip] != InvalidData ==> r.file == Entries(Items(r.ledger))) &&
      (ip in r.ledger.comments && r.ledger.comments[ip] == InvalidData ==> r.file == s.file) &&
      s.posts <= r.posts && |r.posts| <= |s.posts| + 1
  {
    AssessOutcomes(whois(ip), netbox);
    var v := Assess(whois(ip), netbox);
    if v.Recorded? {
      PutEffect(s.ledger, ip, v.comment);
    }
  }

  /**
   * What a stretch of the loop over `ips` did to the state: earlier entries
   * keep their comments and places, every new entry is an address of `ips`
   * with one of the five statuses, every whois query was for an address of
   * `ips` that had no entry before, and requests are only appended.
   */
  ghost predicate Grows(s: RunState, r: RunState, ips: seq<string>)
  {
    (forall k :: k in s.ledger.comments ==> k in r.ledger.comments && r.ledger.comments[k] == s.ledger.comments[k]) &&
    s.ledger.order <= r.ledger.order &&
    (forall k :: k in r.ledger.comments ==> k in s.ledger.comments || (k in ips && IsStatus(r.ledger.comments[k]))) &&
    s.queried <= r.queried &&
    (forall j :: |s.queried| <= j < |r.queried| ==> r.queried[j] in ips && r.queried[j] !in s.ledger.comments) &&
    s.posts <= r.posts
  }

  lemma VisitGrows(s: RunState, ip: string, whois: WhoisOracle, netbox: NetboxOracle)
    requires Valid(s.ledger)
    ensures Grows(s, Visit(s, ip, whois, netbox), [ip])
  {
    if ip !in s.ledger.comments {
      VisitFresh(s, ip, whois, netbox);
    }
  }

  lemma GrowsTrans(s: RunState, m: RunState, r: RunState, a: seq<string>, b: seq<string>)
    requires Grows(s, m, a) && Grows(m, r, b)
    ensures Grows(s, r, a + b)
  {
    forall j | |s.queried| <= j < |r.queried|
      ensures r.queried[j] in a + b && r.queried[j] !in s.ledger.comments
    {
      if j < |m.queried| {
        assert r.queried[j] == m.queried[j];
      }
    }
  }

  /**
   * The loop over the missing list never changes or moves an existing
   * entry, never queries whois for an address that already had one, and
   * gives new entries only to listed addresses, each one of the five statuses.
   */
  lemma {:induction false} RunGrows(s: RunState, ips: seq<string>, whois: WhoisOracle, netbox: NetboxOracle)
    requires Valid(s.ledger)
    ensures Grows(s, RunAll(s, ips, whois, netbox), ips)
    decreases |ips|
  {
    if ips != [] {
      var init, ip := ips[..|ips| - 1], ips[|ips| - 1];
      RunGrows(s, init, whois, netbox);
      var m := RunAll(s, init, whois, netbox);
      var r := Visit(m, ip, whois, netbox);
      VisitGrows(m, ip, whois, netbox);
      assert RunAll(s, ips, whois, netbox) == r;
      GrowsSnoc(s, m, r, init, ip, ips);
    }
  }

  lemma GrowsSnoc(s: RunState, m: RunState, r: RunState, init: seq<string>, ip: string, ips: seq<string>)
    requires Grows(s, m, init) && Grows(m, r, [ip]) && ips == init + [ip]
    ensures Grows(s, r, ips)
  {
    GrowsTrans(s, m, r, init, [ip]);
  }

  /** The resolver script: its two oracles, the ledger and everything it has written or sent. */
  class Resolver {
    const whois: WhoisOracle
    const netbox: NetboxOracle
    /** `processed_ips_dict`. */
    var ledger: Ledger
    /** The contents of processed_ips.json. */
    var file: LedgerFile
    /** Every address whois was asked about, in order. */
    var queried: seq<string>
    /** Every create request sent to NetBox, in order. */
    var posts: seq<PrefixRequest>

    function State(): RunState
      reads this
    {
      RunState(ledger, file, queried, posts)
    }

    /** Lines 41-51: read processed_ips.json into the ledger. */
    constructor (whois: WhoisOracle, netbox: NetboxOracle, file: LedgerFile)
      ensures this.whois == whois && this.netbox == netbox
      ensures ledger == LoadLedger(file) && this.file == file && queried == [] && posts == []
    {
      this.whois := whois;
      this.netbox := netbox;
      var processedIpsDict := Empty;
      if file.Entries? {
        processedIpsDict := FromEntries(file.entries);
      }
      ledger := processedIpsDict;
      this.file := file;
      queried := [];
      posts := [];
    }

    /** `post_prefix_to_netbox`: one create request; true exactly when NetBox answers 201. */
    method PostPrefixToNetbox(prefix: string, description: string) returns (success: bool)
      modifies this`posts
      ensures posts == old(posts) + [PrefixRequest(prefix, description)]
      ensures success <==> PostSucceeded(netbox(PrefixRequest(prefix, description)))
    {
      var data := PrefixRequest(prefix, description);
      posts := posts + [data];
      var response := netbox(data);
      match response
      case Replied(code) =>
        success := code == 201;
      case Raised =>
        success := false;
    }

    /** Write the ledger's items to processed_ips.json. */
    method SaveLedger()
      requires Valid(ledger)
      modifies this`file
      ensures file == Entries(Items(ledger))
    {
      var processedIps := Items(ledger);
      file := Entries(processedIps);
    }

    /** Record `comment` for `ip` in the ledger, then save it when `save` holds. */
    method Record(ip: string, comment: string, save: bool)
      requires Valid(ledger)
      modifies this`ledger, this`file
      ensures Valid(ledger) && ledger == Put(old(ledger), ip, comment)
      ensures file == if save then Entries(Items(ledger)) else old(file)
    {
      ledger := Put(ledger, ip, comment);
      if save {
        SaveLedger();
      }
    }

    /** One iteration of the main loop for address `ip`. */
    method ProcessIp(ip: string)
      requires Valid(ledger)
      modifies this
      ensures Valid(ledger)
      ensures State() == Visit(old(State()), ip, whois, netbox)
    {
      if ip in ledger.comments {
        return;
      }
      queried := queried + [ip];
      var result := whois(ip);
      if result.RunRaised? {
        Record(ip, ExceptionRaised, true);
      } else if result.returnCode == 0 {
        var lines := result.lines;
        if |lines| > 1 {
          ProcessLine(ip, lines[1]);
        }
      } else {
        Record(ip, WhoisError, true);
      }
    }

    /** The part of the loop body that handles the data line of a successful whois answer. */
    method ProcessLine(ip: string, line: string)
      requires Valid(ledger)
      modifies this`ledger, this`file, this`posts
      ensures Valid(ledger)
      ensures State() == Apply(old(State()), ip, AssessLine(line, netbox))
    {
      var parsed := ParseCymru(line);
      if parsed.None? {
        Record(ip, ExceptionRaised, true);
      } else {
        ProcessFields(ip, parsed.value);
      }
    }

    /** Validate the fields, post the prefix and record the outcome. */
    method ProcessFields(ip: string, fields: CymruFields)
      requires Valid(ledger)
      modifies this`ledger, this`file, this`posts
      ensures Valid(ledger)
      ensures State() == Apply(old(State()), ip, AssessFields(fields, netbox))
    {
      if fields.asNumber == "NA" || fields.prefix == "" || fields.asName == "" {
        Record(ip, InvalidData, false);
        return;
      }
      var description := Description(fields);
      var success := PostPrefixToNetbox(fields.prefix, description);
      if success {
        Record(ip, ProcessedSuccessfully, true);
      } else {
        Record(ip, NetboxError, true);
      }
    }

    /** Lines 53-109: process every address of missing_ips.json in order. */
    method Run(missingIps: seq<string>)
      requires Valid(ledger)
      modifies this
      ensures Valid(ledger)
      ensures State() == RunAll(old(State()), missingIps, whois, netbox)
    {
      for i := 0 to |missingIps|
        invariant Valid(ledger)
        invariant State() == RunAll(old(State()), missingIps[..i], whois, netbox)
      {
        assert missingIps[..i + 1][..i] == missingIps[..i];
        ProcessIp(missingIps[i]);
      }
      assert missingIps[..|missingIps|] == missingIps;
    }
  }
}
