/**
 * The string helpers of the alert webhook (server.js): the round-robin
 * choice of the fallback lookup server, and the pure helpers that turn a
 * prefix description such as "GOOGLE (AS15169), google.com" into an AS
 * number, an AS name and a domain, and make a value safe for a dotted
 * syslog field.
 *
 * A JavaScript value is either a string or something else (`typeof` is
 * not "string").  Each regular expression is stated twice: as a
 * declarative description of what a match is, and as the deterministic
 * scan the function performs; lemmas connect the two.
 */
module Webhook {
  import opened Wrappers
  import opened Text

  /** A JavaScript value as far as the helpers look at it. */
  datatype JsValue = JsString(s: string) | NonString

  const Unknown := "Unknown"

  // ---------------------------------------------------------------------
  // getNextServer

  /** The fallback lookup servers, in rotation order. */
  const ApiServers := ["http://localhost:5000", "http://localhost:5001", "http://localhost:5002"]

  /** The module state `currentServerIndex` and the rotation over `ApiServers`. */
  class ServerRotation {
    var currentServerIndex: nat

    ghost predicate Valid()
      reads this
    {
      currentServerIndex < |ApiServers|
    }

    constructor ()
      ensures Valid() && currentServerIndex == 0
    {
      currentServerIndex := 0;
    }

    /** `getNextServer`: the current server, and the index moves on by one, wrapping after the last. */
    method GetNextServer() returns (server: string)
      requires Valid()
      modifies this
      ensures Valid()
      ensures server == ApiServers[old(currentServerIndex)]
      ensures currentServerIndex == (old(currentServerIndex) + 1) % |ApiServers|
    {
      server := ApiServers[currentServerIndex];
      currentServerIndex := (currentServerIndex + 1) % |ApiServers|;
    }
  }

  /**
   * A usage property of `GetNextServer`, not a function of server.js: three
   * consecutive calls visit every server once, in order, and come back to
   * the same index.
   */
  method RotationCycles(r: ServerRotation) returns (a: string, b: string, c: string)
    requires r.Valid()
    modifies r
    ensures r.Valid() && r.currentServerIndex == old(r.currentServerIndex)
    ensures {a, b, c} == {ApiServers[0], ApiServers[1], ApiServers[2]}
    ensures a == ApiServers[old(r.currentServerIndex)]
  {
    a := r.GetNextServer();
    b := r.GetNextServer();
    c := r.GetNextServer();
  }

  // ---------------------------------------------------------------------
  // safeReplace

  /** `value.replace(/ /g, '.')` on a string: every U+0020 becomes '.'. */
  function DotSpaces(s: string): (r: string)
    ensures |r| == |s|
    ensures forall k :: 0 <= k < |s| ==> r[k] == (if s[k] == ' ' then '.' else s[k])
  {
    if s == [] then [] else [if s[0] == ' ' then '.' else s[0]] + DotSpaces(s[1..])
  }

  /** `safeReplace`: the dotted string, or the empty string for a non-string. */
  function SafeReplace(v: JsValue): (r: string)
    ensures v.NonString? ==> r == ""
    ensures v.JsString? ==> |r| == |v.s| && ' ' !in r
  {
    match v
    case NonString => ""
    case JsString(s) => DotSpaces(s)
  }

  /**
   * The replacement is idempotent, leaves a string without spaces as it is,
   * and changes exactly the positions that held a space.
   */
  lemma SafeReplaceProperties(s: string)
    ensures SafeReplace(JsString(SafeReplace(JsString(s)))) == SafeReplace(JsString(s))
    ensures ' ' !in s ==> SafeReplace(JsString(s)) == s
    ensures forall k :: 0 <= k < |s| ==> (SafeReplace(JsString(s))[k] == s[k] <==> s[k] != ' ')
  {
    var r := SafeReplace(JsString(s));
    assert DotSpaces(r) == r;
    if ' ' !in s {
      assert r == s;
    }
  }

  // ---------------------------------------------------------------------
  // Runs of characters

  /** The length of the whitespace at the start of `u`. */
  function LeadingSpace(u: string): (n: nat)
    ensures n <= |u| && AllBy(u[..n], IsJsSpace) && (n < |u| ==> !IsJsSpace(u[n]))
  {
    var n := RunEnd(u, 0, IsJsSpace);
    assert u[..n] == u[0..n];
    n
  }

  lemma LeadingSpaceIs(u: string, n: nat)
    requires n <= |u| && AllBy(u[..n], IsJsSpace) && (n < |u| ==> !IsJsSpace(u[n]))
    ensures LeadingSpace(u) == n
  {
    assert u[..n] == u[0..n];
    RunEndUnique(u, 0, n, IsJsSpace);
  }

  // ---------------------------------------------------------------------
  // extractASN: /\bAS(\d+)\b/, whole match

  /** `\b` before an 'A' at `i`: the start, or a non-word character before it. */
  predicate WordStart(s: string, i: nat)
    requires i <= |s|
  {
    i == 0 || !IsWordChar(s[i - 1])
  }

  /** `\bAS\d+\b` matches exactly `s[i..j]`. */
  predicate AsnAt(s: string, i: nat, j: nat)
  {
    i + 3 <= j <= |s| && WordStart(s, i) && s[i] == 'A' && s[i + 1] == 'S' &&
    AllBy(s[i + 2..j], IsDigit) && (j == |s| || !IsWordChar(s[j]))
  }

  /** `r` is the leftmost ASN token starting at or after `i`, if there is one. */
  ghost predicate LeftmostAsn(s: string, i: nat, r: Option<(nat, nat)>)
  {
    (r.Some? ==>
       i <= r.value.0 && AsnAt(s, r.value.0, r.value.1) &&
       (forall a, b :: i <= a < r.value.0 ==> !AsnAt(s, a, b))) &&
    (r.None? ==> forall a, b :: i <= a ==> !AsnAt(s, a, b))
  }

  /** The leftmost ASN token at or after `i`, as its bounds. */
  function AsnFrom(s: string, i: nat): (r: Option<(nat, nat)>)
    requires i <= |s|
    ensures LeftmostAsn(s, i, r)
    ensures r.Some? ==> r.value.0 <= r.value.1 <= |s|
    decreases |s| - i
  {
    if i + 3 > |s| then None
    else
      var e := RunEnd(s, i + 2, IsDigit);
      AsnAtEnd(s, i, e);
      if WordStart(s, i) && s[i] == 'A' && s[i + 1] == 'S' && e > i + 2 && (e == |s| || !IsWordChar(s[e])) then
        Some((i, e))
      else
        var r := AsnFrom(s, i + 1);
        AsnSkips(s, i, r);
        r
  }

  /** A start with no token does not change the leftmost one. */
  lemma AsnSkips(s: string, i: nat, r: Option<(nat, nat)>)
    requires forall b :: !AsnAt(s, i, b)
    requires LeftmostAsn(s, i + 1, r)
    ensures LeftmostAsn(s, i, r)
  {
  }

  /** At a given start the token, if any, ends where the digit run ends. */
  lemma AsnAtEnd(s: string, i: nat, e: nat)
    requires i + 2 <= |s| && e == RunEnd(s, i + 2, IsDigit)
    ensures forall j :: AsnAt(s, i, j) ==> j == e
  {
    forall j | AsnAt(s, i, j)
      ensures j == e
    {
      RunEndUnique(s, i + 2, j, IsDigit);
    }
  }

  /** The inline `extractASN`: the first ASN token with its "AS", else "Unknown". */
  function ExtractAsn(v: JsValue): (r: string)
    ensures r == Unknown || (|r| >= 3 && r[0] == 'A' && r[1] == 'S' && AllBy(r[2..], IsDigit))
  {
    match v
    case NonString => Unknown
    case JsString(s) =>
      match AsnFrom(s, 0)
      case None => Unknown
      case Some((i, j)) =>
        assert s[i..j][2..] == s[i + 2..j];
        s[i..j]
  }

  /**
   * `extractASN` returns the leftmost token "AS" + digits bounded by word
   * boundaries, and "Unknown" exactly when the value is not a string or has
   * no such token.
   */
  lemma ExtractAsnSpec(v: JsValue)
    ensures var r := ExtractAsn(v);
      (r == Unknown <==> v.NonString? || forall a: nat, b: nat :: !AsnAt(v.s, a, b)) &&
      (r != Unknown ==> exists a: nat, b: nat ::
        AsnAt(v.s, a, b) && r == v.s[a..b] && (forall a': nat, b': nat :: a' < a ==> !AsnAt(v.s, a', b')))
  {
    if v.JsString? {
      var m := AsnFrom(v.s, 0);
      if m.Some? {
        var r := v.s[m.value.0..m.value.1];
        assert r[0] == 'A';
      }
    }
  }

  // ---------------------------------------------------------------------
  // extractASDomain: /,\s*(\S+)\s*$/, group 1

  /** `t` is `\s*`, then the non-empty `\S+` token `tok`, then `\s*` up to the end. */
  ghost predicate DomainTail(t: string, tok: string)
  {
    tok != [] && NoneBy(tok, IsJsSpace) && exists a, b :: Framed(t, a, tok, b)
  }

  /** `t` is `tok` with the whitespace `a` before it and the whitespace `b` after it. */
  ghost predicate Framed(t: string, a: string, tok: string, b: string)
  {
    t == a + tok + b && AllBy(a, IsJsSpace) && AllBy(b, IsJsSpace)
  }

  /** The comma at `c` starts a match whose group 1 is `tok`. */
  ghost predicate DomainMatch(s: string, c: nat, tok: string)
  {
    c < |s| && s[c] == ',' && DomainTail(s[c + 1..], tok)
  }

  /** ECMAScript `\S`. */
  predicate IsNotJsSpace(c: char)
  {
    !IsJsSpace(c)
  }

  /** Where the scan's token ends: the non-whitespace run after the leading whitespace. */
  function TokenEnd(t: string): (e: nat)
    ensures LeadingSpace(t) <= e <= |t|
  {
    RunEnd(t, LeadingSpace(t), IsNotJsSpace)
  }

  /** The scan's test after a comma: a token follows the leading whitespace, and only whitespace follows it. */
  predicate TokenTail(t: string)
  {
    LeadingSpace(t) < TokenEnd(t) && AllBy(t[TokenEnd(t)..], IsJsSpace)
  }

  /** The token the scan reads after a comma. */
  function Token(t: string): string
  {
    t[LeadingSpace(t)..TokenEnd(t)]
  }

  /** A declarative match is one the scan accepts, with the token it reads. */
  lemma DomainTailScanned(t: string, tok: string)
    requires DomainTail(t, tok)
    ensures TokenTail(t) && tok == Token(t)
  {
    var a, b :| Framed(t, a, tok, b);
    var j := |a| + |tok|;
    assert t[..|a|] == a;
    assert t[|a|] == tok[0];
    LeadingSpaceIs(t, |a|);
    assert t[|a|..j] == tok;
    assert t[j..] == b;
    if j < |t| {
      assert t[j] == b[0];
    }
    RunEndUnique(t, |a|, j, IsNotJsSpace);
  }

  /** What the scan accepts is a declarative match. */
  lemma ScannedDomainTail(t: string)
    requires TokenTail(t)
    ensures DomainTail(t, Token(t))
  {
    var n := LeadingSpace(t);
    var e := TokenEnd(t);
    assert Framed(t, t[..n], Token(t), t[e..]);
  }

  /** The token is also what trimming the tail gives, and trimming the token changes nothing. */
  lemma TokenIsTrimmed(t: string, tok: string)
    requires DomainTail(t, tok)
    ensures JsTrim(t) == tok && JsTrim(tok) == tok
  {
    var a, b :| Framed(t, a, tok, b);
    TrimUnique(a, tok, b, IsJsSpace);
    NameIsTrimmed(tok);
  }

  /** The scan's test at comma `c`. */
  predicate DomainAt(s: string, c: nat)
  {
    c < |s| && s[c] == ',' && TokenTail(s[c + 1..])
  }

  /** The leftmost comma at or after `c` that starts a match. */
  function DomainFrom(s: string, c: nat): (r: Option<nat>)
    requires c <= |s|
    ensures LeftmostDomainFrom(s, c, r)
    ensures r.Some? ==> r.value < |s|
    decreases |s| - c
  {
    if c == |s| then None
    else if DomainAt(s, c) then Some(c)
    else
      var r := DomainFrom(s, c + 1);
      DomainSkips(s, c, r);
      r
  }

  /** `r` is the leftmost comma at or after `c` where the pattern matches, if there is one. */
  ghost predicate LeftmostDomainFrom(s: string, c: nat, r: Option<nat>)
  {
    (r.Some? ==> c <= r.value && DomainAt(s, r.value) && forall d :: c <= d < r.value ==> !DomainAt(s, d)) &&
    (r.None? ==> forall d :: c <= d ==> !DomainAt(s, d))
  }

  /** A position where the pattern fails does not change the leftmost match. */
  lemma DomainSkips(s: string, c: nat, r: Option<nat>)
    requires !DomainAt(s, c) && LeftmostDomainFrom(s, c + 1, r)
    ensures LeftmostDomainFrom(s, c, r)
  {
  }

  /** `extractASDomain`: group 1 of the leftmost match, trimmed, else "Unknown". */
  function ExtractAsDomain(v: JsValue): (r: string)
    ensures r == Unknown || (r != [] && NoneBy(r, IsJsSpace))
  {
    match v
    case NonString => Unknown
    case JsString(s) =>
      match DomainFrom(s, 0)
      case None => Unknown
      case Some(c) =>
        var tok := Token(s[c + 1..]);
        assert NoneBy(tok, IsJsSpace);
        NameIsTrimmed(tok);
        JsTrim(tok)
  }

  /** The leftmost match, with group 1 `tok`. */
  ghost predicate LeftmostDomain(s: string, c: nat, tok: string)
  {
    DomainMatch(s, c, tok) && forall d: nat, tok' :: d < c ==> !DomainMatch(s, d, tok')
  }

  /** At one comma: the scan's test holds exactly when there is a match there, and then its token is the one read. */
  lemma DomainAtIff(s: string, c: nat, tok: string)
    ensures DomainMatch(s, c, tok) ==> DomainAt(s, c) && tok == Token(s[c + 1..])
    ensures DomainAt(s, c) ==> DomainMatch(s, c, Token(s[c + 1..]))
  {
    if c < |s| {
      if DomainTail(s[c + 1..], tok) {
        DomainTailScanned(s[c + 1..], tok);
      }
      if TokenTail(s[c + 1..]) {
        ScannedDomainTail(s[c + 1..]);
      }
    }
  }

  /** The scan finds no comma exactly when there is no match. */
  lemma DomainFromNone(s: string)
    ensures DomainFrom(s, 0).None? <==> forall c: nat, tok :: !DomainMatch(s, c, tok)
  {
    var m := DomainFrom(s, 0);
    if m.Some? {
      DomainAtIff(s, m.value, []);
      assert DomainMatch(s, m.value, Token(s[m.value + 1..]));
    } else {
      forall c: nat, tok | DomainMatch(s, c, tok)
        ensures false
      {
        DomainAtIff(s, c, tok);
      }
    }
  }

  /** The scan finds the leftmost match and its token. */
  lemma DomainFromLeftmost(s: string, c: nat, tok: string)
    requires LeftmostDomain(s, c, tok)
    ensures DomainFrom(s, 0) == Some(c) && tok == Token(s[c + 1..])
  {
    DomainAtIff(s, c, tok);
    var m := DomainFrom(s, 0);
    var c0 := m.value;
    DomainAtIff(s, c0, []);
  }

  /**
   * `extractASDomain` returns the token of the leftmost comma whose tail is
   * whitespace, one token and whitespace (that token is also the trimmed
   * tail); "Unknown" comes from a non-string or from no such comma.
   */
  lemma ExtractAsDomainSpec(v: JsValue)
    ensures v.NonString? ==> ExtractAsDomain(v) == Unknown
    ensures v.JsString? && (forall c: nat, tok :: !DomainMatch(v.s, c, tok)) ==> ExtractAsDomain(v) == Unknown
    ensures v.JsString? ==> forall c: nat, tok :: LeftmostDomain(v.s, c, tok) ==>
      ExtractAsDomain(v) == tok && tok == JsTrim(v.s[c + 1..])
  {
    if v.JsString? {
      DomainFromNone(v.s);
      forall c: nat, tok | LeftmostDomain(v.s, c, tok)
        ensures ExtractAsDomain(v) == tok && tok == JsTrim(v.s[c + 1..])
      {
        DomainFromLeftmost(v.s, c, tok);
        TokenIsTrimmed(v.s[c + 1..], tok);
      }
    }
  }

  // ---------------------------------------------------------------------
  // extractASName: /^(.*?)(?:\s*\(AS\d+\))?\s*(?:,\s*.*)?$/, group 1 trimmed

  /** `,\s*.*` after the comma: whitespace (line terminators included), then no line terminator. */
  ghost predicate CommaRestSpec(x: string)
  {
    exists p :: CommaRestAt(x, p)
  }

  /** `x[..p]` is the `\s*` and `x[p..]` the `.*`. */
  ghost predicate CommaRestAt(x: string, p: int)
  {
    0 <= p <= |x| && AllBy(x[..p], IsJsSpace) && NoneBy(x[p..], IsLineTerminator)
  }

  /** `\s*(?:,\s*.*)?$`. */
  ghost predicate RestSpec(v: string)
  {
    exists j :: RestAt(v, j)
  }

  /** `v[..j]` is the `\s*`, and at `j` either the input ends or `,\s*.*` takes the rest. */
  ghost predicate RestAt(v: string, j: int)
  {
    0 <= j <= |v| && AllBy(v[..j], IsJsSpace) && (j == |v| || (v[j] == ',' && CommaRestSpec(v[j + 1..])))
  }

  /** `\s*\(AS\d+\)` matches all of `a`. */
  ghost predicate AsTagSpec(a: string)
  {
    exists w :: AsTagAt(a, w)
  }

  /** `a[..w]` is the `\s*`, then "(AS", digits and ')' end `a`. */
  ghost predicate AsTagAt(a: string, w: int)
  {
    0 <= w && w + 5 <= |a| && AllBy(a[..w], IsJsSpace) && a[w..w + 3] == "(AS" &&
    AllBy(a[w + 3..|a| - 1], IsDigit) && a[|a| - 1] == ')'
  }

  /** The part after group 1 matches all of `u`. */
  ghost predicate TailSpec(u: string)
  {
    RestSpec(u) || exists i :: TagThenRest(u, i)
  }

  /** `u[..i]` is the tag and `u[i..]` the rest. */
  ghost predicate TagThenRest(u: string, i: int)
  {
    0 < i <= |u| && AsTagSpec(u[..i]) && RestSpec(u[i..])
  }

  predicate CommaRest(x: string)
  {
    NoneBy(x[LeadingSpace(x)..], IsLineTerminator)
  }

  predicate Rest(v: string)
  {
    var j := LeadingSpace(v);
    j == |v| || (v[j] == ',' && CommaRest(v[j + 1..]))
  }

  /** Where `\s*\(AS\d+\)` at the start of `u` ends, if it matches there. */
  function AsTagEnd(u: string): Option<nat>
  {
    var w := LeadingSpace(u);
    if w + 3 <= |u| && u[w..w + 3] == "(AS" then
      var e := RunEnd(u, w + 3, IsDigit);
      if w + 3 < e < |u| && u[e] == ')' then Some(e + 1) else None
    else None
  }

  /** The scan's test for the part after group 1. */
  predicate Tail(u: string)
  {
    Rest(u) || (AsTagEnd(u).Some? && AsTagEnd(u).value <= |u| && Rest(u[AsTagEnd(u).value..]))
  }

  lemma CommaRestIff(x: string)
    ensures CommaRest(x) <==> CommaRestSpec(x)
  {
    var n := LeadingSpace(x);
    if CommaRest(x) {
      assert CommaRestAt(x, n);
    }
    if CommaRestSpec(x) {
      var p :| CommaRestAt(x, p);
      forall k | 0 <= k < |x[n..]|
        ensures !IsLineTerminator(x[n..][k])
      {
        assert x[n..][k] == x[p..][k + n - p];
      }
    }
  }

  lemma RestIff(v: string)
    ensures Rest(v) <==> RestSpec(v)
  {
    var n := LeadingSpace(v);
    if Rest(v) {
      if n < |v| {
        CommaRestIff(v[n + 1..]);
      }
      assert RestAt(v, n);
    }
    if RestSpec(v) {
      var j :| RestAt(v, j);
      LeadingSpaceIs(v, j);
      if j < |v| {
        CommaRestIff(v[j + 1..]);
      }
    }
  }

  /** A declarative tag on a prefix is where the scan finds it. */
  lemma AsTagFound(u: string, i: nat)
    requires 0 < i <= |u| && AsTagSpec(u[..i])
    ensures AsTagEnd(u) == Some(i)
  {
    var a := u[..i];
    var w :| AsTagAt(a, w);
    assert a[..w] == u[..w];
    assert u[w] == a[w..w + 3][0];
    LeadingSpaceIs(u, w);
    assert u[w..w + 3] == a[w..w + 3];
    assert |a| == i;
    forall k | w + 3 <= k < i - 1
      ensures IsDigit(u[k])
    {
      assert u[k] == a[w + 3..|a| - 1][k - w - 3];
    }
    assert u[i - 1] == a[|a| - 1];
    RunEndUnique(u, w + 3, i - 1, IsDigit);
  }

  /** Where the scan finds a tag, the prefix up to it is a declarative tag. */
  lemma AsTagSound(u: string, i: nat)
    requires 0 < i <= |u| && AsTagEnd(u) == Some(i)
    ensures AsTagSpec(u[..i])
  {
    var n := LeadingSpace(u);
    var a := u[..i];
    assert a[..n] == u[..n];
    assert a[n..n + 3] == u[n..n + 3];
    assert a[n + 3..|a| - 1] == u[n + 3..i - 1];
    assert a[|a| - 1] == u[i - 1];
    assert AsTagAt(a, n);
  }

  /** The scan's tail test decides the declarative tail. */
  lemma TailIff(u: string)
    ensures Tail(u) <==> TailSpec(u)
  {
    RestIff(u);
    var t := AsTagEnd(u);
    if t.Some? && t.value <= |u| {
      RestIff(u[t.value..]);
      if 0 < t.value {
        AsTagSound(u, t.value);
        assert Rest(u[t.value..]) ==> TagThenRest(u, t.value);
      }
    }
    if exists i :: TagThenRest(u, i) {
      var i :| TagThenRest(u, i);
      AsTagFound(u, i);
      RestIff(u[i..]);
    }
  }

  /**
   * `r` is where the lazy group ends when the search starts at `k`: the
   * first position from `k` on, still before any line terminator, where the
   * tail matches; `None` when there is none.
   */
  predicate LazyCut(s: string, k: nat, r: Option<nat>)
    requires k <= |s|
  {
    (r.Some? ==>
      k <= r.value <= |s| && NoneBy(s[..r.value], IsLineTerminator) && Tail(s[r.value..]) &&
      forall m :: k <= m < r.value ==> !Tail(s[m..])) &&
    (r.None? ==> forall m :: k <= m <= |s| && NoneBy(s[..m], IsLineTerminator) ==> !Tail(s[m..]))
  }

  /** The lazy group: the shortest line-terminator-free prefix, from `k` on, after which the tail matches. */
  function NameCutFrom(s: string, k: nat): (r: Option<nat>)
    requires k <= |s| && NoneBy(s[..k], IsLineTerminator)
    ensures LazyCut(s, k, r)
    ensures r.Some? ==> r.value <= |s|
    decreases |s| - k
  {
    if Tail(s[k..]) then Some(k)
    else if k == |s| || IsLineTerminator(s[k]) then
      CutStops(s, k);
      None
    else
      assert s[..k + 1] == s[..k] + [s[k]];
      var r := NameCutFrom(s, k + 1);
      CutSkips(s, k, r);
      r
  }

  /** No cut from `k` on when the tail fails at `k` and the line ends there. */
  lemma CutStops(s: string, k: nat)
    requires k <= |s| && !Tail(s[k..]) && (k == |s| || IsLineTerminator(s[k]))
    ensures LazyCut(s, k, None)
  {
    assert forall m :: k < m <= |s| ==> s[..m][k] == s[k];
  }

  /** A position where the tail fails does not change the cut. */
  lemma CutSkips(s: string, k: nat, r: Option<nat>)
    requires k < |s| && !Tail(s[k..]) && LazyCut(s, k + 1, r)
    ensures LazyCut(s, k, r)
  {
  }

  /** The lazy group's end for the whole input. */
  function NameCut(s: string): Option<nat>
  {
    assert s[..0] == [];
    NameCutFrom(s, 0)
  }

  /** `extractASName`: group 1 of the anchored match, trimmed, else "Unknown". */
  function ExtractAsName(v: JsValue): (r: string)
    ensures r != [] ==> !IsJsSpace(r[0]) && !IsJsSpace(r[|r| - 1])
  {
    match v
    case NonString => Unknown
    case JsString(s) =>
      match NameCut(s)
      case None => Unknown
      case Some(k) => JsTrim(s[..k])
  }

  /** `s[..k]` is the lazy group: the shortest line-terminator-free prefix after which the rest matches. */
  ghost predicate ShortestCut(s: string, k: nat)
  {
    k <= |s| && NoneBy(s[..k], IsLineTerminator) && TailSpec(s[k..]) &&
    forall m :: 0 <= m < k ==> !TailSpec(s[m..])
  }

  /** The scan finds the lazy group exactly when one exists. */
  lemma NameCutSpec(s: string)
    ensures NameCut(s).None? <==> forall m :: 0 <= m <= |s| && NoneBy(s[..m], IsLineTerminator) ==> !TailSpec(s[m..])
    ensures forall k: nat :: ShortestCut(s, k) ==> NameCut(s) == Some(k)
  {
    NameCutNone(s);
    forall k: nat | ShortestCut(s, k)
      ensures NameCut(s) == Some(k)
    {
      NameCutShortest(s, k);
    }
  }

  /** The scan fails exactly when no line-terminator-free prefix is followed by a matching tail. */
  lemma NameCutNone(s: string)
    ensures NameCut(s).None? <==> forall m :: 0 <= m <= |s| && NoneBy(s[..m], IsLineTerminator) ==> !TailSpec(s[m..])
  {
    var r := NameCut(s);
    if r.Some? {
      TailIff(s[r.value..]);
    } else {
      forall m | 0 <= m <= |s| && NoneBy(s[..m], IsLineTerminator)
        ensures !TailSpec(s[m..])
      {
        TailIff(s[m..]);
      }
    }
  }

  /** The scan stops at the lazy group. */
  lemma NameCutShortest(s: string, k: nat)
    requires ShortestCut(s, k)
    ensures NameCut(s) == Some(k)
  {
    TailIff(s[k..]);
    var r := NameCut(s);
    assert LazyCut(s, 0, r);
    assert r.Some? && r.value <= k;
    TailIff(s[r.value..]);
  }

  /**
   * `extractASName` returns the trimmed lazy group: the shortest
   * line-terminator-free prefix after which the rest is an optional
   * "(AS<digits>)", whitespace and an optional ", ..." up to the end;
   * "Unknown" for a non-string or when no such prefix exists.
   */
  lemma ExtractAsNameSpec(v: JsValue)
    ensures v.NonString? ==> ExtractAsName(v) == Unknown
    ensures v.JsString? && (forall m :: 0 <= m <= |v.s| && NoneBy(v.s[..m], IsLineTerminator) ==> !TailSpec(v.s[m..])) ==>
      ExtractAsName(v) == Unknown
    ensures v.JsString? ==> forall k: nat :: ShortestCut(v.s, k) ==> ExtractAsName(v) == JsTrim(v.s[..k])
  {
    if v.JsString? {
      NameCutSpec(v.s);
    }
  }

  /** A line without a line terminator always matches. */
  lemma NameAlwaysMatchesOneLine(s: string)
    requires NoneBy(s, IsLineTerminator)
    ensures NameCut(s).Some?
    ensures ExtractAsName(JsString(s)) == JsTrim(s[..NameCut(s).value])
  {
    assert s[..0] == [];
    assert s[..|s|] == s;
    assert Rest(s[|s|..]);
  }

  /** A character that is not whitespace, '(' or ',' cannot start the part after group 1. */
  lemma NoTailAtWord(u: string)
    requires u != [] && !IsJsSpace(u[0]) && u[0] != '(' && u[0] != ','
    ensures !Tail(u)
  {
    assert u[..0] == [];
    LeadingSpaceIs(u, 0);
  }

  /** " (AS<digits>)" followed by an acceptable rest is an acceptable part after group 1. */
  lemma TailAtTag(digits: string, rest: string)
    requires digits != [] && AllBy(digits, IsDigit) && Rest(rest)
    ensures Tail(" (AS" + digits + ")" + rest)
  {
    var u := " (AS" + digits + ")" + rest;
    var e := 4 + |digits|;
    assert u[..1] == " ";
    assert u[1] == '(';
    LeadingSpaceIs(u, 1);
    assert u[1..4] == "(AS";
    assert u[4..e] == digits;
    assert u[e] == ')';
    RunEndUnique(u, 4, e, IsDigit);
    assert u[e + 1..] == rest;
  }

  /** ", <domain>" with no line terminator in the domain is an acceptable rest. */
  lemma RestAtComma(domain: string)
    requires NoneBy(domain, IsLineTerminator)
    ensures Rest(", " + domain)
  {
    var v := ", " + domain;
    assert v[..0] == [];
    LeadingSpaceIs(v, 0);
    var x := v[1..];
    assert x == " " + domain;
    var n := LeadingSpace(x);
    assert n >= 1;
    assert x[n..] == domain[n - 1..];
  }

  /**
   * "<name> (AS<digits>), <domain>" with a name made of characters other
   * than whitespace, '(' and ',' gives back the name.
   */
  lemma NameBeforeTag(name: string, digits: string, domain: string)
    requires name != [] && NoneBy(name, IsJsSpace)
    requires forall k :: 0 <= k < |name| ==> name[k] != '(' && name[k] != ','
    requires digits != [] && AllBy(digits, IsDigit)
    requires NoneBy(domain, IsLineTerminator)
    ensures ExtractAsName(JsString(name + " (AS" + digits + "), " + domain)) == name
  {
    var rest := " (AS" + digits + ")" + (", " + domain);
    RestAtComma(domain);
    TailAtTag(digits, ", " + domain);
    assert name + " (AS" + digits + "), " + domain == name + rest;
    NameCutOfWord(name, rest);
    assert (name + rest)[..|name|] == name;
    NameIsTrimmed(name);
  }

  /** A name of characters other than whitespace, '(' and ',' followed by an acceptable tail is the lazy group. */
  lemma NameCutOfWord(name: string, rest: string)
    requires NoneBy(name, IsJsSpace)
    requires forall k :: 0 <= k < |name| ==> name[k] != '(' && name[k] != ','
    requires Tail(rest)
    ensures NameCut(name + rest) == Some(|name|)
  {
    var s := name + rest;
    var n := |name|;
    forall m | 0 <= m < n
      ensures !Tail(s[m..])
    {
      assert s[m..][0] == name[m];
      NoTailAtWord(s[m..]);
    }
    assert s[..n] == name;
    assert s[n..] == rest;
    NameCutReaches(s, 0, n);
  }

  /** A non-empty string without whitespace is its own trimmed form. */
  lemma NameIsTrimmed(name: string)
    requires name != [] && NoneBy(name, IsJsSpace)
    ensures JsTrim(name) == name
  {
    TrimOfTrimmed(name, IsJsSpace);
  }

  /** When no earlier cut works, the scan stops at the first one that does. */
  lemma {:induction false} NameCutReaches(s: string, k: nat, n: nat)
    requires k <= n <= |s| && NoneBy(s[..n], IsLineTerminator) && Tail(s[n..])
    requires forall m :: k <= m < n ==> !Tail(s[m..])
    ensures NoneBy(s[..k], IsLineTerminator) && NameCutFrom(s, k) == Some(n)
    decreases n - k
  {
    assert forall m :: 0 <= m < k ==> s[..k][m] == s[..n][m];
    if k < n {
      assert s[..n][k] == s[k];
      NameCutReaches(s, k + 1, n);
    }
  }

  /** "GOOGLE (AS15169), google.com" gives the AS name "GOOGLE". */
  lemma ExampleAsName()
    ensures ExtractAsName(JsString("GOOGLE" + " (AS" + "15169" + "), " + "google.com")) == "GOOGLE"
  {
    NameBeforeTag("GOOGLE", "15169", "google.com");
  }
}
