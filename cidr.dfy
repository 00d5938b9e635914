/**
 * `convert_to_cidr` (app.py): an inclusive address range becomes the list of
 * CIDR blocks (prefix notation of section 3.1 of RFC 4632) that Python's
 * `ipaddress.summarize_address_range` yields.  Addresses are integers of
 * width 32 (IPv4) or 128 (IPv6); a block is a network address and a prefix
 * length, and its textual form is not modelled.
 */
module Cidr {
  import opened Wrappers

  datatype Version = V4 | V6

  /** Address width in bits (`ip._max_prefixlen`). */
  function Width(v: Version): nat
  {
    if v == V4 then 32 else 128
  }

  /** A parsed address: its version and its integer value. */
  datatype Address = Address(version: Version, value: nat)

  /** The parse oracle standing for `ipaddress.ip_address`: `None` where it raises ValueError. */
  type Parser = string -> Option<Address>

  /** The all-ones address of a version (`ip._ALL_ONES`), 2^width - 1. */
  function AllOnes(v: Version): nat
  {
    if v == V4 then 0xFFFF_FFFF else 0xFFFF_FFFF_FFFF_FFFF_FFFF_FFFF_FFFF_FFFF
  }

  predicate ValidAddress(a: Address)
  {
    a.value <= AllOnes(a.version)
  }

  /** A CIDR block `network/prefixLen`. */
  datatype Network = Network(version: Version, network: nat, prefixLen: nat)

  datatype CidrError =
    | InvalidAddress   // ipaddress.ip_address raises ValueError
    | VersionMismatch  // comparing addresses of different versions raises TypeError
    | RangeOrder       // "Start IP must be less than or equal to End IP"

  function Pow2(n: nat): (r: nat)
    ensures r >= 1
  {
    if n == 0 then 1 else 2 * Pow2(n - 1)
  }

  lemma {:induction false} Pow2Monotone(a: nat, b: nat)
    requires a <= b
    ensures Pow2(a) <= Pow2(b)
    decreases b
  {
    if a < b {
      Pow2Monotone(a, b - 1);
    }
  }

  /** The `k` low-order bits of `x` are zero: `x` is a multiple of 2^k. */
  predicate Aligned(x: nat, k: nat)
  {
    k == 0 || (x % 2 == 0 && Aligned(x / 2, k - 1))
  }

  lemma {:induction false} AlignedWeaken(x: nat, a: nat, b: nat)
    requires b <= a && Aligned(x, a)
    ensures Aligned(x, b)
    decreases b
  {
    if b > 0 {
      AlignedWeaken(x / 2, a - 1, b - 1);
    }
  }

  /** Alignment is divisibility by the block size. */
  lemma {:induction false} AlignedIsMultiple(x: nat, k: nat)
    ensures Aligned(x, k) <==> x % Pow2(k) == 0
    decreases k
  {
    if k > 0 {
      AlignedIsMultiple(x / 2, k - 1);
      var p := Pow2(k - 1);
      assert Pow2(k) == 2 * p;
      if Aligned(x, k) {
        DoubleMultiple(x, p);
      }
      if x % (2 * p) == 0 {
        HalfMultiple(x, p);
      }
    }
  }

  lemma DoubleMultiple(x: nat, p: nat)
    requires p > 0 && x % 2 == 0 && (x / 2) % p == 0
    ensures x % (2 * p) == 0
  {
    var q := x / 2;
    var e := q / p;
    assert q == p * e;
    assert x == 2 * q;
    assert x == (2 * p) * e + 0;
    ModOfDecomposition(x, 2 * p, e, 0);
  }

  lemma HalfMultiple(x: nat, p: nat)
    requires p > 0 && x % (2 * p) == 0
    ensures x % 2 == 0 && (x / 2) % p == 0
  {
    var m := 2 * p;
    var d := x / m;
    assert x == m * d;
    assert x == 2 * (p * d) + 0;
    ModOfDecomposition(x, 2, p * d, 0);
    assert x / 2 == p * d + 0;
    ModOfDecomposition(x / 2, p, d, 0);
  }

  lemma ModOfDecomposition(x: nat, m: nat, d: nat, r: nat)
    requires m > 0 && r < m && x == m * d + r
    ensures x % m == r
  {
    var q, s := x / m, x % m;
    assert x == m * q + s && 0 <= s < m;
    if q > d {
      MulAtLeast(m, q - d);
    } else if q < d {
      MulAtLeast(m, d - q);
    }
  }

  lemma {:induction false} MulAtLeast(m: nat, t: nat)
    requires t >= 1
    ensures m * t >= m
  {
    if t > 1 {
      MulAtLeast(m, t - 1);
      assert m * t == m * (t - 1) + m;
    }
  }

  /** `_count_righthand_zero_bits(x, bits)`: trailing zero bits of `x`, capped at `bits`. */
  function TrailingZeros(x: nat, bits: nat): (k: nat)
    ensures k <= bits && Aligned(x, k)
    ensures k < bits ==> !Aligned(x, k + 1)
  {
    if x == 0 then
      ZeroAligned(bits);
      bits
    else if bits == 0 || x % 2 == 1 then 0
    else 1 + TrailingZeros(x / 2, bits - 1)
  }

  lemma {:induction false} ZeroAligned(k: nat)
    ensures Aligned(0, k)
  {
    if k > 0 {
      ZeroAligned(k - 1);
    }
  }

  /** Python's `int.bit_length()`. */
  function BitLength(n: nat): (l: nat)
    ensures n == 0 <==> l == 0
    ensures n > 0 ==> Pow2(l - 1) <= n < Pow2(l)
  {
    if n == 0 then 0 else 1 + BitLength(n / 2)
  }

  /**
   * The host bits of the block emitted at `cursor`: the largest block size
   * 2^k such that `cursor` is aligned to it and the block ends at or before
   * `last`.
   */
  function HostBits(cursor: nat, last: nat, bits: nat): (k: nat)
    requires cursor <= last
    ensures k <= bits && Aligned(cursor, k) && cursor + Pow2(k) - 1 <= last
    ensures k == bits || !Aligned(cursor, k + 1) || cursor + Pow2(k + 1) - 1 > last
  {
    var tz := TrailingZeros(cursor, bits);
    var room := BitLength(last - cursor + 1) - 1;
    var k := if tz <= room then tz else room;
    AlignedWeaken(cursor, tz, k);
    Pow2Monotone(k, room);
    k
  }

  /** Size of a block, 2^(width - prefix length). */
  function Size(n: Network): nat
    requires InWidth(n)
  {
    Pow2(Width(n.version) - n.prefixLen)
  }

  /** The last address of a block. */
  function LastOf(n: Network): nat
    requires InWidth(n)
  {
    n.network + Size(n) - 1
  }

  /** The prefix length is within the address width. */
  predicate InWidth(n: Network)
  {
    n.prefixLen <= Width(n.version)
  }

  /** A well-formed block: a prefix length within the width and a network aligned to the block size. */
  predicate WellFormed(n: Network)
  {
    InWidth(n) && Aligned(n.network, Width(n.version) - n.prefixLen)
  }

  predicate InNetwork(x: nat, n: Network)
    requires InWidth(n)
  {
    n.network <= x <= LastOf(n)
  }

  predicate AllInWidth(ns: seq<Network>)
  {
    forall i :: 0 <= i < |ns| ==> InWidth(ns[i])
  }

  predicate AllWellFormed(ns: seq<Network>)
  {
    forall i :: 0 <= i < |ns| ==> WellFormed(ns[i])
  }

  /** `x` lies in some block of `ns`. */
  predicate Covered(x: nat, ns: seq<Network>)
    requires AllInWidth(ns)
  {
    exists i :: 0 <= i < |ns| && InNetwork(x, ns[i])
  }

  /** The block emitted at `cursor`: `cursor/(width - HostBits)`. */
  function FirstBlock(v: Version, cursor: nat, last: nat): (b: Network)
    requires cursor <= last
    ensures b.version == v && b.network == cursor && InWidth(b) && cursor <= LastOf(b) <= last
  {
    Network(v, cursor, Width(v) - HostBits(cursor, last, Width(v)))
  }

  /**
   * The loop of `summarize_address_range` from `cursor`: emit the block of
   * `HostBits`, advance past it, and stop when the cursor passes `last` or
   * the block ended at the all-ones address.
   */
  function SummarizeFrom(v: Version, cursor: nat, last: nat): (ns: seq<Network>)
    ensures |ns| == 0 <==> cursor > last
    ensures AllInWidth(ns)
    decreases last + 1 - cursor
  {
    if cursor > last then []
    else
      var block := FirstBlock(v, cursor, last);
      if LastOf(block) == AllOnes(v) then [block]
      else [block] + SummarizeFrom(v, LastOf(block) + 1, last)
  }

  /** `summarize_address_range` behind the checks of `convert_to_cidr` (app.py lines 25-30). */
  function Summarize(first: Address, last: Address): (r: Result<seq<Network>, CidrError>)
    ensures r.Err? <==> first.version != last.version || first.value > last.value
    ensures r.Err? ==> r.error == (if first.version != last.version then VersionMismatch else RangeOrder)
  {
    if first.version != last.version then Err(VersionMismatch)
    else if first.value > last.value then Err(RangeOrder)
    else Ok(SummarizeFrom(first.version, first.value, last.value))
  }

  /** `convert_to_cidr(start_ip, end_ip)`: parse both bounds, then summarise. */
  function ConvertToCidr(parse: Parser, startIp: string, endIp: string): (r: Result<seq<Network>, CidrError>)
    ensures r.Err? && r.error == InvalidAddress <==> parse(startIp).None? || parse(endIp).None?
  {
    match (parse(startIp), parse(endIp))
    case (Some(first), Some(last)) => Summarize(first, last)
    case _ => Err(InvalidAddress)
  }
}

/** What `summarize_address_range` guarantees about the blocks it yields. */
module CidrProperties {
  import opened Wrappers
  import opened Cidr

  /** Each block starts right after the previous one ends: no gap and no overlap. */
  predicate Contiguous(ns: seq<Network>)
    requires AllInWidth(ns)
  {
    forall i :: 0 <= i < |ns| - 1 ==> LastOf(ns[i]) + 1 == ns[i + 1].network
  }

  /** Blocks in strictly increasing address order, pairwise disjoint. */
  predicate SortedDisjoint(ns: seq<Network>)
    requires AllInWidth(ns)
  {
    forall i, j :: 0 <= i < j < |ns| ==> LastOf(ns[i]) < ns[j].network
  }

  /**
   * Greedy choice: the block could not have been twice as large, because it
   * is already the whole width, or its start is not aligned to the doubled
   * size, or the doubled block would run past `last`.
   */
  predicate Maximal(n: Network, last: nat)
    requires InWidth(n)
  {
    var h := Width(n.version) - n.prefixLen;
    n.prefixLen == 0 || !Aligned(n.network, h + 1) || n.network + Pow2(h + 1) - 1 > last
  }

  predicate AllMaximal(ns: seq<Network>, last: nat)
    requires AllInWidth(ns)
  {
    forall i :: 0 <= i < |ns| ==> Maximal(ns[i], last)
  }

  /** Every block has version `v` and lies within [lo, hi]. */
  predicate Within(ns: seq<Network>, v: Version, lo: nat, hi: nat)
    requires AllInWidth(ns)
  {
    forall i :: 0 <= i < |ns| ==> ns[i].version == v && lo <= ns[i].network && LastOf(ns[i]) <= hi
  }

  /** The blocks stay within the range being summarised. */
  lemma {:induction false} SummarizeWithin(v: Version, cursor: nat, last: nat)
    ensures Within(SummarizeFrom(v, cursor, last), v, cursor, last)
    decreases last + 1 - cursor
  {
    if cursor <= last {
      var b := FirstBlock(v, cursor, last);
      var ns := SummarizeFrom(v, cursor, last);
      Unfold(v, cursor, last);
      if LastOf(b) != AllOnes(v) {
        SummarizeWithin(v, LastOf(b) + 1, last);
      }
      forall i | 1 <= i < |ns|
        ensures ns[i] == ns[1..][i - 1]
      {
      }
    }
  }

  /** The first block is aligned to its size and as large as it can be. */
  lemma FirstBlockIsBest(v: Version, cursor: nat, last: nat)
    requires cursor <= last
    ensures WellFormed(FirstBlock(v, cursor, last)) && Maximal(FirstBlock(v, cursor, last), last)
  {
    var k := HostBits(cursor, last, Width(v));
    assert Width(v) - (Width(v) - k) == k;
  }

  /** One step of the loop: the first block, then the rest from just past it (unless it ended at all-ones). */
  lemma Unfold(v: Version, cursor: nat, last: nat)
    requires cursor <= last
    ensures var ns := SummarizeFrom(v, cursor, last);
      var b := FirstBlock(v, cursor, last);
      |ns| > 0 && ns[0] == b &&
      ns[1..] == (if LastOf(b) == AllOnes(v) then [] else SummarizeFrom(v, LastOf(b) + 1, last))
  {
  }

  lemma {:induction false} SummarizeContiguous(v: Version, cursor: nat, last: nat)
    ensures Contiguous(SummarizeFrom(v, cursor, last))
    decreases last + 1 - cursor
  {
    if cursor <= last {
      var b := FirstBlock(v, cursor, last);
      if LastOf(b) != AllOnes(v) {
        SummarizeContiguous(v, LastOf(b) + 1, last);
      }
      ContiguousStep(v, cursor, last);
    }
  }

  /** One loop step keeps the blocks contiguous. */
  lemma ContiguousStep(v: Version, cursor: nat, last: nat)
    requires cursor <= last
    requires var b := FirstBlock(v, cursor, last);
      LastOf(b) != AllOnes(v) ==> Contiguous(SummarizeFrom(v, LastOf(b) + 1, last))
    ensures Contiguous(SummarizeFrom(v, cursor, last))
  {
    var ns := SummarizeFrom(v, cursor, last);
    Unfold(v, cursor, last);
    var next := LastOf(ns[0]) + 1;
    if LastOf(ns[0]) != AllOnes(v) && next <= last {
      Unfold(v, next, last);
    }
    ContiguousCons(ns);
  }

  /** Contiguity of a list from contiguity of its tail and the first seam. */
  lemma ContiguousCons(ns: seq<Network>)
    requires |ns| > 0 && AllInWidth(ns) && Contiguous(ns[1..])
    requires |ns| > 1 ==> LastOf(ns[0]) + 1 == ns[1].network
    ensures Contiguous(ns)
  {
    forall i | 1 <= i < |ns| - 1
      ensures LastOf(ns[i]) + 1 == ns[i + 1].network
    {
      assert ns[i] == ns[1..][i - 1] && ns[i + 1] == ns[1..][i];
    }
  }

  /** Contiguous blocks are sorted and pairwise disjoint. */
  lemma ContiguousIsSorted(ns: seq<Network>)
    requires AllInWidth(ns) && Contiguous(ns)
    ensures SortedDisjoint(ns)
  {
    forall i, j | 0 <= i < j < |ns|
      ensures LastOf(ns[i]) < ns[j].network
    {
      ContiguousIsSortedFrom(ns, i, j);
    }
  }

  lemma {:induction false} ContiguousIsSortedFrom(ns: seq<Network>, i: nat, j: nat)
    requires AllInWidth(ns) && Contiguous(ns) && i < j < |ns|
    ensures LastOf(ns[i]) < ns[j].network
    decreases j
  {
    if i < j - 1 {
      ContiguousIsSortedFrom(ns, i, j - 1);
    }
  }

  lemma SummarizeSorted(v: Version, cursor: nat, last: nat)
    ensures SortedDisjoint(SummarizeFrom(v, cursor, last))
  {
    SummarizeContiguous(v, cursor, last);
    ContiguousIsSorted(SummarizeFrom(v, cursor, last));
  }

  /** Exact cover: an address lies in some block if and only if it lies in [cursor, last]. */
  lemma SummarizeCovers(v: Version, cursor: nat, last: nat, x: nat)
    requires last <= AllOnes(v)
    ensures Covered(x, SummarizeFrom(v, cursor, last)) <==> cursor <= x <= last
  {
    if cursor <= x <= last {
      SummarizeReaches(v, cursor, last, x);
    }
    SummarizeWithin(v, cursor, last);
  }

  /** Every address of [cursor, last] is in some block. */
  lemma SummarizeReaches(v: Version, cursor: nat, last: nat, x: nat)
    requires last <= AllOnes(v) && cursor <= x <= last
    ensures Covered(x, SummarizeFrom(v, cursor, last))
  {
    var ns := SummarizeFrom(v, cursor, last);
    Unfold(v, cursor, last);
    SummarizeContiguous(v, cursor, last);
    EndsAtLast(v, cursor, last);
    ContiguousCovers(ns, 0, x);
  }

  /** Contiguous blocks cover every address from the start of block `i` to the end of the last block. */
  lemma {:induction false} ContiguousCovers(ns: seq<Network>, i: nat, x: nat)
    requires AllInWidth(ns) && Contiguous(ns) && i < |ns|
    requires ns[i].network <= x <= LastOf(ns[|ns| - 1])
    ensures Covered(x, ns)
    decreases |ns| - i
  {
    if x <= LastOf(ns[i]) {
      assert InNetwork(x, ns[i]);
    } else {
      ContiguousCovers(ns, i + 1, x);
    }
  }

  /** Every block is aligned to its size and as large as the range allows. */
  lemma {:induction false} SummarizeBest(v: Version, cursor: nat, last: nat)
    ensures AllBest(SummarizeFrom(v, cursor, last), last)
    decreases last + 1 - cursor
  {
    if cursor <= last {
      var b := FirstBlock(v, cursor, last);
      if LastOf(b) != AllOnes(v) {
        SummarizeBest(v, LastOf(b) + 1, last);
      }
      BestStep(v, cursor, last);
    }
  }

  /** Every block aligned to its size and maximal below `last`. */
  predicate AllBest(ns: seq<Network>, last: nat)
    requires AllInWidth(ns)
  {
    AllWellFormed(ns) && AllMaximal(ns, last)
  }

  /** One loop step keeps every block aligned and maximal. */
  lemma BestStep(v: Version, cursor: nat, last: nat)
    requires cursor <= last
    requires var b := FirstBlock(v, cursor, last);
      LastOf(b) != AllOnes(v) ==> AllBest(SummarizeFrom(v, LastOf(b) + 1, last), last)
    ensures AllBest(SummarizeFrom(v, cursor, last), last)
  {
    var ns := SummarizeFrom(v, cursor, last);
    Unfold(v, cursor, last);
    FirstBlockIsBest(v, cursor, last);
    EveryCons(ns, last);
  }

  /** Every block aligned and maximal, from the head and the tail. */
  lemma EveryCons(ns: seq<Network>, last: nat)
    requires |ns| > 0 && AllInWidth(ns)
    ensures AllMaximal(ns[1..], last) && Maximal(ns[0], last) ==> AllMaximal(ns, last)
    ensures AllWellFormed(ns[1..]) && WellFormed(ns[0]) ==> AllWellFormed(ns)
  {
    forall i | 1 <= i < |ns|
      ensures ns[i] == ns[1..][i - 1]
    {
    }
  }

  /** Degenerate range: one host-length block (/32 or /128). */
  lemma SummarizeSingleHost(a: Address)
    ensures Summarize(a, a) == Ok([Network(a.version, a.value, Width(a.version))])
  {
    var v := a.version;
    assert BitLength(1) == 1;
    assert HostBits(a.value, a.value, Width(v)) == 0;
    var b := FirstBlock(v, a.value, a.value);
    assert b == Network(v, a.value, Width(v));
    assert LastOf(b) == a.value;
    Unfold(v, a.value, a.value);
    var ns := SummarizeFrom(v, a.value, a.value);
    assert ns[1..] == [];
    assert ns == [ns[0]] + ns[1..];
    assert ns == [b];
    assert Summarize(a, a) == Ok(ns);
  }

  lemma {:induction false} Pow2Strict(a: nat, b: nat)
    requires a < b
    ensures Pow2(a) < Pow2(b)
  {
    Pow2Monotone(a, b - 1);
  }

  /** Summarising the range of a well-formed block gives back exactly that block. */
  lemma SummarizeBlockIsIdentity(n: Network)
    requires WellFormed(n)
    ensures SummarizeFrom(n.version, n.network, LastOf(n)) == [n]
  {
    var w := Width(n.version);
    var h := w - n.prefixLen;
    var k := HostBits(n.network, LastOf(n), w);
    if h < k {
      Pow2Strict(h, k);
    }
    if k < h {
      AlignedWeaken(n.network, h, k + 1);
      Pow2Monotone(k + 1, h);
    }
    assert k == h;
    Unfold(n.version, n.network, LastOf(n));
    var ns := SummarizeFrom(n.version, n.network, LastOf(n));
    assert ns[1..] == [];
    assert ns == [ns[0]] + ns[1..];
  }

  /** The last block ends at `last`. */
  predicate EndsAt(ns: seq<Network>, last: nat)
    requires AllInWidth(ns)
  {
    |ns| > 0 && LastOf(ns[|ns| - 1]) == last
  }

  /** The loop runs until a block ends exactly at `last`. */
  lemma {:induction false} EndsAtLast(v: Version, cursor: nat, last: nat)
    requires cursor <= last <= AllOnes(v)
    ensures EndsAt(SummarizeFrom(v, cursor, last), last)
    decreases last + 1 - cursor
  {
    var b := FirstBlock(v, cursor, last);
    if LastOf(b) < last {
      var next := LastOf(b) + 1;
      StepOn(v, cursor, last);
      EndsAtLast(v, next, last);
      EndsAtCons(b, SummarizeFrom(v, next, last), last);
    } else {
      StepDone(v, cursor, last);
    }
  }

  lemma EndsAtCons(b: Network, t: seq<Network>, last: nat)
    requires InWidth(b) && AllInWidth(t) && EndsAt(t, last)
    ensures AllInWidth([b] + t) && EndsAt([b] + t, last)
  {
    assert ([b] + t)[|[b] + t| - 1] == t[|t| - 1];
  }

  /** The loop goes on past a block that ends before `last`. */
  lemma StepOn(v: Version, cursor: nat, last: nat)
    requires cursor <= last <= AllOnes(v)
    requires LastOf(FirstBlock(v, cursor, last)) < last
    ensures var b := FirstBlock(v, cursor, last);
      SummarizeFrom(v, cursor, last) == [b] + SummarizeFrom(v, LastOf(b) + 1, last)
  {
  }

  /** The loop stops after a block that ends at `last`. */
  lemma StepDone(v: Version, cursor: nat, last: nat)
    requires cursor <= last
    requires LastOf(FirstBlock(v, cursor, last)) == last
    ensures SummarizeFrom(v, cursor, last) == [FirstBlock(v, cursor, last)]
  {
  }

  /**
   * `Summarize` succeeds exactly on same-version ordered bounds and then
   * yields well-formed, maximal blocks of that version, sorted, disjoint and
   * contiguous, from `first` to `last`, whose union is exactly [first, last].
   */
  lemma SummarizeCorrect(first: Address, last: Address)
    requires first.version == last.version && first.value <= last.value && ValidAddress(last)
    ensures Summarize(first, last).Ok?
    ensures var ns := Summarize(first, last).value;
      |ns| > 0 && AllWellFormed(ns) &&
      ns[0].network == first.value && LastOf(ns[|ns| - 1]) == last.value &&
      (forall i :: 0 <= i < |ns| ==> ns[i].version == first.version) &&
      SortedDisjoint(ns) && Contiguous(ns) && AllMaximal(ns, last.value) &&
      (forall x: nat :: Covered(x, ns) <==> first.value <= x <= last.value)
  {
    var v, c, l := first.version, first.value, last.value;
    Unfold(v, c, l);
    SummarizeBest(v, c, l);
    assert AllBest(SummarizeFrom(v, c, l), l);
    EndsAtLast(v, c, l);
    SummarizeWithin(v, c, l);
    SummarizeContiguous(v, c, l);
    SummarizeSorted(v, c, l);
    forall x: nat
      ensures Covered(x, SummarizeFrom(v, c, l)) <==> c <= x <= l
    {
      SummarizeCovers(v, c, l, x);
    }
  }

  /**
   * A range that is exactly one aligned run of 256 addresses (8.8.8.0 -
   * 8.8.8.255, say) is that one block, a /24 for IPv4.
   */
  lemma AlignedByteRange(v: Version, x: nat, last: nat)
    requires x % 256 == 0 && last == x + 255 && last <= AllOnes(v)
    ensures Summarize(Address(v, x), Address(v, last)) == Ok([Network(v, x, Width(v) - 8)])
  {
    AlignedByteBlock(v, x, last);
  }

  lemma AlignedByteBlock(v: Version, x: nat, last: nat)
    requires x % 256 == 0 && last == x + 255 && last <= AllOnes(v)
    ensures SummarizeFrom(v, x, last) == [Network(v, x, Width(v) - 8)]
  {
    var n := Network(v, x, Width(v) - 8);
    AlignedIsMultiple(x, 8);
    assert Pow2(8) == 256;
    assert Width(v) - n.prefixLen == 8;
    assert LastOf(n) == last;
    SummarizeBlockIsIdentity(n);
  }

  /**
   * From the second address of an aligned four-block to its end (10.0.0.1 -
   * 10.0.0.3, say): a single host, then a block of two (a /32 and a /31 for
   * IPv4).
   */
  lemma OddStartOfFourBlock(v: Version, c: nat, last: nat)
    requires c % 4 == 1 && last == c + 2 && last <= AllOnes(v)
    ensures Summarize(Address(v, c), Address(v, last)) ==
      Ok([Network(v, c, Width(v)), Network(v, c + 1, Width(v) - 1)])
  {
    OddStartBlocks(v, c, last);
  }

  lemma OddStartBlocks(v: Version, c: nat, last: nat)
    requires c % 4 == 1 && last == c + 2 && last <= AllOnes(v)
    ensures SummarizeFrom(v, c, last) == [Network(v, c, Width(v)), Network(v, c + 1, Width(v) - 1)]
  {
    OddFirstBlock(v, c);
    StepOn(v, c, last);
    TailOfFourBlock(v, c + 1, last);
  }

  /** At an odd address the block is a single host. */
  lemma OddFirstBlock(v: Version, c: nat)
    requires c % 4 == 1
    ensures FirstBlock(v, c, c + 2) == Network(v, c, Width(v))
    ensures LastOf(Network(v, c, Width(v))) == c
  {
    assert c == 4 * (c / 4) + 1;
    ModOfDecomposition(c, 2, 2 * (c / 4), 1);
    HostBitsOfOdd(c, c + 2, Width(v));
  }

  /** The second half of an aligned four-block is one block of two. */
  lemma TailOfFourBlock(v: Version, c: nat, last: nat)
    requires c % 4 == 2 && last == c + 1
    ensures SummarizeFrom(v, c, last) == [Network(v, c, Width(v) - 1)]
  {
    var tail := Network(v, c, Width(v) - 1);
    assert c == 2 * (2 * (c / 4) + 1) + 0;
    ModOfDecomposition(c, 2, 2 * (c / 4) + 1, 0);
    assert Aligned(c, 1);
    assert Width(v) - tail.prefixLen == 1;
    assert Pow2(1) == 2;
    assert LastOf(tail) == last;
    SummarizeBlockIsIdentity(tail);
  }

  lemma HostBitsOfOdd(c: nat, last: nat, bits: nat)
    requires c % 2 == 1 && c <= last && bits > 0
    ensures HostBits(c, last, bits) == 0
  {
    assert TrailingZeros(c, bits) == 0;
  }
}
