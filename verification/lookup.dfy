/**
 * The routing table: a singly linked list of routes, newest first, with
 * insert-if-better / replace / delete keyed by (addr, len), a longest-prefix
 * lookup and the split-horizon snapshot advertised to neighbours
 * (section 3.4.3 of RFC 2453).
 *
 * The list is held as a sequence, head first. Addresses and next hops follow
 * the storage convention of the rest of the router: the first wire byte is
 * the low byte, so a prefix of length `len` is the low `len` bits.
 */
module Lookup {
  import opened Wire
  import opened Protocol
  import opened Bits

  /** One route; `metric` is kept in network order, like every RIP metric. */
  datatype RouteEntry = RouteEntry(addr: bv32, len: u32, ifIndex: u32, nexthop: bv32, metric: bv32, timeStamp: u64)

  /** Prefix lengths the shifts of the table's users can take without exceeding the word. */
  predicate LensInRange(t: seq<RouteEntry>)
  {
    forall i :: 0 <= i < |t| ==> t[i].len <= 32
  }

  /** Two routes with the same destination: addr and len both equal. */
  predicate SameKey(f: RouteEntry, e: RouteEntry)
  {
    f.addr == e.addr && f.len == e.len
  }

  /**
   * The prefix test of query, `(addr << (32 - len)) == (prefix << (32 - len))`
   * on unsigned 32-bit words. A shift by 32 (len 0) gives 0; no outcome
   * depends on it, because a length-0 entry is never selected.
   */
  predicate PrefixMatch(addr: bv32, prefix: bv32, len: u32)
    requires len <= 32
  {
    ShiftLeft(addr, 32 - len) == ShiftLeft(prefix, 32 - len)
  }

  /** The mask of the low `len` bits, `0xffffffff >> (32 - len)` (0 for length 0). */
  function LenMask(len: u32): bv32
    requires len <= 32
  {
    ShiftRight(0xffff_ffff, 32 - len)
  }

  lemma MatchedLowBits(addr: bv32, prefix: bv32, len: u32)
    requires len <= 32 && PrefixMatch(addr, prefix, len)
    ensures addr & LenMask(len) == prefix & LenMask(len)
  {
    ShiftedEqualIsMaskedEqual(addr, prefix, 32 - len);
  }

  lemma LowBitsMatched(addr: bv32, prefix: bv32, len: u32)
    requires len <= 32 && addr & LenMask(len) == prefix & LenMask(len)
    ensures PrefixMatch(addr, prefix, len)
  {
    ShiftedEqualIsMaskedEqual(addr, prefix, 32 - len);
  }

  /**
   * What the shift test means: the address and the prefix agree in their
   * low `len` bits, the first `len` bits on the wire.
   */
  lemma PrefixMatchIsLowBits(addr: bv32, prefix: bv32, len: u32)
    requires len <= 32
    ensures PrefixMatch(addr, prefix, len) <==> addr & LenMask(len) == prefix & LenMask(len)
  {
    if PrefixMatch(addr, prefix, len) {
      MatchedLowBits(addr, prefix, len);
    }
    if addr & LenMask(len) == prefix & LenMask(len) {
      LowBitsMatched(addr, prefix, len);
    }
  }

  /** Entry `e` is a candidate answer of query for `addr`: a prefix of length 1 or more containing it. */
  predicate Matches(addr: bv32, e: RouteEntry)
    requires e.len <= 32
  {
    1 <= e.len && PrefixMatch(addr, e.addr, e.len)
  }

  /** Some entry of the table answers `addr`. */
  predicate Covered(t: seq<RouteEntry>, addr: bv32)
    requires LensInRange(t)
  {
    exists j :: 0 <= j < |t| && Matches(addr, t[j])
  }

  /**
   * Among the first `n` entries, `b` is the answer query settles on: it
   * matches, no matching entry is longer, and every matching entry before it
   * is strictly shorter (ties go to the entry nearest the head).
   */
  predicate IsBestUpTo(t: seq<RouteEntry>, addr: bv32, b: nat, n: nat)
    requires LensInRange(t) && n <= |t|
  {
    b < n && Matches(addr, t[b])
    && (forall j :: 0 <= j < n && Matches(addr, t[j]) ==> t[j].len <= t[b].len)
    && (forall j :: 0 <= j < b && Matches(addr, t[j]) ==> t[j].len < t[b].len)
  }

  /** `b` is the longest match for `addr`, the first such in list order. */
  predicate IsBest(t: seq<RouteEntry>, addr: bv32, b: nat)
    requires LensInRange(t)
  {
    IsBestUpTo(t, addr, b, |t|)
  }

  /**
   * Query's accumulators after scanning the first `n` entries: whether a
   * route was found, the index of the answer and its length. An entry
   * becomes the answer when it passes the shift test and is strictly longer
   * than the current length, which starts at 0.
   */
  function Scan(t: seq<RouteEntry>, addr: bv32, n: nat): (bool, nat, u32)
    requires LensInRange(t) && n <= |t|
  {
    if n == 0 then (false, 0, 0)
    else
      var (found, b, len) := Scan(t, addr, n - 1);
      var e := t[n - 1];
      if PrefixMatch(addr, e.addr, e.len) && e.len > len then (true, n - 1, e.len) else (found, b, len)
  }

  /**
   * What the scan computes: it has found a route exactly when one of the
   * first `n` entries matches, and then its answer is the first longest match
   * among them; with nothing found the length is still 0.
   */
  lemma {:induction false} ScanIsBest(t: seq<RouteEntry>, addr: bv32, n: nat)
    requires LensInRange(t) && n <= |t|
    ensures var (found, b, len) := Scan(t, addr, n);
      (found ==> IsBestUpTo(t, addr, b, n) && len == t[b].len)
      && (!found ==> len == 0 && forall j :: 0 <= j < n ==> !Matches(addr, t[j]))
  {
    if n > 0 {
      ScanIsBest(t, addr, n - 1);
      var (found, b, len) := Scan(t, addr, n - 1);
      var e := t[n - 1];
      if PrefixMatch(addr, e.addr, e.len) && e.len > len {
        BestMoves(t, addr, b, n - 1, found, len);
      } else if found {
        BestStays(t, addr, b, n - 1);
      } else {
        assert !Matches(addr, e);
      }
    }
  }

  /** Query keeps its answer when the next entry matches no better. */
  lemma BestStays(t: seq<RouteEntry>, addr: bv32, b: nat, n: nat)
    requires LensInRange(t) && n < |t| && IsBestUpTo(t, addr, b, n)
    requires !(Matches(addr, t[n]) && t[n].len > t[b].len)
    ensures IsBestUpTo(t, addr, b, n + 1)
  {
  }

  /**
   * Query moves its answer to the next entry when it passes the shift test
   * and is longer than the answer so far (or than 0 when there is none yet).
   */
  lemma BestMoves(t: seq<RouteEntry>, addr: bv32, b: nat, n: nat, found: bool, len: u32)
    requires LensInRange(t) && n < |t|
    requires found ==> IsBestUpTo(t, addr, b, n) && len == t[b].len
    requires !found ==> len == 0 && forall j :: 0 <= j < n ==> !Matches(addr, t[j])
    requires PrefixMatch(addr, t[n].addr, t[n].len) && t[n].len > len
    ensures IsBestUpTo(t, addr, n, n + 1)
  {
  }

  /** The longest match is unique, so query's answer is determined by the table. */
  lemma BestIsUnique(t: seq<RouteEntry>, addr: bv32, b: nat, c: nat)
    requires LensInRange(t) && IsBest(t, addr, b) && IsBest(t, addr, c)
    ensures b == c
  {
    if b < c {
      assert false;
    } else if c < b {
      assert false;
    }
  }

  /** An entry that insert overwrites: same key and a strictly larger stored metric. */
  predicate Replaceable(f: RouteEntry, e: RouteEntry)
  {
    SameKey(f, e) && f.metric > e.metric
  }

  /** The index of the first replaceable entry, if any. */
  function FirstReplaceable(t: seq<RouteEntry>, e: RouteEntry): (r: Option<nat>)
    ensures r.Some? ==> r.value < |t| && Replaceable(t[r.value], e)
    ensures r.Some? ==> forall j :: 0 <= j < r.value ==> !Replaceable(t[j], e)
    ensures r.None? ==> forall j :: 0 <= j < |t| ==> !Replaceable(t[j], e)
  {
    if |t| == 0 then None
    else if Replaceable(t[0], e) then Some(0)
    else match FirstReplaceable(t[1..], e)
      case None => None
      case Some(i) => Some(i + 1)
  }

  /** The index of the first entry with the key of `e`, if any. */
  function FirstSameKey(t: seq<RouteEntry>, e: RouteEntry): (r: Option<nat>)
    ensures r.Some? ==> r.value < |t| && SameKey(t[r.value], e)
    ensures r.Some? ==> forall j :: 0 <= j < r.value ==> !SameKey(t[j], e)
    ensures r.None? ==> forall j :: 0 <= j < |t| ==> !SameKey(t[j], e)
  {
    if |t| == 0 then None
    else if SameKey(t[0], e) then Some(0)
    else match FirstSameKey(t[1..], e)
      case None => None
      case Some(i) => Some(i + 1)
  }

  /**
   * The table and result of `update(true, e)`: an empty table takes the
   * entry; otherwise the first entry with the same key and a strictly larger
   * metric is overwritten; otherwise the entry is prepended unless some entry
   * already answers a query for its address.
   */
  function Inserted(t: seq<RouteEntry>, e: RouteEntry): (r: (seq<RouteEntry>, bool))
    requires LensInRange(t)
    ensures r.1 ==> e in r.0 && |r.0| >= |t|
    ensures !r.1 ==> r.0 == t
  {
    if |t| == 0 then ([e], true)
    else match FirstReplaceable(t, e)
      case Some(i) => assert t[i := e][i] == e; (t[i := e], true)
      case None => if Covered(t, e.addr) then (t, false) else ([e] + t, true)
  }

  /** The table after `update(false, e)`: the first entry with the key of `e` is unlinked. */
  function Deleted(t: seq<RouteEntry>, e: RouteEntry): (r: seq<RouteEntry>)
    ensures (forall j :: 0 <= j < |t| ==> !SameKey(t[j], e)) ==> r == t
    ensures (exists j :: 0 <= j < |t| && SameKey(t[j], e)) ==> |r| == |t| - 1
    ensures multiset(r) <= multiset(t)
  {
    match FirstSameKey(t, e)
      case None => t
      case Some(i) =>
        assert t == t[..i] + [t[i]] + t[i + 1..];
        t[..i] + t[i + 1..]
  }

  /** Insert only adds the new entry: every entry afterwards is the new one or was there before. */
  lemma InsertedFrom(t: seq<RouteEntry>, e: RouteEntry)
    requires LensInRange(t)
    ensures forall k :: 0 <= k < |Inserted(t, e).0| ==> Inserted(t, e).0[k] == e || Inserted(t, e).0[k] in t
  {
    var r := Inserted(t, e).0;
    forall k | 0 <= k < |r|
      ensures r[k] == e || r[k] in t
    {
      if |t| > 0 && FirstReplaceable(t, e).None? && !Covered(t, e.addr) {
        assert r[k] == if k == 0 then e else t[k - 1];
      }
    }
  }

  /** No two entries of length 1 or more share a key. */
  predicate UniqueKeys(t: seq<RouteEntry>)
  {
    forall i, j :: 0 <= i < j < |t| && SameKey(t[i], t[j]) ==> t[i].len == 0
  }

  /** An entry with the same key as `e` and length 1 or more answers a query for `e.addr`. */
  lemma SameKeyCovers(t: seq<RouteEntry>, e: RouteEntry, j: nat)
    requires LensInRange(t) && j < |t| && SameKey(t[j], e) && 1 <= e.len
    ensures Covered(t, e.addr)
  {
    assert Matches(e.addr, t[j]);
  }

  /** Insert never creates two entries with the same key of length 1 or more. */
  lemma InsertedKeepsUniqueKeys(t: seq<RouteEntry>, e: RouteEntry)
    requires LensInRange(t) && UniqueKeys(t)
    ensures UniqueKeys(Inserted(t, e).0)
  {
    forall k | 0 <= k < |t| && SameKey(t[k], e) && 1 <= e.len
      ensures Covered(t, e.addr)
    {
      SameKeyCovers(t, e, k);
    }
    if |t| > 0 && FirstReplaceable(t, e).None? && !Covered(t, e.addr) {
      var r := [e] + t;
      forall i, j | 0 <= i < j < |r| && SameKey(r[i], r[j])
        ensures r[i].len == 0
      {
        assert r[i] == if i == 0 then e else t[i - 1];
        assert r[j] == t[j - 1];
      }
    }
  }

  /** With unique keys, an entry whose metric is not strictly worse is never replaced and nothing is added. */
  lemma NoReplaceWhenNotBetter(t: seq<RouteEntry>, e: RouteEntry, j: nat)
    requires LensInRange(t) && UniqueKeys(t)
    requires j < |t| && SameKey(t[j], e) && 1 <= e.len && t[j].metric <= e.metric
    ensures Inserted(t, e) == (t, false)
  {
    SameKeyCovers(t, e, j);
    OnlyEntryWithKey(t, e, j);
    assert FirstReplaceable(t, e).None?;
  }

  /** With unique keys, an entry with the same key and a strictly larger metric is overwritten in place and nothing else changes. */
  lemma ReplaceWhenBetter(t: seq<RouteEntry>, e: RouteEntry, j: nat)
    requires LensInRange(t) && UniqueKeys(t)
    requires j < |t| && SameKey(t[j], e) && 1 <= e.len && t[j].metric > e.metric
    ensures Inserted(t, e) == (t[j := e], true)
  {
    OnlyEntryWithKey(t, e, j);
    assert FirstReplaceable(t, e) == Some(j);
  }

  /** With unique keys, the entry at `j` is the only one with the key of `e`. */
  lemma OnlyEntryWithKey(t: seq<RouteEntry>, e: RouteEntry, j: nat)
    requires UniqueKeys(t) && j < |t| && SameKey(t[j], e) && 1 <= e.len
    ensures forall k :: 0 <= k < |t| && SameKey(t[k], e) ==> k == j
  {
    forall k | 0 <= k < |t| && SameKey(t[k], e)
      ensures k == j
    {
      assert SameKey(t[k], t[j]) && SameKey(t[j], t[k]);
    }
  }

  /** A route of length 1 or more matches its own address. */
  lemma SelfMatch(e: RouteEntry)
    requires 1 <= e.len <= 32
    ensures Matches(e.addr, e)
  {
  }

  /** After an insert that reports a change, query finds a route for the inserted address. */
  lemma InsertedIsCovered(t: seq<RouteEntry>, e: RouteEntry)
    requires LensInRange(t) && 1 <= e.len <= 32 && Inserted(t, e).1
    ensures LensInRange(Inserted(t, e).0) && Covered(Inserted(t, e).0, e.addr)
  {
    var r := Inserted(t, e).0;
    var k :| 0 <= k < |r| && r[k] == e;
    SelfMatch(e);
  }

  /** Delete removes the only entry carrying the key, when keys are unique. */
  lemma DeletedRemovesKey(t: seq<RouteEntry>, e: RouteEntry)
    requires UniqueKeys(t) && 1 <= e.len
    ensures forall j :: 0 <= j < |Deleted(t, e)| ==> !SameKey(Deleted(t, e)[j], e)
  {
    match FirstSameKey(t, e)
    case None =>
    case Some(i) =>
      OnlyEntryWithKey(t, e, i);
      var r := Deleted(t, e);
      forall j | 0 <= j < |r|
        ensures !SameKey(r[j], e)
      {
        assert r[j] == if j < i then t[j] else t[j + 1];
      }
  }

  /** Delete keeps the remaining entries in their order, so keys stay unique. */
  lemma DeletedKeepsUniqueKeys(t: seq<RouteEntry>, e: RouteEntry)
    requires UniqueKeys(t)
    ensures UniqueKeys(Deleted(t, e))
  {
    match FirstSameKey(t, e)
    case None =>
    case Some(i) =>
      var r := Deleted(t, e);
      forall a, b | 0 <= a < b < |r| && SameKey(r[a], r[b])
        ensures r[a].len == 0
      {
        var a' := if a < i then a else a + 1;
        var b' := if b < i then b else b + 1;
        assert r[a] == t[a'] && r[b] == t[b'];
      }
  }

  /** The entry genRipPack emits for route `e`: its address, a mask of `len` low bits, its next hop and metric. */
  function AdvertisedEntry(e: RouteEntry): RipEntry
    requires 1 <= e.len <= 32
  {
    RipEntry(e.addr, LenMask(e.len), e.nexthop, e.metric)
  }

  /** Every route genRipPack can emit on interface `ifIndex` has a length of 1 to 32. */
  predicate Advertisable(t: seq<RouteEntry>, ifIndex: u32)
  {
    forall i :: 0 <= i < |t| && t[i].ifIndex != ifIndex ==> 1 <= t[i].len <= 32
  }

  /** The entries genRipPack emits on interface `ifIndex`: every route learnt elsewhere, in list order. */
  function Advertised(t: seq<RouteEntry>, ifIndex: u32): (r: seq<RipEntry>)
    requires Advertisable(t, ifIndex)
    ensures |r| <= |t|
  {
    if |t| == 0 then []
    else
      var last := t[|t| - 1];
      Advertised(t[..|t| - 1], ifIndex) + (if last.ifIndex != ifIndex then [AdvertisedEntry(last)] else [])
  }

  /**
   * Split horizon, both directions: an entry is advertised on `ifIndex`
   * exactly when it is the advertisement of a route not learnt on `ifIndex`.
   */
  lemma {:induction false} AdvertisedIsSplitHorizon(t: seq<RouteEntry>, ifIndex: u32, x: RipEntry)
    requires Advertisable(t, ifIndex)
    ensures x in Advertised(t, ifIndex) <==>
      exists i :: 0 <= i < |t| && t[i].ifIndex != ifIndex && x == AdvertisedEntry(t[i])
  {
    if |t| > 0 {
      var s := t[..|t| - 1];
      AdvertisedIsSplitHorizon(s, ifIndex, x);
      if x in Advertised(t, ifIndex) && x !in Advertised(s, ifIndex) {
        assert t[|t| - 1].ifIndex != ifIndex && x == AdvertisedEntry(t[|t| - 1]);
      }
      if exists i :: 0 <= i < |t| && t[i].ifIndex != ifIndex && x == AdvertisedEntry(t[i]) {
        var i :| 0 <= i < |t| && t[i].ifIndex != ifIndex && x == AdvertisedEntry(t[i]);
        if i < |t| - 1 {
          assert s[i] == t[i];
        }
      }
    }
  }

  /** A mask of `len` low bits has the shape disassemble accepts. */
  lemma LenMaskIsPrefix(len: u32)
    requires len <= 32
    ensures IsPrefixMask(LenMask(len))
  {
    OnesShiftedIsLowMask(32 - len);
  }

  /**
   * The routing table, the list `start` of the source. Every entry's length
   * is at most 32, which the shifts of query and genRipPack rely on.
   */
  class RoutingTable {
    var entries: seq<RouteEntry>

    predicate Valid()
      reads this
    {
      LensInRange(entries)
    }

    /** An empty table (`start == NULL`). */
    constructor ()
      ensures Valid() && entries == []
    {
      entries := [];
    }

    /**
     * query: longest-prefix match for `addr`. The outputs stand for the
     * caller's `*nexthop` and `*if_index`, which keep their prior values
     * `nexthop0` and `ifIndex0` unless a route is found.
     */
    method Query(addr: bv32, nexthop0: bv32, ifIndex0: u32) returns (found: bool, nexthop: bv32, ifIndex: u32)
      requires Valid()
      ensures found <==> Covered(entries, addr)
      ensures found ==> exists b: nat :: IsBest(entries, addr, b) && nexthop == entries[b].nexthop && ifIndex == entries[b].ifIndex
      ensures !found ==> nexthop == nexthop0 && ifIndex == ifIndex0
    {
      found, nexthop, ifIndex := false, nexthop0, ifIndex0;
      var len: u32 := 0;
      ghost var best: nat := 0;
      var i := 0;
      while i < |entries|
        invariant 0 <= i <= |entries|
        invariant (found, best, len) == Scan(entries, addr, i)
        invariant !found ==> nexthop == nexthop0 && ifIndex == ifIndex0
        invariant found ==> best < |entries| && nexthop == entries[best].nexthop && ifIndex == entries[best].ifIndex
      {
        var e := entries[i];
        if PrefixMatch(addr, e.addr, e.len) {
          if e.len > len {
            len := e.len;
            nexthop := e.nexthop;
            ifIndex := e.ifIndex;
            found := true;
            best := i;
          }
        }
        i := i + 1;
      }
      ScanIsBest(entries, addr, |entries|);
      if found {
        assert Matches(addr, entries[best]);
      }
    }

    /**
     * update(true, e): returns whether the table changed; see `Inserted`.
     * The replacing branch overwrites if_index, next hop, metric and time
     * stamp of an entry whose addr and len already equal those of `e`.
     */
    method Insert(e: RouteEntry) returns (updated: bool)
      requires Valid() && e.len <= 32
      modifies this
      ensures Valid()
      ensures (entries, updated) == Inserted(old(entries), e)
    {
      if |entries| == 0 {
        entries := [e];
        return true;
      }
      var i := 0;
      while i < |entries|
        invariant 0 <= i <= |entries| && entries == old(entries)
        invariant forall j :: 0 <= j < i ==> !Replaceable(entries[j], e)
      {
        var cur := entries[i];
        if Replaceable(cur, e) {
          entries := entries[i := cur.(ifIndex := e.ifIndex, nexthop := e.nexthop, metric := e.metric, timeStamp := e.timeStamp)];
          return true;
        }
        i := i + 1;
      }
      var found, _, _ := Query(e.addr, 0, 0);
      if !found {
        entries := [e] + entries;
        return true;
      } else {
        return false;
      }
    }

    /** update(false, e): unlink the first entry with the key of `e`; the source dereferences the head first, so the table must not be empty. */
    method Delete(e: RouteEntry)
      requires Valid() && |entries| > 0
      modifies this
      ensures Valid()
      ensures entries == Deleted(old(entries), e)
    {
      if SameKey(entries[0], e) {
        entries := entries[1..];
        return;
      }
      var i := 1;
      while i < |entries|
        invariant 1 <= i <= |entries| && entries == old(entries)
        invariant forall j :: 0 <= j < i ==> !SameKey(entries[j], e)
      {
        if SameKey(entries[i], e) {
          entries := entries[..i] + entries[i + 1..];
          return;
        }
        i := i + 1;
      }
    }

    /**
     * genRipPack: the split-horizon snapshot for interface `ifIndex`, with
     * command 0. The source writes into a 25-entry array without a bound,
     * so at most 25 routes may qualify.
     */
    method GenRipPack(ifIndex: u32) returns (rip: RipPacket)
      requires Valid() && Advertisable(entries, ifIndex)
      requires |Advertised(entries, ifIndex)| <= RIP_MAX_ENTRY
      ensures rip == RipPacket(0, Advertised(entries, ifIndex))
    {
      var out: seq<RipEntry> := [];
      var i := 0;
      while i < |entries|
        invariant 0 <= i <= |entries|
        invariant out == Advertised(entries[..i], ifIndex)
      {
        var e := entries[i];
        assert entries[..i + 1][..i] == entries[..i];
        if e.ifIndex != ifIndex {
          out := out + [RipEntry(e.addr, ShiftRight(0xffff_ffff, 32 - e.len), e.nexthop, e.metric)];
        }
        i := i + 1;
      }
      assert entries[..i] == entries;
      rip := RipPacket(0, out);
    }
  }
}
