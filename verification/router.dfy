/**
 * The router's main loop, without the hardware: the directly connected
 * routes it starts from, the test whether a packet is addressed to it, what
 * it does with a RIP request or response addressed to it, and the next hop
 * it picks for a packet it forwards.
 *
 * Addresses, masks, next hops and metrics follow the storage convention of
 * the rest of the router: the little-endian read of the four network-order
 * bytes.
 */
module Router {
  import opened Wire
  import opened Bits
  import opened Protocol
  import opened Lookup

  // ---------------------------------------------------------------------
  // Byte order and mask length

  /**
   * change_endian: `(a >> 24) + ((a >> 16) & 0xff) * 0x100
   * + ((a >> 8) & 0xff) * 0x10000 + (a & 0xff) * 0x1000000` on unsigned
   * 32-bit words.
   */
  function ChangeEndian(a: bv32): bv32
  {
    (a >> 24) + ((a >> 16) & 0xff) * 0x100 + ((a >> 8) & 0xff) * 0x1_0000 + (a & 0xff) * 0x100_0000
  }

  /** The arithmetic of change_endian reverses the four bytes. */
  lemma ChangeEndianIsByteSwap(a: bv32)
    ensures ChangeEndian(a) == ByteSwap(a)
  {
  }

  /** Reversing the bytes twice gives the word back. */
  lemma ChangeEndianInvolution(a: bv32)
    ensures ChangeEndian(ChangeEndian(a)) == a
  {
    ChangeEndianIsByteSwap(a);
    ChangeEndianIsByteSwap(ChangeEndian(a));
  }

  /** Bit `i` of `x`, `(x >> i) & 1`. */
  function BitOf(x: bv32, i: nat): bv32
    requires i <= 32
  {
    ShiftRight(x, i) & 1
  }

  /**
   * The loop of mask2len from bit `i` on: the first bit of `m1` (which is
   * `mask + 1`) at or above `i` that is set, or 32 when bits `i` to 31 are
   * all clear.
   */
  function Mask2LenFrom(m1: bv32, i: nat): (r: u32)
    requires i <= 32
    ensures i <= r <= 32
    ensures r < 32 ==> BitOf(m1, r) == 1
    ensures forall j :: i <= j < r ==> BitOf(m1, j) != 1
    decreases 32 - i
  {
    if i == 32 then 32
    else if BitOf(m1, i) == 1 then i
    else Mask2LenFrom(m1, i + 1)
  }

  /**
   * mask2len: the position of the lowest set bit of `mask + 1`, or 32. For a
   * mask of `len` low bits that position is `len`.
   */
  function Mask2Len(mask: bv32): (r: u32)
    ensures r <= 32
  {
    Mask2LenFrom(mask + 1, 0)
  }

  /** 2^k, halved: `(LenMask(k) + 1) >> 1 == LenMask(k - 1) + 1`. */
  lemma LenMaskIncrementHalved(k: u32)
    requires 1 <= k <= 31
    ensures (LenMask(k) + 1) >> 1 == LenMask(k - 1) + 1
  {
    OnesShiftedIsLowMask(32 - k);
    OnesShiftedIsOdd(32 - k);
    OnesShiftedIsNotOnes(32 - k);
    ShiftRightUnfold(0xffff_ffff, 33 - k);
    IncrementHalved(LenMask(k));
  }

  /** Shifting 2^k right by `i` gives 2^(k - i). */
  lemma {:induction false} LenMaskIncrementShifted(k: u32, i: nat)
    requires i <= k <= 31
    ensures ShiftRight(LenMask(k) + 1, i) == LenMask(k - i) + 1
    decreases i
  {
    if i != 0 {
      LenMaskIncrementShifted(k, i - 1);
      ShiftRightUnfold(LenMask(k) + 1, i);
      LenMaskIncrementHalved(k - i + 1);
    }
  }

  /** Below bit `k`, 2^k has no set bit; bit `k` is set. */
  lemma LenMaskIncrementBit(k: u32, i: nat)
    requires i <= k <= 31
    ensures BitOf(LenMask(k) + 1, i) == if i == k then 1 else 0
  {
    LenMaskIncrementShifted(k, i);
    if i < k {
      OnesShiftedIsOdd(32 - (k - i));
    } else {
      OnesShiftedBy32();
    }
  }

  /** The scan of mask2len from bit `i` stops at bit `k` on 2^k. */
  lemma {:induction false} Mask2LenFromLenMask(k: u32, i: nat)
    requires i <= k <= 31
    ensures Mask2LenFrom(LenMask(k) + 1, i) == k
    decreases k - i
  {
    LenMaskIncrementBit(k, i);
    if i < k {
      Mask2LenFromLenMask(k, i + 1);
    }
  }

  /** The scan of mask2len on 0 runs to the end. */
  lemma {:induction false} Mask2LenFromZero(i: nat)
    requires i <= 32
    ensures Mask2LenFrom(0, i) == 32
    decreases 32 - i
  {
    if i < 32 {
      ZeroShifted(i);
      Mask2LenFromZero(i + 1);
    }
  }

  /**
   * mask2len inverts the mask genRipPack emits: the mask of `len` low bits
   * has length `len`, for every length from 0 to 32.
   */
  lemma Mask2LenOfLenMask(len: u32)
    requires len <= 32
    ensures Mask2Len(LenMask(len)) == len
  {
    if len == 32 {
      assert LenMask(32) == 0xffff_ffff;
      Mask2LenFromZero(0);
    } else {
      Mask2LenFromLenMask(len, 0);
    }
  }

  // ---------------------------------------------------------------------
  // Interfaces and direct routes

  /** Number of interfaces. */
  const N_IFACE_ON_BOARD: nat := 4

  /** The interface addresses `addrs`: 192.168.3.2, 10.0.2.1, 192.168.4.1 and 10.0.3.1. */
  const ADDRS: seq<bv32> := [0x0203_a8c0, 0x0102_000a, 0x0104_a8c0, 0x0103_000a]

  /** 224.0.0.9, the RIPv2 multicast group (section 4.5 of RFC 2453). */
  const RIP_MULTICAST: bv32 := 0x0900_00e0

  /** Metric 1 in network order. */
  const METRIC_ONE: bv32 := 0x0100_0000

  /** Metric 17 in network order: an advertised 16 (infinity) plus one hop. */
  const WITHDRAWN_METRIC: bv32 := 0x1100_0000

  /** The route to the /24 network of interface `i` as bootstrap builds it: next hop 0 (direct) and metric 0. */
  function DirectRouteAsWritten(i: nat): RouteEntry
    requires i < N_IFACE_ON_BOARD
  {
    RouteEntry(ADDRS[i] & 0x00ff_ffff, 24, i, 0, 0, 0)
  }

  /** The direct route with metric 1, the cost of a directly connected network. */
  function DirectRoute(i: nat): RouteEntry
    requires i < N_IFACE_ON_BOARD
  {
    DirectRouteAsWritten(i).(metric := METRIC_ONE)
  }

  /** The table after the direct routes of interfaces 0 to `n - 1` are inserted: newest first. */
  function BootstrapTable(n: nat): (r: seq<RouteEntry>)
    requires n <= N_IFACE_ON_BOARD
    ensures |r| == n && LensInRange(r)
    ensures forall k :: 0 <= k < n ==> r[k] == DirectRoute(n - 1 - k)
  {
    if n == 0 then [] else [DirectRoute(n - 1)] + BootstrapTable(n - 1)
  }

  /** The first three bytes of an interface address, its /24 network. */
  lemma LenMask24()
    ensures LenMask(24) == 0x00ff_ffff
  {
    assert ShiftRight(0xffff_ffff, 8) == 0x00ff_ffff;
  }

  /** The four interfaces lie on four different /24 networks. */
  lemma DirectNetworksDistinct(i: nat, j: nat)
    requires i < N_IFACE_ON_BOARD && j < N_IFACE_ON_BOARD && i != j
    ensures DirectRoute(i).addr != DirectRoute(j).addr
  {
  }

  /** An address passing the shift test of a /24 prefix shares its first three bytes. */
  lemma MatchedNetwork24(addr: bv32, prefix: bv32, len: u32)
    requires len == 24 && PrefixMatch(addr, prefix, len)
    ensures addr & 0x00ff_ffff == prefix & 0x00ff_ffff
  {
    LenMask24();
    MatchedLowBits(addr, prefix, len);
  }

  /** An address sharing the first three bytes of a /24 prefix passes its shift test. */
  lemma NetworkMatched24(addr: bv32, prefix: bv32, len: u32)
    requires len == 24 && addr & 0x00ff_ffff == prefix & 0x00ff_ffff
    ensures PrefixMatch(addr, prefix, len)
  {
    LenMask24();
    LowBitsMatched(addr, prefix, len);
  }

  /** An address matching a /24 route shares the route's first three bytes. */
  lemma Matches24(addr: bv32, e: RouteEntry)
    requires e.len == 24
    ensures Matches(addr, e) ==> addr & 0x00ff_ffff == e.addr & 0x00ff_ffff
  {
    if Matches(addr, e) {
      MatchedNetwork24(addr, e.addr, e.len);
    }
  }

  /** Two /24 routes held with their host byte cleared that an address shares are the same network. */
  lemma SameNetwork(addr: bv32, e1: RouteEntry, e2: RouteEntry)
    requires e1.addr & 0x00ff_ffff == e1.addr && e2.addr & 0x00ff_ffff == e2.addr
    requires addr & 0x00ff_ffff == e1.addr & 0x00ff_ffff && addr & 0x00ff_ffff == e2.addr & 0x00ff_ffff
    ensures e1.addr == e2.addr
  {
  }

  /** Clearing the host byte twice is clearing it once. */
  lemma NetworkOfNetwork(a: bv32)
    ensures (a & 0x00ff_ffff) & 0x00ff_ffff == a & 0x00ff_ffff
  {
  }

  /** A direct route's address has its host byte cleared. */
  lemma DirectNetworkMasked(i: nat)
    requires i < N_IFACE_ON_BOARD
    ensures DirectRoute(i).addr & 0x00ff_ffff == DirectRoute(i).addr
  {
    NetworkOfNetwork(ADDRS[i]);
  }

  /** An address sharing the first three bytes of an interface's address shares those of its direct route. */
  lemma OnDirectNetwork(addr: bv32, i: nat)
    requires i < N_IFACE_ON_BOARD && addr & 0x00ff_ffff == ADDRS[i] & 0x00ff_ffff
    ensures addr & 0x00ff_ffff == DirectRoute(i).addr & 0x00ff_ffff
  {
    NetworkOfNetwork(ADDRS[i]);
  }

  /** Every address sharing the first three bytes of an interface's address is routed by its direct route. */
  lemma DirectRouteCoversNetwork(addr: bv32, i: nat)
    requires i < N_IFACE_ON_BOARD && addr & 0x00ff_ffff == ADDRS[i] & 0x00ff_ffff
    ensures Matches(addr, DirectRoute(i))
  {
    var e := DirectRoute(i);
    OnDirectNetwork(addr, i);
    NetworkMatched24(addr, e.addr, e.len);
  }

  /** Only addresses sharing the first three bytes of an interface's address match its direct route. */
  lemma DirectRouteMatchesOnlyNetwork(addr: bv32, i: nat)
    requires i < N_IFACE_ON_BOARD && Matches(addr, DirectRoute(i))
    ensures addr & 0x00ff_ffff == ADDRS[i] & 0x00ff_ffff
  {
    Matches24(addr, DirectRoute(i));
    InterfaceNetwork(i);
  }

  /** An interface address shares the first three bytes of its direct route. */
  lemma InterfaceNetwork(i: nat)
    requires i < N_IFACE_ON_BOARD
    ensures ADDRS[i] & 0x00ff_ffff == DirectRoute(i).addr & 0x00ff_ffff
  {
    NetworkOfNetwork(ADDRS[i]);
  }

  /** The direct route of an interface answers exactly the addresses of its /24 network. */
  lemma DirectRouteMatchesIff(addr: bv32, i: nat)
    requires i < N_IFACE_ON_BOARD
    ensures Matches(addr, DirectRoute(i)) <==> addr & 0x00ff_ffff == ADDRS[i] & 0x00ff_ffff
  {
    if Matches(addr, DirectRoute(i)) {
      DirectRouteMatchesOnlyNetwork(addr, i);
    }
    if addr & 0x00ff_ffff == ADDRS[i] & 0x00ff_ffff {
      DirectRouteCoversNetwork(addr, i);
    }
  }

  /** No address lies in two of the direct networks. */
  lemma DirectRoutesDisjoint(addr: bv32, i: nat, j: nat)
    requires i < N_IFACE_ON_BOARD && j < N_IFACE_ON_BOARD && i != j
    ensures !(Matches(addr, DirectRoute(i)) && Matches(addr, DirectRoute(j)))
  {
    DirectNetworksDistinct(i, j);
    DirectNetworkMasked(i);
    DirectNetworkMasked(j);
    var ei, ej := DirectRoute(i), DirectRoute(j);
    if Matches(addr, ei) && Matches(addr, ej) {
      Matches24(addr, ei);
      Matches24(addr, ej);
      SameNetwork(addr, ei, ej);
    }
  }

  /** Inserting the next direct route prepends it: nothing replaces it and nothing covers it. */
  lemma BootstrapStep(n: nat)
    requires n < N_IFACE_ON_BOARD
    ensures Inserted(BootstrapTable(n), DirectRoute(n)) == ([DirectRoute(n)] + BootstrapTable(n), true)
  {
    var t := BootstrapTable(n);
    var e := DirectRoute(n);
    if n > 0 {
      forall k | 0 <= k < n
        ensures !Matches(e.addr, t[k]) && !SameKey(t[k], e)
      {
        SelfMatch(e);
        DirectRoutesDisjoint(e.addr, n, n - 1 - k);
      }
      assert FirstReplaceable(t, e).None?;
      assert !Covered(t, e.addr);
    } else {
      assert [e] + t == [e];
    }
  }

  /**
   * The direct-route loop of main: each interface's /24 network is
   * inserted, so the table ends up with the four direct routes, the last
   * interface's first.
   */
  method Bootstrap(t: RoutingTable)
    requires t.Valid() && t.entries == []
    modifies t
    ensures t.Valid() && t.entries == BootstrapTable(N_IFACE_ON_BOARD)
  {
    for i := 0 to N_IFACE_ON_BOARD
      invariant t.Valid() && t.entries == BootstrapTable(i)
    {
      BootstrapStep(i);
      var entry := RouteEntry(ADDRS[i] & 0x00ff_ffff, 24, i, 0, METRIC_ONE, 0);
      var _ := t.Insert(entry);
    }
  }

  /**
   * After bootstrap, every address of an interface's /24 network is routed
   * by that interface's direct route.
   */
  lemma BootstrapRoutesOwnNetworks(addr: bv32, i: nat)
    requires i < N_IFACE_ON_BOARD && addr & 0x00ff_ffff == ADDRS[i] & 0x00ff_ffff
    ensures IsBest(BootstrapTable(N_IFACE_ON_BOARD), addr, N_IFACE_ON_BOARD - 1 - i)
  {
    var t := BootstrapTable(N_IFACE_ON_BOARD);
    DirectRouteCoversNetwork(addr, i);
    forall k | 0 <= k < |t| && k != N_IFACE_ON_BOARD - 1 - i
      ensures !Matches(addr, t[k])
    {
      DirectRoutesDisjoint(addr, i, N_IFACE_ON_BOARD - 1 - k);
    }
  }

  /** Every route of the table has a metric of 1 to 16 in host order, as an acceptable RIP entry must. */
  predicate MetricsInRange(t: seq<RouteEntry>)
  {
    forall k :: 0 <= k < |t| ==> 1 <= ByteSwap(t[k].metric) <= 16
  }

  /** The direct routes as written carry metric 0, which disassemble refuses in any entry. */
  lemma DirectRouteAsWrittenRejected(i: nat)
    requires i < N_IFACE_ON_BOARD
    ensures !Acceptable(AdvertisedEntry(DirectRouteAsWritten(i)))
  {
  }

  /** The table bootstrap builds as written, with metric 0 on every direct route: newest first. */
  function BootstrapTableAsWritten(n: nat): seq<RouteEntry>
    requires n <= N_IFACE_ON_BOARD
  {
    if n == 0 then [] else [DirectRouteAsWritten(n - 1)] + BootstrapTableAsWritten(n - 1)
  }

  /**
   * The advertisement of the table bootstrap builds as written, on any
   * interface, is a message that no parse returns: it carries another
   * interface's direct route with metric 0, and disassemble rejects the
   * whole packet for that one entry.
   */
  lemma BootstrapAsWrittenAdvertisementRejected(ifIndex: u32, p: seq<bv8>, len: nat)
    requires ifIndex < N_IFACE_ON_BOARD && Readable(p, len)
    ensures Disassembled(p, len) != Some(RipPacket(2, Advertised(BootstrapTableAsWritten(N_IFACE_ON_BOARD), ifIndex)))
  {
    var t := BootstrapTableAsWritten(N_IFACE_ON_BOARD);
    var j: nat := (ifIndex + 1) % N_IFACE_ON_BOARD;
    assert t[N_IFACE_ON_BOARD - 1 - j] == DirectRouteAsWritten(j);
    AdvertisedIsSplitHorizon(t, ifIndex, AdvertisedEntry(DirectRouteAsWritten(j)));
    DirectRouteAsWrittenRejected(j);
    if Disassembled(p, len).Some? {
      DisassembledValid(p, len);
    }
  }

  /** With metric 1 the advertised direct routes are acceptable. */
  lemma DirectRouteAcceptable(i: nat)
    requires i < N_IFACE_ON_BOARD
    ensures Acceptable(AdvertisedEntry(DirectRoute(i)))
  {
    LenMaskIsPrefix(24);
  }

  /** The bootstrapped table has unique keys and metrics in range. */
  lemma BootstrapTableIsSound()
    ensures UniqueKeys(BootstrapTable(N_IFACE_ON_BOARD)) && MetricsInRange(BootstrapTable(N_IFACE_ON_BOARD))
  {
    var t := BootstrapTable(N_IFACE_ON_BOARD);
    forall a, b | 0 <= a < b < |t|
      ensures !SameKey(t[a], t[b])
    {
      DirectNetworksDistinct(N_IFACE_ON_BOARD - 1 - a, N_IFACE_ON_BOARD - 1 - b);
    }
  }

  // ---------------------------------------------------------------------
  // Learning from a response

  /** Reversing the bytes of a word twice gives the word back. */
  lemma ByteSwapInvolution(x: bv32)
    ensures ByteSwap(ByteSwap(x)) == x
  {
  }

  /**
   * The metric a received entry is stored with:
   * `change_endian(change_endian(metric) + 1)`, one hop more than
   * advertised, replaced by 1 when the advertised next hop is 0.
   */
  function CandidateMetric(e: RipEntry): bv32
  {
    if e.nexthop == 0 then METRIC_ONE else ChangeEndian(ChangeEndian(e.metric) + 1)
  }

  /**
   * The route the response loop builds for entry `e` received on `ifIndex`
   * from `src` at time `now`, as written: the address becomes
   * `(addr << len) >> len`. A shift by 32 is undefined in C, so the mask
   * must not be all ones.
   */
  function CandidateAsWritten(e: RipEntry, ifIndex: u32, src: bv32, now: u64): RouteEntry
    requires Mask2Len(e.mask) < 32
  {
    var len := Mask2Len(e.mask);
    RouteEntry(ShiftRight(ShiftLeft(e.addr, len), len), len, ifIndex, src, CandidateMetric(e), now)
  }

  /** The route built for entry `e`, its address cut to the low `len` bits, the prefix the mask selects. */
  function Candidate(e: RipEntry, ifIndex: u32, src: bv32, now: u64): RouteEntry
  {
    var len := Mask2Len(e.mask);
    RouteEntry(e.addr & LenMask(len), len, ifIndex, src, CandidateMetric(e), now)
  }

  /** A route whose metric is 17: the neighbour advertised 16, unreachable, and the route is deleted. */
  predicate IsWithdrawal(c: RouteEntry)
  {
    c.metric == WITHDRAWN_METRIC
  }

  /** Through a neighbour, an acceptable entry is stored one hop further away than advertised. */
  lemma CandidateMetricCounts(e: RipEntry)
    requires e.nexthop != 0 && Acceptable(e)
    ensures ByteSwap(CandidateMetric(e)) == ByteSwap(e.metric) + 1
  {
    ChangeEndianIsByteSwap(e.metric);
    ChangeEndianIsByteSwap(ChangeEndian(e.metric) + 1);
    ByteSwapInvolution(ByteSwap(e.metric) + 1);
  }

  /** A metric is 17 in network order exactly when its host-order value is 17. */
  lemma WithdrawnMetricIs17(m: bv32)
    ensures m == WITHDRAWN_METRIC <==> ByteSwap(m) == 17
  {
    ByteSwapInvolution(m);
  }

  /**
   * An acceptable entry is withdrawn exactly when it comes through a
   * neighbour (next hop not 0) with metric 16; with next hop 0 the metric
   * is forced to 1 and nothing is withdrawn.
   */
  lemma CandidateWithdrawsIff(e: RipEntry, ifIndex: u32, src: bv32, now: u64)
    requires Acceptable(e)
    ensures IsWithdrawal(Candidate(e, ifIndex, src, now)) <==> e.nexthop != 0 && ByteSwap(e.metric) == 16
  {
    var m := CandidateMetric(e);
    WithdrawnMetricIs17(m);
    if e.nexthop != 0 {
      CandidateMetricCounts(e);
    }
  }

  /** A candidate from an acceptable entry that is not a withdrawal carries a metric of 1 to 16. */
  lemma CandidateMetricInRange(e: RipEntry, ifIndex: u32, src: bv32, now: u64)
    requires Acceptable(e) && !IsWithdrawal(Candidate(e, ifIndex, src, now))
    ensures 1 <= ByteSwap(Candidate(e, ifIndex, src, now).metric) <= 16
  {
    CandidateWithdrawsIff(e, ifIndex, src, now);
    if e.nexthop != 0 {
      CandidateMetricCounts(e);
    }
  }

  /** Masking with a mask twice is masking once. */
  lemma MaskedTwice(a: bv32, m: bv32)
    ensures (a & m) & m == a & m
  {
  }

  /** A candidate's length is that of the advertised mask: `len` for the mask of `len` low bits. */
  lemma CandidateLength(e: RipEntry, ifIndex: u32, src: bv32, now: u64, len: u32)
    requires len <= 32 && e.mask == LenMask(len)
    ensures Candidate(e, ifIndex, src, now).len == len
  {
    Mask2LenOfLenMask(len);
  }

  /** A prefix held with every bit above its length clear. */
  predicate KeepsLowBits(prefix: bv32, len: u32)
    requires len <= 32
  {
    prefix & LenMask(len) == prefix
  }

  /** An address cut to its low `len` bits keeps only those bits. */
  lemma CutAddressKeepsLowBits(a: bv32, prefix: bv32, len: u32)
    requires len <= 32 && prefix == a & LenMask(len)
    ensures KeepsLowBits(prefix, len)
  {
    MaskedTwice(a, LenMask(len));
  }

  /** An address matches itself cut to its low `len` bits. */
  lemma CutAddressMatches(a: bv32, prefix: bv32, len: u32)
    requires len <= 32 && prefix == a & LenMask(len)
    ensures PrefixMatch(a, prefix, len)
  {
    MaskedTwice(a, LenMask(len));
    LowBitsMatched(a, prefix, len);
  }

  /** The candidate's address is the advertised one cut to the candidate's length. */
  lemma CandidateFields(e: RipEntry, ifIndex: u32, src: bv32, now: u64)
    ensures Candidate(e, ifIndex, src, now).addr == e.addr & LenMask(Candidate(e, ifIndex, src, now).len)
  {
  }

  /** The candidate keeps only the low bits its length selects. */
  lemma CandidateKeepsLowBits(e: RipEntry, ifIndex: u32, src: bv32, now: u64)
    ensures KeepsLowBits(Candidate(e, ifIndex, src, now).addr, Candidate(e, ifIndex, src, now).len)
  {
    var c := Candidate(e, ifIndex, src, now);
    CandidateFields(e, ifIndex, src, now);
    CutAddressKeepsLowBits(e.addr, c.addr, c.len);
  }

  /** The advertised address passes the shift test of the candidate. */
  lemma CandidateMatchesAdvertised(e: RipEntry, ifIndex: u32, src: bv32, now: u64)
    ensures PrefixMatch(e.addr, Candidate(e, ifIndex, src, now).addr, Candidate(e, ifIndex, src, now).len)
  {
    var c := Candidate(e, ifIndex, src, now);
    CandidateFields(e, ifIndex, src, now);
    CutAddressMatches(e.addr, c.addr, c.len);
  }

  /**
   * The candidate is the advertised prefix: its address keeps only the low
   * `len` bits of the advertised one, and the advertised address passes its
   * shift test.
   */
  lemma CandidateIsAdvertisedPrefix(e: RipEntry, ifIndex: u32, src: bv32, now: u64)
    ensures KeepsLowBits(Candidate(e, ifIndex, src, now).addr, Candidate(e, ifIndex, src, now).len)
    ensures PrefixMatch(e.addr, Candidate(e, ifIndex, src, now).addr, Candidate(e, ifIndex, src, now).len)
  {
    CandidateKeepsLowBits(e, ifIndex, src, now);
    CandidateMatchesAdvertised(e, ifIndex, src, now);
  }

  /** `(0x0001000a << 24) >> 24` is `0x0000000a`: 10.0.1.0 becomes 10.0.0.0. */
  lemma TopBitsCleared()
    ensures ShiftRight(ShiftLeft(0x0001_000a, 24), 24) == 0x0000_000a
  {
    assert ShiftLeft(0x0a00_0000, 0) == 0x0a00_0000;
    assert ShiftLeft(0x000a_0000, 8) == 0x0a00_0000;
    assert ShiftLeft(0x0000_0a00, 16) == 0x0a00_0000;
    assert ShiftLeft(0x0001_000a, 24) == 0x0a00_0000;
    assert ShiftRight(0x0a00_0000, 8) == 0x000a_0000;
    assert ShiftRight(0x0a00_0000, 16) == 0x0000_0a00;
  }

  /**
   * The normalisation as written keeps the wrong bits: for 10.0.1.0/24
   * (address 0x0001000a, mask 0x00ffffff) it stores 10.0.0.0/24, a route
   * that does not contain the advertised network, while the corrected
   * candidate keeps 10.0.1.0.
   */
  lemma CandidateAsWrittenMovesNetwork(ifIndex: u32, src: bv32, now: u64)
    ensures Mask2Len(0x00ff_ffff) == 24
    ensures CandidateAsWritten(RipEntry(0x0001_000a, 0x00ff_ffff, 0, METRIC_ONE), ifIndex, src, now).addr == 0x0000_000a
    ensures !PrefixMatch(0x0001_000a, 0x0000_000a, 24)
    ensures Candidate(RipEntry(0x0001_000a, 0x00ff_ffff, 0, METRIC_ONE), ifIndex, src, now).addr == 0x0001_000a
  {
    LenMask24();
    Mask2LenOfLenMask(24);
    TopBitsCleared();
    assert ShiftLeft(0x0000_000a, 8) == 0x0000_0a00;
  }

  /** The routes the response loop builds, one per entry of the response, in order. */
  function Candidates(entries: seq<RipEntry>, ifIndex: u32, src: bv32, now: u64): (r: seq<RouteEntry>)
    ensures |r| == |entries| && LensInRange(r)
    ensures forall k :: 0 <= k < |r| ==> r[k] == Candidate(entries[k], ifIndex, src, now)
  {
    seq(|entries|, k requires 0 <= k < |entries| => Candidate(entries[k], ifIndex, src, now))
  }

  /** One step of the response loop: `update(false, c)` for a withdrawal, `update(true, c)` otherwise. */
  function Applied(t: seq<RouteEntry>, c: RouteEntry): (r: (seq<RouteEntry>, bool))
    requires LensInRange(t) && c.len <= 32
    ensures LensInRange(r.0)
    ensures forall k :: 0 <= k < |r.0| ==> r.0[k] == c || r.0[k] in t
    ensures IsWithdrawal(c) ==> forall k :: 0 <= k < |r.0| ==> r.0[k] in t
  {
    if IsWithdrawal(c) then
      var d := Deleted(t, c);
      assert forall k :: 0 <= k < |d| ==> d[k] in multiset(t);
      (d, false)
    else
      InsertedFrom(t, c);
      Inserted(t, c)
  }

  /** Every withdrawal of `cs` meets a non-empty table: delete reads the head before looking for the key. */
  predicate Applicable(t: seq<RouteEntry>, cs: seq<RouteEntry>)
    requires LensInRange(t) && LensInRange(cs)
    decreases |cs|
  {
    |cs| == 0 || ((IsWithdrawal(cs[0]) ==> |t| > 0) && Applicable(Applied(t, cs[0]).0, cs[1..]))
  }

  /**
   * The table and `has_updated` after the response loop has applied the
   * routes `cs` in order: the flag is set when some insert reported a change.
   */
  function Responded(t: seq<RouteEntry>, cs: seq<RouteEntry>): (r: (seq<RouteEntry>, bool))
    requires LensInRange(t) && LensInRange(cs) && Applicable(t, cs)
    ensures LensInRange(r.0)
    decreases |cs|
  {
    if |cs| == 0 then (t, false)
    else
      var (t1, u1) := Applied(t, cs[0]);
      var (t2, u2) := Responded(t1, cs[1..]);
      (t2, u1 || u2)
  }

  /** The statements of the response loop that set the metric of the route for entry `e`. */
  method ComputeMetric(e: RipEntry) returns (metric: bv32)
    ensures metric == CandidateMetric(e)
  {
    metric := ChangeEndian(ChangeEndian(e.metric) + 1);
    if e.nexthop == 0 {
      metric := METRIC_ONE;
    }
  }

  /** The statements of the response loop that build the route for entry `e`. */
  method BuildCandidate(e: RipEntry, ifIndex: u32, src: bv32, now: u64) returns (entry: RouteEntry)
    ensures entry == Candidate(e, ifIndex, src, now)
  {
    var len := Mask2Len(e.mask);
    var metric := ComputeMetric(e);
    var addr := e.addr & LenMask(len);
    entry := RouteEntry(addr, len, ifIndex, src, metric, now);
  }

  /** The statements of the response loop that apply one route: delete a withdrawal, insert anything else. */
  method ApplyCandidate(t: RoutingTable, entry: RouteEntry) returns (updated: bool)
    requires t.Valid() && entry.len <= 32 && (IsWithdrawal(entry) ==> |t.entries| > 0)
    modifies t
    ensures t.Valid()
    ensures (t.entries, updated) == Applied(old(t.entries), entry)
  {
    if entry.metric == WITHDRAWN_METRIC {
      t.Delete(entry);
      updated := false;
    } else {
      updated := t.Insert(entry);
    }
  }

  /**
   * The response loop of main for a response received on `ifIndex` from
   * `src` at time `now`: every entry becomes a candidate route that is
   * deleted when withdrawn and inserted otherwise; the result is
   * `has_updated`.
   */
  method ProcessResponse(t: RoutingTable, rip: RipPacket, ifIndex: u32, src: bv32, now: u64) returns (hasUpdated: bool)
    requires t.Valid() && Applicable(t.entries, Candidates(rip.entries, ifIndex, src, now))
    modifies t
    ensures t.Valid()
    ensures (t.entries, hasUpdated) == Responded(old(t.entries), Candidates(rip.entries, ifIndex, src, now))
  {
    ghost var cs := Candidates(rip.entries, ifIndex, src, now);
    hasUpdated := false;
    var i := 0;
    while i < |rip.entries|
      invariant 0 <= i <= |rip.entries| && t.Valid()
      invariant Applicable(t.entries, cs[i..])
      invariant Responded(old(t.entries), cs).0 == Responded(t.entries, cs[i..]).0
      invariant Responded(old(t.entries), cs).1 == (hasUpdated || Responded(t.entries, cs[i..]).1)
    {
      ghost var rest := cs[i..];
      assert rest[0] == cs[i] && rest[1..] == cs[i + 1..];
      var entry := BuildCandidate(rip.entries[i], ifIndex, src, now);
      var updated := ApplyCandidate(t, entry);
      if updated {
        hasUpdated := true;
      }
      i := i + 1;
    }
    assert cs[i..] == [];
  }

  /** One step of the response loop keeps keys unique. */
  lemma AppliedKeepsUniqueKeys(t: seq<RouteEntry>, c: RouteEntry)
    requires LensInRange(t) && c.len <= 32 && UniqueKeys(t)
    ensures UniqueKeys(Applied(t, c).0)
  {
    if IsWithdrawal(c) {
      DeletedKeepsUniqueKeys(t, c);
    } else {
      InsertedKeepsUniqueKeys(t, c);
    }
  }

  /** Processing a response never creates two routes with the same key. */
  lemma {:induction false} RespondedKeepsUniqueKeys(t: seq<RouteEntry>, cs: seq<RouteEntry>)
    requires LensInRange(t) && LensInRange(cs) && Applicable(t, cs) && UniqueKeys(t)
    ensures UniqueKeys(Responded(t, cs).0)
    decreases |cs|
  {
    if |cs| > 0 {
      AppliedKeepsUniqueKeys(t, cs[0]);
      RespondedKeepsUniqueKeys(Applied(t, cs[0]).0, cs[1..]);
    }
  }

  /** Every route of `cs` that is not a withdrawal carries a metric of 1 to 16. */
  predicate StoredMetricsInRange(cs: seq<RouteEntry>)
  {
    forall k :: 0 <= k < |cs| && !IsWithdrawal(cs[k]) ==> 1 <= ByteSwap(cs[k].metric) <= 16
  }

  /** One step of the response loop keeps every metric between 1 and 16. */
  lemma AppliedKeepsMetricsInRange(t: seq<RouteEntry>, c: RouteEntry)
    requires LensInRange(t) && c.len <= 32 && MetricsInRange(t)
    requires !IsWithdrawal(c) ==> 1 <= ByteSwap(c.metric) <= 16
    ensures MetricsInRange(Applied(t, c).0)
  {
    var r := Applied(t, c).0;
    forall k | 0 <= k < |r|
      ensures 1 <= ByteSwap(r[k].metric) <= 16
    {
      if r[k] != c || IsWithdrawal(c) {
        var j :| 0 <= j < |t| && t[j] == r[k];
      }
    }
  }

  /** Processing routes whose metrics are in range keeps every metric of the table between 1 and 16. */
  lemma {:induction false} RespondedKeepsMetricsInRange(t: seq<RouteEntry>, cs: seq<RouteEntry>)
    requires LensInRange(t) && LensInRange(cs) && Applicable(t, cs)
    requires MetricsInRange(t) && StoredMetricsInRange(cs)
    ensures MetricsInRange(Responded(t, cs).0)
    decreases |cs|
  {
    if |cs| > 0 {
      AppliedKeepsMetricsInRange(t, cs[0]);
      RespondedKeepsMetricsInRange(Applied(t, cs[0]).0, cs[1..]);
    }
  }

  /** The routes built from a response that passed disassemble carry metrics of 1 to 16 unless withdrawn. */
  lemma CandidatesInRange(rip: RipPacket, ifIndex: u32, src: bv32, now: u64)
    requires Valid(rip)
    ensures StoredMetricsInRange(Candidates(rip.entries, ifIndex, src, now))
  {
    var cs := Candidates(rip.entries, ifIndex, src, now);
    forall k | 0 <= k < |cs| && !IsWithdrawal(cs[k])
      ensures 1 <= ByteSwap(cs[k].metric) <= 16
    {
      assert rip.entries[k] in rip.entries;
      CandidateMetricInRange(rip.entries[k], ifIndex, src, now);
    }
  }

  /**
   * A response that passed disassemble keeps the table sound: keys stay
   * unique and every metric stays between 1 and 16, so the table can still
   * be advertised.
   */
  lemma ResponseKeepsTableSound(t: seq<RouteEntry>, rip: RipPacket, ifIndex: u32, src: bv32, now: u64)
    requires LensInRange(t) && UniqueKeys(t) && MetricsInRange(t) && Valid(rip)
    requires Applicable(t, Candidates(rip.entries, ifIndex, src, now))
    ensures UniqueKeys(Responded(t, Candidates(rip.entries, ifIndex, src, now)).0)
    ensures MetricsInRange(Responded(t, Candidates(rip.entries, ifIndex, src, now)).0)
  {
    var cs := Candidates(rip.entries, ifIndex, src, now);
    RespondedKeepsUniqueKeys(t, cs);
    CandidatesInRange(rip, ifIndex, src, now);
    RespondedKeepsMetricsInRange(t, cs);
  }

  /** Without withdrawals, a response that sets no `has_updated` leaves the table as it was. */
  lemma {:induction false} NoUpdateLeavesTable(t: seq<RouteEntry>, cs: seq<RouteEntry>)
    requires LensInRange(t) && LensInRange(cs) && Applicable(t, cs)
    requires forall k :: 0 <= k < |cs| ==> !IsWithdrawal(cs[k])
    requires !Responded(t, cs).1
    ensures Responded(t, cs).0 == t
    decreases |cs|
  {
    if |cs| > 0 {
      assert !IsWithdrawal(cs[0]);
      NoUpdateLeavesTable(Applied(t, cs[0]).0, cs[1..]);
    }
  }

  /**
   * When inserting the route learnt from entry `e` reports a change, a
   * query for the advertised address finds a route.
   */
  lemma LearntNetworkIsRouted(t: seq<RouteEntry>, e: RipEntry, ifIndex: u32, src: bv32, now: u64)
    requires LensInRange(t)
    requires !IsWithdrawal(Candidate(e, ifIndex, src, now)) && 1 <= Candidate(e, ifIndex, src, now).len
    requires Applied(t, Candidate(e, ifIndex, src, now)).1
    ensures Covered(Applied(t, Candidate(e, ifIndex, src, now)).0, e.addr)
  {
    var c := Candidate(e, ifIndex, src, now);
    var r := Applied(t, c).0;
    CandidateMatchesAdvertised(e, ifIndex, src, now);
    var k :| 0 <= k < |r| && r[k] == c;
    assert Matches(e.addr, r[k]);
  }

  // ---------------------------------------------------------------------
  // Advertising the table

  /** A table with metrics in range advertises a response that disassemble accepts, on every interface. */
  lemma AdvertisementValid(t: seq<RouteEntry>, ifIndex: u32)
    requires Advertisable(t, ifIndex) && MetricsInRange(t)
    ensures Valid(RipPacket(2, Advertised(t, ifIndex)))
  {
    forall x | x in Advertised(t, ifIndex)
      ensures Acceptable(x)
    {
      AdvertisedIsSplitHorizon(t, ifIndex, x);
      var i :| 0 <= i < |t| && t[i].ifIndex != ifIndex && x == AdvertisedEntry(t[i]);
      LenMaskIsPrefix(t[i].len);
    }
  }

  /** The address, mask and length a neighbour learns from an advertised route. */
  lemma AdvertisedRouteLearnt(r: RouteEntry, ifIndex: u32, src: bv32, now: u64)
    requires 1 <= r.len <= 32 && KeepsLowBits(r.addr, r.len)
    ensures Candidate(AdvertisedEntry(r), ifIndex, src, now).len == r.len
    ensures Candidate(AdvertisedEntry(r), ifIndex, src, now).addr == r.addr
  {
    var x := AdvertisedEntry(r);
    CandidateLength(x, ifIndex, src, now, r.len);
    CandidateFields(x, ifIndex, src, now);
    KeptLowBits(r.addr, r.len);
  }

  /** An address that keeps only its low `len` bits is its own cut. */
  lemma KeptLowBits(a: bv32, len: u32)
    requires len <= 32 && KeepsLowBits(a, len)
    ensures a & LenMask(len) == a
  {
  }

  /**
   * The reply to a request received on `ifIndex`: genRipPack for that
   * interface with the command set to 2 (response). The source's entry
   * array holds 25 entries.
   */
  method RespondToRequest(t: RoutingTable, ifIndex: u32) returns (resp: RipPacket)
    requires t.Valid() && Advertisable(t.entries, ifIndex) && |Advertised(t.entries, ifIndex)| <= RIP_MAX_ENTRY
    ensures resp == RipPacket(2, Advertised(t.entries, ifIndex))
  {
    resp := t.GenRipPack(ifIndex);
    resp := resp.(command := 2);
  }

  /** The periodic update: for each interface `j`, genRipPack(j) with the command set to 2. */
  method PeriodicUpdate(t: RoutingTable) returns (resps: seq<RipPacket>)
    requires t.Valid()
    requires forall j :: 0 <= j < N_IFACE_ON_BOARD ==>
      Advertisable(t.entries, j) && |Advertised(t.entries, j)| <= RIP_MAX_ENTRY
    ensures |resps| == N_IFACE_ON_BOARD
    ensures forall j :: 0 <= j < N_IFACE_ON_BOARD ==> resps[j] == RipPacket(2, Advertised(t.entries, j))
  {
    resps := [];
    for j := 0 to N_IFACE_ON_BOARD
      invariant |resps| == j
      invariant forall k :: 0 <= k < j ==> resps[k] == RipPacket(2, Advertised(t.entries, k))
    {
      var resp := RespondToRequest(t, j);
      resps := resps + [resp];
    }
  }

  // ---------------------------------------------------------------------
  // Receiving a packet

  /** `p[i] + p[i+1] * 0x100 + p[i+2] * 0x10000 + p[i+3] * 0x1000000` on unsigned 32-bit words. */
  function AddressAt(p: seq<bv8>, i: nat): bv32
    requires i + 4 <= |p|
  {
    (p[i] as bv32) + (p[i + 1] as bv32) * 0x100 + (p[i + 2] as bv32) * 0x1_0000 + (p[i + 3] as bv32) * 0x100_0000
  }

  /** The arithmetic read of an address is the little-endian read: the first byte stays the low byte. */
  lemma AddressAtIsLoad32LE(p: seq<bv8>, i: nat)
    requires i + 4 <= |p|
    ensures AddressAt(p, i) == Load32LE(p, i)
  {
    var b0, b1, b2, b3 := p[i], p[i + 1], p[i + 2], p[i + 3];
    BytesSum(b0, b1, b2, b3);
  }

  /** Four bytes in disjoint byte positions add up to their or. */
  lemma BytesSum(b0: bv8, b1: bv8, b2: bv8, b3: bv8)
    ensures (b0 as bv32) + (b1 as bv32) * 0x100 + (b2 as bv32) * 0x1_0000 + (b3 as bv32) * 0x100_0000 == LE32(b0, b1, b2, b3)
  {
  }

  /** The packet's source address (bytes 12 to 15). */
  function SourceAddress(p: seq<bv8>): bv32
    requires |p| >= 20
  {
    AddressAt(p, 12)
  }

  /** The packet's destination address (bytes 16 to 19). */
  function DestinationAddress(p: seq<bv8>): bv32
    requires |p| >= 20
  {
    AddressAt(p, 16)
  }

  /**
   * The destination test: a packet is for the router when its destination
   * is one of the interface addresses or the RIP multicast group.
   */
  method IsForMe(dst: bv32) returns (forMe: bool)
    ensures forMe <==> dst in ADDRS || dst == RIP_MULTICAST
  {
    forMe := false;
    var i := 0;
    while i < N_IFACE_ON_BOARD
      invariant 0 <= i <= N_IFACE_ON_BOARD
      invariant forMe <==> dst in ADDRS[..i]
    {
      if dst == ADDRS[i] {
        forMe := true;
        break;
      }
      i := i + 1;
    }
    assert ADDRS[..N_IFACE_ON_BOARD] == ADDRS;
    if dst == RIP_MULTICAST {
      forMe := true;
    }
  }

  /** The next hop a packet for `dst` is sent to over route `e`: `dst` itself on a direct route (next hop 0). */
  function NextHopFor(e: RouteEntry, dst: bv32): bv32
  {
    if e.nexthop == 0 then dst else e.nexthop
  }

  /**
   * The forward branch: query the table for `dst`; when a route is found,
   * a next hop of 0 is replaced by `dst`.
   */
  method ForwardNextHop(t: RoutingTable, dst: bv32) returns (found: bool, nexthop: bv32, destIf: u32)
    requires t.Valid()
    ensures found <==> Covered(t.entries, dst)
    ensures found ==> exists b: nat ::
      (IsBest(t.entries, dst, b) && nexthop == NextHopFor(t.entries[b], dst) && destIf == t.entries[b].ifIndex)
  {
    found, nexthop, destIf := t.Query(dst, 0, 0);
    if found && nexthop == 0 {
      nexthop := dst;
    }
  }

  /**
   * After bootstrap, a packet for an address on an interface's /24 network
   * leaves through that interface, addressed to the destination itself.
   */
  lemma BootstrapDeliversDirectly(dst: bv32, i: nat)
    requires i < N_IFACE_ON_BOARD && dst & 0x00ff_ffff == ADDRS[i] & 0x00ff_ffff
    ensures var t := BootstrapTable(N_IFACE_ON_BOARD);
      IsBest(t, dst, N_IFACE_ON_BOARD - 1 - i)
      && t[N_IFACE_ON_BOARD - 1 - i].ifIndex == i
      && NextHopFor(t[N_IFACE_ON_BOARD - 1 - i], dst) == dst
  {
    BootstrapRoutesOwnNetworks(dst, i);
  }

  /** What main does with a packet that passed the checksum test. */
  datatype Action = Ignore | Reply | Learn | ForwardPacket

  /**
   * The dispatch as written: the forward branch is the `else` of the
   * disassemble test inside the destination test, so a packet for the
   * router that is not valid RIP is forwarded and a packet for another
   * host is dropped.
   */
  function DispatchAsWritten(forMe: bool, parsed: Option<RipPacket>): Action
  {
    if forMe then
      match parsed
      case Some(rip) => if rip.command == 1 then Reply else Learn
      case None => ForwardPacket
    else Ignore
  }

  /** The dispatch the branch comments describe: RIP for the router is handled, everything else is forwarded. */
  function Dispatch(forMe: bool, parsed: Option<RipPacket>): Action
  {
    if forMe then
      match parsed
      case Some(rip) => if rip.command == 1 then Reply else Learn
      case None => Ignore
    else ForwardPacket
  }

  /** As written, a packet for another host is never forwarded, and one for the router that fails to parse is. */
  lemma DispatchAsWrittenMisroutes(parsed: Option<RipPacket>)
    ensures DispatchAsWritten(false, parsed) == Ignore
    ensures DispatchAsWritten(true, None) == ForwardPacket
  {
  }

  /**
   * The corrected dispatch forwards exactly the packets for other hosts,
   * answers exactly the requests for the router and learns exactly from
   * its other RIP packets.
   */
  lemma DispatchForwardsTransit(forMe: bool, parsed: Option<RipPacket>)
    ensures Dispatch(forMe, parsed) == ForwardPacket <==> !forMe
    ensures Dispatch(forMe, parsed) == Reply <==> forMe && parsed.Some? && parsed.value.command == 1
    ensures Dispatch(forMe, parsed) == Learn <==> forMe && parsed.Some? && parsed.value.command != 1
  {
  }

  /** The route a transit packet for `dst` leaves by: its next hop and outgoing interface, when the table covers `dst`. */
  ghost predicate RoutedVia(t: seq<RouteEntry>, dst: bv32, route: Option<(bv32, u32)>)
    requires LensInRange(t)
  {
    match route
    case None => !Covered(t, dst)
    case Some(r) => exists b: nat :: (IsBest(t, dst, b) && r == (NextHopFor(t[b], dst), t[b].ifIndex))
  }

  /** The destination test of the main loop, applied to a packet's header. */
  predicate ForMe(p: seq<bv8>)
    requires |p| >= 20
  {
    DestinationAddress(p) in ADDRS || DestinationAddress(p) == RIP_MULTICAST
  }

  /** The RIP message the main loop parses: only a packet for the router is parsed at all. */
  function Parsed(p: seq<bv8>, len: nat): Option<RipPacket>
    requires |p| >= 20 && (ForMe(p) ==> Readable(p, len))
  {
    if ForMe(p) then Disassembled(p, len) else None
  }

  /**
   * One packet that passed the checksum test, from the destination test to
   * the chosen branch, dispatched as `Dispatch` says: a request for the
   * router is answered with the table advertised on the arrival interface,
   * a response updates the table, and a packet for another host gets its
   * next hop and outgoing interface without being parsed. Sending is not
   * modelled: the reply and the route are returned.
   */
  method Receive(t: RoutingTable, packet: seq<bv8>, len: nat, ifIndex: u32, now: u64)
    returns (action: Action, reply: Option<RipPacket>, hasUpdated: bool, route: Option<(bv32, u32)>)
    requires t.Valid() && |packet| >= 20
    requires ForMe(packet) ==>
      Readable(packet, len) && (TotalLength(packet) <= len ==> EntryCount(packet, len) <= RIP_MAX_ENTRY)
    requires Dispatch(ForMe(packet), Parsed(packet, len)) == Reply
      ==> Advertisable(t.entries, ifIndex) && |Advertised(t.entries, ifIndex)| <= RIP_MAX_ENTRY
    requires Dispatch(ForMe(packet), Parsed(packet, len)) == Learn
      ==> Applicable(t.entries, Candidates(Parsed(packet, len).value.entries, ifIndex, SourceAddress(packet), now))
    modifies t
    ensures t.Valid()
    ensures action == Dispatch(ForMe(packet), Parsed(packet, len))
    ensures reply == if action == Reply then Some(RipPacket(2, Advertised(old(t.entries), ifIndex))) else None
    ensures action == Learn ==>
      (t.entries, hasUpdated) == Responded(old(t.entries), Candidates(Parsed(packet, len).value.entries, ifIndex, SourceAddress(packet), now))
    ensures action != Learn ==> t.entries == old(t.entries) && !hasUpdated
    ensures action == ForwardPacket ==> RoutedVia(t.entries, DestinationAddress(packet), route)
    ensures action != ForwardPacket ==> route == None
  {
    AddressAtIsLoad32LE(packet, 12);
    AddressAtIsLoad32LE(packet, 16);
    var src := AddressAt(packet, 12);
    var dst := AddressAt(packet, 16);
    var forMe := IsForMe(dst);
    reply, hasUpdated, route := None, false, None;
    var parsed: Option<RipPacket> := None;
    if forMe {
      var valid, rip := Disassemble(packet, len);
      if valid {
        parsed := Some(rip);
      }
    }
    action := Dispatch(forMe, parsed);
    if action == Reply {
      var resp := RespondToRequest(t, ifIndex);
      reply := Some(resp);
    } else if action == Learn {
      hasUpdated := ProcessResponse(t, parsed.value, ifIndex, src, now);
    } else if action == ForwardPacket {
      var found, nexthop, destIf := ForwardNextHop(t, dst);
      if found {
        route := Some((nexthop, destIf));
      }
    }
  }
}
