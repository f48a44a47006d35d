/**
 * The RIPv2 message codec (section 4 of RFC 2453, base layout in section
 * 3.6): `disassemble` validates and parses the RIP part of an IPv4+UDP
 * packet, `assemble` serialises a RIP packet into a buffer.
 *
 * A RIP message starts at byte IHL * 4 + 8 (after the IPv4 and UDP headers)
 * with a 4-byte header (command, version, two zero bytes) followed by
 * 20-byte entries (family, tag, address, mask, next hop, metric). Family,
 * tag and the metric bound are read in network order; address, mask, next
 * hop and metric are stored as little-endian reads, so their bytes stay in
 * network order.
 */
module Protocol {
  import opened Wire

  /** Capacity of `RipPacket.entries` in the source. */
  const RIP_MAX_ENTRY: nat := 25

  /** One route of a RIP message; every field is the little-endian read of its four wire bytes. */
  datatype RipEntry = RipEntry(addr: bv32, mask: bv32, nexthop: bv32, metric: bv32)

  /** A RIP message: the command byte and its entries (`numEntries` is the length of the sequence). */
  datatype RipPacket = RipPacket(command: bv8, entries: seq<RipEntry>)

  /** A mask of the form 2^k - 1: ones in the low bits, zeros above. */
  predicate IsPrefixMask(m: bv32)
  {
    m & (m + 1) == 0
  }

  /** An entry that passes the per-entry checks: metric 1 to 16 in host order, contiguous mask. */
  predicate Acceptable(e: RipEntry)
  {
    1 <= ByteSwap(e.metric) <= 16 && IsPrefixMask(e.mask)
  }

  /** What a successful parse can produce: a request or response command whenever there is an entry, and acceptable entries. */
  predicate Valid(rip: RipPacket)
  {
    (|rip.entries| > 0 ==> rip.command == 1 || rip.command == 2)
    && forall e :: e in rip.entries ==> Acceptable(e)
  }

  // ---------------------------------------------------------------------
  // Parsing

  /** Offset of the RIP header: after the IPv4 header and the 8-byte UDP header. */
  function RipOffset(p: seq<bv8>): nat
    requires |p| > 0
  {
    HeaderLength(p) + 8
  }

  /** Offset of the first entry, after the 4-byte RIP header. */
  function EntriesStart(p: seq<bv8>): nat
    requires |p| > 0
  {
    RipOffset(p) + 4
  }

  /** Offset of entry `k`. */
  function EntryOffset(p: seq<bv8>, k: nat): nat
    requires |p| > 0
  {
    EntriesStart(p) + 20 * k
  }

  /** The number of 20-byte strides the cursor takes before reaching `len`. */
  function EntryCount(p: seq<bv8>, len: nat): nat
    requires |p| > 0
  {
    if len <= EntriesStart(p) then 0 else (len - EntriesStart(p)) / 20
  }

  /**
   * What disassemble needs of its input so that no read leaves the buffer:
   * the Total Length bytes always, and, when the length check passes, the
   * RIP header and every entry up to `len`, which must end on an entry
   * boundary (the loop has no remainder check).
   */
  predicate Readable(p: seq<bv8>, len: nat)
  {
    |p| >= 4
    && (TotalLength(p) <= len ==>
          EntriesStart(p) <= |p| && len <= |p|
          && (len <= EntriesStart(p) || (len - EntriesStart(p)) % 20 == 0))
  }

  function CommandByte(p: seq<bv8>): bv8
    requires |p| > 0 && EntriesStart(p) <= |p|
  {
    p[RipOffset(p)]
  }

  function VersionByte(p: seq<bv8>): bv8
    requires |p| > 0 && EntriesStart(p) <= |p|
  {
    p[RipOffset(p) + 1]
  }

  /** The two zero bytes of the RIP header, read as one little-endian word. */
  function ZeroField(p: seq<bv8>): nat
    requires |p| > 0 && EntriesStart(p) <= |p|
  {
    Load16LE(p, RipOffset(p) + 2)
  }

  /** Address family of entry `k`, network order. */
  function Family(p: seq<bv8>, k: nat): nat
    requires |p| > 0 && EntryOffset(p, k) + 20 <= |p|
  {
    var b := EntryOffset(p, k);
    Load16BE(p, b)
  }

  /** Route tag of entry `k`, network order. */
  function Tag(p: seq<bv8>, k: nat): nat
    requires |p| > 0 && EntryOffset(p, k) + 20 <= |p|
  {
    var b := EntryOffset(p, k);
    Load16BE(p, b + 2)
  }

  /** Metric of entry `k` in host order (`metric_s`), used only for the range check. */
  function HostMetric(p: seq<bv8>, k: nat): bv32
    requires |p| > 0 && EntryOffset(p, k) + 20 <= |p|
  {
    var b := EntryOffset(p, k);
    Load32BE(p, b + 16)
  }

  /** Entry `k` as stored in the output: four little-endian reads. */
  function EntryAt(p: seq<bv8>, k: nat): RipEntry
    requires |p| > 0 && EntryOffset(p, k) + 20 <= |p|
  {
    var b := EntryOffset(p, k);
    RipEntry(Load32LE(p, b + 4), Load32LE(p, b + 8), Load32LE(p, b + 12), Load32LE(p, b + 16))
  }

  /**
   * The checks disassemble makes while reading entry `k`: the header's zero
   * field and version, the entry's tag, the family matching the command, the
   * metric range and the mask shape.
   */
  predicate EntryAccepted(p: seq<bv8>, k: nat)
    requires |p| > 0 && EntryOffset(p, k) + 20 <= |p|
  {
    ZeroField(p) == 0 && VersionByte(p) == 2 && Tag(p, k) == 0
    && ((CommandByte(p) == 1 && Family(p, k) == 0) || (CommandByte(p) == 2 && Family(p, k) == 2))
    && 1 <= HostMetric(p, k) <= 16
    && IsPrefixMask(EntryAt(p, k).mask)
  }

  /**
   * The result of disassemble: nothing when Total Length exceeds `len` or
   * any entry fails its checks; otherwise the command byte and every entry.
   */
  function Disassembled(p: seq<bv8>, len: nat): (r: Option<RipPacket>)
    requires Readable(p, len)
    ensures TotalLength(p) > len ==> r == None
    ensures r.Some? ==> |r.value.entries| == EntryCount(p, len)
  {
    if TotalLength(p) > len then None
    else
      var n := EntryCount(p, len);
      if forall k :: 0 <= k < n ==> EntryAccepted(p, k) then
        Some(RipPacket(CommandByte(p), seq(n, k requires 0 <= k < n => EntryAt(p, k))))
      else None
  }

  /** Once the length check passes, every entry up to `len` lies inside the packet. */
  lemma EntriesInside(p: seq<bv8>, len: nat, k: nat)
    requires Readable(p, len) && TotalLength(p) <= len && k < EntryCount(p, len)
    ensures EntryOffset(p, k) + 20 <= len <= |p|
  {
  }

  /**
   * disassemble: parse the RIP message of `packet`, `len` bytes long. The
   * output is meaningful only when `valid` holds.
   */
  method Disassemble(packet: seq<bv8>, len: nat) returns (valid: bool, output: RipPacket)
    requires Readable(packet, len)
    requires TotalLength(packet) <= len ==> EntryCount(packet, len) <= RIP_MAX_ENTRY
    ensures valid <==> Disassembled(packet, len).Some?
    ensures valid ==> output == Disassembled(packet, len).value
  {
    var totalLength := Load16BE(packet, 2);
    if totalLength > len {
      return false, RipPacket(0, []);
    }
    var headerLen := ((packet[0] & 0xf) as nat) * 4;
    var rip := headerLen + 8;
    var command := packet[rip];
    var version := packet[rip + 1];
    var zero := Load16LE(packet, rip + 2);
    rip := rip + 4;
    assert command == CommandByte(packet) && version == VersionByte(packet) && zero == ZeroField(packet);
    var entries: seq<RipEntry> := [];
    while rip < len
      invariant rip == EntryOffset(packet, |entries|)
      invariant |entries| <= EntryCount(packet, len)
      invariant forall k :: 0 <= k < |entries| ==> EntryAccepted(packet, k) && entries[k] == EntryAt(packet, k)
    {
      EntriesInside(packet, len, |entries|);
      var ok, entry := ReadEntry(packet, |entries|, rip, command, version, zero);
      if !ok {
        return false, RipPacket(command, entries);
      }
      entries := entries + [entry];
      rip := rip + 20;
    }
    assert |entries| == EntryCount(packet, len);
    assert entries == Disassembled(packet, len).value.entries;
    return true, RipPacket(command, entries);
  }

  /**
   * The body of disassemble's entry loop: read entry `k` at offset `rip` and
   * run its checks (zero field, version and tag; family against the command;
   * metric range; mask shape) in the source's order.
   */
  method ReadEntry(packet: seq<bv8>, k: nat, rip: nat, command: bv8, version: bv8, zero: nat)
    returns (ok: bool, entry: RipEntry)
    requires |packet| > 0 && rip == EntryOffset(packet, k) && rip + 20 <= |packet|
    requires EntriesStart(packet) <= |packet|
    requires command == CommandByte(packet) && version == VersionByte(packet) && zero == ZeroField(packet)
    ensures ok <==> EntryAccepted(packet, k)
    ensures ok ==> entry == EntryAt(packet, k)
  {
    var family := Load16BE(packet, rip);
    var tag := Load16BE(packet, rip + 2);
    var addr := Load32LE(packet, rip + 4);
    var netmask := Load32LE(packet, rip + 8);
    var nexthop := Load32LE(packet, rip + 12);
    var metric := Load32LE(packet, rip + 16);
    var metricS := Load32BE(packet, rip + 16);
    EntryFields(packet, k);
    entry := RipEntry(addr, netmask, nexthop, metric);
    if zero != 0 || version != 2 || tag != 0 {
      RejectedByChecks(packet, k, command, version, zero, family, tag, netmask, metricS);
      return false, entry;
    }
    if !((command == 1 && family == 0) || (command == 2 && family == 2)) {
      RejectedByChecks(packet, k, command, version, zero, family, tag, netmask, metricS);
      return false, entry;
    }
    if metricS < 1 || metricS > 16 {
      RejectedByChecks(packet, k, command, version, zero, family, tag, netmask, metricS);
      return false, entry;
    }
    if (netmask & (netmask + 1)) != 0 {
      RejectedByChecks(packet, k, command, version, zero, family, tag, netmask, metricS);
      return false, entry;
    }
    AcceptedByChecks(packet, k, command, version, zero, family, tag, netmask, metricS);
    ok := true;
  }

  /** The fields of entry `k` are the reads disassemble makes at its offset. */
  lemma EntryFields(p: seq<bv8>, k: nat)
    requires |p| > 0 && EntryOffset(p, k) + 20 <= |p|
    ensures var b := EntryOffset(p, k);
      Family(p, k) == Load16BE(p, b) && Tag(p, k) == Load16BE(p, b + 2) && HostMetric(p, k) == Load32BE(p, b + 16)
      && EntryAt(p, k) == RipEntry(Load32LE(p, b + 4), Load32LE(p, b + 8), Load32LE(p, b + 12), Load32LE(p, b + 16))
  {
  }

  /** The checks disassemble makes on the fields it has read establish `EntryAccepted`. */
  lemma AcceptedByChecks(p: seq<bv8>, k: nat, command: bv8, version: bv8, zero: nat,
                         family: nat, tag: nat, netmask: bv32, metricS: bv32)
    requires |p| > 0 && EntryOffset(p, k) + 20 <= |p|
    requires command == CommandByte(p) && version == VersionByte(p) && zero == ZeroField(p)
    requires family == Family(p, k) && tag == Tag(p, k) && netmask == EntryAt(p, k).mask && metricS == HostMetric(p, k)
    requires !(zero != 0 || version != 2 || tag != 0)
    requires (command == 1 && family == 0) || (command == 2 && family == 2)
    requires !(metricS < 1 || metricS > 16)
    requires (netmask & (netmask + 1)) == 0
    ensures EntryAccepted(p, k)
  {
  }

  /** Any of disassemble's checks failing on the fields it has read refutes `EntryAccepted`. */
  lemma RejectedByChecks(p: seq<bv8>, k: nat, command: bv8, version: bv8, zero: nat,
                         family: nat, tag: nat, netmask: bv32, metricS: bv32)
    requires |p| > 0 && EntryOffset(p, k) + 20 <= |p|
    requires command == CommandByte(p) && version == VersionByte(p) && zero == ZeroField(p)
    requires family == Family(p, k) && tag == Tag(p, k) && netmask == EntryAt(p, k).mask && metricS == HostMetric(p, k)
    requires (zero != 0 || version != 2 || tag != 0)
          || !((command == 1 && family == 0) || (command == 2 && family == 2))
          || (metricS < 1 || metricS > 16)
          || (netmask & (netmask + 1)) != 0
    ensures !EntryAccepted(p, k)
  {
  }

  /** Every packet disassemble accepts is valid: the source's checks imply the model's invariant. */
  lemma {:induction false} DisassembledValid(p: seq<bv8>, len: nat)
    requires Readable(p, len) && Disassembled(p, len).Some?
    ensures Valid(Disassembled(p, len).value)
  {
    var rip := Disassembled(p, len).value;
    if |rip.entries| > 0 {
      EntriesInside(p, len, 0);
      assert EntryAccepted(p, 0);
    }
    forall e | e in rip.entries
      ensures Acceptable(e)
    {
      var k :| 0 <= k < |rip.entries| && rip.entries[k] == e;
      EntriesInside(p, len, k);
      assert EntryAccepted(p, k);
    }
  }

  /**
   * The header checks run only inside the entry loop: a packet with no
   * entries is accepted whatever its command, version and zero field.
   */
  lemma EmptyMessageAccepted(p: seq<bv8>, len: nat)
    requires Readable(p, len) && TotalLength(p) <= len && len <= EntriesStart(p) + 19
    ensures Disassembled(p, len) == Some(RipPacket(CommandByte(p), []))
  {
  }

  /** A single entry that fails its checks rejects the whole packet. */
  lemma RejectedEntryRejectsPacket(p: seq<bv8>, len: nat, k: nat)
    requires Readable(p, len) && TotalLength(p) <= len && k < EntryCount(p, len)
    requires EntryOffset(p, k) + 20 <= |p| && !EntryAccepted(p, k)
    ensures Disassembled(p, len) == None
  {
  }

  // ---------------------------------------------------------------------
  // Serialising

  /** Bytes assemble writes: the 4-byte header and 20 bytes per entry. */
  function AssembledLength(rip: RipPacket): nat
  {
    4 + 20 * |rip.entries|
  }

  /** Offset, within the RIP message, of the first (high) family byte of entry `k`. */
  function FamilyOffset(k: nat): nat
  {
    4 + 20 * k
  }

  /** Header byte `f`: command, version 2, then two zero bytes. */
  function HeaderByte(command: bv8, f: nat): bv8
    requires f < 4
  {
    if f == 0 then command else if f == 1 then 2 else 0
  }

  /**
   * Byte `f` of an entry as assemble lays it out. The high family byte is
   * never written, so it is whatever `kept` the buffer already held; the low
   * family byte is 0 for a request and 2 otherwise; the tag is zero; the four
   * words follow low byte first.
   */
  function EntryByte(command: bv8, e: RipEntry, kept: bv8, f: nat): bv8
    requires f < 20
  {
    if f == 0 then kept
    else if f == 1 then (if command == 1 then 0 else 2)
    else if f < 4 then 0
    else if f < 8 then ByteOf(e.addr, f - 4)
    else if f < 12 then ByteOf(e.mask, f - 8)
    else if f < 16 then ByteOf(e.nexthop, f - 12)
    else ByteOf(e.metric, f - 16)
  }

  /** Byte `j` of the serialised message, with `kept` standing for the byte assemble does not write. */
  function WireByte(rip: RipPacket, j: nat, kept: bv8): bv8
    requires j < AssembledLength(rip)
  {
    if j < 4 then HeaderByte(rip.command, j)
    else EntryByte(rip.command, rip.entries[(j - 4) / 20], kept, (j - 4) % 20)
  }

  /** Byte `f` of entry `k` is found at `FamilyOffset(k) + f`. */
  lemma WireByteAt(rip: RipPacket, k: nat, f: nat, kept: bv8)
    requires k < |rip.entries| && f < 20
    ensures FamilyOffset(k) + f < AssembledLength(rip)
    ensures WireByte(rip, FamilyOffset(k) + f, kept) == EntryByte(rip.command, rip.entries[k], kept, f)
  {
    var j := FamilyOffset(k) + f;
    assert (j - 4) / 20 == k && (j - 4) % 20 == f;
  }

  /** The buffer after assemble: the message over its first bytes, the prior contents elsewhere and in every high family byte. */
  function Assembled(rip: RipPacket, prior: seq<bv8>): (r: seq<bv8>)
    requires AssembledLength(rip) <= |prior|
    ensures |r| == |prior|
    ensures forall j :: AssembledLength(rip) <= j < |prior| ==> r[j] == prior[j]
    ensures forall k :: 0 <= k < |rip.entries| ==> r[FamilyOffset(k)] == prior[FamilyOffset(k)]
  {
    seq(|prior|, j requires 0 <= j < |prior| =>
      if j < AssembledLength(rip) then WireByte(rip, j, prior[j]) else prior[j])
  }

  /** The message as RFC 2453 lays it out, every family byte written: what assemble evidently intends. */
  function Encoded(rip: RipPacket): (r: seq<bv8>)
    ensures |r| == AssembledLength(rip)
  {
    seq(AssembledLength(rip), j requires 0 <= j < AssembledLength(rip) => WireByte(rip, j, 0))
  }

  /** Writes `x` low byte first at `at`: `*(buffer++) = (x >> 8*i) & 0xff` for i = 0..3. */
  method StoreWord(buffer: array<bv8>, at: nat, x: bv32)
    requires at + 4 <= buffer.Length
    modifies buffer
    ensures forall j :: 0 <= j < buffer.Length ==>
      buffer[j] == if at <= j < at + 4 then ByteOf(x, j - at) else old(buffer[j])
  {
    buffer[at] := ByteOf(x, 0);
    buffer[at + 1] := ByteOf(x, 1);
    buffer[at + 2] := ByteOf(x, 2);
    buffer[at + 3] := ByteOf(x, 3);
  }

  /** Writes entry `e` at `at`: bytes 1 to 19 of the entry. */
  method StoreEntry(buffer: array<bv8>, at: nat, command: bv8, e: RipEntry)
    requires at + 20 <= buffer.Length
    modifies buffer
    ensures forall j :: 0 <= j < buffer.Length ==>
      buffer[j] == if at <= j < at + 20 then EntryByte(command, e, old(buffer[j]), j - at) else old(buffer[j])
  {
    buffer[at + 1] := if command == 1 then 0 else 2;
    buffer[at + 2] := 0;
    buffer[at + 3] := 0;
    StoreWord(buffer, at + 4, e.addr);
    StoreWord(buffer, at + 8, e.mask);
    StoreWord(buffer, at + 12, e.nexthop);
    StoreWord(buffer, at + 16, e.metric);
    forall j | 0 <= j < buffer.Length
      ensures buffer[j] == if at <= j < at + 20 then EntryByte(command, e, old(buffer[j]), j - at) else old(buffer[j])
    {
      if j < at || at + 20 <= j {
      } else if j < at + 4 {
      } else if j < at + 8 {
      } else if j < at + 12 {
      } else if j < at + 16 {
      } else {
      }
    }
  }

  /** The buffer holds the first `cursor` bytes of the message and the prior contents after them. */
  ghost predicate WrittenUpTo(rip: RipPacket, prior: seq<bv8>, buffer: seq<bv8>, cursor: nat)
    requires |buffer| == |prior| && cursor <= AssembledLength(rip) <= |prior|
  {
    forall j :: 0 <= j < |buffer| ==> buffer[j] == if j < cursor then WireByte(rip, j, prior[j]) else prior[j]
  }

  /** Writing entry `i` at its offset extends the written part by the entry's 20 bytes. */
  lemma EntryWritten(rip: RipPacket, prior: seq<bv8>, before: seq<bv8>, after: seq<bv8>, i: nat)
    requires i < |rip.entries| && AssembledLength(rip) <= |prior| && |before| == |prior| && |after| == |prior|
    requires WrittenUpTo(rip, prior, before, FamilyOffset(i))
    requires forall j :: 0 <= j < |after| ==>
      after[j] == if FamilyOffset(i) <= j < FamilyOffset(i) + 20 then EntryByte(rip.command, rip.entries[i], before[j], j - FamilyOffset(i)) else before[j]
    ensures WrittenUpTo(rip, prior, after, FamilyOffset(i + 1))
  {
    var cursor := FamilyOffset(i);
    forall j | 0 <= j < |after|
      ensures after[j] == if j < cursor + 20 then WireByte(rip, j, prior[j]) else prior[j]
    {
      if cursor <= j < cursor + 20 {
        WireByteAt(rip, i, j - cursor, prior[j]);
      }
    }
  }

  /** Once every entry is written, the buffer is `Assembled`. */
  lemma AllWritten(rip: RipPacket, prior: seq<bv8>, buffer: seq<bv8>)
    requires AssembledLength(rip) <= |prior| && |buffer| == |prior|
    requires WrittenUpTo(rip, prior, buffer, AssembledLength(rip))
    ensures buffer == Assembled(rip, prior)
  {
  }

  /**
   * assemble: write the message into `buffer` and return its length,
   * 4 + 20 * numEntries.
   */
  method Assemble(rip: RipPacket, buffer: array<bv8>) returns (length: nat)
    requires |rip.entries| <= RIP_MAX_ENTRY && AssembledLength(rip) <= buffer.Length
    modifies buffer
    ensures length == AssembledLength(rip)
    ensures buffer[..] == Assembled(rip, old(buffer[..]))
  {
    ghost var prior := buffer[..];
    buffer[0] := rip.command;
    buffer[1] := 2;
    buffer[2] := 0;
    buffer[3] := 0;
    var cursor := 4;
    var i := 0;
    while i < |rip.entries|
      invariant 0 <= i <= |rip.entries| && cursor == FamilyOffset(i)
      invariant WrittenUpTo(rip, prior, buffer[..], cursor)
    {
      ghost var before := buffer[..];
      StoreEntry(buffer, cursor, rip.command, rip.entries[i]);
      EntryWritten(rip, prior, before, buffer[..], i);
      cursor := cursor + 20;
      i := i + 1;
    }
    length := 4 + |rip.entries| * 20;
    AllWritten(rip, prior, buffer[..]);
  }

  // ---------------------------------------------------------------------
  // Round trip

  /**
   * Parsing the intended encoding of a valid message, placed after an IPv4
   * header and a UDP header with Total Length within `len`, gives the message back.
   */
  lemma {:induction false} EncodedRoundTrip(p: seq<bv8>, len: nat, rip: RipPacket)
    requires |p| >= 4 && Valid(rip) && TotalLength(p) <= len
    requires len == RipOffset(p) + AssembledLength(rip) <= |p|
    requires p[RipOffset(p)..len] == Encoded(rip)
    ensures Readable(p, len)
    ensures Disassembled(p, len) == Some(rip)
  {
    var n := |rip.entries|;
    assert EntryCount(p, len) == n;
    EncodedHeader(p, len, rip);
    forall k | 0 <= k < n
      ensures EntryAccepted(p, k) && EntryAt(p, k) == rip.entries[k]
    {
      EncodedEntry(p, len, rip, k);
    }
    assert Disassembled(p, len).value.entries == rip.entries;
  }

  /** The words of an entry in wire order: address, mask, next hop, metric. */
  function FieldWord(e: RipEntry, w: nat): bv32
    requires w < 4
  {
    if w == 0 then e.addr else if w == 1 then e.mask else if w == 2 then e.nexthop else e.metric
  }

  /** Bytes 4 to 19 of an entry are its four words, low byte first. */
  lemma EntryByteOfWord(command: bv8, e: RipEntry, kept: bv8, w: nat, i: nat)
    requires w < 4 && i < 4
    ensures EntryByte(command, e, kept, 4 + 4 * w + i) == ByteOf(FieldWord(e, w), i)
  {
    if w == 0 {
    } else if w == 1 {
    } else if w == 2 {
    } else {
    }
  }

  /** Where the intended encoding sits in `p`, byte `f` of entry `k` is the encoded entry byte. */
  lemma EncodedByte(p: seq<bv8>, len: nat, rip: RipPacket, k: nat, f: nat)
    requires |p| >= 4 && len == RipOffset(p) + AssembledLength(rip) <= |p|
    requires p[RipOffset(p)..len] == Encoded(rip)
    requires k < |rip.entries| && f < 20
    ensures EntryOffset(p, k) + f < |p|
    ensures p[EntryOffset(p, k) + f] == EntryByte(rip.command, rip.entries[k], 0, f)
  {
    WireByteAt(rip, k, f, 0);
    assert EntryOffset(p, k) + f == RipOffset(p) + (FamilyOffset(k) + f);
    assert p[EntryOffset(p, k) + f] == Encoded(rip)[FamilyOffset(k) + f];
  }

  /** The four bytes of word `w` of encoded entry `k` are that field, low byte first. */
  lemma EncodedWordBytes(p: seq<bv8>, len: nat, rip: RipPacket, k: nat, w: nat)
    requires |p| >= 4 && len == RipOffset(p) + AssembledLength(rip) <= |p|
    requires p[RipOffset(p)..len] == Encoded(rip)
    requires k < |rip.entries| && w < 4
    ensures EntryOffset(p, k) + 20 <= |p|
    ensures forall i :: 0 <= i < 4 ==> p[EntryOffset(p, k) + 4 + 4 * w + i] == ByteOf(FieldWord(rip.entries[k], w), i)
  {
    var f := 4 + 4 * w;
    EncodedByte(p, len, rip, k, 19);
    forall i | 0 <= i < 4
      ensures p[EntryOffset(p, k) + 4 + 4 * w + i] == ByteOf(FieldWord(rip.entries[k], w), i)
    {
      EncodedByte(p, len, rip, k, f + i);
      EntryByteOfWord(rip.command, rip.entries[k], 0, w, i);
    }
  }

  /** Word `w` of encoded entry `k` reads back as that field, and its network-order read is the field byte-swapped. */
  lemma EncodedWord(p: seq<bv8>, len: nat, rip: RipPacket, k: nat, w: nat)
    requires |p| >= 4 && len == RipOffset(p) + AssembledLength(rip) <= |p|
    requires p[RipOffset(p)..len] == Encoded(rip)
    requires k < |rip.entries| && w < 4
    ensures EntryOffset(p, k) + 20 <= |p|
    ensures Load32LE(p, EntryOffset(p, k) + 4 + 4 * w) == FieldWord(rip.entries[k], w)
    ensures Load32BE(p, EntryOffset(p, k) + 4 + 4 * w) == ByteSwap(FieldWord(rip.entries[k], w))
  {
    var at := EntryOffset(p, k) + 4 + 4 * w;
    var x := FieldWord(rip.entries[k], w);
    EncodedWordBytes(p, len, rip, k, w);
    assert p[at] == ByteOf(x, 0) && p[at + 1] == ByteOf(x, 1) && p[at + 2] == ByteOf(x, 2) && p[at + 3] == ByteOf(x, 3) by {
      assert at + 0 == at;
    }
    LE32OfBytes(x);
  }

  /** Where the intended encoding sits in `p`, the RIP header reads back as the command, version 2 and a zero field. */
  lemma EncodedHeader(p: seq<bv8>, len: nat, rip: RipPacket)
    requires |p| >= 4 && len == RipOffset(p) + AssembledLength(rip) <= |p|
    requires p[RipOffset(p)..len] == Encoded(rip)
    ensures EntriesStart(p) <= |p|
    ensures CommandByte(p) == rip.command && VersionByte(p) == 2 && ZeroField(p) == 0
  {
    var o := RipOffset(p);
    assert p[o] == Encoded(rip)[0] && p[o + 1] == Encoded(rip)[1];
    assert p[o + 2] == Encoded(rip)[2] && p[o + 3] == Encoded(rip)[3];
  }

  /** Where the intended encoding sits in `p`, entry `k` reads back as the `k`th entry. */
  lemma EncodedEntryAt(p: seq<bv8>, len: nat, rip: RipPacket, k: nat)
    requires |p| >= 4 && len == RipOffset(p) + AssembledLength(rip) <= |p|
    requires p[RipOffset(p)..len] == Encoded(rip)
    requires k < |rip.entries|
    ensures EntryOffset(p, k) + 20 <= |p|
    ensures EntryAt(p, k) == rip.entries[k]
  {
    EncodedWord(p, len, rip, k, 0);
    EncodedWord(p, len, rip, k, 1);
    EncodedWord(p, len, rip, k, 2);
    EncodedWord(p, len, rip, k, 3);
  }

  /** The round trip for one entry: it reads back unchanged and passes every check. */
  lemma EncodedEntry(p: seq<bv8>, len: nat, rip: RipPacket, k: nat)
    requires |p| >= 4 && Valid(rip)
    requires len == RipOffset(p) + AssembledLength(rip) <= |p|
    requires p[RipOffset(p)..len] == Encoded(rip)
    requires k < |rip.entries|
    ensures EntryOffset(p, k) + 20 <= |p|
    ensures EntryAt(p, k) == rip.entries[k]
    ensures EntryAccepted(p, k)
  {
    var e := rip.entries[k];
    EncodedHeader(p, len, rip);
    EncodedEntryAt(p, len, rip, k);
    EncodedWord(p, len, rip, k, 3);
    EncodedByte(p, len, rip, k, 0);
    EncodedByte(p, len, rip, k, 1);
    EncodedByte(p, len, rip, k, 2);
    EncodedByte(p, len, rip, k, 3);
    assert e in rip.entries;
    assert Acceptable(e);
  }

  /** With every high family byte zero beforehand, assemble writes exactly the intended encoding. */
  lemma AssembledIsEncoded(rip: RipPacket, prior: seq<bv8>)
    requires AssembledLength(rip) <= |prior|
    requires forall k :: 0 <= k < |rip.entries| ==> prior[FamilyOffset(k)] == 0
    ensures Assembled(rip, prior)[..AssembledLength(rip)] == Encoded(rip)
  {
    forall j | 0 <= j < AssembledLength(rip)
      ensures WireByte(rip, j, prior[j]) == WireByte(rip, j, 0)
    {
      if j >= 4 && (j - 4) % 20 == 0 {
        assert FamilyOffset((j - 4) / 20) == j;
      }
    }
  }

  /**
   * The round trip for assemble as written: it holds when the buffer's high
   * family bytes were zero before the call.
   */
  lemma AssembledRoundTrip(p: seq<bv8>, len: nat, rip: RipPacket, prior: seq<bv8>)
    requires |p| >= 4 && Valid(rip) && TotalLength(p) <= len
    requires len == RipOffset(p) + AssembledLength(rip) <= |p| && AssembledLength(rip) <= |prior|
    requires forall k :: 0 <= k < |rip.entries| ==> prior[FamilyOffset(k)] == 0
    requires p[RipOffset(p)..len] == Assembled(rip, prior)[..AssembledLength(rip)]
    ensures Readable(p, len)
    ensures Disassembled(p, len) == Some(rip)
  {
    AssembledIsEncoded(rip, prior);
    EncodedRoundTrip(p, len, rip);
  }

  /**
   * A nonzero byte left in the buffer where an entry's high family byte
   * goes makes that entry's family at least 256, so the message assemble
   * produced is rejected by disassemble.
   */
  lemma StaleFamilyByteRejected(p: seq<bv8>, len: nat, rip: RipPacket, prior: seq<bv8>, k: nat)
    requires |p| >= 4 && TotalLength(p) <= len
    requires len == RipOffset(p) + AssembledLength(rip) <= |p| && AssembledLength(rip) <= |prior|
    requires k < |rip.entries| && prior[FamilyOffset(k)] != 0
    requires p[RipOffset(p)..len] == Assembled(rip, prior)[..AssembledLength(rip)]
    ensures Readable(p, len)
    ensures Disassembled(p, len) == None
  {
    var o := RipOffset(p);
    assert EntryCount(p, len) == |rip.entries|;
    assert EntryOffset(p, k) == o + FamilyOffset(k);
    assert p[EntryOffset(p, k)] == Assembled(rip, prior)[FamilyOffset(k)] == prior[FamilyOffset(k)];
    assert Family(p, k) >= 0x100;
    assert !EntryAccepted(p, k);
  }
}
