/**
 * The forwarding step: check the IPv4 header checksum, decrement the TTL and
 * write the recomputed checksum back, all in place in the packet buffer.
 */
module Forwarding {
  import opened Wire
  import opened Checksum

  /**
   * checkSum: the header checksum computed with word 5 (bytes 10-11) skipped.
   * The packet is only read.
   */
  method CheckSum(packet: array<bv8>) returns (c: bv16)
    requires packet.Length > 0 && packet.Length >= HeaderLength(packet[..])
    ensures c == IpChecksum(packet[..])
  {
    var sum := SumHeaderWords(packet);
    c := FoldAndComplement(sum);
  }

  /** The header after the TTL has been set to `ttl` and the checksum restamped. */
  function Restamped(p: seq<bv8>, ttl: bv8): (r: seq<bv8>)
    requires |p| >= 12 && |p| >= HeaderLength(p)
    ensures |r| == |p| && r[0] == p[0] && r[8] == ttl
    ensures forall i :: 0 <= i < |p| && i != 8 && i != 10 && i != 11 ==> r[i] == p[i]
  {
    var q := p[8 := ttl];
    var c := IpChecksum(q);
    q[10 := LowByte(c)][11 := HighByte(c)]
  }

  /**
   * After the TTL is rewritten and the checksum restamped, the stored checksum
   * again agrees with the computed one, so the header validates.
   */
  lemma RestampedValidates(p: seq<bv8>, ttl: bv8)
    requires |p| >= 12 && |p| >= HeaderLength(p)
    ensures IpChecksum(Restamped(p, ttl)) == StoredChecksum(Restamped(p, ttl))
    ensures IpChecksum(Restamped(p, ttl)) == IpChecksum(p[8 := ttl])
  {
    var q := p[8 := ttl];
    var c := IpChecksum(q);
    ChecksumIgnoresStoredField(q, LowByte(c), HighByte(c));
    Word16OfBytes(c);
  }

  /**
   * The success path of forward: decrement the TTL (byte 8, modulo 256),
   * recompute the checksum over the new header and store it low byte at 10,
   * high byte at 11.
   */
  method Restamp(packet: array<bv8>)
    requires packet.Length >= 12 && packet.Length >= HeaderLength(packet[..])
    modifies packet
    ensures packet[..] == Restamped(old(packet[..]), old(packet[8]) - 1)
  {
    packet[8] := packet[8] - 1;
    ghost var q := packet[..];
    var temp := CheckSum(packet);
    packet[11] := HighByte(temp);
    packet[10] := LowByte(temp);
    assert packet[..] == q[10 := LowByte(temp)][11 := HighByte(temp)];
  }

  /**
   * forward: if the stored checksum is right, restamp the header and return
   * true; otherwise return false and leave the packet alone. `len` is not used.
   */
  method Forward(packet: array<bv8>, len: nat) returns (ok: bool)
    requires packet.Length >= 12 && packet.Length >= HeaderLength(packet[..])
    modifies packet
    ensures ok <==> IpChecksum(old(packet[..])) == StoredChecksum(old(packet[..]))
    ensures !ok ==> packet[..] == old(packet[..])
    ensures ok ==> packet[..] == Restamped(old(packet[..]), old(packet[8]) - 1)
    ensures ok ==> StoredChecksum(packet[..]) == IpChecksum(packet[..])
  {
    var myCheckSum := CheckSum(packet);
    if myCheckSum == Word16(packet[10], packet[11]) {
      RestampedValidates(packet[..], packet[8] - 1);
      Restamp(packet);
      ok := true;
    } else {
      ok := false;
    }
  }
}
