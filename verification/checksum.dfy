/**
 * The IPv4 header checksum (section 3.1 of RFC 791, computed as in RFC 1071):
 * the 16-bit words of the header are added into a 32-bit sum, the word that
 * holds the checksum itself (word 5, bytes 10 and 11) is skipped, carries are
 * folded back into the low 16 bits and the result is complemented.
 *
 * Words are read as `*(uint16_t*)` on a little-endian host, so word i is
 * `p[2i] + 0x100 * p[2i+1]`, and the stored checksum is read the same way.
 * The 32-bit accumulator is modelled as an integer: a header has at most 30
 * words, each below 2^16, so the sum stays far below 2^32 and never wraps.
 * On such a sum, `>> 16` is `/ 0x10000`, `& 0xffff` is `% 0x10000`, and
 * `(~sum) & 0xffff` of a folded sum is `0xffff - sum`.
 */
module Checksum {
  import opened Wire

  /** Index of the header word that holds the checksum. */
  const CHECKSUM_WORD: nat := 5

  /** Header word `i`, read low byte first. */
  function Word(p: seq<bv8>, i: nat): nat
    requires 2 * i + 1 < |p|
  {
    LE16(p[2 * i], p[2 * i + 1])
  }

  /** The running sum after the first `n` words, word 5 excluded. */
  function WordSum(p: seq<bv8>, n: nat): nat
    requires 2 * n <= |p|
  {
    if n == 0 then 0
    else WordSum(p, n - 1) + (if n - 1 == CHECKSUM_WORD then 0 else Word(p, n - 1))
  }

  /** One step of the carry fold: `(sum >> 16) + (sum & 0xffff)`. */
  function FoldOnce(sum: nat): nat
  {
    sum / 0x1_0000 + sum % 0x1_0000
  }

  /** Folding carries until the sum fits in 16 bits. */
  function Fold(sum: nat): (r: nat)
    ensures r <= 0xffff
    ensures sum <= 0xffff ==> r == sum
    decreases sum
  {
    if sum <= 0xffff then sum else Fold(FoldOnce(sum))
  }

  /**
   * The 16-bit word holding `n`, which is below 2^16, built one bit at a
   * time from the top: the conversion of a folded sum to `uint16_t`.
   */
  function ToWord16(n: nat): bv16
    requires n <= 0xffff
    decreases n
  {
    if n == 0 then 0
    else if n % 2 == 1 then (ToWord16(n / 2) << 1) | 1
    else ToWord16(n / 2) << 1
  }

  /** What both checksum routines compute for header `p`: `(~fold(sum)) & 0xffff`. */
  function IpChecksum(p: seq<bv8>): bv16
    requires |p| > 0 && |p| >= HeaderLength(p)
  {
    ToWord16(0xffff - Fold(WordSum(p, HeaderLength(p) / 2)))
  }

  /** The checksum stored in the header, read as a little-endian word at bytes 10-11. */
  function StoredChecksum(p: seq<bv8>): bv16
    requires |p| >= 12
  {
    Word16(p[10], p[11])
  }

  /** The word sum reads no byte at or beyond `2 * n` and neither byte of word 5. */
  lemma {:induction false} WordSumFrame(p: seq<bv8>, q: seq<bv8>, n: nat)
    requires 2 * n <= |p| && 2 * n <= |q|
    requires forall i :: 0 <= i < 2 * n && i != 10 && i != 11 ==> p[i] == q[i]
    ensures WordSum(p, n) == WordSum(q, n)
  {
    if n > 0 {
      WordSumFrame(p, q, n - 1);
      if n - 1 != CHECKSUM_WORD {
        assert p[2 * (n - 1)] == q[2 * (n - 1)] && p[2 * (n - 1) + 1] == q[2 * (n - 1) + 1];
      }
    }
  }

  /**
   * The checksum depends only on the IHL nibble and the header bytes other
   * than 10 and 11: changing the stored checksum or anything past the header
   * leaves it unchanged.
   */
  lemma ChecksumFrame(p: seq<bv8>, q: seq<bv8>)
    requires |p| > 0 && |p| >= HeaderLength(p)
    requires |q| > 0 && q[0] == p[0] && |q| >= HeaderLength(q)
    requires forall i :: 0 <= i < HeaderLength(p) && i != 10 && i != 11 ==> p[i] == q[i]
    ensures IpChecksum(p) == IpChecksum(q)
  {
    WordSumFrame(p, q, HeaderLength(p) / 2);
  }

  /** In particular, overwriting the stored checksum does not change the computed one. */
  lemma ChecksumIgnoresStoredField(p: seq<bv8>, lo: bv8, hi: bv8)
    requires |p| >= 12 && |p| >= HeaderLength(p)
    ensures HeaderLength(p[10 := lo][11 := hi]) == HeaderLength(p)
    ensures IpChecksum(p[10 := lo][11 := hi]) == IpChecksum(p)
  {
    ChecksumFrame(p, p[10 := lo][11 := hi]);
  }

  // ---------------------------------------------------------------------
  // The receiver's check of RFC 1071: with the checksum word included, the
  // one's-complement sum of a correct header is all ones.

  /** The sum of the first `n` header words, word 5 included. */
  function FullWordSum(p: seq<bv8>, n: nat): nat
    requires 2 * n <= |p|
  {
    if n == 0 then 0 else FullWordSum(p, n - 1) + Word(p, n - 1)
  }

  /** The full sum is the checksummed sum plus the stored word, once word 5 is inside the range. */
  lemma {:induction false} FullWordSumSplit(p: seq<bv8>, n: nat)
    requires 2 * n <= |p|
    ensures FullWordSum(p, n) == WordSum(p, n) + (if n > CHECKSUM_WORD then Word(p, CHECKSUM_WORD) else 0)
  {
    if n > 0 {
      FullWordSumSplit(p, n - 1);
    }
  }

  /** The number of times 0xffff is taken away while folding `sum`. */
  function FoldQuotient(sum: nat): nat
    decreases sum
  {
    if sum <= 0xffff then 0 else sum / 0x1_0000 + FoldQuotient(FoldOnce(sum))
  }

  /** Folding keeps a sum's value modulo 0xffff: 0x10000 is 1 modulo 0xffff. */
  lemma {:induction false} FoldCongruent(sum: nat)
    ensures sum == Fold(sum) + 0xffff * FoldQuotient(sum)
    decreases sum
  {
    if sum > 0xffff {
      assert sum == 0x1_0000 * (sum / 0x1_0000) + sum % 0x1_0000;
      FoldCongruent(FoldOnce(sum));
    }
  }

  /** Folding a non-zero sum never gives 0. */
  lemma {:induction false} FoldPositive(sum: nat)
    requires sum > 0
    ensures Fold(sum) > 0
    decreases sum
  {
    if sum > 0xffff {
      FoldPositive(FoldOnce(sum));
    }
  }

  /** A non-zero multiple of 0xffff folds to 0xffff. */
  lemma FoldOfMultiple(m: nat)
    requires m >= 1
    ensures Fold(0xffff * m) == 0xffff
  {
    var sum := 0xffff * m;
    FoldCongruent(sum);
    FoldPositive(sum);
    var j := m - FoldQuotient(sum);
    assert Fold(sum) == 0xffff * j;
  }

  /** Read as a number, a 16-bit word is its low byte plus 0x100 times its high byte. */
  lemma Word16Value(lo: bv8, hi: bv8)
    ensures Word16(lo, hi) as nat == LE16(lo, hi)
  {
    JoinedBytes(lo, hi);
  }

  lemma JoinedBytes(lo: bv8, hi: bv8)
    ensures ((lo as bv16) | ((hi as bv16) << 8)) as int == lo as int + 0x100 * (hi as int)
  {
  }

  /** Two 16-bit words with the same value are the same word. */
  lemma SameValueSameWord(x: bv16, y: bv16)
    requires x as nat == y as nat
    ensures x == y
  {
    assert (x as int) as bv16 == x && (y as int) as bv16 == y;
  }

  /** The stored checksum as a number is word 5. */
  lemma StoredChecksumIsWord(p: seq<bv8>)
    requires |p| >= 12
    ensures StoredChecksum(p) as nat == Word(p, CHECKSUM_WORD)
  {
    Word16Value(p[10], p[11]);
  }

  /** Doubling a word below 0x8000 doubles its value. */
  lemma DoubledValue(x: bv16)
    requires x < 0x8000
    ensures (x << 1) as nat == 2 * (x as nat)
  {
  }

  /** Doubling a word below 0x8000 and setting its low bit doubles its value and adds one. */
  lemma DoubledPlusOneValue(x: bv16)
    requires x < 0x8000
    ensures ((x << 1) | 1) as nat == 2 * (x as nat) + 1
  {
  }

  /** A word whose value is at most 0x7fff is below 0x8000. */
  lemma WordBelowHalf(x: bv16)
    requires x as nat <= 0x7fff
    ensures x < 0x8000
  {
  }

  /** `ToWord16` keeps the value of its argument. */
  lemma {:induction false} ToWord16Value(n: nat)
    requires n <= 0xffff
    ensures ToWord16(n) as nat == n
    decreases n
  {
    if n != 0 {
      ToWord16Value(n / 2);
      WordBelowHalf(ToWord16(n / 2));
      if n % 2 == 1 {
        DoubledPlusOneValue(ToWord16(n / 2));
      } else {
        DoubledValue(ToWord16(n / 2));
      }
    }
  }

  /** The computed checksum as a number is 0xffff minus the folded sum. */
  lemma IpChecksumValue(p: seq<bv8>)
    requires |p| > 0 && |p| >= HeaderLength(p)
    ensures IpChecksum(p) as nat == 0xffff - Fold(WordSum(p, HeaderLength(p) / 2))
  {
    ToWord16Value(0xffff - Fold(WordSum(p, HeaderLength(p) / 2)));
  }

  /**
   * A header that validates has an all-ones one's-complement sum over all
   * its words, the checksum word included.
   */
  lemma ValidHeaderSumsToOnes(p: seq<bv8>)
    requires |p| >= 12 && |p| >= HeaderLength(p) && HeaderLength(p) >= 12
    requires IpChecksum(p) == StoredChecksum(p)
    ensures Fold(FullWordSum(p, HeaderLength(p) / 2)) == 0xffff
  {
    var n := HeaderLength(p) / 2;
    var sum := WordSum(p, n);
    FullWordSumSplit(p, n);
    StoredChecksumIsWord(p);
    IpChecksumValue(p);
    FoldCongruent(sum);
    assert FullWordSum(p, n) == 0xffff * (FoldQuotient(sum) + 1);
    FoldOfMultiple(FoldQuotient(sum) + 1);
  }

  /**
   * Conversely, a header whose full one's-complement sum is all ones
   * validates, except when it stores 0xffff where the computed checksum is
   * 0: the two zeros of one's-complement arithmetic.
   */
  lemma OnesSumValidates(p: seq<bv8>)
    requires |p| >= 12 && |p| >= HeaderLength(p) && HeaderLength(p) >= 12
    requires Fold(FullWordSum(p, HeaderLength(p) / 2)) == 0xffff
    ensures IpChecksum(p) == StoredChecksum(p) || (StoredChecksum(p) == 0xffff && IpChecksum(p) == 0)
  {
    var n := HeaderLength(p) / 2;
    var sum := WordSum(p, n);
    var full := FullWordSum(p, n);
    var w := Word(p, CHECKSUM_WORD);
    FullWordSumSplit(p, n);
    StoredChecksumIsWord(p);
    IpChecksumValue(p);
    FoldCongruent(sum);
    FoldCongruent(full);
    if sum > 0 {
      FoldPositive(sum);
    }
    var j := FoldQuotient(full) + 1 - FoldQuotient(sum);
    assert Fold(sum) + w == 0xffff * j;
    ComplementCases(Fold(sum), w, j);
    if w == 0xffff - Fold(sum) {
      SameValueSameWord(IpChecksum(p), StoredChecksum(p));
    } else {
      SameValueSameWord(StoredChecksum(p), 0xffff);
      SameValueSameWord(IpChecksum(p), 0);
    }
  }

  /**
   * Two 16-bit values whose sum is a positive multiple of 0xffff are
   * complements, or both 0xffff.
   */
  lemma ComplementCases(f: int, w: int, j: int)
    requires 0 <= f <= 0xffff && 0 <= w <= 0xffff && f + w == 0xffff * j && f + w > 0
    ensures w == 0xffff - f || (w == 0xffff && f == 0xffff)
  {
  }

  /**
   * The word-summing loop of checkSum and validateIPChecksum: walk the header
   * two bytes at a time, adding every word except word 5.
   */
  method SumHeaderWords(packet: array<bv8>) returns (sum: nat)
    requires packet.Length > 0 && packet.Length >= HeaderLength(packet[..])
    ensures sum == WordSum(packet[..], HeaderLength(packet[..]) / 2)
  {
    ghost var p := packet[..];
    sum := 0;
    var pos := 0;  // index of the next word; the source keeps it twice, as `pos` and `calc_times`
    var headerLen: int := ((packet[0] & 0xf) as int) * 4;
    while headerLen > 1
      invariant 0 <= headerLen && headerLen % 2 == 0
      invariant headerLen + 2 * pos == HeaderLength(p)
      invariant sum == WordSum(p, pos)
      decreases headerLen
    {
      if pos != CHECKSUM_WORD {
        sum := sum + LE16(packet[2 * pos], packet[2 * pos + 1]);
      }
      headerLen := headerLen - 2;
      pos := pos + 1;
    }
    // IHL * 4 is even, so the source's branch for a trailing odd byte never runs.
    assert headerLen == 0;
  }

  /**
   * The folding loop and final complement of checkSum and
   * validateIPChecksum: `while (sum > 0xffff) sum = (sum >> 16) + (sum & 0xffff)`,
   * then `(~sum) & 0xffff`.
   */
  method FoldAndComplement(s: nat) returns (c: bv16)
    ensures c == ToWord16(0xffff - Fold(s))
  {
    var sum := s;
    while sum > 0xffff
      invariant Fold(sum) == Fold(s)
      decreases sum
    {
      sum := sum / 0x1_0000 + sum % 0x1_0000;
    }
    c := ToWord16(0xffff - sum);
  }

  /**
   * validateIPChecksum: recomputes the header checksum and compares it with
   * the stored one. Only the first IHL * 4 bytes and bytes 10-11 are read;
   * `len` is not used and the packet is not modified.
   */
  method ValidateIPChecksum(packet: array<bv8>, len: nat) returns (valid: bool)
    requires packet.Length >= 12 && packet.Length >= HeaderLength(packet[..])
    ensures valid <==> IpChecksum(packet[..]) == StoredChecksum(packet[..])
  {
    var sum := SumHeaderWords(packet);
    var myCheckSum := FoldAndComplement(sum);
    valid := myCheckSum == Word16(packet[10], packet[11]);
  }
}
