/** The Internet checksum (RFC 1071): one's-complement sums of 16-bit words. */
module OnesComplement {
  import opened Bytes

  const ALL_ONES := 0xffff

  /** The end-around fold of a sum: zero stays zero, all else lands in 1 .. 0xffff. */
  function Ones(x: nat): (r: u16)
    ensures r == 0 <==> x == 0
  {
    if x == 0 then 0 else (x - 1) % ALL_ONES + 1
  }

  /** One's-complement addition: a carry out of the top comes back in at the bottom. */
  function OnesAdd(a: u16, b: u16): u16 { if a + b < TWO16 then a + b else a + b - ALL_ONES }

  lemma {:induction false} OnesMultiple(x: nat, k: nat)
    requires x > 0
    ensures Ones(x + ALL_ONES * k) == Ones(x)
  {
    assert (x - 1 + ALL_ONES * k) % ALL_ONES == (x - 1) % ALL_ONES;
  }

  lemma {:induction false} OnesSmall(x: nat)
    requires x <= ALL_ONES
    ensures Ones(x) == x
  {}

  /** Folding at the end is one's-complement addition on the way. */
  lemma {:induction false} OnesIsAddition(x: nat, w: u16)
    ensures Ones(x + w) == OnesAdd(Ones(x), w)
  {
    if x > 0 {
      var k := (x - 1) / ALL_ONES;
      assert x == Ones(x) + ALL_ONES * k;
      OnesMultiple(Ones(x) + w, k);
      if Ones(x) + w <= ALL_ONES {
        OnesSmall(Ones(x) + w);
      } else {
        OnesMultiple(Ones(x) + w - ALL_ONES, 1);
        OnesSmall(Ones(x) + w - ALL_ONES);
      }
    } else {
      OnesSmall(w);
    }
  }

  /** A sum completed by the complement of its fold folds to all ones. */
  lemma {:induction false} Completed(x: nat)
    ensures Ones(x + (ALL_ONES - Ones(x))) == ALL_ONES
  {
    if x > 0 {
      var k := (x - 1) / ALL_ONES;
      assert x + (ALL_ONES - Ones(x)) == ALL_ONES + ALL_ONES * k;
      OnesMultiple(ALL_ONES, k);
    }
    OnesSmall(ALL_ONES);
  }

  /** The 16-bit word at byte `i`, most significant byte first. */
  function Word(s: seq<byte>, i: nat): u16
    requires i + 1 < |s|
  {
    s[i] as int * 256 + s[i + 1]
  }

  /** The sum of the first `k` words. */
  function SumTo(s: seq<byte>, k: nat): nat
    requires 2 * k <= |s|
  {
    if k == 0 then 0 else SumTo(s, k - 1) + Word(s, 2 * (k - 1))
  }

  /** An odd last byte counts as the upper half of a word. */
  function Rest(s: seq<byte>): nat {
    if |s| % 2 == 1 then s[|s| - 1] as int * 256 else 0
  }

  function WordSum(s: seq<byte>): nat { SumTo(s, |s| / 2) + Rest(s) }

  /** The bytes weighted by their places: 256 for the first of a word, 1 for the second. */
  function Weighted(s: seq<byte>): nat {
    if s == [] then 0
    else
      var n := |s| - 1;
      Weighted(s[..n]) + (if n % 2 == 0 then 256 * (s[n] as int) else s[n] as int)
  }

  lemma {:induction false} SumIsWeighted(s: seq<byte>, k: nat)
    requires 2 * k <= |s|
    ensures SumTo(s, k) == Weighted(s[..2 * k])
  {
    if k > 0 {
      var n := 2 * (k - 1);
      SumIsWeighted(s, k - 1);
      assert s[..n + 2][..n + 1] == s[..n + 1] && s[..n + 1][..n] == s[..n];
    }
  }

  lemma {:induction false} WordSumIsWeighted(s: seq<byte>)
    ensures WordSum(s) == Weighted(s)
  {
    var n := 2 * (|s| / 2);
    SumIsWeighted(s, |s| / 2);
    if |s| % 2 == 1 { assert s[..|s| - 1] == s[..n]; } else { assert s[..n] == s; }
  }

  lemma {:induction false} SumBound(s: seq<byte>, k: nat)
    requires 2 * k <= |s|
    ensures SumTo(s, k) <= ALL_ONES * k
  {
    if k > 0 { SumBound(s, k - 1); }
  }

  /** No sum of fewer than 2^16 bytes leaves 32 bits. */
  lemma {:induction false} NoOverflow(s: seq<byte>, k: nat, initial: nat)
    requires |s| < TWO16 && 2 * k <= |s| && initial <= 6 * ALL_ONES
    ensures initial + SumTo(s, k) + ALL_ONES < TWO32
  {
    SumBound(s, k);
  }

  /** The running one's-complement sum of the words, as RFC 1071 has it. */
  function OnesSum(s: seq<byte>, k: nat): u16
    requires 2 * k <= |s|
  {
    if k == 0 then 0 else OnesAdd(OnesSum(s, k - 1), Word(s, 2 * (k - 1)))
  }

  lemma {:induction false} FoldIsOnesSum(s: seq<byte>, k: nat)
    requires 2 * k <= |s|
    ensures Ones(SumTo(s, k)) == OnesSum(s, k)
  {
    if k > 0 {
      FoldIsOnesSum(s, k - 1);
      OnesIsAddition(SumTo(s, k - 1), Word(s, 2 * (k - 1)));
    }
  }

  lemma {:induction false} SumPrefix(a: seq<byte>, b: seq<byte>, k: nat)
    requires 2 * k <= |a|
    ensures SumTo(a + b, k) == SumTo(a, k)
  {
    if k > 0 { SumPrefix(a, b, k - 1); }
  }

  /** The bytes, with a zero byte behind an odd number of them. */
  function Padded(s: seq<byte>): (r: seq<byte>)
    ensures |r| % 2 == 0
  {
    if |s| % 2 == 1 then s + [0] else s
  }

  /** Folding the sum of bytes of any number gives the one's-complement sum of the padded words (RFC 1071). */
  lemma {:induction false} WordSumIsOnes(s: seq<byte>)
    ensures Ones(WordSum(s)) == OnesSum(Padded(s), |Padded(s)| / 2)
  {
    var p, k := Padded(s), |s| / 2;
    if |s| % 2 == 1 {
      SumPrefix(s, [0], k);
      assert |p| / 2 == k + 1 && Word(p, 2 * k) == Rest(s);
      assert SumTo(p, k + 1) == SumTo(p, k) + Word(p, 2 * k);
    }
    FoldIsOnesSum(p, |p| / 2);
  }

  /** Sums of an even prefix and of what follows add up. */
  lemma {:induction false} SumAppend(a: seq<byte>, ka: nat, b: seq<byte>, kb: nat)
    requires |a| == 2 * ka && 2 * kb <= |b|
    ensures SumTo(a + b, ka + kb) == SumTo(a, ka) + SumTo(b, kb)
  {
    if kb > 0 {
      SumAppend(a, ka, b, kb - 1);
      var i := 2 * (kb - 1);
      assert (a + b)[2 * ka + i] == b[i] && (a + b)[2 * ka + i + 1] == b[i + 1];
      assert 2 * (ka + kb - 1) == 2 * ka + i;
    } else {
      SumPrefix(a, b, ka);
    }
  }

  lemma {:induction false} WordSumAppend(a: seq<byte>, b: seq<byte>)
    requires |a| % 2 == 0
    ensures WordSum(a + b) == WordSum(a) + WordSum(b)
  {
    SumAppend(a, |a| / 2, b, |b| / 2);
    assert |a + b| / 2 == |a| / 2 + |b| / 2;
  }

  /** Filling a zeroed word adds just that word to the sum. */
  lemma {:induction false} SumFilled(s: seq<byte>, t: seq<byte>, j: nat, k: nat)
    requires |s| == |t| && 2 * k <= |s| && 2 * j + 1 < |s| && Word(s, 2 * j) == 0
    requires forall i :: 0 <= i < |s| && i != 2 * j && i != 2 * j + 1 ==> s[i] == t[i]
    ensures SumTo(t, k) == SumTo(s, k) + if k > j then Word(t, 2 * j) else 0
  {
    if k > 0 { SumFilled(s, t, j, k - 1); }
  }

  lemma {:induction false} WordSumFilled(s: seq<byte>, t: seq<byte>, j: nat)
    requires |s| == |t| && 2 * j + 1 < |s| && Word(s, 2 * j) == 0
    requires forall i :: 0 <= i < |s| && i != 2 * j && i != 2 * j + 1 ==> s[i] == t[i]
    ensures WordSum(t) == WordSum(s) + Word(t, 2 * j)
  {
    SumFilled(s, t, j, |s| / 2);
  }

  /** The checksum of the data together with an initial sum. */
  function Complement(x: nat): u16 { ALL_ONES - Ones(x) }

  /** A word-aligned checksum field that holds the checksum of the rest makes the whole check to zero. */
  lemma {:induction false} FilledChecks(s: seq<byte>, t: seq<byte>, j: nat, initial: nat)
    requires |s| == |t| && 2 * j + 1 < |s| && Word(s, 2 * j) == 0
    requires forall i :: 0 <= i < |s| && i != 2 * j && i != 2 * j + 1 ==> s[i] == t[i]
    requires Word(t, 2 * j) == Complement(initial + WordSum(s))
    ensures Complement(initial + WordSum(t)) == 0
  {
    WordSumFilled(s, t, j);
    Completed(initial + WordSum(s));
  }
}

/** The checksum loops of the network stack and the packets it seals with them. */
module Checksums {
  import opened Bytes
  import opened OnesComplement

  type Ip = s: seq<byte> | |s| == 4 witness [0, 0, 0, 0]

  const TCP: byte := 6
  const UDP: byte := 17

  function BE16(n: u16): (s: seq<byte>)
    ensures |s| == 2 && Word(s, 0) == n
  {
    [n / 256, n % 256]
  }

  /** The pseudo-header in front of a segment (section 3.1 of RFC 793). */
  function PseudoHeader(src: Ip, dst: Ip, protocol: byte, length: u16): (s: seq<byte>)
    ensures |s| == 12
  {
    src + dst + [0, protocol] + BE16(length)
  }

  // ----- the loops -----

  method SumWords(data: seq<byte>, initial: u32) returns (sum: u32)
    requires |data| < TWO16 && initial <= 6 * ALL_ONES
    ensures sum == initial + WordSum(data)
  {
    sum := initial;
    var i, k: nat := 0, 0;
    while i + 1 < |data|
      invariant i == 2 * k && i <= |data| && sum == initial + SumTo(data, k)
    {
      NoOverflow(data, k, initial);
      sum := sum + Word(data, i);
      i, k := i + 2, k + 1;
    }
    NoOverflow(data, k, initial);
    if |data| % 2 == 1 {
      sum := sum + data[|data| - 1] as int * 256;
    }
  }

  method Fold(sum: u32) returns (r: u16)
    ensures r == Ones(sum)
  {
    var s: u32 := sum;
    while s > ALL_ONES
      invariant Ones(s) == Ones(sum)
    {
      var hi, lo := s / TWO16, s % TWO16;
      assert s == hi + lo + ALL_ONES * hi;
      OnesMultiple(hi + lo, hi);
      s := hi + lo;
    }
    OnesSmall(s);
    r := s;
  }

  /** checksumWithInitial; checksum and ipv4Checksum are the same loops from zero. */
  method ChecksumWithInitial(data: seq<byte>, initial: u32) returns (c: u16)
    requires |data| < TWO16 && initial <= 6 * ALL_ONES
    ensures c == Complement(initial + WordSum(data))
  {
    var sum := SumWords(data, initial);
    var r := Fold(sum);
    c := ALL_ONES - r;
  }

  lemma {:induction false} SumOfSix(p: seq<byte>)
    requires |p| == 12
    ensures WordSum(p) == Word(p, 0) + Word(p, 2) + Word(p, 4) + Word(p, 6) + Word(p, 8) + Word(p, 10)
  {
    assert SumTo(p, 6) == SumTo(p, 5) + Word(p, 10);
    assert SumTo(p, 5) == SumTo(p, 4) + Word(p, 8);
    assert SumTo(p, 4) == SumTo(p, 3) + Word(p, 6);
    assert SumTo(p, 3) == SumTo(p, 2) + Word(p, 4);
    assert SumTo(p, 2) == SumTo(p, 1) + Word(p, 2);
    assert SumTo(p, 1) == SumTo(p, 0) + Word(p, 0);
  }

  /** pseudoHeaderChecksum: the unfolded sum of the pseudo-header's words. */
  method PseudoHeaderSum(src: Ip, dst: Ip, protocol: byte, length: u16) returns (sum: u32)
    ensures sum == WordSum(PseudoHeader(src, dst, protocol, length)) <= 6 * ALL_ONES
  {
    var p := PseudoHeader(src, dst, protocol, length);
    SumOfSix(p);
    assert Word(p, 0) == Word(src, 0) && Word(p, 2) == Word(src, 2);
    assert Word(p, 4) == Word(dst, 0) && Word(p, 6) == Word(dst, 2);
    assert Word(p, 8) == protocol && Word(p, 10) == length;
    sum := Word(src, 0) as int + Word(src, 2) as int + Word(dst, 0) as int + Word(dst, 2) as int +
           protocol as int + length as int;
  }

  /** tcpChecksum and udpChecksum: the checksum of the pseudo-header followed by the segment. */
  method TransportChecksum(src: Ip, dst: Ip, protocol: byte, segment: seq<byte>) returns (c: u16)
    requires |segment| < TWO16
    ensures c == Complement(WordSum(PseudoHeader(src, dst, protocol, |segment|) + segment))
  {
    var initial := PseudoHeaderSum(src, dst, protocol, |segment|);
    WordSumAppend(PseudoHeader(src, dst, protocol, |segment|), segment);
    c := ChecksumWithInitial(segment, initial);
  }

  // ----- packets -----

  /** The receive-side test of a TCP segment. */
  ghost predicate Verifies(src: Ip, dst: Ip, protocol: byte, segment: seq<byte>)
    requires |segment| < TWO16
  {
    Complement(WordSum(PseudoHeader(src, dst, protocol, |segment|) + segment)) == 0
  }

  lemma {:induction false} ComplementIsZero(x: nat)
    ensures Complement(x) == 0 <==> x > 0 && x % 65535 == 0
  {}

  lemma {:induction false} WeightedPseudoHeader(src: Ip, dst: Ip, protocol: byte, length: u16)
    ensures WordSum(PseudoHeader(src, dst, protocol, length)) ==
            256 * (src[0] as int + src[2] as int + dst[0] as int + dst[2] as int) +
            (src[1] as int + src[3] as int + dst[1] as int + dst[3] as int) + protocol as int + length as int
  {
    var p := PseudoHeader(src, dst, protocol, length);
    SumOfSix(p);
    assert Word(p, 0) == Word(src, 0) && Word(p, 2) == Word(src, 2);
    assert Word(p, 4) == Word(dst, 0) && Word(p, 6) == Word(dst, 2);
    assert Word(p, 8) == protocol && Word(p, 10) == length;
  }

  /** Addresses, protocol, length and bytes, weighted by their places, add up to a multiple of 65535. */
  lemma {:induction false} VerifiesByRemainder(src: Ip, dst: Ip, protocol: byte, segment: seq<byte>)
    requires |segment| < TWO16
    ensures var sum := 256 * (src[0] as int + src[2] as int + dst[0] as int + dst[2] as int) +
                       (src[1] as int + src[3] as int + dst[1] as int + dst[3] as int) +
                       protocol as int + |segment| + Weighted(segment);
            Verifies(src, dst, protocol, segment) <==> sum > 0 && sum % 65535 == 0
  {
    var p := PseudoHeader(src, dst, protocol, |segment|);
    WeightedPseudoHeader(src, dst, protocol, |segment|);
    WordSumAppend(p, segment);
    WordSumIsWeighted(segment);
    ComplementIsZero(WordSum(p + segment));
  }

  method CopyAt(a: array<byte>, at: nat, s: seq<byte>)
    requires at + |s| <= a.Length
    modifies a
    ensures a[..] == old(a[..at]) + s + old(a[at + |s|..])
  {
    for i := 0 to |s|
      invariant a[..] == old(a[..at]) + s[..i] + old(a[at + i..])
    {
      a[at + i] := s[i];
    }
  }

  /** Zeroes the checksum field, computes the checksum over pseudo-header and segment, and stores it. */
  method Seal(src: Ip, dst: Ip, protocol: byte, a: array<byte>, at: nat)
    requires at % 2 == 0 && at + 2 <= a.Length < TWO16
    modifies a
    ensures Verifies(src, dst, protocol, a[..])
    ensures forall i :: 0 <= i < a.Length && i != at && i != at + 1 ==> a[i] == old(a[i])
  {
    a[at], a[at + 1] := 0, 0;
    ghost var s := a[..];
    var c := TransportChecksum(src, dst, protocol, a[..]);
    a[at], a[at + 1] := c / 256, c % 256;
    ghost var p := PseudoHeader(src, dst, protocol, a.Length);
    WordSumAppend(p, s);
    WordSumAppend(p, a[..]);
    FilledChecks(s, a[..], at / 2, WordSum(p));
  }

  /** Only the checksum field changed. */
  lemma {:induction false} AroundField(s: seq<byte>, t: seq<byte>, front: seq<byte>, back: seq<byte>)
    requires s == front + [0, 0] + back && |t| == |s|
    requires forall i :: 0 <= i < |s| && i != |front| && i != |front| + 1 ==> s[i] == t[i]
    ensures t[..|front|] == front && t[|front| + 2..] == back
  {
    assert forall i :: 0 <= i < |back| ==> s[|front| + 2 + i] == back[i];
  }

  /** A packet written as what is before and what is behind its checksum field, then sealed. */
  method WriteSealed(src: Ip, dst: Ip, protocol: byte, a: array<byte>, front: seq<byte>, back: seq<byte>)
    requires |front| % 2 == 0 && |front| + 2 + |back| == a.Length < TWO16
    modifies a
    ensures Verifies(src, dst, protocol, a[..]) && a[..|front|] == front && a[|front| + 2..] == back
  {
    CopyAt(a, 0, front + [0, 0] + back);
    ghost var s := a[..];
    assert s == front + [0, 0] + back;
    Seal(src, dst, protocol, a, |front|);
    AroundField(s, a[..], front, back);
  }

  /** Options padded with zeros to whole 32-bit words. */
  method PadOptions(options: seq<byte>) returns (padded: seq<byte>)
    ensures |padded| % 4 == 0 && |padded| < |options| + 4 && options <= padded
    ensures forall i :: |options| <= i < |padded| ==> padded[i] == 0
  {
    padded := options;
    if |options| % 4 != 0 {
      padded := options + seq(4 - |options| % 4, i => 0);
    }
  }

  /** The first 16 bytes of a TCP header: ports, sequence numbers, header length, flags and window. */
  function TcpFields(srcPort: u16, dstPort: u16, seqno: u32, ack: u32, headerLen: nat, flags: byte): (s: seq<byte>)
    requires headerLen <= 60
    ensures |s| == 16
  {
    BE16(srcPort) + BE16(dstPort) + BE32(seqno) + BE32(ack) + [headerLen / 4 * 16, flags] + BE16(0xffff)
  }

  /** The number in the two bytes at `at`, and in the four. */
  function Number16(s: seq<byte>, at: nat): nat
    requires at + 2 <= |s|
  {
    256 * (s[at] as int) + s[at + 1] as int
  }

  function Number32(s: seq<byte>, at: nat): nat
    requires at + 4 <= |s|
  {
    65536 * Number16(s, at) + Number16(s, at + 2)
  }

  /** Each field of the header at its place (section 3.1 of RFC 793). */
  predicate TcpHeader(s: seq<byte>, srcPort: u16, dstPort: u16, seqno: u32, ack: u32, headerLen: nat, flags: byte) {
    && |s| >= 16 && Number16(s, 0) == srcPort && Number16(s, 2) == dstPort
    && Number32(s, 4) == seqno && Number32(s, 8) == ack
    && s[12] as int == 16 * (headerLen / 4) && s[13] == flags && Number16(s, 14) == 65535
  }

  lemma {:induction false} BE32At(s: seq<byte>, at: nat, n: u32)
    requires at + 4 <= |s| && s[at..at + 4] == BE32(n)
    ensures Number32(s, at) == n
  {
    BE32RoundTrip(n);
    var b := s[at..at + 4];
    assert b[0] == s[at] && b[1] == s[at + 1] && b[2] == s[at + 2] && b[3] == s[at + 3];
  }

  lemma {:induction false} BE16At(s: seq<byte>, at: nat, n: u16)
    requires at + 2 <= |s| && s[at..at + 2] == BE16(n)
    ensures Number16(s, at) == n
  {
    var b := s[at..at + 2];
    assert b[0] == s[at] && b[1] == s[at + 1];
  }

  lemma {:induction false} TcpFieldsAt(s: seq<byte>, srcPort: u16, dstPort: u16, seqno: u32, ack: u32, headerLen: nat,
                                       flags: byte)
    requires headerLen <= 60 && |s| >= 16 && s[..16] == TcpFields(srcPort, dstPort, seqno, ack, headerLen, flags)
    ensures TcpHeader(s, srcPort, dstPort, seqno, ack, headerLen, flags)
  {
    var f := s[..16];
    assert f[0..2] == BE16(srcPort) && f[2..4] == BE16(dstPort) && f[4..8] == BE32(seqno) && f[8..12] == BE32(ack);
    assert f[12] as int == headerLen / 4 * 16 && f[13] == flags && f[14..16] == BE16(0xffff);
    BE16At(f, 0, srcPort);
    BE16At(f, 2, dstPort);
    BE32At(f, 4, seqno);
    BE32At(f, 8, ack);
    BE16At(f, 14, 0xffff);
  }

  /** A TCP segment as the stack sends it; whatever the buffer held before, it passes the receive-side test. */
  method BuildTcp(packet: array<byte>, src: Ip, dst: Ip, srcPort: u16, dstPort: u16, seqno: u32, ack: u32, flags: byte,
                  options: seq<byte>, payload: seq<byte>)
    requires |options| % 4 == 0 && |options| <= 40 && packet.Length == 20 + |options| + |payload| < TWO16
    modifies packet
    ensures Verifies(src, dst, TCP, packet[..])
    ensures packet[..16] == TcpFields(srcPort, dstPort, seqno, ack, 20 + |options|, flags)
    ensures TcpHeader(packet[..], srcPort, dstPort, seqno, ack, 20 + |options|, flags)
    ensures packet[18..] == [0, 0] + options + payload
  {
    WriteSealed(src, dst, TCP, packet, TcpFields(srcPort, dstPort, seqno, ack, 20 + |options|, flags),
                [0, 0] + options + payload);
    TcpFieldsAt(packet[..], srcPort, dstPort, seqno, ack, 20 + |options|, flags);
  }

  /** A TCP segment with options of any length, in a buffer that may hold anything before. */
  method NewTcpSegment(src: Ip, dst: Ip, srcPort: u16, dstPort: u16, seqno: u32, ack: u32, flags: byte,
                       options: seq<byte>, payload: seq<byte>) returns (packet: array<byte>, padded: seq<byte>)
    requires |options| <= 40 && 60 + |payload| < TWO16
    ensures options <= padded && |padded| < |options| + 4 && |padded| % 4 == 0
    ensures forall i :: |options| <= i < |padded| ==> padded[i] == 0
    ensures fresh(packet) && packet.Length == 20 + |padded| + |payload| && Verifies(src, dst, TCP, packet[..])
    ensures packet[..16] == TcpFields(srcPort, dstPort, seqno, ack, 20 + |padded|, flags)
    ensures TcpHeader(packet[..], srcPort, dstPort, seqno, ack, 20 + |padded|, flags)
    ensures packet[18..] == [0, 0] + padded + payload
  {
    padded := PadOptions(options);
    packet := new byte[20 + |padded| + |payload|];
    BuildTcp(packet, src, dst, srcPort, dstPort, seqno, ack, flags, padded, payload);
  }

  /** A UDP datagram around a payload that is already in place. */
  method BuildUdp(packet: array<byte>, src: Ip, dst: Ip, srcPort: u16, dstPort: u16)
    requires 8 <= packet.Length < TWO16
    modifies packet
    ensures Verifies(src, dst, UDP, packet[..])
    ensures packet[..6] == BE16(srcPort) + BE16(dstPort) + BE16(packet.Length)
    ensures Number16(packet[..], 0) == srcPort && Number16(packet[..], 2) == dstPort
    ensures Number16(packet[..], 4) == packet.Length
    ensures packet[8..] == old(packet[8..])
  {
    var fields := BE16(srcPort) + BE16(dstPort) + BE16(packet.Length);
    CopyAt(packet, 0, fields);
    assert forall i :: 8 <= i < packet.Length ==> packet[i] == packet[..][i] == old(packet[..][i]);
    assert forall i :: 0 <= i < 6 ==> packet[i] == packet[..][i] == fields[i];
    Seal(src, dst, UDP, packet, 6);
  }

  /** The receive-side test of a UDP datagram, which a zero checksum field switches off. */
  method AcceptsUdp(src: Ip, dst: Ip, datagram: seq<byte>) returns (ok: bool)
    requires 8 <= |datagram| < TWO16
    ensures ok <==> Word(datagram, 6) == 0 || Verifies(src, dst, UDP, datagram)
  {
    if Word(datagram, 6) == 0 {
      return true;
    }
    var c := TransportChecksum(src, dst, UDP, datagram);
    ok := c == 0;
  }

  /** The receive-side test of a TCP segment. */
  method AcceptsTcp(src: Ip, dst: Ip, segment: seq<byte>) returns (ok: bool)
    requires |segment| < TWO16
    ensures ok <==> Verifies(src, dst, TCP, segment)
  {
    var c := TransportChecksum(src, dst, TCP, segment);
    ok := c == 0;
  }

  /** Stores the checksum of a header into its field, which is zero so far. */
  method SealHeader(a: array<byte>, at: nat)
    requires at % 2 == 0 && at + 2 <= a.Length < TWO16 && a[at] == a[at + 1] == 0
    modifies a
    ensures Complement(WordSum(a[..])) == 0
    ensures forall i :: 0 <= i < a.Length && i != at && i != at + 1 ==> a[i] == old(a[i])
  {
    var c := ChecksumWithInitial(a[..], 0);
    a[at], a[at + 1] := c / 256, c % 256;
    FilledChecks(old(a[..]), a[..], at / 2, 0);
  }

  /** An IPv4 header without options: its words, the checksum included, check to zero. */
  method BuildIpv4Header(packet: array<byte>, src: Ip, dst: Ip, protocol: byte, payloadLen: nat)
    requires packet.Length == 20 && 20 + payloadLen < TWO16
    modifies packet
    ensures Complement(WordSum(packet[..])) == 0
    ensures packet[..10] == [0x45, 0] + BE16(20 + payloadLen) + [0, 0, 0, 0, 64, protocol]
    ensures packet[12..] == src + dst
  {
    var fields := [0x45, 0] + BE16(20 + payloadLen) + [0, 0, 0, 0, 64, protocol];
    CopyAt(packet, 0, fields + [0, 0] + (src + dst));
    ghost var s := packet[..];
    assert s == fields + [0, 0] + (src + dst);
    SealHeader(packet, 10);
    AroundField(s, packet[..], fields, src + dst);
  }
}
