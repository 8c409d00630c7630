/** The Internet checksum: the two implementations of utils.go and packetPool.go,
    and the arithmetic modulo 65535 that makes a written checksum verify. */
module Checksum {
  import opened Bytes

  // ---------- Specification ----------

  /** Sum of the big-endian 16-bit words of p, an odd last byte padded with zero. */
  function WordSum(p: seq<byte>): nat {
    if p == [] then 0
    else if |p| == 1 then 0x100 * (p[0] as int)
    else (ByteToUint16(p) as int) + WordSum(p[2..])
  }

  /** The representative of s modulo 65535 in 1..65535; only the sum 0 is represented by 0. */
  function Residue(s: nat): u16 {
    if s == 0 then 0 else 1 + (s - 1) % 0xffff
  }

  /** One's complement of the folded sum. */
  function Fold(s: nat): u16 {
    0xffff - Residue(s)
  }

  /** What a receiver checks: the words, checksum included, fold to zero. */
  predicate Verifies(total: nat) {
    Fold(total) == 0
  }

  /** utils.go: pseudoHeaderSum. */
  function PseudoHeaderSum(srcAddr: u32, destAddr: u32, protocol: byte, l4Len: nat): nat {
    srcAddr / 0x1_0000 + srcAddr % 0x1_0000 +
    destAddr / 0x1_0000 + destAddr % 0x1_0000 +
    protocol + l4Len
  }

  // ---------- Word sums ----------

  /** Sums add over concatenation at an even offset. */
  lemma {:induction false} WordSumConcat(a: seq<byte>, b: seq<byte>)
    requires |a| % 2 == 0
    ensures WordSum(a + b) == WordSum(a) + WordSum(b)
  {
    if a == [] {
      assert a + b == b;
    } else {
      assert (a + b)[2..] == a[2..] + b;
      WordSumConcat(a[2..], b);
    }
  }

  /** An odd-length sum is the sum of the data padded with one zero byte. */
  lemma {:induction false} WordSumPadding(p: seq<byte>)
    requires |p| % 2 == 1
    ensures WordSum(p) == WordSum(p + [0])
  {
    if |p| > 1 {
      assert (p + [0])[2..] == p[2..] + [0];
      WordSumPadding(p[2..]);
    } else {
      assert (p + [0])[2..] == [];
    }
  }

  lemma {:induction false} WordSumBound(p: seq<byte>)
    ensures WordSum(p) <= 0xffff * ((|p| + 1) / 2)
  {
    if |p| >= 2 {
      WordSumBound(p[2..]);
    }
  }

  /** The word at an even offset enters the sum exactly once. */
  lemma WordSumSplice(a: seq<byte>, w: u16, b: seq<byte>)
    requires |a| % 2 == 0
    ensures WordSum(a + Uint16ToByte(w) + b) == WordSum(a) + w + WordSum(b)
  {
    var m := Uint16ToByte(w);
    WordSumConcat(a + m, b);
    WordSumConcat(a, m);
    assert m[2..] == [];
  }

  // ---------- Arithmetic modulo 65535 ----------

  lemma ResidueShift(s: nat, q: nat)
    requires s > 0
    ensures Residue(s + 0xffff * q) == Residue(s)
  {
    assert (s + 0xffff * q - 1) % 0xffff == (s - 1) % 0xffff;
  }

  /** One carry fold keeps the residue and strictly shrinks the sum. */
  lemma FoldStep(s: nat)
    requires s >= 0x1_0000
    ensures s % 0x1_0000 + s / 0x1_0000 < s
    ensures Residue(s % 0x1_0000 + s / 0x1_0000) == Residue(s)
  {
    var t := s % 0x1_0000 + s / 0x1_0000;
    assert s == t + 0xffff * (s / 0x1_0000);
    ResidueShift(t, s / 0x1_0000);
  }

  /** Residues agree exactly when the sums are congruent and both or neither are zero. */
  lemma ResidueEqual(s: nat, t: nat)
    ensures Residue(s) == Residue(t) <==> (s == 0 <==> t == 0) && (s - t) % 0xffff == 0
  {
    if s > 0 && t > 0 {
      assert (s - 1) % 0xffff == (t - 1) % 0xffff <==> (s - t) % 0xffff == 0;
    } else if s == 0 && t > 0 {
      assert Residue(t) >= 1;
    }
  }

  /** Folding to zero means: a nonzero multiple of 65535. */
  lemma VerifiesIff(total: nat)
    ensures Verifies(total) <==> total > 0 && total % 0xffff == 0
  {
    if total > 0 {
      assert (total - 1) % 0xffff == 0xfffe <==> total % 0xffff == 0;
    }
  }

  /** The checksum of a sum completes it to a multiple of 65535, and so does the
      all-ones form when the checksum is zero. */
  lemma FoldCompletes(s: nat)
    ensures Verifies(s + Fold(s))
    ensures Fold(s) == 0 ==> Verifies(s + 0xffff)
  {
    VerifiesIff(s + Fold(s));
    if s > 0 {
      assert (s + 0xffff - 1 - (s - 1) % 0xffff) % 0xffff == 0;
    }
    if Fold(s) == 0 {
      VerifiesIff(s);
      VerifiesIff(s + 0xffff);
    }
  }

  /** Writing the checksum of the segment with a zeroed field into that field makes the
      segment verify, on top of any further sum (a pseudo header, or nothing). */
  lemma WrittenChecksumVerifies(extra: nat, a: seq<byte>, b: seq<byte>)
    requires |a| % 2 == 0
    ensures var c := Fold(extra + WordSum(a + Uint16ToByte(0) + b));
            Verifies(extra + WordSum(a + Uint16ToByte(c) + b)) &&
            (c == 0 ==> Verifies(extra + WordSum(a + Uint16ToByte(0xffff) + b)))
  {
    var s := extra + WordSum(a + Uint16ToByte(0) + b);
    WordSumSplice(a, 0, b);
    WordSumSplice(a, Fold(s), b);
    WordSumSplice(a, 0xffff, b);
    FoldCompletes(s);
  }

  /** A verifying checksum is unique up to the two representations of zero. */
  lemma VerifyingChecksumUnique(rest: nat, c: u16, d: u16)
    requires Verifies(rest + c) && Verifies(rest + d)
    ensures c == d || {c, d} == {0, 0xffff}
  {
    VerifiesIff(rest + c);
    VerifiesIff(rest + d);
    assert ((rest + c) - (rest + d)) % 0xffff == 0;
    assert (c - d) % 0xffff == 0;
  }

  /** Equation 3, section 3 of RFC 1624: HC' = ~(~HC + ~m + m'), equal as a bit pattern to
      the checksum computed afresh, for any word changed in a header that arrived valid,
      provided the changed header has a nonzero sum outside the checksum field. */
  lemma IncrementalUpdate(rest: nat, hc: u16, m: u16, m': u16)
    requires Verifies(rest + m + hc)
    requires rest + m' > 0
    ensures Fold(rest + m') == Fold((0xffff - hc) + (0xffff - m) + m')
        <==> !(m == 0xffff && hc == 0xffff && m' == 0)
  {
    VerifiesIff(rest + m + hc);
    var s, t := rest + m', (0xffff - hc) + (0xffff - m) + m';
    assert s - t == (rest + m + hc) - 0x1_fffe;
    assert (s - t) % 0xffff == 0;
    ResidueEqual(s, t);
  }

  // ---------- utils.go ----------

  /** utils.go: sumByteArr. The loop reads a two-byte word at every even index, so on odd
      lengths the read at the last index is out of range and Go panics (None) before the
      padding branch is reached. */
  method SumByteArr(packet: seq<byte>) returns (r: Option<nat>)
    ensures r.None? <==> |packet| % 2 == 1
    ensures r.Some? ==> r.value == WordSum(packet)
  {
    var sum := 0;
    for i := 0 to |packet|
      invariant i % 2 == 0 ==> sum == WordSum(packet[..i])
      invariant i % 2 == 1 ==> i < |packet| && sum == WordSum(packet[..i + 1])
    {
      if i % 2 == 0 {
        if |packet| - i < 2 {
          return None;
        }
        WordSumStep(packet, i);
        sum := sum + ByteToUint16(packet[i..i + 2]);
      }
    }
    assert packet[..|packet|] == packet;
    if |packet| % 2 == 1 {
      assert false; // the padding branch is never reached
    }
    return Some(sum);
  }

  /** utils.go: foldChecksum. */
  method FoldChecksum(sum: nat) returns (cksum: u16)
    ensures cksum == Fold(sum)
  {
    var s := sum;
    while s / 0x1_0000 != 0
      invariant Residue(s) == Residue(sum)
      decreases s
    {
      FoldStep(s);
      s := s % 0x1_0000 + s / 0x1_0000;
    }
    cksum := 0xffff - s; // s ^ 0xffff on 16 bits
  }

  /** utils.go: calcChecksum. */
  method CalcChecksum(packet: seq<byte>) returns (r: Option<seq<byte>>)
    ensures r.None? <==> |packet| % 2 == 1
    ensures r.Some? ==> r.value == Uint16ToByte(Fold(WordSum(packet)))
  {
    var s := SumByteArr(packet);
    if s.None? {
      return None;
    }
    var sum := s.value;
    while sum / 0x1_0000 != 0
      invariant Residue(sum) == Residue(s.value)
      decreases sum
    {
      FoldStep(sum);
      sum := sum % 0x1_0000 + sum / 0x1_0000;
    }
    return Some(Uint16ToByte(0xffff - sum));
  }

  // ---------- packetPool.go ----------

  /** One step of either summing loop. */
  lemma WordSumStep(p: seq<byte>, i: nat)
    requires i % 2 == 0 && i + 2 <= |p|
    ensures WordSum(p[..i + 2]) == WordSum(p[..i]) + (ByteToUint16(p[i..i + 2]) as int)
  {
    WordSumConcat(p[..i], p[i..i + 2]);
    assert p[..i] + p[i..i + 2] == p[..i + 2];
    assert p[i..i + 2][2..] == [];
  }

  /** The last byte of an odd-length sequence is the high half of a word. */
  lemma WordSumLast(p: seq<byte>)
    requires |p| % 2 == 1
    ensures WordSum(p) == WordSum(p[..|p| - 1]) + 0x100 * (p[|p| - 1] as int)
  {
    var front, last := p[..|p| - 1], p[|p| - 1..];
    assert WordSum(last) == 0x100 * (p[|p| - 1] as int);
    assert p == front + last by {
      hide WordSum;
    }
    WordSumConcat(front, last);
  }

  /** A uint32 accumulator: the exact sum, wrapped. */
  function Wrap(sum: nat): u32 {
    sum % 0x1_0000_0000
  }

  /** Wrapping at every addition is wrapping the exact sum once. */
  lemma WrapAdd(exact: nat, w: nat)
    ensures Wrap(Wrap(exact) + w) == Wrap(exact + w)
  {
  }

  /** packetPool.go: ChecksumPartial, with the uint32 accumulator wrapping as in Go. */
  method ChecksumPartial(data: seq<byte>, initialSum: u32) returns (sum: u32)
    ensures sum == Wrap(initialSum + WordSum(data))
  {
    sum := initialSum;
    var n := |data|;
    var i := 0;
    while i < n - 1
      invariant 0 <= i <= n && i % 2 == 0
      invariant sum == Wrap(initialSum + WordSum(data[..i]))
    {
      WrapAdd(initialSum + WordSum(data[..i]), ByteToUint16(data[i..i + 2]));
      WordSumStep(data, i);
      sum := Wrap(sum + ByteToUint16(data[i..i + 2]));
      i := i + 2;
    }
    if n % 2 == 1 {
      WrapAdd(initialSum + WordSum(data[..i]), 0x100 * (data[n - 1] as int));
      WordSumLast(data);
      sum := Wrap(sum + 0x100 * (data[n - 1] as int));
    } else {
      assert data[..i] == data;
    }
  }

  /** packetPool.go: FinalizeChecksum. */
  method FinalizeChecksum(initial: u32) returns (cksum: u16)
    ensures cksum == Fold(initial)
  {
    var sum := initial;
    while sum / 0x1_0000 > 0
      invariant Residue(sum) == Residue(initial)
      decreases sum
    {
      FoldStep(sum);
      sum := sum % 0x1_0000 + sum / 0x1_0000;
    }
    cksum := 0xffff - sum;
  }

  /** The twelve pseudo-header bytes sum to pseudoHeaderSum. */
  lemma PseudoHeaderBytes(srcIP: u32, dstIP: u32, proto: byte, len: u16)
    ensures WordSum(Uint32ToByte(srcIP) + Uint32ToByte(dstIP) + [0, proto] + Uint16ToByte(len))
         == PseudoHeaderSum(srcIP, dstIP, proto, len)
  {
    var s, d, l := Uint32ToByte(srcIP), Uint32ToByte(dstIP), Uint16ToByte(len);
    WordSumConcat(s + d + [0, proto], l);
    WordSumConcat(s + d, [0, proto]);
    WordSumConcat(s, d);
    AddressWords(srcIP);
    AddressWords(dstIP);
    assert l[2..] == [] && [0, proto][2..] == [];
  }

  lemma AddressWords(ip: u32)
    ensures WordSum(Uint32ToByte(ip)) == ip / 0x1_0000 + ip % 0x1_0000
  {
    var b := Uint32ToByte(ip);
    assert b[2..][2..] == [];
    assert WordSum(b[2..]) == ByteToUint16(b[2..]);
    assert ip == 0x1_0000 * ByteToUint16(b) + ByteToUint16(b[2..]);
  }

  /** The uint32 accumulator has room for the pseudo header and 65535 bytes of data. */
  lemma NoOverflow(srcIP: u32, dstIP: u32, proto: byte, l4Data: seq<byte>)
    requires |l4Data| <= 0xffff
    ensures PseudoHeaderSum(srcIP, dstIP, proto, |l4Data|) + WordSum(l4Data) < 0x1_0000_0000
  {
    WordSumBound(l4Data);
    assert (|l4Data| + 1) / 2 <= 0x8000;
  }

  /** packetPool.go: ComputeL4ChecksumZeroCopy agrees with the checksum of utils.go on every
      length the 16-bit length field can carry: the uint32 accumulator never wraps there. */
  method ComputeL4ChecksumZeroCopy(srcIP: u32, dstIP: u32, proto: byte, l4Data: seq<byte>)
    returns (cksum: u16)
    ensures |l4Data| <= 0xffff ==>
      cksum == Fold(PseudoHeaderSum(srcIP, dstIP, proto, |l4Data|) + WordSum(l4Data))
  {
    hide WordSum, PseudoHeaderSum, Fold;
    var pseudo := PseudoHeader(srcIP, dstIP, proto, |l4Data| % 0x1_0000);
    var initial := ChecksumPartial(pseudo[..], 0);
    var sum := ChecksumPartial(l4Data, initial);
    if |l4Data| <= 0xffff {
      NoOverflow(srcIP, dstIP, proto, l4Data);
      assert initial == PseudoHeaderSum(srcIP, dstIP, proto, |l4Data|);
      assert sum == initial + WordSum(l4Data);
    }
    cksum := FinalizeChecksum(sum);
  }

  /** The twelve-byte array on the stack. */
  method PseudoHeader(srcIP: u32, dstIP: u32, proto: byte, len: u16) returns (pseudo: array<byte>)
    ensures WordSum(pseudo[..]) == PseudoHeaderSum(srcIP, dstIP, proto, len)
  {
    pseudo := new byte[12](_ => 0);
    WriteBytes(pseudo, 0, Uint32ToByte(srcIP));
    WriteBytes(pseudo, 4, Uint32ToByte(dstIP));
    pseudo[8] := 0x00;
    pseudo[9] := proto;
    WriteBytes(pseudo, 10, Uint16ToByte(len));
    assert pseudo[..] == Uint32ToByte(srcIP) + Uint32ToByte(dstIP) + [0, proto] + Uint16ToByte(len);
    PseudoHeaderBytes(srcIP, dstIP, proto, len);
  }

  /** Copies data over the bytes of b from offset at on. */
  method WriteBytes(b: array<byte>, at: nat, data: seq<byte>)
    requires at + |data| <= b.Length
    modifies b
    ensures b[..] == old(b[..at]) + data + old(b[at + |data|..])
  {
    forall k | 0 <= k < |data| {
      b[at + k] := data[k];
    }
  }
}
