module NetUtil {
  import opened Division

  type Byte = x: int | 0 <= x < 256

  const MAX_IPPKT_SIZE := 2000
  const MAX_ETHER_HEADER_MARGIN := 50
  const IPPROTO_MOBILE: Byte := 55
  const MIP_LEN := 12
  const IP_LEN := 20

  // ----- bytes

  function U16(n: nat): seq<Byte> { [Rem(Quot(n, 256), 256), Rem(n, 256)] }

  /** `s` with the bytes `b` written at offset `off`. */
  function Put(s: seq<Byte>, off: nat, b: seq<Byte>): (r: seq<Byte>)
    requires off + |b| <= |s|
    ensures |r| == |s|
    ensures forall i | 0 <= i < |s| :: r[i] == if off <= i < off + |b| then b[i - off] else s[i]
  {
    s[..off] + b + s[off + |b|..]
  }

  /** A big-endian word. */
  function Word(hi: int, lo: int): int { hi * 256 + lo }

  /** Network byte order: the high byte comes first. */
  lemma {:induction false} NetworkOrder(n: nat, hi: Byte, lo: Byte)
    requires n < 0x1_0000
    ensures U16(n) == [n / 256, n % 256] && Word(hi, lo) == 256 * hi + lo
  {
    IsDivision(n, 256);
    IsDivision(n / 256, 256);
  }

  // ----- the one's-complement checksum of RFC 1071

  /** The plain sum of the big-endian 16-bit words; an odd last byte counts as a high byte. */
  ghost function WordSum(s: seq<Byte>): nat {
    if |s| == 0 then 0
    else if |s| == 1 then Word(s[0], 0)
    else Word(s[0], s[1]) + WordSum(s[2..])
  }

  /** The one's-complement value of a sum: its residue modulo 65535, with 65535 for 0. */
  function Folded(n: nat): (r: nat)
    ensures 1 <= r <= 65535
  {
    if Rem(n, 65535) == 0 then 65535 else Rem(n, 65535)
  }

  ghost function Checksum(s: seq<Byte>): (r: nat)
    ensures r < 65535
  {
    65535 - Folded(WordSum(s))
  }

  lemma {:induction false} FoldStep(n: nat, w: nat, acc: nat)
    requires w <= 65535 && acc == Folded(n)
    ensures Folded(n + w) == if acc + w > 65535 then acc + w - 65535 else acc + w
  {
    var q, r := Quot(n, 65535), Rem(n, 65535);
    QuotRem(n, 65535);
    var k := if r + w < 65535 then 0 else 1;
    QuotRemUnique(n + w, 65535, q + k, r + w - k * 65535);
  }

  lemma {:induction false} WordSumSnoc(s: seq<Byte>, i: nat)
    requires i % 2 == 0 && i <= |s|
    ensures i + 1 < |s| ==> WordSum(s[..i + 2]) == WordSum(s[..i]) + Word(s[i], s[i + 1])
    ensures i + 1 == |s| ==> WordSum(s) == WordSum(s[..i]) + Word(s[i], 0)
  {
    if i == 0 {
      if |s| > 1 {
        assert s[..2][2..] == [];
      }
    } else {
      WordSumSnoc(s[2..], i - 2);
      assert s[..i][2..] == s[2..][..i - 2];
      assert i + 1 < |s| ==> s[..i + 2][2..] == s[2..][..i];
    }
  }

  method CalcIpChecksum(data: seq<Byte>) returns (sum: nat)
    ensures sum == Checksum(data)
  {
    var acc: nat := 0xffff;
    var i := 0;
    while i + 1 < |data|
      invariant i % 2 == 0 && i <= |data|
      invariant acc == Folded(WordSum(data[..i]))
    {
      WordSumSnoc(data, i);
      FoldStep(WordSum(data[..i]), Word(data[i], data[i + 1]), acc);
      acc := acc + Word(data[i], data[i + 1]);
      if acc > 0xffff {
        acc := acc - 0xffff;
      }
      i := i + 2;
    }
    if |data| % 2 == 1 {
      WordSumSnoc(data, i);
      FoldStep(WordSum(data[..i]), Word(data[|data| - 1], 0), acc);
      acc := acc + Word(data[|data| - 1], 0);
      if acc > 0xffff {
        acc := acc - 0xffff;
      }
    } else {
      assert data[..i] == data;
    }
    sum := 0xffff - acc;
  }

  lemma {:induction false} SmallWord(n: nat)
    requires n < 65536
    ensures Word(U16(n)[0], U16(n)[1]) == n
  {
    QuotRem(n, 256);
    QuotRemUnique(Quot(n, 256), 256, 0, Quot(n, 256));
  }

  lemma {:induction false} WordSumPut(s: seq<Byte>, off: nat, n: nat)
    requires off % 2 == 0 && off + 2 <= |s| && n < 65536 && s[off] == 0 && s[off + 1] == 0
    ensures WordSum(Put(s, off, U16(n))) == WordSum(s) + n
  {
    var t := Put(s, off, U16(n));
    if off == 0 {
      assert t[2..] == s[2..];
      SmallWord(n);
    } else {
      assert t[2..] == Put(s[2..], off - 2, U16(n));
      WordSumPut(s[2..], off - 2, n);
    }
  }

  /** Storing the checksum in the zeroed field makes the recomputed checksum zero, for headers of any length. */
  lemma {:induction false} ChecksumVerifies(s: seq<Byte>, off: nat)
    requires off % 2 == 0 && off + 2 <= |s| && s[off] == 0 && s[off + 1] == 0
    ensures Checksum(Put(s, off, U16(Checksum(s)))) == 0
  {
    WordSumPut(s, off, Checksum(s));
    var n := WordSum(s);
    var q, r := Quot(n, 65535), Rem(n, 65535);
    QuotRem(n, 65535);
    QuotRemUnique(n + Checksum(s), 65535, if r == 0 then q else q + 1, 0);
  }

  // ----- the IP header

  function HeaderLen(p: seq<Byte>): nat
    requires |p| > 0
  {
    Rem(p[0], 16) * 4
  }

  /** A packet whose header has room for the fixed fields and lies inside the packet. */
  predicate HasHeader(p: seq<Byte>) {
    |p| >= IP_LEN && IP_LEN <= HeaderLen(p) <= |p|
  }

  function Protocol(p: seq<Byte>): Byte
    requires HasHeader(p)
  {
    p[9]
  }

  function Saddr(p: seq<Byte>): seq<Byte>
    requires HasHeader(p)
  {
    p[12..16]
  }

  function Daddr(p: seq<Byte>): seq<Byte>
    requires HasHeader(p)
  {
    p[16..20]
  }

  /** Total length and checksum fields tell the truth. */
  ghost predicate ValidPacket(p: seq<Byte>) {
    && HasHeader(p)
    && p[2..4] == U16(|p|)
    && p[10..12] == U16(Checksum(Put(p[..HeaderLen(p)], 10, [0, 0])))
  }

  /** The first byte of a header with its length field replaced. */
  function WithLength(b: Byte, ihl: nat): (r: Byte)
    ensures Quot(r, 16) == Quot(b, 16) && Rem(r, 16) == Rem(ihl, 16)
  {
    QuotRem(b, 16);
    QuotRemUnique(Quot(b, 16) * 16 + Rem(ihl, 16), 16, Quot(b, 16), Rem(ihl, 16));
    Quot(b, 16) * 16 + Rem(ihl, 16)
  }

  /** The rewritten fields of a header, its checksum still zero. */
  function Rewritten(h: seq<Byte>, proto: Byte, ihl: nat, totLen: nat, src: seq<Byte>, dst: seq<Byte>): (r: seq<Byte>)
    requires |h| >= IP_LEN && |src| == 4 && |dst| == 4
    ensures |r| == |h|
  {
    Put(Put(Put(Put(Put(Put(h, 9, [proto]), 0, [WithLength(h[0], ihl)]), 2, U16(totLen)), 12, src), 16, dst), 10, [0, 0])
  }

  ghost function Sealed(h: seq<Byte>): seq<Byte>
    requires |h| >= IP_LEN
  {
    Put(h, 10, U16(Checksum(h)))
  }

  // ----- minimal encapsulation

  /** The forwarding header with its checksum zero: protocol, the source-present bit, both original addresses. */
  function MipZero(p: seq<Byte>): seq<Byte>
    requires HasHeader(p)
  {
    [Protocol(p), 0x80, 0, 0] + Daddr(p) + Saddr(p)
  }

  ghost function Mip(p: seq<Byte>): seq<Byte>
    requires HasHeader(p)
  {
    Put(MipZero(p), 2, U16(Checksum(MipZero(p))))
  }

  ghost function Encap(p: seq<Byte>, src: seq<Byte>, dst: seq<Byte>): seq<Byte>
    requires HasHeader(p) && |src| == 4 && |dst| == 4
  {
    var hl := HeaderLen(p);
    Sealed(Rewritten(p[..hl] + Mip(p), IPPROTO_MOBILE, Quot(hl + MIP_LEN, 4), |p| + MIP_LEN, src, dst)) + p[hl..]
  }

  ghost function Decap(e: seq<Byte>): seq<Byte>
    requires HasHeader(e) && HeaderLen(e) >= IP_LEN + MIP_LEN
  {
    var hl := HeaderLen(e);
    var dl := hl - MIP_LEN;
    Sealed(Rewritten(e[..dl], e[dl], Quot(dl, 4), |e| - MIP_LEN, e[dl + 8..dl + 12], e[dl + 4..dl + 8])) + e[hl..]
  }

  /** Every byte of a rewritten and sealed header. */
  lemma {:induction false} HeaderBytes(h: seq<Byte>, proto: Byte, ihl: nat, tot: nat, src: seq<Byte>, dst: seq<Byte>)
    requires |h| >= IP_LEN && |src| == 4 && |dst| == 4
    ensures var r := Sealed(Rewritten(h, proto, ihl, tot, src, dst));
            && |r| == |h| && r[0] == WithLength(h[0], ihl) && r[9] == proto
            && r[12..16] == src && r[16..20] == dst && r[20..] == h[20..]
            && r[1] == h[1] && (forall i | 4 <= i < 9 :: r[i] == h[i])
            && Checksum(r) == 0
  {
    var z := Rewritten(h, proto, ihl, tot, src, dst);
    assert z[10] == 0 && z[11] == 0;
    ChecksumVerifies(z, 10);
  }

  /** What a receiver of an encapsulated packet sees of the outer header. */
  lemma {:induction false} EncapHeader(p: seq<Byte>, src: seq<Byte>, dst: seq<Byte>)
    requires HasHeader(p) && HeaderLen(p) <= 48 && |src| == 4 && |dst| == 4
    ensures var e := Encap(p, src, dst);
            && |e| == |p| + MIP_LEN && HasHeader(e) && HeaderLen(e) == HeaderLen(p) + MIP_LEN
            && Protocol(e) == IPPROTO_MOBILE && Saddr(e) == src && Daddr(e) == dst
            && Checksum(e[..HeaderLen(e)]) == 0
  {
    var hl := HeaderLen(p);
    var h := p[..hl] + Mip(p);
    var r := Sealed(Rewritten(h, IPPROTO_MOBILE, Quot(hl + MIP_LEN, 4), |p| + MIP_LEN, src, dst));
    HeaderBytes(h, IPPROTO_MOBILE, Quot(hl + MIP_LEN, 4), |p| + MIP_LEN, src, dst);
    JoinBytes(r, p[hl..]);
    NewLength(p[0]);
    OuterHeader(r, p[hl..], p[0]);
  }

  /** The header fields of a packet, read from its header. */
  lemma {:induction false} OuterHeader(r: seq<Byte>, rest: seq<Byte>, b: Byte)
    requires |r| == Rem(b, 16) * 4 + MIP_LEN && 20 <= Rem(b, 16) * 4 <= 48
    requires r[0] == WithLength(b, Quot(Rem(b, 16) * 4 + MIP_LEN, 4))
    ensures HasHeader(r + rest) && HeaderLen(r + rest) == |r| && (r + rest)[..|r|] == r && Protocol(r + rest) == r[9]
    ensures Quot(r[0], 16) == Quot(b, 16)
  {
    NewLength(b);
    assert (r + rest)[0] == r[0];
  }

  /** A length field three words more. */
  lemma {:induction false} NewLength(b: Byte)
    requires Rem(b, 16) * 4 <= 48
    ensures Rem(Quot(Rem(b, 16) * 4 + MIP_LEN, 4), 16) * 4 == Rem(b, 16) * 4 + MIP_LEN
  {
    var k := Rem(b, 16);
    QuotRemUnique(k * 4 + MIP_LEN, 4, k + 3, 0);
    Nibble(k + 3);
  }

  lemma {:induction false} Nibble(n: nat)
    requires n < 16
    ensures Rem(n, 16) == n
  {
  }

  /** The fixed fields of a header are not changed by what follows it. */
  lemma {:induction false} JoinBytes(r: seq<Byte>, b: seq<Byte>)
    requires |r| >= IP_LEN
    ensures var e := r + b;
            && e[..|r|] == r && e[|r|..] == b && e[12..16] == r[12..16] && e[16..20] == r[16..20]
  {
  }

  /** The header decapsulation rebuilds, before its checksum is filled in. */
  function Restored(p: seq<Byte>): (r: seq<Byte>)
    requires HasHeader(p)
    ensures |r| == HeaderLen(p)
  {
    Put(Put(p[..HeaderLen(p)], 2, U16(|p|)), 10, [0, 0])
  }

  /** Decapsulation in terms of the parts it reads. */
  lemma {:induction false} DecapOf(e: seq<Byte>, p: seq<Byte>)
    requires HasHeader(p) && HasHeader(e) && HeaderLen(e) == HeaderLen(p) + MIP_LEN && |e| == |p| + MIP_LEN
    requires Quot(e[0], 16) == Quot(p[0], 16) && e[1] == p[1] && (forall i | 4 <= i < 9 :: e[i] == p[i])
    requires e[20..HeaderLen(p)] == p[20..HeaderLen(p)] && e[HeaderLen(e)..] == p[HeaderLen(p)..]
    requires var hl := HeaderLen(p); e[hl] == Protocol(p) && e[hl + 4..hl + 8] == Daddr(p) && e[hl + 8..hl + 12] == Saddr(p)
    ensures Decap(e) == Sealed(Restored(p)) + p[HeaderLen(p)..]
  {
    HeaderBack(e, p);
  }

  lemma {:induction false} DecapIs(p: seq<Byte>, src: seq<Byte>, dst: seq<Byte>)
    requires HasHeader(p) && HeaderLen(p) <= 48 && |src| == 4 && |dst| == 4
    ensures HasHeader(Encap(p, src, dst)) && HeaderLen(Encap(p, src, dst)) >= IP_LEN + MIP_LEN
    ensures Decap(Encap(p, src, dst)) == Sealed(Restored(p)) + p[HeaderLen(p)..]
  {
    EncapHeader(p, src, dst);
    EncapBytes(p, src, dst);
    DecapOf(Encap(p, src, dst), p);
  }

  /** The forwarding header, read where section 3.1 of RFC 2004 puts its fields: the protocol, the bit that says that the
      original source is there, the checksum, destination and source. In front of it is the header of the packet, with the total
      length of the whole and all other fields as they were. */
  lemma {:induction false} ForwardingHeader(p: seq<Byte>, src: seq<Byte>, dst: seq<Byte>)
    requires HasHeader(p) && HeaderLen(p) <= 48 && |src| == 4 && |dst| == 4 && |p| + 12 < 0x1_0000
    ensures var e, hl := Encap(p, src, dst), HeaderLen(p);
            && |e| == |p| + 12 && e[hl] == p[9] && e[hl + 1] == 128 && Checksum(e[hl..hl + 12]) == 0
            && e[hl + 4..hl + 8] == p[16..20] && e[hl + 8..hl + 12] == p[12..16] && e[hl + 12..] == p[hl..]
    ensures var e := Encap(p, src, dst);
            && Word(e[2], e[3]) == |e| && e[9] == 55 && e[12..16] == src && e[16..20] == dst
            && e[1] == p[1] && (forall i | 4 <= i < 9 :: e[i] == p[i]) && e[20..HeaderLen(p)] == p[20..HeaderLen(p)]
  {
    EncapHeader(p, src, dst);
    EncapBytes(p, src, dst);
    var hl := HeaderLen(p);
    var h := p[..hl] + Mip(p);
    var r := Sealed(Rewritten(h, IPPROTO_MOBILE, Quot(hl + MIP_LEN, 4), |p| + MIP_LEN, src, dst));
    HeaderBytes(h, IPPROTO_MOBILE, Quot(hl + MIP_LEN, 4), |p| + MIP_LEN, src, dst);
    OuterLength(h, IPPROTO_MOBILE, Quot(hl + MIP_LEN, 4), |p| + MIP_LEN, src, dst);
    MipFlags(p);
    MipPlace(r, h, p[..hl], Mip(p), p[hl..]);
    assert Encap(p, src, dst)[hl..hl + 12][1] == Encap(p, src, dst)[hl + 1];
  }

  lemma {:induction false} MipFlags(p: seq<Byte>)
    requires HasHeader(p)
    ensures |Mip(p)| == MIP_LEN && Mip(p)[1] == 128 && Checksum(Mip(p)) == 0
  {
    ChecksumVerifies(MipZero(p), 2);
  }

  /** The forwarding header in its place. */
  lemma {:induction false} MipPlace(r: seq<Byte>, h: seq<Byte>, front: seq<Byte>, m: seq<Byte>, rest: seq<Byte>)
    requires |front| >= IP_LEN && h == front + m && |r| == |h| && r[20..] == h[20..]
    ensures (r + rest)[|front|..|front| + |m|] == m
  {
    assert forall i | |front| <= i < |h| :: r[i] == r[20..][i - 20] == h[20..][i - 20] == h[i];
  }

  lemma {:induction false} OuterLength(h: seq<Byte>, proto: Byte, ihl: nat, tot: nat, src: seq<Byte>, dst: seq<Byte>)
    requires |h| >= IP_LEN && |src| == 4 && |dst| == 4 && tot < 0x1_0000
    ensures var r := Sealed(Rewritten(h, proto, ihl, tot, src, dst)); Word(r[2], r[3]) == tot
  {
    SmallWord(tot);
  }

  /** Decapsulation undoes encapsulation exactly when the packet's total length and checksum were right. */
  lemma {:induction false} RoundTrip(p: seq<Byte>, src: seq<Byte>, dst: seq<Byte>)
    requires HasHeader(p) && HeaderLen(p) <= 48 && |src| == 4 && |dst| == 4
    ensures HasHeader(Encap(p, src, dst)) && HeaderLen(Encap(p, src, dst)) >= IP_LEN + MIP_LEN
    ensures Decap(Encap(p, src, dst)) == p <==> ValidPacket(p)
  {
    DecapIs(p, src, dst);
    ValidHeader(p);
    SameFront(Sealed(Restored(p)), p, HeaderLen(p));
  }

  lemma {:induction false} SameFront(a: seq<Byte>, p: seq<Byte>, n: nat)
    requires |a| == n <= |p|
    ensures a + p[n..] == p <==> a == p[..n]
  {
    assert p == p[..n] + p[n..];
    if a + p[n..] == p {
      assert a == (a + p[n..])[..n];
    }
  }

  /** The parts of an encapsulated packet that decapsulation reads. */
  lemma {:induction false} EncapBytes(p: seq<Byte>, src: seq<Byte>, dst: seq<Byte>)
    requires HasHeader(p) && HeaderLen(p) <= 48 && |src| == 4 && |dst| == 4
    ensures var e, hl := Encap(p, src, dst), HeaderLen(p);
            && |e| == |p| + MIP_LEN && e[hl + MIP_LEN..] == p[hl..] && e[hl] == Protocol(p)
            && e[hl + 4..hl + 8] == Daddr(p) && e[hl + 8..hl + 12] == Saddr(p)
            && Quot(e[0], 16) == Quot(p[0], 16) && e[1] == p[1] && (forall i | 4 <= i < 9 :: e[i] == p[i])
            && e[20..hl] == p[20..hl]
  {
    var hl := HeaderLen(p);
    var h := p[..hl] + Mip(p);
    var r := Sealed(Rewritten(h, IPPROTO_MOBILE, Quot(hl + MIP_LEN, 4), |p| + MIP_LEN, src, dst));
    HeaderBytes(h, IPPROTO_MOBILE, Quot(hl + MIP_LEN, 4), |p| + MIP_LEN, src, dst);
    MipBytes(p);
    TailBytes(r, h, p[..hl], Mip(p), p[hl..], hl);
  }

  lemma {:induction false} MipBytes(p: seq<Byte>)
    requires HasHeader(p)
    ensures |Mip(p)| == MIP_LEN && Mip(p)[0] == Protocol(p) && Mip(p)[4..8] == Daddr(p) && Mip(p)[8..12] == Saddr(p)
  {
  }

  lemma {:induction false} TailBytes(r: seq<Byte>, h: seq<Byte>, a: seq<Byte>, m: seq<Byte>, b: seq<Byte>, n: nat)
    requires |a| == n >= IP_LEN && |m| == MIP_LEN && h == a + m && |r| == |h| && r[20..] == h[20..]
    ensures var e := r + b;
            && e[n + MIP_LEN..] == b && e[20..n] == a[20..n] && e[n] == m[0]
            && e[n + 4..n + 8] == m[4..8] && e[n + 8..n + 12] == m[8..12]
  {
    assert forall i | 20 <= i < |h| :: r[i] == r[20..][i - 20] == h[20..][i - 20] == h[i];
  }

  /** The header decapsulation rebuilds: the original one with its total length and a zero checksum filled in. */
  lemma {:induction false} HeaderBack(e: seq<Byte>, p: seq<Byte>)
    requires HasHeader(p) && HeaderLen(p) <= |e|
    requires Quot(e[0], 16) == Quot(p[0], 16) && e[1] == p[1] && (forall i | 4 <= i < 9 :: e[i] == p[i])
    requires e[20..HeaderLen(p)] == p[20..HeaderLen(p)]
    ensures var hl := HeaderLen(p);
            Rewritten(e[..hl], Protocol(p), Quot(hl, 4), |p|, Saddr(p), Daddr(p)) == Restored(p)
  {
    var hl := HeaderLen(p);
    QuotRemUnique(hl, 4, Rem(p[0], 16), 0);
    Nibble(Rem(p[0], 16));
    RewriteSame(e[..hl], p[..hl], Protocol(p), Quot(hl, 4), |p|, Saddr(p), Daddr(p), e, p);
  }

  /** The bytes of a rewritten header, one by one. */
  function RewrittenByte(h: seq<Byte>, proto: Byte, ihl: nat, n: nat, src: seq<Byte>, dst: seq<Byte>, i: nat): Byte
    requires IP_LEN <= |h| && |src| == 4 && |dst| == 4 && i < |h|
  {
    if i == 0 then WithLength(h[0], ihl)
    else if 2 <= i < 4 then U16(n)[i - 2]
    else if i == 9 then proto
    else if 10 <= i < 12 then 0
    else if 12 <= i < 16 then src[i - 12]
    else if 16 <= i < 20 then dst[i - 16]
    else h[i]
  }

  lemma {:induction false} RewrittenAt(h: seq<Byte>, proto: Byte, ihl: nat, n: nat, src: seq<Byte>, dst: seq<Byte>, i: nat)
    requires IP_LEN <= |h| && |src| == 4 && |dst| == 4 && i < |h|
    ensures Rewritten(h, proto, ihl, n, src, dst)[i] == RewrittenByte(h, proto, ihl, n, src, dst, i)
  {
  }

  lemma {:induction false} RewriteSame(a: seq<Byte>, b: seq<Byte>, proto: Byte, ihl: nat, n: nat, src: seq<Byte>, dst: seq<Byte>,
                    e: seq<Byte>, p: seq<Byte>)
    requires |a| == |b| >= IP_LEN && |src| == 4 && |dst| == 4 && a <= e && b <= p
    requires Quot(e[0], 16) == Quot(p[0], 16) && Rem(ihl, 16) == Rem(p[0], 16) && e[1] == p[1] && proto == p[9]
    requires (forall i | 4 <= i < 9 :: e[i] == p[i]) && e[20..|a|] == p[20..|a|] && src == p[12..16] && dst == p[16..20]
    ensures Rewritten(a, proto, ihl, n, src, dst) == Put(Put(b, 2, U16(n)), 10, [0, 0])
  {
    var x, y := Rewritten(a, proto, ihl, n, src, dst), Put(Put(b, 2, U16(n)), 10, [0, 0]);
    Halves(a[0], b[0], ihl);
    forall i | 0 <= i < |a| ensures x[i] == y[i] {
      RewrittenAt(a, proto, ihl, n, src, dst, i);
      assert y[i] == if 2 <= i < 4 then U16(n)[i - 2] else if 10 <= i < 12 then 0 else b[i];
      if i >= 20 {
        assert a[i] == e[20..|a|][i - 20] == p[20..|a|][i - 20] == b[i];
      } else if 12 <= i < 16 {
        assert src[i - 12] == p[i];
      } else if 16 <= i {
        assert dst[i - 16] == p[i];
      }
    }
  }

  lemma {:induction false} Halves(a: Byte, b: Byte, n: nat)
    requires Quot(a, 16) == Quot(b, 16) && Rem(n, 16) == Rem(b, 16)
    ensures WithLength(a, n) == b
  {
    QuotRem(b, 16);
    QuotRem(WithLength(a, n), 16);
  }

  lemma {:induction false} ValidHeader(p: seq<Byte>)
    requires HasHeader(p)
    ensures Sealed(Restored(p)) == p[..HeaderLen(p)] <==> ValidPacket(p)
  {
    var h := p[..HeaderLen(p)];
    var w := Put(h, 2, U16(|p|));
    var z := Put(w, 10, [0, 0]);
    assert h[2..4] == p[2..4] && h[10..12] == p[10..12];
    if p[2..4] == U16(|p|) {
      assert h[2] == p[2..4][0] && h[3] == p[2..4][1];
      assert w == h;
      assert Sealed(z)[10..12] == U16(Checksum(z));
      if p[10..12] == U16(Checksum(z)) {
        assert h[10] == p[10..12][0] && h[11] == p[10..12][1];
        assert Sealed(z) == h;
      }
    } else {
      assert Sealed(z)[2..4] == U16(|p|);
    }
  }

  // ----- the packet buffers

  class PacketBuf {
    var length: nat
    const data: array<Byte>

    constructor ()
      ensures length == 0 && data.Length == MAX_IPPKT_SIZE + MAX_ETHER_HEADER_MARGIN && fresh(data)
    {
      length, data := 0, new Byte[MAX_IPPKT_SIZE + MAX_ETHER_HEADER_MARGIN];
    }

    ghost predicate Valid()
      reads this
    {
      length <= data.Length == MAX_IPPKT_SIZE + MAX_ETHER_HEADER_MARGIN
    }

    ghost function Bytes(): seq<Byte>
      reads this, data
      requires Valid()
    {
      data[..length]
    }
  }

  method CopyTo(dst: array<Byte>, off: nat, src: seq<Byte>)
    requires off + |src| <= dst.Length
    modifies dst
    ensures dst[..] == Put(old(dst[..]), off, src)
  {
    for i := 0 to |src|
      invariant dst[..] == Put(old(dst[..]), off, src[..i])
    {
      dst[off + i] := src[i];
    }
    assert src[..|src|] == src;
  }

  /** A whole buffer after its first `n` bytes have been rewritten as a header. */
  ghost function HeaderWritten(h: seq<Byte>, n: nat, proto: Byte, ihl: nat, totLen: nat, src: seq<Byte>, dst: seq<Byte>): (r: seq<Byte>)
    requires IP_LEN <= n <= |h| && |src| == 4 && |dst| == 4
    ensures |r| == |h|
  {
    var z := Rewritten(h, proto, ihl, totLen, src, dst);
    Put(z, 10, U16(Checksum(z[..n])))
  }

  lemma {:induction false} RewrittenFront(h: seq<Byte>, n: nat, proto: Byte, ihl: nat, totLen: nat, src: seq<Byte>, dst: seq<Byte>)
    requires IP_LEN <= n <= |h| && |src| == 4 && |dst| == 4
    ensures Rewritten(h, proto, ihl, totLen, src, dst)[..n] == Rewritten(h[..n], proto, ihl, totLen, src, dst)
    ensures Rewritten(h, proto, ihl, totLen, src, dst)[n..] == h[n..]
  {
    var z, y := Rewritten(h, proto, ihl, totLen, src, dst), Rewritten(h[..n], proto, ihl, totLen, src, dst);
    forall i | 0 <= i < |h| ensures z[i] == if i < n then y[i] else h[i] {
      RewrittenAt(h, proto, ihl, totLen, src, dst, i);
      if i < n { RewrittenAt(h[..n], proto, ihl, totLen, src, dst, i); }
    }
  }

  lemma {:induction false} PutFront(z: seq<Byte>, n: nat, off: nat, b: seq<Byte>)
    requires off + |b| <= n <= |z|
    ensures Put(z, off, b)[..n] == Put(z[..n], off, b) && Put(z, off, b)[n..] == z[n..]
  {
  }

  lemma {:induction false} WrittenFront(h: seq<Byte>, n: nat, proto: Byte, ihl: nat, totLen: nat, src: seq<Byte>, dst: seq<Byte>)
    requires IP_LEN <= n <= |h| && |src| == 4 && |dst| == 4
    ensures var w := HeaderWritten(h, n, proto, ihl, totLen, src, dst);
            w[..n] == Sealed(Rewritten(h[..n], proto, ihl, totLen, src, dst)) && w[n..] == h[n..]
  {
    var z := Rewritten(h, proto, ihl, totLen, src, dst);
    RewrittenFront(h, n, proto, ihl, totLen, src, dst);
    PutFront(z, n, 10, U16(Checksum(z[..n])));
  }

  /** The field writes at the front of a buffer, ending with the checksum over the first `n` bytes. */
  method RewriteHeader(data: array<Byte>, n: nat, proto: Byte, ihl: nat, totLen: nat, src: seq<Byte>, dst: seq<Byte>)
    requires IP_LEN <= n <= data.Length && |src| == 4 && |dst| == 4
    modifies data
    ensures data[..] == HeaderWritten(old(data[..]), n, proto, ihl, totLen, src, dst)
  {
    CopyTo(data, 9, [proto]);
    CopyTo(data, 0, [WithLength(data[0], ihl)]);
    CopyTo(data, 2, U16(totLen));
    CopyTo(data, 12, src);
    CopyTo(data, 16, dst);
    CopyTo(data, 10, [0, 0]);
    assert data[..] == Rewritten(old(data[..]), proto, ihl, totLen, src, dst);
    assert data[..n] == data[..][..n];
    var check := CalcIpChecksum(data[..n]);
    CopyTo(data, 10, U16(check));
  }

  /** The forwarding header behind the copied header of packet `p`. */
  method WriteMip(data: array<Byte>, off: nat, p: seq<Byte>)
    requires HasHeader(p) && off + MIP_LEN <= data.Length
    modifies data
    ensures data[..off] == old(data[..off]) && data[off..off + MIP_LEN] == Mip(p)
  {
    CopyTo(data, off, [p[9], 0x80, 0, 0]);
    CopyTo(data, off + 4, p[16..20]);
    CopyTo(data, off + 8, p[12..16]);
    assert data[off..off + MIP_LEN] == MipZero(p);
    var check := CalcIpChecksum(data[off..off + MIP_LEN]);
    CopyTo(data, off + 2, U16(check));
  }

  method MinimalMipEncap(ipPkt: PacketBuf, encapBuf: PacketBuf, newSrc: seq<Byte>, newDst: seq<Byte>)
    requires ipPkt.Valid() && encapBuf.Valid() && ipPkt != encapBuf && ipPkt.data != encapBuf.data
    requires HasHeader(ipPkt.Bytes()) && HeaderLen(ipPkt.Bytes()) <= 48 && |newSrc| == 4 && |newDst| == 4
    requires ipPkt.length + MIP_LEN <= encapBuf.data.Length
    modifies encapBuf, encapBuf.data
    ensures encapBuf.Valid() && encapBuf.Bytes() == Encap(old(ipPkt.Bytes()), newSrc, newDst)
  {
    var p := ipPkt.data[..ipPkt.length];
    var oldHdrLen := Rem(ipPkt.data[0], 16) * 4;
    var newHdrLen := oldHdrLen + MIP_LEN;
    CopyParts(encapBuf.data, p, oldHdrLen);
    FinishHeader(encapBuf, newHdrLen, ipPkt.length + MIP_LEN, IPPROTO_MOBILE, newSrc, newDst, p[..oldHdrLen] + Mip(p), p[oldHdrLen..]);
  }

  /** Header, forwarding header and payload, one behind the other. */
  method CopyParts(data: array<Byte>, p: seq<Byte>, n: nat)
    requires HasHeader(p) && n == HeaderLen(p) && |p| + MIP_LEN <= data.Length
    modifies data
    ensures data[..n + MIP_LEN] == p[..n] + Mip(p) && data[n + MIP_LEN..|p| + MIP_LEN] == p[n..]
  {
    CopyTo(data, 0, p[..n]);
    assert data[..n] == p[..n];
    WriteMip(data, n, p);
    ghost var was := data[..];
    assert was[..n + MIP_LEN] == was[..n] + was[n..n + MIP_LEN];
    CopyTo(data, n + MIP_LEN, p[n..]);
    assert data[..n + MIP_LEN] == was[..n + MIP_LEN];
  }

  /** Rewrites the header of `n` bytes and sets the length of the packet. */
  method FinishHeader(buf: PacketBuf, n: nat, length: nat, proto: Byte, src: seq<Byte>, dst: seq<Byte>, ghost h: seq<Byte>, ghost rest: seq<Byte>)
    requires IP_LEN <= n <= length <= buf.data.Length == MAX_IPPKT_SIZE + MAX_ETHER_HEADER_MARGIN
    requires |src| == 4 && |dst| == 4 && buf.data[..n] == h && buf.data[n..length] == rest
    modifies buf, buf.data
    ensures buf.Valid() && buf.length == length
    ensures buf.Bytes() == Sealed(Rewritten(h, proto, Quot(n, 4), length, src, dst)) + rest
  {
    ghost var was := buf.data[..];
    assert was[..n] == h && was[n..length] == rest;
    RewriteHeader(buf.data, n, proto, Quot(n, 4), length, src, dst);
    buf.length := length;
    WrittenFront(was, n, proto, Quot(n, 4), length, src, dst);
    FrontAndBack(was, buf.data[..], n, length);
    assert buf.data[..length] == buf.data[..][..length];
  }

  lemma {:induction false} FrontAndBack(h: seq<Byte>, w: seq<Byte>, n: nat, length: nat)
    requires n <= length <= |h| == |w| && w[n..] == h[n..]
    ensures w[..length] == w[..n] + h[n..length]
  {
    assert forall i | n <= i < length :: w[i] == w[n..][i - n] == h[n..][i - n] == h[i];
  }

  /** The header of packet `e` up to its forwarding header, copied and restored. */
  method RebuildHeader(data: array<Byte>, e: seq<Byte>, n: nat)
    requires HasHeader(e) && IP_LEN <= n && HeaderLen(e) == n + MIP_LEN && n <= data.Length
    modifies data
    ensures data[..n] == Sealed(Rewritten(e[..n], e[n], Quot(n, 4), |e| - MIP_LEN, e[n + 8..n + 12], e[n + 4..n + 8]))
  {
    CopyTo(data, 0, e[..n]);
    ghost var h := data[..];
    assert h[..n] == e[..n];
    RewriteHeader(data, n, e[n], Quot(n, 4), |e| - MIP_LEN, e[n + 8..n + 12], e[n + 4..n + 8]);
    WrittenFront(h, n, e[n], Quot(n, 4), |e| - MIP_LEN, e[n + 8..n + 12], e[n + 4..n + 8]);
    assert data[..n] == data[..][..n];
  }

  method MinimalMipDecap(encapPkt: PacketBuf, decapBuf: PacketBuf)
    requires encapPkt.Valid() && decapBuf.Valid() && encapPkt != decapBuf && encapPkt.data != decapBuf.data
    requires HasHeader(encapPkt.Bytes()) && HeaderLen(encapPkt.Bytes()) >= IP_LEN + MIP_LEN
    modifies decapBuf, decapBuf.data
    ensures decapBuf.Valid() && decapBuf.Bytes() == Decap(old(encapPkt.Bytes()))
  {
    var e := encapPkt.data[..encapPkt.length];
    var oldHdrLen := Rem(encapPkt.data[0], 16) * 4;
    var decapHdrLen := oldHdrLen - MIP_LEN;
    RebuildHeader(decapBuf.data, e, decapHdrLen);
    AppendTo(decapBuf.data, decapHdrLen, e[oldHdrLen..]);
    decapBuf.length := encapPkt.length - MIP_LEN;
  }

  method AppendTo(data: array<Byte>, off: nat, b: seq<Byte>)
    requires off + |b| <= data.Length
    modifies data
    ensures data[..off + |b|] == old(data[..off]) + b
  {
    CopyTo(data, off, b);
  }
}
