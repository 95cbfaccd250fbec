module OlsrProto {
  import opened AddrTree
  import opened Division
  import opened NetUtil

  /** The address in the four bytes of a header field, on a little-endian machine. */
  function AddrOf(b: seq<Byte>): Addr
    requires |b| == 4
  {
    Word(Word(Word(b[3], b[2]), b[1]), b[0])
  }

  function AddrBytes(a: Addr): (r: seq<Byte>)
    ensures |r| == 4
  {
    var q1 := Quot(a, 256);
    var q2 := Quot(q1, 256);
    [Rem(a, 256), Rem(q1, 256), Rem(q2, 256), Rem(Quot(q2, 256), 256)]
  }

  lemma {:induction false} AddrBytesRoundTrip(a: Addr)
    requires a < 0x1_0000_0000
    ensures AddrOf(AddrBytes(a)) == a
  {
    var q1 := Quot(a, 256);
    var q2 := Quot(q1, 256);
    var q3 := Quot(q2, 256);
    QuotRem(a, 256);
    QuotRem(q1, 256);
    QuotRem(q2, 256);
    assert q3 < 256;
  }

  /** The byte that comes first in memory is the lowest one of the address. */
  lemma {:induction false} LittleEndian(b: seq<Byte>)
    requires |b| == 4
    ensures AddrOf(b) == b[0] + 256 * (b[1] as int) + 65536 * (b[2] as int) + 16777216 * (b[3] as int)
  {
  }

  // ----- link codes

  const UNSPEC_LINK: nat := 0
  const ASYM_LINK: nat := 1
  const SYM_LINK: nat := 2
  const LOST_LINK: nat := 3
  const LINK_STATUS_END: nat := 4
  const NEIGHBOR_STATUS_END: nat := 3

  /** Two bits of neighbour status above two bits of link status; nothing overlaps for a link status below four. */
  function CreateLinkCode(status: nat, link: nat): nat
    requires link < LINK_STATUS_END
  {
    status * 4 + link
  }

  function ExtractStatus(code: nat): nat { Rem(Quot(code, 4), 4) }

  function ExtractLink(code: nat): nat { Rem(code, 4) }

  lemma {:induction false} CodeParts(status: nat, link: nat)
    requires status < NEIGHBOR_STATUS_END && link < LINK_STATUS_END
    ensures ExtractStatus(CreateLinkCode(status, link)) == status && ExtractLink(CreateLinkCode(status, link)) == link
  {
    QuotRemUnique(status * 4 + link, 4, status, link);
    QuotRemUnique(status, 4, 0, status);
  }

  /** A link code as section 6.1.1 of RFC 3626 has it: the link type in the two lowest bits, the neighbour type in the next two. */
  lemma {:induction false} CodeBits(code: Byte)
    ensures ExtractLink(code) == code % 4 && ExtractStatus(code) == code / 4 % 4
  {
    IsDivision(code, 4);
    IsDivision(code / 4, 4);
  }

  // ----- the link groups of a HELLO: code, reserved byte, number of addresses, addresses

  datatype HelloInfo = HelloInfo(linkCode: Byte, neighAddr: seq<Addr>)

  const HELLO_INFO_LEN: nat := 4
  const ADDR_LEN: nat := 4

  /** The announced sizes add up to the length, so that the receiver's loops stay within the message. */
  predicate Formed(s: seq<Byte>) {
    s == [] || (|s| >= HELLO_INFO_LEN && |s| >= GroupLen(s) && Formed(s[GroupLen(s)..]))
  }

  function GroupLen(s: seq<Byte>): nat
    requires |s| >= HELLO_INFO_LEN
  {
    HELLO_INFO_LEN + ADDR_LEN * Word(s[2], s[3])
  }

  function Addrs(b: seq<Byte>): (r: seq<Addr>)
    requires |b| % 4 == 0
    ensures |r| == |b| / 4
  {
    if b == [] then [] else [AddrOf(b[..4])] + Addrs(b[4..])
  }

  function Infos(s: seq<Byte>): seq<HelloInfo>
    requires Formed(s)
  {
    if s == [] then [] else [HelloInfo(s[0], Addrs(s[HELLO_INFO_LEN..GroupLen(s)]))] + Infos(s[GroupLen(s)..])
  }

  lemma {:induction false} AddrsSnoc(b: seq<Byte>, a: Addr)
    requires |b| % 4 == 0 && a < 0x1_0000_0000
    ensures Addrs(b + AddrBytes(a)) == Addrs(b) + [a]
  {
    if b == [] {
      assert b + AddrBytes(a) == AddrBytes(a);
      assert AddrBytes(a)[..4] == AddrBytes(a) && AddrBytes(a)[4..] == [];
      AddrBytesRoundTrip(a);
    } else {
      assert (b + AddrBytes(a))[..4] == b[..4] && (b + AddrBytes(a))[4..] == b[4..] + AddrBytes(a);
      AddrsSnoc(b[4..], a);
    }
  }

  lemma {:induction false} AddrsAt(b: seq<Byte>, i: nat)
    requires |b| % 4 == 0 && 4 * i + 4 <= |b|
    ensures Addrs(b)[i] == AddrOf(b[4 * i..4 * i + 4])
  {
    if i > 0 {
      AddrsAt(b[4..], i - 1);
      assert b[4..][4 * (i - 1)..4 * (i - 1) + 4] == b[4 * i..4 * i + 4];
    } else {
      assert b[4 * i..4 * i + 4] == b[..4];
    }
  }

  lemma {:induction false} SliceOfSlice(s: seq<Byte>, from: nat, to: nat, i: nat, j: nat)
    requires from <= to <= |s| && i <= j <= to - from
    ensures s[from..to][i..j] == s[from + i..from + j]
  {
    forall k | 0 <= k < j - i ensures s[from..to][i..j][k] == s[from + i..from + j][k] {
      assert s[from..to][i + k] == s[from + i + k];
    }
  }

  lemma {:induction false} InfosAppend(a: seq<Byte>, b: seq<Byte>)
    requires Formed(a) && Formed(b)
    ensures Formed(a + b) && Infos(a + b) == Infos(a) + Infos(b)
    decreases |a|
  {
    if a == [] {
      assert a + b == b;
    } else {
      InfosAppend(a[GroupLen(a)..], b);
      FrontInfo(a, b);
    }
  }

  lemma {:induction false} FrontInfo(a: seq<Byte>, b: seq<Byte>)
    requires a != [] && Formed(a)
    ensures |a + b| >= HELLO_INFO_LEN && GroupLen(a + b) == GroupLen(a) <= |a|
    ensures (a + b)[GroupLen(a)..] == a[GroupLen(a)..] + b
    ensures (a + b)[HELLO_INFO_LEN..GroupLen(a)] == a[HELLO_INFO_LEN..GroupLen(a)]
  {
  }

  lemma {:induction false} OneInfo(s: seq<Byte>)
    requires |s| >= HELLO_INFO_LEN && |s| == GroupLen(s)
    ensures Formed(s) && Infos(s) == [HelloInfo(s[0], Addrs(s[HELLO_INFO_LEN..]))]
  {
    assert s[GroupLen(s)..] == [] && s[HELLO_INFO_LEN..GroupLen(s)] == s[HELLO_INFO_LEN..];
    assert Infos([]) == [];
  }

  /** The first group of a HELLO, byte by byte: link code, a reserved byte, the number `n` of addresses, the addresses. */
  lemma {:induction false} GroupLayout(s: seq<Byte>, n: nat, i: nat)
    requires Formed(s) && s != [] && |s| >= 4 && n == 256 * (s[2] as int) + s[3]
    ensures 4 + 4 * n <= |s| && Infos(s) != [] && Infos(s)[0].linkCode == s[0] && |Infos(s)[0].neighAddr| == n
    ensures Infos(s)[1..] == Infos(s[4 + 4 * n..])
    ensures i < n ==> 8 + 4 * i <= |s| && Infos(s)[0].neighAddr[i] == AddrOf(s[4 + 4 * i..8 + 4 * i])
  {
    FirstGroup(s, n);
    if i < n {
      AddrsAt(s[4..4 + 4 * n], i);
      SliceOfSlice(s, 4, 4 + 4 * n, 4 * i, 4 * i + 4);
    }
  }

  lemma {:induction false} FirstGroup(s: seq<Byte>, n: nat)
    requires Formed(s) && s != [] && n == Word(s[2], s[3])
    ensures 4 + 4 * n <= |s| && Infos(s) == [HelloInfo(s[0], Addrs(s[4..4 + 4 * n]))] + Infos(s[4 + 4 * n..])
  {
    assert GroupLen(s) == 4 + 4 * n;
  }

  // ----- message headers

  const MSG_HEADER_LEN: nat := 12

  datatype MsgHeader = MsgHeader(msgtype: Byte, vtime: Byte, msgsize: nat, originator: Addr, ttl: Byte, hopcnt: Byte, seqno: nat)

  predicate HeaderOk(h: MsgHeader) { h.msgsize < 0x1_0000 && h.originator < 0x1_0000_0000 && h.seqno < 0x1_0000 }

  function MsgHeaderBytes(h: MsgHeader): (r: seq<Byte>)
    ensures |r| == MSG_HEADER_LEN
  {
    [h.msgtype, h.vtime] + U16(h.msgsize) + AddrBytes(h.originator) + [h.ttl, h.hopcnt] + U16(h.seqno)
  }

  function MsgHeaderAt(b: seq<Byte>): MsgHeader
    requires |b| >= MSG_HEADER_LEN
  {
    MsgHeader(b[0], b[1], Word(b[2], b[3]), AddrOf(b[4..8]), b[8], b[9], Word(b[10], b[11]))
  }

  /** A header, read where section 3.3.2 of RFC 3626 puts its fields. */
  lemma {:induction false} HeaderLayout(b: seq<Byte>)
    requires |b| >= 12
    ensures var h := MsgHeaderAt(b);
            && h.msgtype == b[0] && h.vtime == b[1] && h.msgsize == 256 * (b[2] as int) + b[3]
            && h.originator == b[4] + 256 * (b[5] as int) + 65536 * (b[6] as int) + 16777216 * (b[7] as int)
            && h.ttl == b[8] && h.hopcnt == b[9] && h.seqno == 256 * (b[10] as int) + b[11]
  {
  }

  /** The header with its multi-byte fields left as bytes. */
  lemma {:induction false} HeaderFields(h: MsgHeader, payload: seq<Byte>)
    ensures var b := MsgHeaderBytes(h) + payload;
            b[0] == h.msgtype && b[1] == h.vtime && b[2..4] == U16(h.msgsize) && b[4..8] == AddrBytes(h.originator)
            && b[8] == h.ttl && b[9] == h.hopcnt && b[10..12] == U16(h.seqno)
  {
  }

  lemma {:induction false} HeaderRoundTrip(h: MsgHeader, payload: seq<Byte>)
    requires HeaderOk(h)
    ensures MsgHeaderAt(MsgHeaderBytes(h) + payload) == h
  {
    var b := MsgHeaderBytes(h) + payload;
    HeaderFields(h, payload);
    HeaderWords(b);
    AddrBytesRoundTrip(h.originator);
    SmallWord(h.msgsize);
    SmallWord(h.seqno);
  }

  lemma {:induction false} HeaderWords(b: seq<Byte>)
    requires |b| >= MSG_HEADER_LEN
    ensures MsgHeaderAt(b) == MsgHeader(b[0], b[1], Word(b[2..4][0], b[2..4][1]), AddrOf(b[4..8]), b[8], b[9], Word(b[10..12][0], b[10..12][1]))
  {
  }
}
