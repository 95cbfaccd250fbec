module OlsrPacket {
  import opened NetUtil
  import opened RingBuffers
  import opened OlsrProto
  import OlsrForwarding

  const OLSR_PROTO_PORT: nat := 698
  const IPPROTO_UDP: Byte := 17
  const UDP_LEN: nat := 8
  const IPUDP_HDRLEN: nat := 28
  const PKT_HDR_LEN: nat := 4

  // ----- a packet's messages, one behind the other

  /** A message that announces its own length. */
  predicate Sized(m: seq<Byte>) { |m| >= MSG_HEADER_LEN && Word(m[2], m[3]) == |m| }

  function Pack(ms: seq<seq<Byte>>): seq<Byte> {
    if ms == [] then [] else ms[0] + Pack(ms[1..])
  }

  /** The splitting loop finds a header at every step and no message reaches over the end; a zero size stops it. */
  predicate Splittable(s: seq<Byte>) {
    s == [] || (|s| >= MSG_HEADER_LEN && Word(s[2], s[3]) <= |s| && (Word(s[2], s[3]) > 0 ==> Splittable(s[Word(s[2], s[3])..])))
  }

  /** The messages, and whether the end was reached without a zero size. */
  function Split(s: seq<Byte>): (seq<seq<Byte>>, bool)
    requires Splittable(s)
  {
    if s == [] then ([], true)
    else if Word(s[2], s[3]) == 0 then ([], false)
    else
      var (ms, ok) := Split(s[Word(s[2], s[3])..]);
      ([s[..Word(s[2], s[3])]] + ms, ok)
  }

  /** Splitting the packet built from any queued messages gives these messages. */
  lemma {:induction false} SplitPack(ms: seq<seq<Byte>>)
    requires forall m <- ms :: Sized(m)
    ensures Splittable(Pack(ms)) && Split(Pack(ms)) == (ms, true)
  {
    if ms != [] {
      var s, m := Pack(ms), ms[0];
      assert Sized(m);
      assert s[..|m|] == m && s[|m|..] == Pack(ms[1..]) && s[2] == m[2] && s[3] == m[3];
      SplitPack(ms[1..]);
      assert [m] + ms[1..] == ms;
    } else {
      assert Split(Pack(ms)).0 == ms;
    }
  }

  /** Queueing one more message. */
  lemma {:induction false} PackSnoc(ms: seq<seq<Byte>>, m: seq<Byte>)
    ensures Pack(ms + [m]) == Pack(ms) + m
  {
    if ms == [] {
      assert [m][1..] == [];
    } else {
      assert (ms + [m])[1..] == ms[1..] + [m];
      PackSnoc(ms[1..], m);
    }
  }

  // ----- headers

  function IpZero(len: nat, ttl: Byte, src: seq<Byte>, dst: seq<Byte>, proto: Byte): (r: seq<Byte>)
    requires |src| == 4 && |dst| == 4
    ensures |r| == IP_LEN
  {
    [0x45, 0] + U16(len) + [0, 0, 0, 0, ttl, proto, 0, 0] + src + dst
  }

  ghost function IpHeader(len: nat, ttl: Byte, src: seq<Byte>, dst: seq<Byte>, proto: Byte): (r: seq<Byte>)
    requires |src| == 4 && |dst| == 4
    ensures |r| == IP_LEN
  {
    Sealed(IpZero(len, ttl, src, dst, proto))
  }

  function UdpHeader(payloadLen: nat): (r: seq<Byte>)
    ensures |r| == UDP_LEN
  {
    U16(OLSR_PROTO_PORT) + U16(OLSR_PROTO_PORT) + U16(UDP_LEN + payloadLen) + [0, 0]
  }

  /** A packet with a built header is a valid one between the given addresses. */
  lemma {:induction false} BuiltHeader(ttl: Byte, src: seq<Byte>, dst: seq<Byte>, proto: Byte, rest: seq<Byte>)
    requires |src| == 4 && |dst| == 4 && IP_LEN + |rest| < 0x1_0000
    ensures var p := IpHeader(IP_LEN + |rest|, ttl, src, dst, proto) + rest;
            ValidPacket(p) && Saddr(p) == src && Daddr(p) == dst && Protocol(p) == proto
            && Checksum(p[..IP_LEN]) == 0
  {
    var z := IpZero(IP_LEN + |rest|, ttl, src, dst, proto);
    var h := Sealed(z);
    var p := h + rest;
    assert p[..IP_LEN] == h;
    assert Put(h, 10, [0, 0]) == z;
    ChecksumVerifies(z, 10);
    assert p[2..4] == z[2..4] == U16(|p|);
    assert p[12..16] == z[12..16] == src && p[16..20] == z[16..20] == dst;
  }

  method BuildIpHdr(data: array<Byte>, len: nat, ttl: Byte, src: seq<Byte>, dst: seq<Byte>, proto: Byte)
    requires data.Length >= IP_LEN && |src| == 4 && |dst| == 4
    modifies data
    ensures data[..IP_LEN] == IpHeader(len, ttl, src, dst, proto)
  {
    CopyTo(data, 0, [0x45, 0]);
    CopyTo(data, 2, U16(len));
    CopyTo(data, 4, [0, 0, 0, 0, ttl, proto]);
    CopyTo(data, 10, [0, 0]);
    CopyTo(data, 12, src);
    CopyTo(data, 16, dst);
    assert data[..IP_LEN] == IpZero(len, ttl, src, dst, proto);
    var check := CalcIpChecksum(data[..IP_LEN]);
    CopyTo(data, 10, U16(check));
  }

  /** Everything in front of the messages: both headers, packet length and packet sequence number. */
  ghost function Headers(own: seq<Byte>, msgSeq: nat, n: nat): (r: seq<Byte>)
    requires |own| == 4
    ensures |r| == IPUDP_HDRLEN + PKT_HDR_LEN
  {
    IpHeader(IPUDP_HDRLEN + PKT_HDR_LEN + n, 64, own, [255, 255, 255, 255], IPPROTO_UDP)
    + UdpHeader(PKT_HDR_LEN + n) + U16(PKT_HDR_LEN + n) + U16(msgSeq)
  }

  /** A packet as it leaves the node. */
  ghost function RoutePacket(own: seq<Byte>, msgSeq: nat, queued: seq<Byte>): seq<Byte>
    requires |own| == 4
  {
    Headers(own, msgSeq, |queued|) + queued
  }

  lemma {:induction false} RoutePacketParts(own: seq<Byte>, msgSeq: nat, queued: seq<Byte>)
    requires |own| == 4
    ensures |RoutePacket(own, msgSeq, queued)| == IPUDP_HDRLEN + PKT_HDR_LEN + |queued|
    ensures RoutePacket(own, msgSeq, queued)[IPUDP_HDRLEN + PKT_HDR_LEN..] == queued
  {
  }

  /** A built header, read where section 3.1 of RFC 791 puts its fields. */
  lemma {:induction false} IpFields(len: nat, ttl: Byte, src: seq<Byte>, dst: seq<Byte>, proto: Byte)
    requires |src| == 4 && |dst| == 4 && len < 0x1_0000
    ensures var h := IpHeader(len, ttl, src, dst, proto);
            && h[0] == 4 * 16 + 5 && h[1] == 0 && Word(h[2], h[3]) == len && h[4..8] == [0, 0, 0, 0]
            && h[8] == ttl && h[9] == proto && h[12..16] == src && h[16..20] == dst
  {
    var z := IpZero(len, ttl, src, dst, proto);
    SmallWord(len);
    assert z[2] == U16(len)[0] && z[3] == U16(len)[1];
    assert z[12..16] == src && z[16..20] == dst && z[4..8] == [0, 0, 0, 0];
    SealedFields(z);
  }

  lemma {:induction false} SealedFields(z: seq<Byte>)
    requires |z| == IP_LEN
    ensures var h := Sealed(z); h[..10] == z[..10] && h[4..8] == z[4..8] && h[12..16] == z[12..16] && h[16..20] == z[16..20]
    ensures var h := Sealed(z); forall i | 0 <= i < 10 :: h[i] == z[i]
  {
  }

  /** The UDP header of a packet with `n` bytes of payload, read as RFC 768 has it. */
  lemma {:induction false} UdpFields(n: nat)
    requires UDP_LEN + n < 0x1_0000
    ensures var u := UdpHeader(n);
            Word(u[0], u[1]) == 698 && Word(u[2], u[3]) == 698 && Word(u[4], u[5]) == 8 + n && Word(u[6], u[7]) == 0
  {
    SmallWord(698);
    SmallWord(UDP_LEN + n);
  }

  /** The fields in front of the messages: both headers, and the packet header of section 3.3 of RFC 3626. */
  lemma {:induction false} PacketFields(own: seq<Byte>, msgSeq: nat, queued: seq<Byte>)
    requires |own| == 4 && msgSeq < 0x1_0000 && IPUDP_HDRLEN + PKT_HDR_LEN + |queued| < 0x1_0000
    ensures var p := RoutePacket(own, msgSeq, queued);
            && |p| == 32 + |queued| && p[32..] == queued
            && p[0] == 4 * 16 + 5 && Word(p[2], p[3]) == |p| && p[8] == 64 && p[9] == 17
            && p[12..16] == own && p[16..20] == [255, 255, 255, 255]
    ensures var p := RoutePacket(own, msgSeq, queued);
            && Word(p[20], p[21]) == 698 && Word(p[22], p[23]) == 698 && Word(p[24], p[25]) == 12 + |queued| && Word(p[26], p[27]) == 0
            && Word(p[28], p[29]) == 4 + |queued| && Word(p[30], p[31]) == msgSeq
  {
    var n := |queued|;
    var h := IpHeader(IPUDP_HDRLEN + PKT_HDR_LEN + n, 64, own, [255, 255, 255, 255], IPPROTO_UDP);
    var p := RoutePacket(own, msgSeq, queued);
    FieldsAt(h, UdpHeader(PKT_HDR_LEN + n), U16(PKT_HDR_LEN + n), U16(msgSeq), queued, p);
    IpFields(IPUDP_HDRLEN + PKT_HDR_LEN + n, 64, own, [255, 255, 255, 255], IPPROTO_UDP);
    UdpFields(PKT_HDR_LEN + n);
    SmallWord(PKT_HDR_LEN + n);
    SmallWord(msgSeq);
  }

  lemma {:induction false} FieldsAt(h: seq<Byte>, udp: seq<Byte>, len: seq<Byte>, num: seq<Byte>, queued: seq<Byte>, p: seq<Byte>)
    requires |h| == 20 && |udp| == 8 && |len| == 2 && |num| == 2 && p == h + udp + len + num + queued
    ensures |p| == 32 + |queued| && p[32..] == queued && p[12..16] == h[12..16] && p[16..20] == h[16..20]
    ensures p[0] == h[0] && p[2] == h[2] && p[3] == h[3] && p[8] == h[8] && p[9] == h[9]
    ensures p[20] == udp[0] && p[21] == udp[1] && p[22] == udp[2] && p[23] == udp[3]
    ensures p[24] == udp[4] && p[25] == udp[5] && p[26] == udp[6] && p[27] == udp[7]
    ensures p[28] == len[0] && p[29] == len[1] && p[30] == num[0] && p[31] == num[1]
  {
  }

  method BuildHeaders(pkt: PacketBuf, ownIp: seq<Byte>, msgSeq: nat, read: nat) returns (offset: nat)
    requires |ownIp| == 4 && pkt.data.Length >= IPUDP_HDRLEN + PKT_HDR_LEN
    modifies pkt.data
    ensures offset == IPUDP_HDRLEN + PKT_HDR_LEN && pkt.data[..offset] == Headers(ownIp, msgSeq, read)
  {
    var payloadLen := read + PKT_HDR_LEN;
    BuildIpHdr(pkt.data, IPUDP_HDRLEN + payloadLen, 64, ownIp, [255, 255, 255, 255], IPPROTO_UDP);
    offset := Append(pkt, IP_LEN, UdpHeader(payloadLen));
    offset := Append(pkt, offset, U16(PKT_HDR_LEN + read));
    offset := Append(pkt, offset, U16(msgSeq));
  }

  /** Sends everything queued in one packet; the packet always fits its buffer. */
  method OlsrSendFromQueueCb(txMsgbuf: RingBuffer, ownIp: seq<Byte>, msgSeq: nat) returns (pkt: PacketBuf, sent: bool, msgSeq': nat)
    requires txMsgbuf.Valid() && txMsgbuf.size == OlsrForwarding.OLSR_TX_MSGBUF_SIZE && |ownIp| == 4
    modifies txMsgbuf`head
    ensures txMsgbuf.Valid() && txMsgbuf.Contents() == [] && pkt.Valid() && fresh(pkt)
    ensures sent <==> old(txMsgbuf.Contents()) != []
    ensures sent ==> pkt.Bytes() == RoutePacket(ownIp, msgSeq, old(txMsgbuf.Contents()))
    ensures msgSeq' == if sent then (msgSeq + 1) % 0x1_0000 else msgSeq
  {
    pkt := new PacketBuf();
    var read := txMsgbuf.GetReadableBufsize();
    if read <= 0 {
      return pkt, false, msgSeq;
    }
    var offset := BuildHeaders(pkt, ownIp, msgSeq, read);
    var _, payload := txMsgbuf.Pop(read);
    offset := Append(pkt, offset, payload);
    pkt.length := offset;
    sent, msgSeq' := true, (msgSeq + 1) % 0x1_0000;
  }

  method Append(pkt: PacketBuf, offset: nat, bytes: seq<Byte>) returns (end: nat)
    requires offset + |bytes| <= pkt.data.Length
    modifies pkt.data
    ensures end == offset + |bytes| && pkt.data[..end] == old(pkt.data[..offset]) + bytes
  {
    AppendTo(pkt.data, offset, bytes);
    end := offset + |bytes|;
  }

  /** Splits a received packet and handles its messages in order; `ok` is false where the program gives up. */
  method HandleRoutePkt(pkt: PacketBuf) returns (ms: seq<seq<Byte>>, ok: bool)
    requires pkt.Valid()
    requires pkt.length > IPUDP_HDRLEN ==> pkt.length >= IPUDP_HDRLEN + PKT_HDR_LEN && Splittable(pkt.Bytes()[IPUDP_HDRLEN + PKT_HDR_LEN..])
    ensures pkt.length > IPUDP_HDRLEN ==> (ms, ok) == Split(pkt.Bytes()[IPUDP_HDRLEN + PKT_HDR_LEN..])
    ensures pkt.length <= IPUDP_HDRLEN ==> ms == [] && ok
  {
    ms, ok := [], true;
    if pkt.length <= IPUDP_HDRLEN {
      return;
    }
    ghost var s := pkt.Bytes()[IPUDP_HDRLEN + PKT_HDR_LEN..];
    var payloadLen := pkt.length - IPUDP_HDRLEN;
    var offset := PKT_HDR_LEN;
    ghost var at := 0;
    SplitStart(s);
    while offset < payloadLen
      invariant at == offset - PKT_HDR_LEN && Splitting(s, at, ms) && ok
    {
      SplitStep(s, at, ms);
      var msg := pkt.data[IPUDP_HDRLEN + offset..pkt.length];
      assert msg == s[at..];
      var msgsize := Word(msg[2], msg[3]);
      if msgsize == 0 {
        return ms, false;
      }
      ms := ms + [msg[..msgsize]];
      offset := offset + msgsize;
      at := at + msgsize;
    }
    SplitEnd(s, at, ms);
  }

  ghost predicate SplittingNow(s: seq<Byte>, at: nat, ms: seq<seq<Byte>>, k: int) {
    at <= |s| && Splittable(s) && Splittable(s[at..]) && Split(s).0 == ms + Split(s[at..]).0 && Split(s).1 == Split(s[at..]).1
  }

  /** The loop has come to `at` and handled `ms`. */
  ghost predicate Splitting(s: seq<Byte>, at: nat, ms: seq<seq<Byte>>) {
    forall k {:trigger SplittingNow(s, at, ms, k)} :: SplittingNow(s, at, ms, k)
  }

  lemma {:induction false} SplitStart(s: seq<Byte>)
    requires Splittable(s)
    ensures Splitting(s, 0, [])
  {
    assert s[0..] == s;
  }

  lemma {:induction false} SplitStep(s: seq<Byte>, at: nat, ms: seq<seq<Byte>>)
    requires Splitting(s, at, ms) && at < |s|
    ensures Splittable(s) && |s[at..]| >= MSG_HEADER_LEN
    ensures var t := s[at..]; var n := Word(t[2], t[3]);
            n <= |t| && if n == 0 then Split(s) == (ms, false) else Splitting(s, at + n, ms + [t[..n]])
  {
    assert SplittingNow(s, at, ms, 0);
    var t := s[at..];
    var n := Word(t[2], t[3]);
    if n > 0 {
      assert t[n..] == s[at + n..];
      assert ms + ([t[..n]] + Split(t[n..]).0) == ms + [t[..n]] + Split(t[n..]).0;
      assert SplittingNow(s, at + n, ms + [t[..n]], 0);
    } else {
      assert ms + [] == ms;
    }
  }

  lemma {:induction false} SplitEnd(s: seq<Byte>, at: nat, ms: seq<seq<Byte>>)
    requires Splitting(s, at, ms) && at >= |s|
    ensures Splittable(s) && Split(s) == (ms, true)
  {
    assert SplittingNow(s, at, ms, 0);
    assert s[at..] == [] && ms + [] == ms;
  }

  /** From the sender's queue to the receiver's hands: the same messages in the same order. */
  lemma {:induction false} PacketCarries(own: seq<Byte>, msgSeq: nat, ms: seq<seq<Byte>>)
    requires |own| == 4 && ms != [] && (forall m <- ms :: Sized(m)) && |Pack(ms)| <= OlsrForwarding.OLSR_TX_MSGBUF_SIZE
    ensures |RoutePacket(own, msgSeq, Pack(ms))| <= MAX_IPPKT_SIZE + MAX_ETHER_HEADER_MARGIN
    ensures ValidPacket(RoutePacket(own, msgSeq, Pack(ms))) && Saddr(RoutePacket(own, msgSeq, Pack(ms))) == own
    ensures var s := RoutePacket(own, msgSeq, Pack(ms))[IPUDP_HDRLEN + PKT_HDR_LEN..]; Splittable(s) && Split(s) == (ms, true)
  {
    var queued := Pack(ms);
    SplitPack(ms);
    RoutePacketParts(own, msgSeq, queued);
    var rest := UdpHeader(PKT_HDR_LEN + |queued|) + U16(PKT_HDR_LEN + |queued|) + U16(msgSeq) + queued;
    BuiltHeader(64, own, [255, 255, 255, 255], IPPROTO_UDP, rest);
    assert RoutePacket(own, msgSeq, queued) == IpHeader(IP_LEN + |rest|, 64, own, [255, 255, 255, 255], IPPROTO_UDP) + rest;
  }

  // ----- what the forwarding steps on messages mean for these bytes

  /** The message that a header announces. Its history is not in the bytes. */
  function Meaning(b: seq<Byte>, path: seq<nat>): OlsrForwarding.Message
    requires |b| >= MSG_HEADER_LEN
  {
    var h := MsgHeaderAt(b);
    OlsrForwarding.Message(h.msgtype, h.originator, h.seqno, h.ttl, h.hopcnt, h.msgsize, path)
  }

  ghost predicate Means(b: seq<Byte>, m: OlsrForwarding.Message) { Sized(b) && Meaning(b, m.path) == m }

  /** Ttl and hop count are counted in the received bytes, each modulo 256. */
  method CountHop(msg: array<Byte>)
    requires msg.Length >= MSG_HEADER_LEN
    modifies msg
    ensures msg[..] == RelayBytes(old(msg[..]))
  {
    msg[8] := if msg[8] == 0 then 255 else msg[8] - 1;
    msg[9] := if msg[9] == 255 then 0 else msg[9] + 1;
  }

  function RelayBytes(b: seq<Byte>): seq<Byte>
    requires |b| >= MSG_HEADER_LEN
  {
    b[8 := if b[8] == 0 then 255 else b[8] - 1][9 := if b[9] == 255 then 0 else b[9] + 1]
  }

  /** The bytes after the count are the message one hop on, and all others are as received. */
  lemma {:induction false} RelayMeans(b: seq<Byte>, m: OlsrForwarding.Message, own: nat)
    requires Means(b, m)
    ensures Means(RelayBytes(b), OlsrForwarding.RelayOf(m, own))
    ensures RelayBytes(b)[..8] == b[..8] && RelayBytes(b)[10..] == b[10..]
  {
    var r := RelayBytes(b);
    assert r[4..8] == b[4..8];
    NextHop(b[9]);
  }

  lemma {:induction false} NextHop(hopcnt: Byte)
    ensures (hopcnt + 1) % 256 == if hopcnt == 255 then 0 else hopcnt + 1
  {
  }

  /** A message built by one of the timers. */
  lemma {:induction false} BuiltMeans(h: MsgHeader, payload: seq<Byte>, path: seq<nat>)
    requires HeaderOk(h) && h.msgsize == MSG_HEADER_LEN + |payload|
    ensures Means(MsgHeaderBytes(h) + payload,
                  OlsrForwarding.Message(h.msgtype, h.originator, h.seqno, h.ttl, h.hopcnt, h.msgsize, path))
  {
    HeaderRoundTrip(h, payload);
  }

  /** The byte ring holds the queue `tx` of messages: message by message, one behind the other. */
  ghost predicate Queues(ms: seq<seq<Byte>>, tx: seq<OlsrForwarding.Message>) {
    |ms| == |tx| && forall i | 0 <= i < |ms| :: Means(ms[i], tx[i])
  }

  lemma {:induction false} QueueBytes(ms: seq<seq<Byte>>, tx: seq<OlsrForwarding.Message>)
    requires Queues(ms, tx)
    ensures |Pack(ms)| == OlsrForwarding.Bytes(tx)
  {
    if ms != [] {
      var n := |ms| - 1;
      assert ms == ms[..n] + [ms[n]] && Means(ms[n], tx[n]);
      QueueBytes(ms[..n], tx[..n]);
      PackSnoc(ms[..n], ms[n]);
    }
  }

  /** The ring takes a message exactly if the queue does, and both then hold it last. */
  lemma {:induction false} PushMeans(ms: seq<seq<Byte>>, tx: seq<OlsrForwarding.Message>, b: seq<Byte>, m: OlsrForwarding.Message)
    requires Queues(ms, tx) && Means(b, m)
    ensures OlsrForwarding.Fits(tx, m) <==> |b| <= OlsrForwarding.OLSR_TX_MSGBUF_SIZE - |Pack(ms)|
    ensures OlsrForwarding.Fits(tx, m) ==> Queues(ms + [b], OlsrForwarding.Push(tx, m)) && Pack(ms + [b]) == Pack(ms) + b
    ensures !OlsrForwarding.Fits(tx, m) ==> Queues(ms, OlsrForwarding.Push(tx, m))
  {
    QueueBytes(ms, tx);
    PackSnoc(ms, b);
  }

  /** The packet that a queue becomes splits at the receiver into the messages of that queue, in their order. */
  lemma {:induction false} PacketMeans(own: seq<Byte>, msgSeq: nat, ms: seq<seq<Byte>>, tx: seq<OlsrForwarding.Message>)
    requires |own| == 4 && Queues(ms, tx) && tx != [] && OlsrForwarding.Bytes(tx) <= OlsrForwarding.OLSR_TX_MSGBUF_SIZE
    ensures var s := RoutePacket(own, msgSeq, Pack(ms))[IPUDP_HDRLEN + PKT_HDR_LEN..];
            Splittable(s) && Split(s).1 && Queues(Split(s).0, tx)
  {
    QueueBytes(ms, tx);
    forall m <- ms ensures Sized(m) {
      var i :| 0 <= i < |ms| && ms[i] == m;
      assert Means(ms[i], tx[i]);
    }
    PacketCarries(own, msgSeq, ms);
  }
}
