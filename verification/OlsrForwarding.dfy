module OlsrForwarding {
  import opened AddrTree

  const MSG_TYPE_HELLO: nat := 1
  const MSG_TYPE_TC: nat := 2
  const OLSR_TX_MSGBUF_SIZE: nat := 2000

  /** The duplicate set is keyed by originator and sequence number; the message type is not part of the key. */
  datatype Key = Key(orig: Addr, seqno: nat)

  /** A message header. `path` is a history: the nodes that have queued this copy for transmission, which no branch reads. */
  datatype Message = Message(kind: nat, originator: Addr, seqno: nat, ttl: nat, hopcnt: nat, size: nat, path: seq<Addr>)

  /** What a node has done, in order. `pushed` tells whether the transmit buffer had room. */
  datatype Event =
    | Originated(key: Key, kind: nat, pushed: bool)
    | Processed(key: Key, ttl: nat)
    | Relayed(key: Key, pushed: bool)
    | Expired(key: Key)

  datatype Node = Node(ownIp: Addr, dupTree: map<Key, bool>, selectors: set<Addr>, tx: seq<Message>, msgSeq: nat, log: seq<Event>)

  function KeyOf(m: Message): Key { Key(m.originator, m.seqno) }

  function Bytes(tx: seq<Message>): nat {
    if tx == [] then 0 else Bytes(tx[..|tx| - 1]) + tx[|tx| - 1].size
  }

  predicate Fits(tx: seq<Message>, m: Message) { m.size <= OLSR_TX_MSGBUF_SIZE - Bytes(tx) }

  function Push(tx: seq<Message>, m: Message): seq<Message> { if Fits(tx, m) then tx + [m] else tx }

  function RelayOf(m: Message, own: Addr): Message {
    m.(ttl := if m.ttl == 0 then 255 else m.ttl - 1, hopcnt := (m.hopcnt + 1) % 256, path := m.path + [own])
  }

  // ----- what each operation does to a node

  function Process(n: Node, m: Message): Node {
    if KeyOf(m) in n.dupTree then n else n.(log := n.log + [Processed(KeyOf(m), m.ttl)])
  }

  function Forward(n: Node, m: Message, src: Addr): Node {
    var k := KeyOf(m);
    if k in n.dupTree && n.dupTree[k] then n
    else if src !in n.selectors then n.(dupTree := n.dupTree[k := false])
    else
      var out := RelayOf(m, n.ownIp);
      if out.ttl == 0 then n.(dupTree := n.dupTree[k := true])
      else n.(dupTree := n.dupTree[k := true], tx := Push(n.tx, out), log := n.log + [Relayed(k, Fits(n.tx, out))])
  }

  function Handle(n: Node, m: Message, src: Addr): Node {
    if m.originator == n.ownIp then n
    else if m.ttl > 1 then Forward(Process(n, m), m, src) else Process(n, m)
  }

  function HandleAll(n: Node, ms: seq<Message>, src: Addr): Node {
    if ms == [] then n else Handle(HandleAll(n, ms[..|ms| - 1], src), ms[|ms| - 1], src)
  }

  function Expire(n: Node, k: Key): Node {
    n.(dupTree := n.dupTree - {k}, log := n.log + [Expired(k)])
  }

  function Originate(n: Node, kind: nat, size: nat): Node {
    var m := Message(kind, n.ownIp, n.msgSeq, if kind == MSG_TYPE_TC then 64 else 1, 0, size, [n.ownIp]);
    n.(tx := Push(n.tx, m), log := n.log + [Originated(KeyOf(m), kind, Fits(n.tx, m))])
  }

  function Sent(n: Node): Node {
    if n.tx == [] then n else n.(tx := [], msgSeq := (n.msgSeq + 1) % 0x1_0000)
  }

  // ----- the program's operations

  class OlsrRouter {
    const ownIp: Addr
    var dupTree: map<Key, bool>
    var selectorTree: set<Addr>
    var txMsgbuf: seq<Message>
    var msgSeq: nat
    ghost var log: seq<Event>

    ghost function State(): Node
      reads this
    {
      Node(ownIp, dupTree, selectorTree, txMsgbuf, msgSeq, log)
    }

    predicate IsMprSelector(addr: Addr)
      reads `selectorTree
    {
      addr in selectorTree
    }

    predicate IsAlreadyProcessed(m: Message)
      reads `dupTree
    {
      Key(m.originator, m.seqno) in dupTree
    }

    method CreateDupEntry(key: Key)
      modifies `dupTree
      ensures dupTree == old(dupTree)[key := false]
    {
      dupTree := dupTree[key := false];
    }

    method BufferBytes() returns (used: nat)
      ensures used == Bytes(txMsgbuf)
    {
      used := 0;
      for i := 0 to |txMsgbuf|
        invariant used == Bytes(txMsgbuf[..i])
      {
        assert txMsgbuf[..i + 1][..i] == txMsgbuf[..i];
        used := used + txMsgbuf[i].size;
      }
      assert txMsgbuf[..|txMsgbuf|] == txMsgbuf;
    }

    /** A message that does not fit is dropped without notice. */
    method RingBufferPush(m: Message) returns (pushed: bool)
      modifies `txMsgbuf
      ensures txMsgbuf == Push(old(txMsgbuf), m) && pushed == Fits(old(txMsgbuf), m)
    {
      var used := BufferBytes();
      pushed := m.size <= OLSR_TX_MSGBUF_SIZE - used;
      if pushed {
        txMsgbuf := txMsgbuf + [m];
      }
    }

    method ProcessOlsrMsg(m: Message)
      modifies `log
      ensures State() == Process(old(State()), m)
    {
      if IsAlreadyProcessed(m) {
        return;
      }
      log := log + [Processed(KeyOf(m), m.ttl)];
    }

    method OlsrMsgForwarding(m: Message, src: Addr)
      modifies `dupTree, `txMsgbuf, `log
      ensures State() == Forward(old(State()), m, src)
    {
      var dkey := Key(m.originator, m.seqno);
      if dkey in dupTree {
        if dupTree[dkey] {
          return;
        }
      } else {
        CreateDupEntry(dkey);
      }
      if !IsMprSelector(src) {
        return;
      }
      dupTree := dupTree[dkey := true];
      var out := m.(ttl := if m.ttl == 0 then 255 else m.ttl - 1, hopcnt := (m.hopcnt + 1) % 256, path := m.path + [ownIp]);
      if out.ttl == 0 {
        return;
      }
      var pushed := RingBufferPush(out);
      log := log + [Relayed(dkey, pushed)];
    }

    method HandleOlsrMsg(m: Message, src: Addr)
      modifies `dupTree, `txMsgbuf, `log
      ensures State() == Handle(old(State()), m, src)
    {
      if m.originator == ownIp {
        return;
      }
      ProcessOlsrMsg(m);
      if m.ttl > 1 {
        OlsrMsgForwarding(m, src);
      }
    }

    /** The messages of one packet, one after the other. */
    method HandleRoutePkt(ms: seq<Message>, src: Addr)
      modifies `dupTree, `txMsgbuf, `log
      ensures State() == HandleAll(old(State()), ms, src)
    {
      for i := 0 to |ms|
        invariant State() == HandleAll(old(State()), ms[..i], src)
      {
        assert ms[..i + 1][..i] == ms[..i];
        HandleOlsrMsg(ms[i], src);
      }
      assert ms[..|ms|] == ms;
    }

    method ExpireDupEntryCb(key: Key)
      modifies `dupTree, `log
      ensures State() == Expire(old(State()), key)
    {
      dupTree := dupTree - {key};
      log := log + [Expired(key)];
    }

    method OlsrTcTimerCb(size: nat)
      modifies `txMsgbuf, `log
      ensures State() == Originate(old(State()), MSG_TYPE_TC, size)
    {
      var m := Message(MSG_TYPE_TC, ownIp, msgSeq, 64, 0, size, [ownIp]);
      var pushed := RingBufferPush(m);
      log := log + [Originated(Key(ownIp, msgSeq), MSG_TYPE_TC, pushed)];
    }

    method OlsrHelloTimerCb(size: nat)
      modifies `txMsgbuf, `log
      ensures State() == Originate(old(State()), MSG_TYPE_HELLO, size)
    {
      var m := Message(MSG_TYPE_HELLO, ownIp, msgSeq, 1, 0, size, [ownIp]);
      var pushed := RingBufferPush(m);
      log := log + [Originated(Key(ownIp, msgSeq), MSG_TYPE_HELLO, pushed)];
    }

    /** Everything queued leaves in one packet. */
    method OlsrSendFromQueueCb() returns (packet: seq<Message>)
      modifies `txMsgbuf, `msgSeq
      ensures packet == old(txMsgbuf) && State() == Sent(old(State()))
    {
      packet := txMsgbuf;
      if |txMsgbuf| == 0 {
        return;
      }
      txMsgbuf := [];
      msgSeq := (msgSeq + 1) % 0x1_0000;
    }
  }

  // ----- at most once while an entry lives

  /** Event `i` of the log happened, and `k`'s entry has not expired since. */
  ghost predicate Since(log: seq<Event>, k: Key, i: nat) {
    i < |log| && forall j | i < j < |log| :: log[j] != Expired(k)
  }

  predicate IsEntering(e: Event, k: Key) { e.Processed? && e.key == k && e.ttl > 1 }

  predicate IsRelaying(e: Event, k: Key) { e.Relayed? && e.key == k }

  ghost predicate EnteredSince(log: seq<Event>, k: Key) {
    exists i: nat {:trigger Since(log, k, i)} :: Since(log, k, i) && IsEntering(log[i], k)
  }

  ghost predicate RelayedSince(log: seq<Event>, k: Key) {
    exists i: nat {:trigger Since(log, k, i)} :: Since(log, k, i) && IsRelaying(log[i], k)
  }

  ghost predicate ExpiredBetween(log: seq<Event>, k: Key, i: int, j: int)
    requires 0 <= i < j < |log|
  {
    exists e {:trigger log[e]} :: i < e < j && log[e] == Expired(k)
  }

  /** Between two retransmissions under one key the entry expired, and so it did between processing a message that was
      due for forwarding and processing another one under the same key. */
  ghost predicate AtMostOnce(log: seq<Event>) {
    forall i, j {:trigger log[i], log[j]} | 0 <= i < j < |log| ::
      && (log[i].Relayed? && IsRelaying(log[j], log[i].key) ==> ExpiredBetween(log, log[i].key, i, j))
      && (log[i].Processed? && log[i].ttl > 1 && log[j].Processed? && log[j].key == log[i].key
          ==> ExpiredBetween(log, log[i].key, i, j))
  }

  /** The duplicate set is exactly what the log says: an entry per message entered, marked once it was retransmitted. */
  ghost predicate DupMatches(n: Node, k: Key) {
    && (k in n.dupTree <==> EnteredSince(n.log, k))
    && (k in n.dupTree && n.dupTree[k] <==> RelayedSince(n.log, k))
  }

  ghost predicate NodeOk(n: Node) {
    AtMostOnce(n.log) && forall k {:trigger DupMatches(n, k)} :: DupMatches(n, k)
  }

  lemma {:induction false} Snoc(log: seq<Event>, e: Event, k: Key)
    ensures e != Expired(k) ==> (EnteredSince(log + [e], k) <==> EnteredSince(log, k) || IsEntering(e, k))
    ensures e != Expired(k) ==> (RelayedSince(log + [e], k) <==> RelayedSince(log, k) || IsRelaying(e, k))
    ensures e == Expired(k) ==> !EnteredSince(log + [e], k) && !RelayedSince(log + [e], k)
  {
    var log' := log + [e];
    if e == Expired(k) {
      forall i: nat | Since(log', k, i) ensures i == |log| {}
    } else {
      forall i: nat | i < |log| ensures Since(log', k, i) <==> Since(log, k, i) && log'[i] == log[i] {
        forall j | i < j < |log'| ensures log'[j] == if j < |log| then log[j] else e {}
        if Since(log', k, i) {
          assert forall j | i < j < |log| :: log'[j] == log[j];
        }
      }
      assert Since(log', k, |log|) && log'[|log|] == e;
    }
  }

  lemma {:induction false} OnceSnoc(log: seq<Event>, e: Event)
    requires AtMostOnce(log)
    requires e.Relayed? ==> !RelayedSince(log, e.key)
    requires e.Processed? ==> !EnteredSince(log, e.key)
    ensures AtMostOnce(log + [e])
  {
    var log' := log + [e];
    forall i, j | 0 <= i < j < |log'|
      ensures log'[i].Relayed? && IsRelaying(log'[j], log'[i].key) ==> ExpiredBetween(log', log'[i].key, i, j)
      ensures log'[i].Processed? && log'[i].ttl > 1 && log'[j].Processed? && log'[j].key == log'[i].key
              ==> ExpiredBetween(log', log'[i].key, i, j)
    {
      var k := log'[i].key;
      if j < |log| {
        assert log'[i] == log[i] && log'[j] == log[j];
        if ExpiredBetween(log, k, i, j) {
          var x :| i < x < j && log[x] == Expired(k);
          assert log'[x] == Expired(k);
        }
      } else if !Since(log, k, i) {
        var x :| i < x < |log| && log[x] == Expired(k);
        assert log'[x] == Expired(k);
      } else {
        assert log'[i] == log[i];
      }
    }
  }

  lemma {:induction false} ProcessKeeps(n: Node, m: Message)
    requires NodeOk(n) && KeyOf(m) !in n.dupTree
    ensures AtMostOnce(Process(n, m).log)
    ensures forall k :: EnteredSince(Process(n, m).log, k) <==> EnteredSince(n.log, k) || (k == KeyOf(m) && m.ttl > 1)
    ensures forall k :: RelayedSince(Process(n, m).log, k) <==> RelayedSince(n.log, k)
  {
    var e := Processed(KeyOf(m), m.ttl);
    assert DupMatches(n, KeyOf(m));
    OnceSnoc(n.log, e);
    forall k
      ensures EnteredSince(n.log + [e], k) <==> EnteredSince(n.log, k) || (k == KeyOf(m) && m.ttl > 1)
      ensures RelayedSince(n.log + [e], k) <==> RelayedSince(n.log, k)
    {
      Snoc(n.log, e, k);
    }
  }

  /** Handling a message keeps the duplicate set and the log in step. */
  lemma {:induction false} HandleKeeps(n: Node, m: Message, src: Addr)
    requires NodeOk(n)
    ensures NodeOk(Handle(n, m, src))
  {
    var k0 := KeyOf(m);
    if m.originator != n.ownIp {
      assert DupMatches(n, k0);
      var p, n' := Process(n, m), Handle(n, m, src);
      if k0 !in n.dupTree {
        ProcessKeeps(n, m);
      }
      if n'.log == p.log {
        forall k ensures DupMatches(n', k) {
          assert DupMatches(n, k);
        }
      } else {
        var e := n'.log[|p.log|];
        OnceSnoc(p.log, e);
        forall k ensures DupMatches(n', k) {
          assert DupMatches(n, k);
          Snoc(p.log, e, k);
        }
      }
    }
  }

  lemma {:induction false} ExpireKeeps(n: Node, k0: Key)
    requires NodeOk(n)
    ensures NodeOk(Expire(n, k0))
  {
    OnceSnoc(n.log, Expired(k0));
    forall k ensures DupMatches(Expire(n, k0), k) {
      assert DupMatches(n, k);
      Snoc(n.log, Expired(k0), k);
    }
  }

  lemma {:induction false} OriginateKeeps(n: Node, kind: nat, size: nat)
    requires NodeOk(n)
    ensures NodeOk(Originate(n, kind, size))
  {
    var n' := Originate(n, kind, size);
    var e := n'.log[|n.log|];
    OnceSnoc(n.log, e);
    forall k ensures DupMatches(n', k) {
      assert DupMatches(n, k);
      Snoc(n.log, e, k);
    }
  }

  /** Whatever else is queued, sent or selected changes nothing here. */
  lemma {:induction false} OtherKeeps(n: Node, n': Node)
    requires NodeOk(n) && n'.log == n.log && n'.dupTree == n.dupTree
    ensures NodeOk(n')
  {
    forall k ensures DupMatches(n', k) {
      assert DupMatches(n, k);
    }
  }

  // ----- which messages of a packet are processed

  /** Handling `m` took `n` to `n'`, and `m` was processed. */
  ghost predicate Takes(n: Node, n': Node, m: Message) {
    n.log < n'.log && n'.log[|n.log|] == Processed(KeyOf(m), m.ttl)
  }

  /** A message that leaves an entry under `k` at a node other than its originator. */
  predicate Enters(m: Message, k: Key) { KeyOf(m) == k && m.ttl > 1 }

  lemma {:induction false} HandleTakes(n: Node, m: Message, src: Addr, k: Key)
    ensures Takes(n, Handle(n, m, src), m) <==> m.originator != n.ownIp && KeyOf(m) !in n.dupTree
    ensures k in Handle(n, m, src).dupTree <==> k in n.dupTree || (Enters(m, k) && k.orig != n.ownIp)
    ensures Handle(n, m, src).ownIp == n.ownIp
  {
  }

  lemma {:induction false} EntriesAfter(n: Node, ms: seq<Message>, src: Addr, k: Key)
    ensures HandleAll(n, ms, src).ownIp == n.ownIp
    ensures k in HandleAll(n, ms, src).dupTree <==> k in n.dupTree || (k.orig != n.ownIp && exists m :: m in ms && Enters(m, k))
  {
    if ms != [] {
      var front, last := ms[..|ms| - 1], ms[|ms| - 1];
      assert ms == front + [last];
      EntriesAfter(n, front, src, k);
      HandleTakes(HandleAll(n, front, src), last, src, k);
    }
  }

  /** Exactly these messages of a packet are processed: those of other nodes whose key is not in the duplicate set and that
      have no message ahead of them in the packet with the same key and a ttl above one. The type does not matter. */
  lemma {:induction false} ProcessedExactly(n: Node, ms: seq<Message>, src: Addr, i: nat)
    requires i < |ms|
    ensures Takes(HandleAll(n, ms[..i], src), HandleAll(n, ms[..i + 1], src), ms[i]) <==>
              && ms[i].originator != n.ownIp && KeyOf(ms[i]) !in n.dupTree
              && forall m <- ms[..i] :: !Enters(m, KeyOf(ms[i]))
  {
    var front := ms[..i];
    assert ms[..i + 1][..i] == front;
    EntriesAfter(n, front, src, KeyOf(ms[i]));
    HandleTakes(HandleAll(n, front, src), ms[i], src, KeyOf(ms[i]));
  }

  /** A message that arrives twice is processed twice exactly if nothing stops the first one and its ttl is at most one:
      then it leaves no entry. */
  lemma {:induction false} ProcessedTwice(n: Node, m: Message, src: Addr, src': Addr)
    ensures var n1 := Handle(n, m, src);
            Takes(n, n1, m) && Takes(n1, Handle(n1, m, src'), m) <==>
              m.originator != n.ownIp && KeyOf(m) !in n.dupTree && m.ttl <= 1
  {
    HandleTakes(n, m, src, KeyOf(m));
    HandleTakes(Handle(n, m, src), m, src', KeyOf(m));
  }

  // ----- which messages are retransmitted

  /** A message of another node with hops to go, from a node that chose this one as its relay, not retransmitted yet. */
  predicate Relays(n: Node, m: Message, src: Addr) {
    && m.originator != n.ownIp && m.ttl > 1 && src in n.selectors
    && !(KeyOf(m) in n.dupTree && n.dupTree[KeyOf(m)])
  }

  /** Handling a message queues its copy, marks its key and logs a retransmission exactly under these conditions. */
  lemma {:induction false} RelaysExactly(n: Node, m: Message, src: Addr)
    ensures var n' := Handle(n, m, src);
            n'.tx == n.tx + if Relays(n, m, src) && Fits(n.tx, RelayOf(m, n.ownIp)) then [RelayOf(m, n.ownIp)] else []
    ensures var n' := Handle(n, m, src);
            forall k :: k in n'.dupTree && n'.dupTree[k] <==> (k in n.dupTree && n.dupTree[k]) || (k == KeyOf(m) && Relays(n, m, src))
    ensures var n' := Handle(n, m, src);
            n'.log == n.log + (if m.originator != n.ownIp && KeyOf(m) !in n.dupTree then [Processed(KeyOf(m), m.ttl)] else [])
                      + if Relays(n, m, src) then [Relayed(KeyOf(m), Fits(n.tx, RelayOf(m, n.ownIp)))] else []
    ensures Handle(n, m, src).selectors == n.selectors && Handle(n, m, src).msgSeq == n.msgSeq
  {
  }

  // ----- one sequence number for all messages of a node's packet

  /** Every message of the node's own in its queue carries the current number and its first ttl. */
  predicate OwnQueued(n: Node, m: Message) {
    m.originator == n.ownIp ==> m.seqno == n.msgSeq && (m.kind == MSG_TYPE_TC ==> m.ttl == 64)
  }

  lemma {:induction false} OwnQueuedKeeps(n: Node, n': Node, m: Message, src: Addr, kind: nat, size: nat)
    requires forall q <- n.tx :: OwnQueued(n, q)
    requires n' == Handle(n, m, src) || n' == Originate(n, kind, size) || n' == Sent(n)
             || (n'.tx == n.tx && n'.msgSeq == n.msgSeq && n'.ownIp == n.ownIp)
    ensures forall q <- n'.tx :: OwnQueued(n', q)
  {
  }

  /** The two timers between two sends: both messages leave under one key, in the order of the timers. */
  lemma {:induction false} SharedSequenceNumber(n: Node, first: nat, second: nat, size: nat, size': nat)
    requires Bytes(n.tx) + size + size' <= OLSR_TX_MSGBUF_SIZE
    ensures var n' := Originate(Originate(n, first, size), second, size');
            && |n'.tx| == |n.tx| + 2 && n.tx <= n'.tx
            && n'.tx[|n.tx|].kind == first && n'.tx[|n.tx| + 1].kind == second
            && KeyOf(n'.tx[|n.tx|]) == KeyOf(n'.tx[|n.tx| + 1]) == Key(n.ownIp, n.msgSeq)
            && Sent(n').msgSeq == (n.msgSeq + 1) % 0x1_0000
  {
    var n1 := Originate(n, first, size);
    assert n1.tx[..|n1.tx| - 1] == n.tx;
  }

  /** A HELLO in a packet as its sender queued it is processed by another node exactly if no TC of the sender is ahead of it
      and the node has no entry under the packet's number. */
  lemma {:induction false} HelloProcessedExactly(sender: Node, n: Node, i: nat)
    requires i < |sender.tx| && sender.tx[i].kind == MSG_TYPE_HELLO && sender.tx[i].originator == sender.ownIp != n.ownIp
    requires forall m <- sender.tx :: OwnQueued(sender, m)
    requires forall m <- sender.tx | m.originator == sender.ownIp :: m.kind == MSG_TYPE_TC || (m.kind == MSG_TYPE_HELLO && m.ttl == 1)
    ensures Takes(HandleAll(n, sender.tx[..i], sender.ownIp), HandleAll(n, sender.tx[..i + 1], sender.ownIp), sender.tx[i]) <==>
              && Key(sender.ownIp, sender.msgSeq) !in n.dupTree
              && forall m <- sender.tx[..i] :: m.originator == sender.ownIp ==> m.kind == MSG_TYPE_HELLO
  {
    var k := Key(sender.ownIp, sender.msgSeq);
    ProcessedExactly(n, sender.tx, sender.ownIp, i);
    assert OwnQueued(sender, sender.tx[i]);
    forall m <- sender.tx[..i] ensures Enters(m, k) <==> m.originator == sender.ownIp && m.kind != MSG_TYPE_HELLO {
      assert m in sender.tx && OwnQueued(sender, m);
    }
  }
}
