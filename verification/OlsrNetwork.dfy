module OlsrNetwork {
  import opened AddrTree
  import opened OlsrForwarding

  /** One message of one packet on its way to one receiver. */
  datatype Copy = Copy(packet: nat, index: nat, src: Addr, dst: Addr, msg: Message)

  /** All nodes and everything in the air. `packets` counts transmissions; `spoke` and `heard` are histories:
      which node has sent, and which node has received from which, a TC message under a key. */
  datatype Net = Net(nodes: map<Addr, Node>, air: set<Copy>, packets: nat, spoke: set<(Addr, Key)>, heard: set<(Addr, Addr, Key)>)

  datatype Action =
    | QueueTc(node: Addr, size: nat)
    | QueueHello(node: Addr, size: nat)
    | Transmit(node: Addr, receivers: set<Addr>)
    | Deliver(copy: Copy)
    | Lose(copy: Copy)
    | ExpireEntry(node: Addr, key: Key)
    | Retune(node: Addr, selectors: set<Addr>)

  predicate IsTc(m: Message, k: Key) { m.kind == MSG_TYPE_TC && KeyOf(m) == k }

  // ----- steps

  predicate Enabled(s: Net, a: Action) {
    match a
    case QueueTc(u, _) => u in s.nodes
    case QueueHello(u, _) => u in s.nodes
    case Transmit(u, r) => u in s.nodes && s.nodes[u].tx != [] && r <= s.nodes.Keys
    case Deliver(c) => c in s.air
    case Lose(c) => c in s.air
    case ExpireEntry(u, k) => u in s.nodes && k in s.nodes[u].dupTree
    case Retune(u, _) => u in s.nodes
  }

  function CopiesOf(packet: nat, src: Addr, tx: seq<Message>, receivers: set<Addr>): set<Copy> {
    set r, i | r in receivers && 0 <= i < |tx| :: Copy(packet, i, src, r, tx[i])
  }

  function TcKeys(tx: seq<Message>): set<Key> {
    set m | m in tx && m.kind == MSG_TYPE_TC :: KeyOf(m)
  }

  function After(s: Net, a: Action): Net
    requires Enabled(s, a)
  {
    match a
    case QueueTc(u, size) => s.(nodes := s.nodes[u := Originate(s.nodes[u], MSG_TYPE_TC, size)])
    case QueueHello(u, size) => s.(nodes := s.nodes[u := Originate(s.nodes[u], MSG_TYPE_HELLO, size)])
    case Transmit(u, r) =>
      var tx := s.nodes[u].tx;
      s.(nodes := s.nodes[u := OlsrForwarding.Sent(s.nodes[u])], air := s.air + CopiesOf(s.packets, u, tx, r), packets := s.packets + 1,
         spoke := s.spoke + set k | k in TcKeys(tx) :: (u, k))
    case Deliver(c) =>
      var s' := s.(air := s.air - {c}, heard := if c.msg.kind == MSG_TYPE_TC then s.heard + {(c.src, c.dst, KeyOf(c.msg))} else s.heard);
      if c.dst in s.nodes then s'.(nodes := s.nodes[c.dst := Handle(s.nodes[c.dst], c.msg, c.src)]) else s'
    case Lose(c) => s.(air := s.air - {c})
    case ExpireEntry(u, k) => s.(nodes := s.nodes[u := Expire(s.nodes[u], k)])
    case Retune(u, sel) => s.(nodes := s.nodes[u := s.nodes[u].(selectors := sel)])
  }

  ghost predicate Init(s: Net) {
    && (forall u <- s.nodes :: s.nodes[u].ownIp == u && s.nodes[u].dupTree == map[] && s.nodes[u].tx == [] && s.nodes[u].log == [])
    && s.air == {} && s.spoke == {} && s.heard == {}
  }

  /** A stretch of a run: each state follows from the one before by an enabled step. */
  ghost predicate Path(ss: seq<Net>, acts: seq<Action>) {
    && |ss| == |acts| + 1
    && forall i | 0 <= i < |acts| :: Enabled(ss[i], acts[i]) && ss[i + 1] == After(ss[i], acts[i])
  }

  ghost predicate Run(ss: seq<Net>, acts: seq<Action>) { Path(ss, acts) && Init(ss[0]) }

  // ----- what holds in every reachable state, whatever is lost, expires or is retuned

  /** A copy held or sent by `holder`: a TC that has made `hopcnt` hops over `hopcnt + 1` nodes, or a HELLO on its only hop. */
  predicate Shaped(m: Message, holder: Addr) {
    && m.path != [] && m.path[0] == m.originator && m.path[|m.path| - 1] == holder && |m.path| == m.hopcnt + 1
    && m.ttl >= 1
    && (if m.kind == MSG_TYPE_TC then m.ttl + m.hopcnt == 64 else m.kind == MSG_TYPE_HELLO && m.ttl == 1 && m.hopcnt == 0)
  }

  ghost predicate NodeSafe(s: Net, u: Addr) {
    && u in s.nodes && s.nodes[u].ownIp == u && NodeOk(s.nodes[u])
    && forall m <- s.nodes[u].tx :: Shaped(m, u)
  }

  ghost predicate CopySafe(c: Copy) { Shaped(c.msg, c.src) }

  ghost predicate Safe(s: Net) {
    && (forall u {:trigger NodeSafe(s, u)} | u in s.nodes :: NodeSafe(s, u))
    && (forall c {:trigger CopySafe(c)} | c in s.air :: CopySafe(c))
  }

  lemma {:induction false} ShapedRelay(m: Message, src: Addr, own: Addr)
    requires Shaped(m, src) && m.ttl > 1
    ensures Shaped(RelayOf(m, own), own)
  {
  }

  /** Handling a copy queues at most the copy with one more hop, and that only on the way to a selector. */
  lemma {:induction false} HandleQueues(n: Node, m: Message, src: Addr)
    ensures Handle(n, m, src).tx == n.tx
            || (Handle(n, m, src).tx == n.tx + [RelayOf(m, n.ownIp)] && m.ttl > 1 && m.originator != n.ownIp
                && !(KeyOf(m) in n.dupTree && n.dupTree[KeyOf(m)])
                && KeyOf(m) in Handle(n, m, src).dupTree && Handle(n, m, src).dupTree[KeyOf(m)])
    ensures Handle(n, m, src).ownIp == n.ownIp && Handle(n, m, src).selectors == n.selectors
    ensures n.log <= Handle(n, m, src).log
    ensures forall k :: k != KeyOf(m) ==> (k in Handle(n, m, src).dupTree <==> k in n.dupTree)
    ensures forall k :: k in n.dupTree && n.dupTree[k] ==> k in Handle(n, m, src).dupTree && Handle(n, m, src).dupTree[k]
    ensures forall k :: k in n.dupTree ==> k in Handle(n, m, src).dupTree
    ensures forall k :: k in Handle(n, m, src).dupTree && Handle(n, m, src).dupTree[k] && !(k in n.dupTree && n.dupTree[k])
                        ==> k == KeyOf(m)
  {
  }

  lemma {:induction false} NodeStep(s: Net, s': Net, u: Addr)
    requires Safe(s) && u in s.nodes && u in s'.nodes && s'.nodes == s.nodes[u := s'.nodes[u]] && NodeSafe(s', u)
    requires forall c <- s'.air :: c in s.air || CopySafe(c)
    ensures Safe(s')
  {
    forall w | w in s'.nodes ensures NodeSafe(s', w) {
      assert w != u ==> NodeSafe(s, w);
    }
    forall c | c in s'.air ensures CopySafe(c) {
      assert c in s.air ==> CopySafe(c);
    }
  }

  lemma {:induction false} QueueSafe(s: Net, u: Addr, kind: nat, size: nat)
    requires Safe(s) && u in s.nodes && (kind == MSG_TYPE_TC || kind == MSG_TYPE_HELLO)
    ensures Safe(s.(nodes := s.nodes[u := Originate(s.nodes[u], kind, size)]))
  {
    var s' := s.(nodes := s.nodes[u := Originate(s.nodes[u], kind, size)]);
    assert NodeSafe(s, u);
    OriginateKeeps(s.nodes[u], kind, size);
    NodeStep(s, s', u);
  }

  lemma {:induction false} TransmitSafe(s: Net, u: Addr, r: set<Addr>)
    requires Safe(s) && Enabled(s, Transmit(u, r))
    ensures Safe(After(s, Transmit(u, r)))
  {
    var s' := After(s, Transmit(u, r));
    assert NodeSafe(s, u);
    OtherKeeps(s.nodes[u], s'.nodes[u]);
    forall c <- s'.air ensures c in s.air || CopySafe(c) {
      if c !in s.air {
        assert c in CopiesOf(s.packets, u, s.nodes[u].tx, r);
        assert c.msg in s.nodes[u].tx;
      }
    }
    NodeStep(s, s', u);
  }

  lemma {:induction false} DeliverSafe(s: Net, c: Copy)
    requires Safe(s) && c in s.air
    ensures Safe(After(s, Deliver(c)))
  {
    var s' := After(s, Deliver(c));
    if c.dst in s.nodes {
      var n := s.nodes[c.dst];
      assert NodeSafe(s, c.dst) && CopySafe(c);
      HandleKeeps(n, c.msg, c.src);
      HandleQueues(n, c.msg, c.src);
      if c.msg.ttl > 1 {
        ShapedRelay(c.msg, c.src, c.dst);
      }
      assert NodeSafe(s', c.dst);
      NodeStep(s, s', c.dst);
    } else {
      SameNodes(s, s');
    }
  }

  lemma {:induction false} SameNodes(s: Net, s': Net)
    requires Safe(s) && s'.nodes == s.nodes && s'.air <= s.air
    ensures Safe(s')
  {
    forall w | w in s'.nodes ensures NodeSafe(s', w) {
      assert NodeSafe(s, w);
    }
    forall c | c in s'.air ensures CopySafe(c) {
      assert CopySafe(c);
    }
  }

  lemma {:induction false} StepSafe(s: Net, a: Action)
    requires Safe(s) && Enabled(s, a)
    ensures Safe(After(s, a))
  {
    match a
    case QueueTc(u, size) => QueueSafe(s, u, MSG_TYPE_TC, size);
    case QueueHello(u, size) => QueueSafe(s, u, MSG_TYPE_HELLO, size);
    case Transmit(u, r) => TransmitSafe(s, u, r);
    case Deliver(c) => DeliverSafe(s, c);
    case Lose(c) => SameNodes(s, After(s, a));
    case ExpireEntry(u, k) =>
      assert NodeSafe(s, u);
      ExpireKeeps(s.nodes[u], k);
      NodeStep(s, After(s, a), u);
    case Retune(u, sel) =>
      assert NodeSafe(s, u);
      OtherKeeps(s.nodes[u], After(s, a).nodes[u]);
      NodeStep(s, After(s, a), u);
  }

  /** In every reachable state every queued or flying TC has ttl + hopcnt = 64 and ttl >= 1, and no node has processed
      or retransmitted a message twice within the life of its duplicate entry. */
  lemma {:induction false} FloodSafety(ss: seq<Net>, acts: seq<Action>)
    requires Run(ss, acts)
    ensures Safe(ss[|acts|])
    ensures forall u | u in ss[|acts|].nodes :: AtMostOnce(ss[|acts|].nodes[u].log)
    ensures forall u, m | u in ss[|acts|].nodes && m in ss[|acts|].nodes[u].tx :: Shaped(m, u)
    ensures forall c | c in ss[|acts|].air :: Shaped(c.msg, c.src)
  {
    var s := ss[|acts|];
    if acts == [] {
      forall u | u in s.nodes ensures NodeSafe(s, u) {
        forall k ensures DupMatches(s.nodes[u], k) {}
      }
    } else {
      FloodSafety(ss[..|acts|], acts[..|acts| - 1]);
      StepSafe(ss[|acts| - 1], acts[|acts| - 1]);
    }
    forall u | u in s.nodes ensures AtMostOnce(s.nodes[u].log) && forall m <- s.nodes[u].tx :: Shaped(m, u) {
      assert NodeSafe(s, u);
    }
    forall c | c in s.air ensures Shaped(c.msg, c.src) {
      assert CopySafe(c);
    }
  }

  ghost predicate OwnSafe(s: Net, u: Addr) { u in s.nodes && forall m <- s.nodes[u].tx :: OwnQueued(s.nodes[u], m) }

  lemma {:induction false} OwnStep(s: Net, a: Action, u: Addr)
    requires Enabled(s, a) && OwnSafe(s, u)
    ensures OwnSafe(After(s, a), u)
  {
    var n, n' := s.nodes[u], After(s, a).nodes[u];
    if n' != n {
      var m := if a.Deliver? then a.copy.msg else Message(0, u, 0, 0, 0, 0, []);
      OwnQueuedKeeps(n, n', m, if a.Deliver? then a.copy.src else u, if a.QueueTc? then MSG_TYPE_TC else MSG_TYPE_HELLO,
                     if a.QueueTc? || a.QueueHello? then a.size else 0);
    }
  }

  lemma {:induction false} OwnRun(ss: seq<Net>, acts: seq<Action>, u: Addr)
    requires Run(ss, acts) && u in ss[|acts|].nodes
    ensures OwnSafe(ss[|acts|], u) && ss[|acts|].nodes[u].ownIp == u
  {
    FloodSafety(ss, acts);
    assert NodeSafe(ss[|acts|], u);
    if acts != [] {
      OwnRun(ss[..|acts|], acts[..|acts| - 1], u);
      OwnStep(ss[|acts| - 1], acts[|acts| - 1], u);
    }
  }

  /** In every reachable state: a HELLO of node `u` in the packet it would send now is processed by another node exactly if
      no TC of `u` is ahead of it in the packet and that node has no entry under the packet's number. */
  lemma {:induction false} HelloProcessed(ss: seq<Net>, acts: seq<Action>, u: Addr, n: Node, i: nat)
    requires Run(ss, acts) && u in ss[|acts|].nodes && i < |ss[|acts|].nodes[u].tx| && n.ownIp != u
    requires ss[|acts|].nodes[u].tx[i].kind == MSG_TYPE_HELLO
    ensures var tx := ss[|acts|].nodes[u].tx;
            Takes(HandleAll(n, tx[..i], u), HandleAll(n, tx[..i + 1], u), tx[i]) <==>
              && Key(u, ss[|acts|].nodes[u].msgSeq) !in n.dupTree
              && forall m <- tx[..i] :: m.originator == u ==> m.kind == MSG_TYPE_HELLO
  {
    FloodSafety(ss, acts);
    OwnRun(ss, acts, u);
    var sender := ss[|acts|].nodes[u];
    forall m <- sender.tx ensures Shaped(m, u) {}
    var hello := sender.tx[i];
    assert hello in sender.tx && Shaped(hello, u) && |hello.path| == 1;
    HelloProcessedExactly(sender, n, i);
  }

  // ----- a HELLO that is dropped

  function TimerGoesOff(u: Addr, kind: nat, size: nat): Action { if kind == MSG_TYPE_TC then QueueTc(u, size) else QueueHello(u, size) }

  /** The first message of a node, queued under the current number. */
  function FirstMessage(n: Node, kind: nat, size: nat): Message {
    Message(kind, n.ownIp, n.msgSeq, if kind == MSG_TYPE_TC then 64 else 1, 0, size, [n.ownIp])
  }

  /** Two timers of `u` go off one after the other, and the packet arrives at `v` message by message. */
  function TwoTimers(s: Net, u: Addr, v: Addr, first: Message, second: Message): seq<Action> {
    [TimerGoesOff(u, first.kind, first.size), TimerGoesOff(u, second.kind, second.size), Transmit(u, {v}),
     Deliver(Copy(s.packets, 0, u, v, first)), Deliver(Copy(s.packets, 1, u, v, second))]
  }

  predicate HelloOrTc(m: Message) { m.kind == MSG_TYPE_HELLO || m.kind == MSG_TYPE_TC }

  lemma {:induction false} BothQueued(s: Net, u: Addr, first: Message, second: Message)
    requires u in s.nodes && s.nodes[u].tx == [] && HelloOrTc(first) && HelloOrTc(second)
    requires first == FirstMessage(s.nodes[u], first.kind, first.size) && second == FirstMessage(s.nodes[u], second.kind, second.size)
    requires first.size + second.size <= OLSR_TX_MSGBUF_SIZE
    ensures var s1 := After(s, TimerGoesOff(u, first.kind, first.size));
            u in s1.nodes && var s2 := After(s1, TimerGoesOff(u, second.kind, second.size));
            u in s2.nodes && s2.nodes[u].tx == [first, second] && s2.nodes == s.nodes[u := s2.nodes[u]]
            && s2.air == s.air && s2.packets == s.packets
  {
    SharedSequenceNumber(s.nodes[u], first.kind, second.kind, first.size, second.size);
  }

  lemma {:induction false} BothArrive(s: Net, u: Addr, v: Addr, first: Message, second: Message) returns (s3: Net, s4: Net, s5: Net)
    requires u in s.nodes && v in s.nodes && u != v && s.nodes[u].tx == [first, second] && first != second && s.air == {}
    ensures var c, d := Copy(s.packets, 0, u, v, first), Copy(s.packets, 1, u, v, second);
            && s3 == After(s, Transmit(u, {v})) && c in s3.air && s4 == After(s3, Deliver(c)) && d in s4.air && s5 == After(s4, Deliver(d))
    ensures v in s3.nodes && v in s4.nodes && v in s5.nodes && s3.nodes[v] == s.nodes[v]
    ensures s4.nodes[v] == Handle(s.nodes[v], first, u) && s5.nodes[v] == Handle(s4.nodes[v], second, u)
  {
    var c, d := Copy(s.packets, 0, u, v, first), Copy(s.packets, 1, u, v, second);
    var tx := s.nodes[u].tx;
    assert tx[0] == first && tx[1] == second;
    assert c in CopiesOf(s.packets, u, tx, {v}) && d in CopiesOf(s.packets, u, tx, {v});
    s3 := After(s, Transmit(u, {v}));
    s4 := After(s3, Deliver(c));
    s5 := After(s4, Deliver(d));
  }

  lemma {:induction false} TwoHandled(n: Node, hello: Message, tc: Message, src: Addr)
    requires n.dupTree == map[] && n.log == [] && hello.originator == tc.originator != n.ownIp && hello.seqno == tc.seqno
    requires hello.ttl == 1 && tc.ttl == 64
    ensures var log := Handle(Handle(n, hello, src), tc, src).log;
            Processed(KeyOf(hello), 1) in log && Processed(KeyOf(tc), 64) in log
    ensures var log := Handle(Handle(n, tc, src), hello, src).log;
            Processed(KeyOf(hello), 1) !in log && Processed(KeyOf(tc), 64) in log
  {
    var k := KeyOf(tc);
    assert Handle(n, hello, src).log == [Processed(k, 1)];
    assert Handle(Handle(n, hello, src), tc, src).log[..2] == [Processed(k, 1), Processed(k, 64)];
    assert Handle(n, tc, src).log[0] == Processed(k, 64);
  }

  lemma {:induction false} TwoTimersRun(s: Net, u: Addr, v: Addr, first: Message, second: Message) returns (ss: seq<Net>)
    requires Init(s) && u in s.nodes && v in s.nodes && u != v && first.size + second.size <= OLSR_TX_MSGBUF_SIZE
    requires HelloOrTc(first) && HelloOrTc(second) && first.kind != second.kind
    requires first == FirstMessage(s.nodes[u], first.kind, first.size) && second == FirstMessage(s.nodes[u], second.kind, second.size)
    ensures Run(ss, TwoTimers(s, u, v, first, second)) && ss[0] == s
    ensures v in ss[5].nodes && ss[5].nodes[v] == Handle(Handle(s.nodes[v], first, u), second, u)
  {
    BothQueued(s, u, first, second);
    var s1 := After(s, TimerGoesOff(u, first.kind, first.size));
    var s2 := After(s1, TimerGoesOff(u, second.kind, second.size));
    var s3, s4, s5 := BothArrive(s2, u, v, first, second);
    ss := [s, s1, s2, s3, s4, s5];
  }

  /** From any start, whichever timer goes off first: the packet reaches a neighbour intact, and the neighbour processes the
      TC, but the HELLO only if it is ahead. */
  lemma {:induction false} HelloBehindTc(s: Net, u: Addr, v: Addr, hello: Message, tc: Message) returns (ahead: seq<Net>, behind: seq<Net>)
    requires Init(s) && u in s.nodes && v in s.nodes && u != v && hello.size + tc.size <= OLSR_TX_MSGBUF_SIZE
    requires hello == FirstMessage(s.nodes[u], MSG_TYPE_HELLO, hello.size) && tc == FirstMessage(s.nodes[u], MSG_TYPE_TC, tc.size)
    ensures Run(ahead, TwoTimers(s, u, v, hello, tc)) && ahead[0] == s && v in ahead[5].nodes
    ensures Processed(KeyOf(hello), 1) in ahead[5].nodes[v].log && Processed(KeyOf(tc), 64) in ahead[5].nodes[v].log
    ensures Run(behind, TwoTimers(s, u, v, tc, hello)) && behind[0] == s && v in behind[5].nodes
    ensures Processed(KeyOf(hello), 1) !in behind[5].nodes[v].log && Processed(KeyOf(tc), 64) in behind[5].nodes[v].log
  {
    ahead := TwoTimersRun(s, u, v, hello, tc);
    behind := TwoTimersRun(s, u, v, tc, hello);
    TwoHandled(s.nodes[v], hello, tc, u);
  }
}
