module OlsrCompleteness {
  import opened AddrTree
  import opened OlsrGraph
  import opened OlsrSetting
  import OlsrConvergence
  import opened OlsrForwarding
  import opened OlsrNetwork
  import opened OlsrFlood

  /** Node `u`'s tables are converged, and the nodes that chose it as relay are its selectors. */
  ghost predicate Tuned(g: Setting, s: Net, u: Addr) {
    && u in s.nodes && Learned(g, u)
    && (forall v <- Near(g, u) :: v in s.nodes)
    && s.nodes[u].selectors == Selectors(g, u)
  }

  ghost predicate Settled(g: Setting, s: Net) {
    && g.tables.Keys == g.mprs.Keys == s.nodes.Keys
    && forall u {:trigger Tuned(g, s, u)} | u in s.nodes :: Tuned(g, s, u)
  }

  /** A reliable radio between settled nodes, and no expiry of the flood's entries. */
  ghost predicate Steady(g: Setting, a: Action, k: Key) {
    && Keeps(a, k) && !a.Lose? && !a.Retune?
    && (a.Transmit? ==> a.receivers == Near(g, a.node))
  }

  /** Rounds of HELLOs settle a network: what `OlsrConvergence` proves of the tables, with the selectors that forwarding uses. */
  lemma {:induction false} HellosSettle(adj: OlsrConvergence.Graph, ss: seq<OlsrConvergence.State>, es: seq<OlsrConvergence.Happening>,
                      t: seq<nat>, hold: nat, n: nat, s: Net)
    requires OlsrConvergence.History(adj, ss, es) && OlsrConvergence.Rounds(adj, es, t) && OlsrConvergence.Timed(ss, es, t, hold)
    requires hold + 3 <= n < |t| && t[n] < |ss| && s.nodes.Keys == ss[t[n]].Keys
    requires forall u <- s.nodes :: s.nodes[u].selectors == ss[t[n]][u].selectors
    ensures Settled(OlsrConvergence.SettingOf(ss[t[n]]), s)
    ensures forall u <- adj :: Near(OlsrConvergence.SettingOf(ss[t[n]]), u) == adj[u]
  {
    OlsrConvergence.HellosConverge(adj, ss, es, t, hold, n);
    var g := OlsrConvergence.SettingOf(ss[t[n]]);
    forall u | u in s.nodes ensures Tuned(g, s, u) {
      assert OlsrConvergence.MirrorsRelays(ss[t[n]], u);
      forall v | v in Near(g, u) ensures v in s.nodes { NearNodes(g, u, v); }
    }
  }

  lemma {:induction false} SettledLearned(g: Setting, s: Net)
    requires Settled(g, s)
    ensures AllLearned(g)
  {
    forall u | u in g.tables ensures Learned(g, u) { assert Tuned(g, s, u); }
  }

  // ----- what a steady run keeps

  /** What `u` has sent has been received, or is on its way, at every neighbour. */
  ghost predicate Spread(g: Setting, s: Net, k: Key, u: Addr) {
    (u, k) in s.spoke ==>
      && u in s.nodes && (u == k.orig || Marked(s, k, u))
      && forall v <- Near(g, u) :: (u, v, k) in s.heard || exists c :: c in s.air && c.src == u && c.dst == v && IsTc(c.msg, k)
  }

  /** A node that has received a copy has an entry, and a mark if the sender is one of its selectors. */
  ghost predicate Answered(g: Setting, s: Net, k: Key, u: Addr, v: Addr) {
    (u, v, k) in s.heard ==>
      && v in s.nodes && (u, k) in s.spoke && v in Near(g, u)
      && (v != k.orig ==> k in s.nodes[v].dupTree && (u in s.nodes[v].selectors ==> Marked(s, k, v)))
  }

  ghost predicate Flies(g: Setting, s: Net, k: Key, c: Copy) {
    IsTc(c.msg, k) ==> (c.src, k) in s.spoke && c.dst in Near(g, c.src) && c.dst in s.nodes
  }

  predicate Pushed(e: Event, k: Key) {
    e.key == k && ((e.Relayed? && e.pushed) || (e.Originated? && e.pushed && e.kind == MSG_TYPE_TC))
  }

  /** What entered the queue is still in it or was sent, and an entry comes from a received copy. */
  ghost predicate Queued(s: Net, k: Key, u: Addr) {
    && u in s.nodes
    && ((exists e :: e in s.nodes[u].log && Pushed(e, k)) ==> (u, k) in s.spoke || k in TcKeys(s.nodes[u].tx))
    && (k in s.nodes[u].dupTree ==> exists x :: (x, u, k) in s.heard)
  }

  ghost predicate Progress(g: Setting, s: Net, k: Key) {
    && (forall u {:trigger Spread(g, s, k, u)} :: Spread(g, s, k, u))
    && (forall u, v {:trigger Answered(g, s, k, u, v)} :: Answered(g, s, k, u, v))
    && (forall c {:trigger Flies(g, s, k, c)} | c in s.air :: Flies(g, s, k, c))
    && (forall u {:trigger Queued(s, k, u)} | u in s.nodes :: Queued(s, k, u))
  }

  /** Every copy of a flood in a network of fewer than 64 nodes may still be forwarded. */
  ghost predicate Alive(s: Net, k: Key) { forall c <- s.air | IsTc(c.msg, k) :: c.msg.ttl > 1 }

  lemma {:induction false} SettledStep(g: Setting, s: Net, a: Action, k: Key)
    requires Settled(g, s) && Enabled(s, a) && Steady(g, a, k)
    ensures Settled(g, After(s, a))
  {
    var s' := After(s, a);
    if a.Deliver? && a.copy.dst in s.nodes {
      HandleQueues(s.nodes[a.copy.dst], a.copy.msg, a.copy.src);
    }
    forall u | u in s'.nodes ensures Tuned(g, s', u) {
      assert Tuned(g, s, u);
    }
  }

  lemma {:induction false} OriginateProgress(g: Setting, s: Net, k: Key, u: Addr, kind: nat, size: nat)
    requires Progress(g, s, k) && Safe(s) && u in s.nodes
    ensures Progress(g, s.(nodes := s.nodes[u := Originate(s.nodes[u], kind, size)]), k)
  {
    var s' := s.(nodes := s.nodes[u := Originate(s.nodes[u], kind, size)]);
    assert MarksGrow(s, s', k);
    forall w ensures Spread(g, s', k, w) { assert Spread(g, s, k, w); }
    forall w, v ensures Answered(g, s', k, w, v) { assert Answered(g, s, k, w, v); }
    forall c | c in s'.air ensures Flies(g, s', k, c) { assert Flies(g, s, k, c); }
    forall w | w in s'.nodes ensures Queued(s', k, w) {
      assert Queued(s, k, w);
      if w == u && exists e :: e in s'.nodes[u].log && Pushed(e, k) {
        HasKey(s.nodes[u].tx, k);
        HasKey(s'.nodes[u].tx, k);
        var e :| e in s'.nodes[u].log && Pushed(e, k);
        if e !in s.nodes[u].log {
          assert s'.nodes[u].tx[|s.nodes[u].tx|] in s'.nodes[u].tx;
        }
      }
    }
  }

  lemma {:induction false} TransmitProgress(g: Setting, s: Net, k: Key, u: Addr)
    requires Settled(g, s) && Safe(s) && Trails(s, k) && Progress(g, s, k) && Enabled(s, Transmit(u, Near(g, u)))
    ensures Progress(g, After(s, Transmit(u, Near(g, u))), k)
  {
    var s' := After(s, Transmit(u, Near(g, u)));
    var tx := s.nodes[u].tx;
    HasKey(tx, k);
    assert Tuned(g, s, u) && NodeSafe(s, u) && NodeTrail(s, k, u);
    forall w ensures Spread(g, s', k, w) {
      assert Spread(g, s, k, w);
      if w == u && k in TcKeys(tx) {
        var m :| m in tx && IsTc(m, k);
        assert Trail(s, k, m) && Shaped(m, u) && u in m.path;
        var i :| 0 <= i < |tx| && tx[i] == m;
        forall v <- Near(g, u) ensures exists c :: c in s'.air && c.src == u && c.dst == v && IsTc(c.msg, k) {
          var c := Copy(s.packets, i, u, v, m);
          assert c in CopiesOf(s.packets, u, tx, Near(g, u));
        }
      }
    }
    forall w, v ensures Answered(g, s', k, w, v) { assert Answered(g, s, k, w, v); }
    forall c | c in s'.air ensures Flies(g, s', k, c) {
      if c in s.air {
        assert Flies(g, s, k, c);
      } else {
        assert c in CopiesOf(s.packets, u, tx, Near(g, u)) && c.msg in tx;
      }
    }
    forall w | w in s'.nodes ensures Queued(s', k, w) { assert Queued(s, k, w); }
  }

  /** What handling a copy of the flood does at its receiver. */
  lemma {:induction false} HandleAnswers(n: Node, m: Message, src: Addr)
    requires m.originator != n.ownIp && m.ttl > 1
    ensures KeyOf(m) in Handle(n, m, src).dupTree
    ensures src in n.selectors ==> Handle(n, m, src).dupTree[KeyOf(m)]
  {
  }

  /** What handling any copy adds to the log and the queue. */
  lemma {:induction false} HandlePushes(n: Node, m: Message, src: Addr, k: Key)
    requires m.kind == MSG_TYPE_TC || m.ttl == 1
    ensures k in TcKeys(n.tx) ==> k in TcKeys(Handle(n, m, src).tx)
    ensures forall e | e in Handle(n, m, src).log && e !in n.log && Pushed(e, k) :: k in TcKeys(Handle(n, m, src).tx)
    ensures k in Handle(n, m, src).dupTree && k !in n.dupTree ==> IsTc(m, k)
  {
    var n' := Handle(n, m, src);
    HasKey(n.tx, k);
    HasKey(n'.tx, k);
    HandleQueues(n, m, src);
    forall e | e in n'.log && e !in n.log && Pushed(e, k) ensures k in TcKeys(n'.tx) {
      assert n'.tx[|n.tx|] in n'.tx;
    }
  }

  lemma {:induction false} DeliverProgress(g: Setting, s: Net, k: Key, c: Copy)
    requires Safe(s) && Progress(g, s, k) && Alive(s, k) && c in s.air && c.dst in s.nodes
    ensures Progress(g, After(s, Deliver(c)), k)
  {
    var s' := After(s, Deliver(c));
    var n, n' := s.nodes[c.dst], s'.nodes[c.dst];
    assert NodeSafe(s, c.dst) && CopySafe(c) && Flies(g, s, k, c);
    DeliverGrows(s, k, c);
    HandleQueues(n, c.msg, c.src);
    HandlePushes(n, c.msg, c.src, k);
    if IsTc(c.msg, k) && c.dst != k.orig {
      HandleAnswers(n, c.msg, c.src);
    }
    forall w ensures Spread(g, s', k, w) { assert Spread(g, s, k, w); SpreadOn(g, s, s', k, c, w); }
    forall w, v ensures Answered(g, s', k, w, v) { assert Answered(g, s, k, w, v); }
    forall d | d in s'.air ensures Flies(g, s', k, d) { assert Flies(g, s, k, d); }
    forall w | w in s'.nodes ensures Queued(s', k, w) {
      assert Queued(s, k, w);
      if k in s'.nodes[w].dupTree {
        if k in s.nodes[w].dupTree {
          var x :| (x, w, k) in s.heard;
          assert (x, w, k) in s'.heard;
        } else {
          assert (c.src, w, k) in s'.heard;
        }
      }
      if w == c.dst && exists e :: e in n'.log && Pushed(e, k) {
        var e :| e in n'.log && Pushed(e, k);
        assert e in n.log || k in TcKeys(n'.tx);
      }
    }
  }

  lemma {:induction false} SpreadOn(g: Setting, s: Net, s': Net, k: Key, c: Copy, w: Addr)
    requires Spread(g, s, k, w) && MarksGrow(s, s', k) && c in s.air && s'.air == s.air - {c} && s'.spoke == s.spoke
    requires s'.heard == if c.msg.kind == MSG_TYPE_TC then s.heard + {(c.src, c.dst, KeyOf(c.msg))} else s.heard
    ensures Spread(g, s', k, w)
  {
    if (w, k) in s.spoke {
      forall v <- Near(g, w)
        ensures (w, v, k) in s'.heard || exists d :: d in s'.air && d.src == w && d.dst == v && IsTc(d.msg, k)
      {
        if (w, v, k) !in s'.heard {
          var d :| d in s.air && d.src == w && d.dst == v && IsTc(d.msg, k);
          assert d != c;
        }
      }
    }
  }

  lemma {:induction false} ExpireProgress(g: Setting, s: Net, k: Key, u: Addr, k': Key)
    requires Progress(g, s, k) && u in s.nodes && k' != k
    ensures Progress(g, After(s, ExpireEntry(u, k')), k)
    requires Enabled(s, ExpireEntry(u, k'))
  {
    var s' := After(s, ExpireEntry(u, k'));
    assert MarksGrow(s, s', k);
    forall w ensures Spread(g, s', k, w) { assert Spread(g, s, k, w); }
    forall w, v ensures Answered(g, s', k, w, v) { assert Answered(g, s, k, w, v); }
    forall c | c in s'.air ensures Flies(g, s', k, c) { assert Flies(g, s, k, c); }
    forall w | w in s'.nodes ensures Queued(s', k, w) {
      assert Queued(s, k, w);
      forall e | e in s'.nodes[w].log && Pushed(e, k) ensures e in s.nodes[w].log {}
    }
  }

  lemma {:induction false} ProgressStep(g: Setting, s: Net, a: Action, k: Key)
    requires Settled(g, s) && Safe(s) && Trails(s, k) && Progress(g, s, k) && Alive(s, k)
    requires Enabled(s, a) && Steady(g, a, k)
    requires forall c <- s.air :: c.dst in s.nodes
    ensures Progress(g, After(s, a), k)
  {
    match a
    case QueueTc(u, size) => OriginateProgress(g, s, k, u, MSG_TYPE_TC, size);
    case QueueHello(u, size) => OriginateProgress(g, s, k, u, MSG_TYPE_HELLO, size);
    case Transmit(u, _) => TransmitProgress(g, s, k, u);
    case Deliver(c) => DeliverProgress(g, s, k, c);
    case ExpireEntry(u, k') => ExpireProgress(g, s, k, u, k');
  }

  lemma {:induction false} AirToNodes(s: Net, a: Action)
    requires Enabled(s, a) && forall c <- s.air :: c.dst in s.nodes
    ensures forall c <- After(s, a).air :: c.dst in After(s, a).nodes
  {
  }

  lemma {:induction false} StillAlive(s: Net, k: Key)
    requires Safe(s) && Trails(s, k) && |s.nodes.Keys| < 64
    ensures Alive(s, k)
  {
    forall c <- s.air | IsTc(c.msg, k) ensures c.msg.ttl > 1 { TtlLeft(s, k, c); }
  }

  lemma {:induction false} AirKnown(ss: seq<Net>, acts: seq<Action>)
    requires Run(ss, acts)
    ensures forall c <- ss[|acts|].air :: c.dst in ss[|acts|].nodes
  {
    if acts != [] {
      AirKnown(ss[..|acts|], acts[..|acts| - 1]);
      AirToNodes(ss[|acts| - 1], acts[|acts| - 1]);
    }
  }

  lemma {:induction false} PathProgress(g: Setting, ss: seq<Net>, acts: seq<Action>, k: Key)
    requires Path(ss, acts) && Settled(g, ss[0]) && Safe(ss[0]) && Trails(ss[0], k) && Progress(g, ss[0], k)
    requires |ss[0].nodes.Keys| < 64 && (forall c <- ss[0].air :: c.dst in ss[0].nodes)
    requires forall a <- acts :: Steady(g, a, k)
    ensures Settled(g, ss[|acts|]) && Safe(ss[|acts|]) && Trails(ss[|acts|], k) && Progress(g, ss[|acts|], k)
    ensures ss[|acts|].nodes.Keys == ss[0].nodes.Keys && forall c <- ss[|acts|].air :: c.dst in ss[|acts|].nodes
  {
    if acts != [] {
      var s, a := ss[|acts| - 1], acts[|acts| - 1];
      PathProgress(g, ss[..|acts|], acts[..|acts| - 1], k);
      StillAlive(s, k);
      SettledStep(g, s, a, k);
      AirToNodes(s, a);
      ProgressStep(g, s, a, k);
      StepGrows(s, a, k);
      StepSafe(s, a);
      StepTrails(s, a, k);
    }
  }

  /** Where the number is free and its histories are forgotten, nothing has to be caught up with. */
  lemma {:induction false} ForgetProgress(g: Setting, s: Net, k: Key)
    requires Settled(g, s) && Quiet(s, k)
    ensures Settled(g, Forget(s, k)) && Progress(g, Forget(s, k), k)
  {
    var t := Forget(s, k);
    forall u | u in t.nodes ensures Tuned(g, t, u) { assert Tuned(g, s, u); }
    forall u ensures Spread(g, t, k, u) {}
    forall u, v ensures Answered(g, t, k, u, v) {}
    forall c | c in t.air ensures Flies(g, t, k, c) { assert c !in Flying(s, k); }
    forall u | u in t.nodes ensures Queued(t, k, u) { WithoutHas(s.nodes[u].log, k); }
  }

  // ----- completeness

  /** The originator's TC and every relay found room in the transmit buffer. */
  ghost predicate NothingRejected(s: Net, k: Key) {
    forall u | u in s.nodes :: Relayed(k, false) !in s.nodes[u].log
  }

  /** The same of what happened since `s0`. */
  ghost predicate NothingRejectedSince(s0: Net, s: Net, k: Key) {
    forall u | u in s.nodes :: Relayed(k, false) !in LogSince(s0, s, u)
  }

  ghost predicate Reached(s: Net, k: Key, v: Addr) {
    v in s.nodes && (v == k.orig || k in s.nodes[v].dupTree)
  }

  /** Once nothing is pending, whoever has sent has been heard by all its neighbours. */
  lemma {:induction false} SpeakerHeard(g: Setting, s: Net, k: Key, u: Addr, v: Addr)
    requires Progress(g, s, k) && !Pending(s, k) && (u, k) in s.spoke && v in Near(g, u)
    ensures (u, v, k) in s.heard && Reached(s, k, v) && Reached(s, k, u)
    ensures u in s.nodes[v].selectors && v != k.orig ==> Marked(s, k, v)
  {
    assert Spread(g, s, k, u) && Answered(g, s, k, u, v);
    forall c | c in s.air ensures !IsTc(c.msg, k) {
      assert c !in Flying(s, k);
    }
  }

  /** Once nothing is pending, whoever is marked has sent. */
  lemma {:induction false} MarkedSpoke(g: Setting, s: Net, k: Key, u: Addr)
    requires Safe(s) && Progress(g, s, k) && !Pending(s, k) && NothingRejected(s, k) && Marked(s, k, u)
    ensures (u, k) in s.spoke
  {
    assert NodeSafe(s, u) && Queued(s, k, u) && DupMatches(s.nodes[u], k);
    var log := s.nodes[u].log;
    var i: nat :| Since(log, k, i) && IsRelaying(log[i], k);
    assert log[i] == Relayed(k, true) && log[i] in log && Pushed(log[i], k);
    assert u !in Holding(s, k);
  }

  lemma {:induction false} OriginSpoke(g: Setting, s: Net, k: Key)
    requires Progress(g, s, k) && !Pending(s, k) && k.orig in s.nodes
    requires Originated(k, MSG_TYPE_TC, true) in s.nodes[k.orig].log
    ensures (k.orig, k) in s.spoke
  {
    assert Queued(s, k, k.orig) && Pushed(Originated(k, MSG_TYPE_TC, true), k);
    assert k.orig !in Holding(s, k);
  }

  /** A flood that has drained has crossed every link out of the nodes it reached. */
  lemma {:induction false} NoGap(g: Setting, s: Net, k: Key, w: Addr, v: Addr)
    requires Settled(g, s) && Safe(s) && Progress(g, s, k) && !Pending(s, k) && NothingRejected(s, k)
    requires k.orig in s.nodes && (k.orig, k) in s.spoke
    requires Reached(s, k, w) && v in Near(g, w)
    ensures Reached(s, k, v)
  {
    assert Tuned(g, s, w);
    if w == k.orig {
      SpeakerHeard(g, s, k, w, v);
    } else if v != k.orig {
      assert Queued(s, k, w);
      var u :| (u, w, k) in s.heard;
      assert Answered(g, s, k, u, w) && Spread(g, s, k, u);
      if v == u {
      } else if v in Near(g, u) {
        SpeakerHeard(g, s, k, u, v);
      } else {
        SettledLearned(g, s);
        var m := Bridge(g, u, w, v);
        assert Tuned(g, s, u) && Tuned(g, s, m);
        SpeakerHeard(g, s, k, u, m);
        if m != k.orig {
          MarkedSpoke(g, s, k, m);
        }
        SpeakerHeard(g, s, k, m, v);
      }
    }
  }

  lemma {:induction false} AlongPath(g: Setting, s: Net, k: Key, w: seq<Addr>)
    requires Settled(g, s) && Safe(s) && Progress(g, s, k) && !Pending(s, k) && NothingRejected(s, k)
    requires k.orig in s.nodes && (k.orig, k) in s.spoke
    requires LinkPath(g, w) && w[0] == k.orig
    ensures Reached(s, k, Last(w))
    decreases |w|
  {
    if |w| > 1 {
      AlongPath(g, s, k, w[..|w| - 1]);
      NoGap(g, s, k, w[|w| - 2], w[|w| - 1]);
    }
  }

  ghost predicate EntersOnce(log: seq<Event>, k: Key) {
    exists i :: 0 <= i < |log| && IsEntering(log[i], k) && forall j | 0 <= j < |log| && IsEntering(log[j], k) :: j == i
  }

  lemma {:induction false} EntersInTail(front: seq<Event>, tail: seq<Event>, k: Key)
    requires EnteredSince(front + tail, k) && OnceEach(front + tail, k) && forall e <- front :: e.key != k
    ensures EntersOnce(tail, k)
  {
    var log := front + tail;
    var i: nat :| Since(log, k, i) && IsEntering(log[i], k);
    InTail(front, tail, k, i);
    OnceInTail(front, tail, k);
    var at := i - |front|;
    forall j | 0 <= j < |tail| && IsEntering(tail[j], k) ensures j == at {
      assert IsEntering(tail[at], k);
    }
  }

  lemma {:induction false} InTail(front: seq<Event>, tail: seq<Event>, k: Key, i: nat)
    requires i < |front + tail| && IsEntering((front + tail)[i], k) && forall e <- front :: e.key != k
    ensures |front| <= i && i - |front| < |tail| && IsEntering(tail[i - |front|], k)
  {
    forall x | 0 <= x < |front| ensures (front + tail)[x].key != k { assert (front + tail)[x] == front[x]; }
  }

  /** A drained flood, seen from a state that begins the flood with settled tables and no trace of its number. */
  lemma {:induction false} DrainedComplete(g: Setting, s: Net, k: Key, v: Addr)
    requires Settled(g, s) && Safe(s) && Trails(s, k) && Progress(g, s, k) && !Pending(s, k) && NothingRejected(s, k)
    requires k.orig in s.nodes && Originated(k, MSG_TYPE_TC, true) in s.nodes[k.orig].log
    requires Connected(g, k.orig, v) && v != k.orig
    ensures v in s.nodes && EnteredSince(s.nodes[v].log, k) && OnceEach(s.nodes[v].log, k)
  {
    OriginSpoke(g, s, k);
    var w :| LinkPath(g, w) && w[0] == k.orig && Last(w) == v;
    AlongPath(g, s, k, w);
    assert NodeSafe(s, v) && NodeTrail(s, k, v) && DupMatches(s.nodes[v], k);
    OnceFromNoExpiry(s.nodes[v].log, k);
  }

  lemma {:induction false} AlikePending(s0: Net, s: Net, t: Net, k: Key)
    requires Alike(s0, s, t, k)
    ensures Pending(t, k) == Pending(s, k)
    ensures NothingRejectedSince(s0, s, k) ==> NothingRejected(t, k)
  {
    forall u | u in s0.nodes
      ensures TcKeys(t.nodes[u].tx) == TcKeys(s.nodes[u].tx)
      ensures t.nodes[u].log == Without(s0.nodes[u].log, k) + LogSince(s0, s, u)
      ensures forall e <- Without(s0.nodes[u].log, k) :: e.key != k
    {
      assert AlikeAt(s0, s, t, k, u);
      WithoutHas(s0.nodes[u].log, k);
    }
    assert Holding(t, k) == Holding(s, k) && Flying(t, k) == Flying(s, k);
  }

  /** MPR flooding is complete. Take any run, and any state `n0` of it in which the tables of fewer than 64 nodes are settled
      and the number `k` is free. If delivery is reliable from there on, then as soon as no copy of a TC sent under `k` is
      left in a queue or in the air, every node connected to the originator has processed it exactly once since `n0`. */
  lemma {:induction false} FloodComplete(g: Setting, ss: seq<Net>, acts: seq<Action>, n0: nat, k: Key, v: Addr)
    requires Run(ss, acts) && n0 <= |acts| && Settled(g, ss[n0]) && Quiet(ss[n0], k) && |ss[n0].nodes.Keys| < 64
    requires forall i | n0 <= i < |acts| :: Steady(g, acts[i], k)
    requires Originated(k, MSG_TYPE_TC, true) in LogSince(ss[n0], ss[|acts|], k.orig)
    requires NothingRejectedSince(ss[n0], ss[|acts|], k) && !Pending(ss[|acts|], k)
    requires Connected(g, k.orig, v) && v != k.orig
    ensures v in ss[|acts|].nodes && EntersOnce(LogSince(ss[n0], ss[|acts|], v), k)
  {
    var s := ss[|acts|];
    var t := Replayed(g, ss, acts, n0, k);
    AlikePending(ss[n0], s, t, k);
    assert AlikeAt(ss[n0], s, t, k, k.orig);
    DrainedComplete(g, t, k, v);
    AlikeEnters(ss[n0], s, t, k, v);
  }

  /** The last state of a run, as it is reached without the histories of `k` before `n0`. */
  lemma {:induction false} Replayed(g: Setting, ss: seq<Net>, acts: seq<Action>, n0: nat, k: Key) returns (t: Net)
    requires Run(ss, acts) && n0 <= |acts| && Settled(g, ss[n0]) && Quiet(ss[n0], k) && |ss[n0].nodes.Keys| < 64
    requires forall i | n0 <= i < |acts| :: Steady(g, acts[i], k)
    ensures Alike(ss[n0], ss[|acts|], t, k) && Settled(g, t) && Safe(t) && Trails(t, k) && Progress(g, t, k)
  {
    var s, ts := FromQuiet(ss, acts, n0, k);
    t := ts[|acts| - n0];
    AirAt(ss, acts, n0);
    SteadyTail(g, acts, n0, k);
    ForgetProgress(g, ss[n0], k);
    PathProgress(g, ts, acts[n0..], k);
  }

  lemma {:induction false} AirAt(ss: seq<Net>, acts: seq<Action>, n0: nat)
    requires Run(ss, acts) && n0 <= |acts|
    ensures forall c <- ss[n0].air :: c.dst in ss[n0].nodes
  {
    AirKnown(ss[..n0 + 1], acts[..n0]);
  }

  lemma {:induction false} SteadyTail(g: Setting, acts: seq<Action>, n0: nat, k: Key)
    requires n0 <= |acts| && forall i | n0 <= i < |acts| :: Steady(g, acts[i], k)
    ensures forall a <- acts[n0..] :: Steady(g, a, k)
  {
    forall a <- acts[n0..] ensures Steady(g, a, k) {
      var i :| 0 <= i < |acts[n0..]| && acts[n0..][i] == a;
      assert acts[n0 + i] == a;
    }
  }

  lemma {:induction false} AlikeEnters(s0: Net, s: Net, t: Net, k: Key, v: Addr)
    requires Alike(s0, s, t, k) && v in t.nodes && EnteredSince(t.nodes[v].log, k) && OnceEach(t.nodes[v].log, k)
    ensures v in s.nodes && EntersOnce(LogSince(s0, s, v), k)
  {
    assert AlikeAt(s0, s, t, k, v);
    WithoutHas(s0.nodes[v].log, k);
    EntersInTail(Without(s0.nodes[v].log, k), LogSince(s0, s, v), k);
  }

  lemma {:induction false} LogGrows(states: nat -> Net, acts: nat -> Action, i: nat, j: nat, u: Addr)
    requires Unending(states, acts) && i <= j && u in states(i).nodes
    ensures u in states(j).nodes && states(i).nodes[u].log <= states(j).nodes[u].log
    decreases j - i
  {
    if i < j {
      LogGrows(states, acts, i, j - 1, u);
      assert OlsrFlood.Next(states, acts, j - 1);
      var s, a := states(j - 1), acts(j - 1);
      if a.Deliver? && a.copy.dst in s.nodes {
        HandleQueues(s.nodes[a.copy.dst], a.copy.msg, a.copy.src);
      }
    }
  }

  lemma {:induction false} SentStays(states: nat -> Net, acts: nat -> Action, start: nat, sent: nat, i: nat, u: Addr, e: Event)
    requires Unending(states, acts) && start <= sent <= i && e in LogSince(states(start), states(sent), u)
    ensures e in LogSince(states(start), states(i), u)
  {
    LogGrows(states, acts, start, sent, u);
    LogGrows(states, acts, sent, i, u);
  }

  ghost predicate SteadyAt(g: Setting, acts: nat -> Action, k: Key, i: nat) { Steady(g, acts(i), k) }

  ghost predicate UnrejectedAt(states: nat -> Net, k: Key, start: nat, i: nat) {
    NothingRejectedSince(states(start), states(i), k)
  }

  ghost predicate EnteredAt(states: nat -> Net, k: Key, start: nat, v: Addr, i: nat) {
    v in states(i).nodes && EntersOnce(LogSince(states(start), states(i), v), k)
  }

  lemma {:induction false} EntersBy(g: Setting, states: nat -> Net, acts: nat -> Action, k: Key, start: nat, sent: nat, v: Addr, i: nat)
    requires Unending(states, acts) && start <= sent <= i && !Pending(states(i), k)
    requires Settled(g, states(start)) && Quiet(states(start), k) && |states(start).nodes.Keys| < 64
    requires forall j: nat {:trigger SteadyAt(g, acts, k, j)} | start <= j < i :: SteadyAt(g, acts, k, j)
    requires Originated(k, MSG_TYPE_TC, true) in LogSince(states(start), states(sent), k.orig)
    requires UnrejectedAt(states, k, start, i) && Connected(g, k.orig, v) && v != k.orig
    ensures EnteredAt(states, k, start, v, i)
  {
    SentStays(states, acts, start, sent, i, k.orig, Originated(k, MSG_TYPE_TC, true));
    var ss, as' := Prefix(states, acts, i);
    assert ss[start] == states(start);
    forall j | start <= j < i ensures Steady(g, as'[j], k) { assert SteadyAt(g, acts, k, j); }
    FloodComplete(g, ss, as', start, k, v);
  }

  /** From step `sent` to step `i` there has always been a copy of the TC in a queue or in the air. */
  ghost predicate Underway(states: nat -> Net, k: Key, sent: nat, i: nat) {
    i >= sent && forall j: nat | sent <= j <= i :: Pending(states(j), k)
  }

  /** While the TC is under way the radio is reliable, nothing of the flood expires or finds a full buffer, and no further
      message is queued under its number. */
  ghost predicate Smooth(g: Setting, states: nat -> Net, acts: nat -> Action, k: Key, start: nat, i: nat) {
    SteadyAt(g, acts, k, i) && Single(states, acts, k, i) && UnrejectedAt(states, k, start, i + 1)
  }

  /** The first step at which a copy is neither queued nor in the air. */
  lemma {:induction false} FirstDrained(states: nat -> Net, k: Key, sent: nat, m: nat) returns (n: nat)
    requires sent <= m && !Pending(states(m), k)
    ensures sent <= n && !Pending(states(n), k) && forall j: nat | sent <= j < n :: Pending(states(j), k)
    decreases m
  {
    if j: nat :| sent <= j < m && !Pending(states(j), k) {
      n := FirstDrained(states, k, sent, j);
    } else {
      n := m;
    }
  }

  lemma {:induction false} DrainsSomeDay(g: Setting, states: nat -> Net, acts: nat -> Action, k: Key, start: nat, sent: nat) returns (m: nat)
    requires Unending(states, acts)
    requires forall i: nat {:trigger Underway(states, k, sent, i)} | Underway(states, k, sent, i) ::
               Smooth(g, states, acts, k, start, i) && MovesLater(states, acts, k, i)
    ensures sent <= m && !Pending(states(m), k)
  {
    if i: nat :| i >= sent && !Pending(states(i), k) {
      m := i;
    } else {
      forall i: nat | i >= sent ensures Single(states, acts, k, i) && MovesLater(states, acts, k, i) {
        assert Underway(states, k, sent, i);
      }
      m := FloodDrains(states, acts, k, sent);
    }
  }

  lemma {:induction false} SmoothUntil(g: Setting, states: nat -> Net, acts: nat -> Action, k: Key, start: nat, sent: nat, n: nat)
    requires start <= sent <= n && forall j: nat | sent <= j < n :: Pending(states(j), k)
    requires forall i: nat {:trigger SteadyAt(g, acts, k, i)} | start <= i < sent :: SteadyAt(g, acts, k, i)
    requires UnrejectedAt(states, k, start, sent)
    requires forall i: nat {:trigger Underway(states, k, sent, i)} | Underway(states, k, sent, i) ::
               Smooth(g, states, acts, k, start, i) && MovesLater(states, acts, k, i)
    ensures forall i: nat {:trigger SteadyAt(g, acts, k, i)} | start <= i < n :: SteadyAt(g, acts, k, i)
    ensures UnrejectedAt(states, k, start, n)
  {
    forall i: nat | start <= i < n ensures SteadyAt(g, acts, k, i) {
      if i >= sent { assert Underway(states, k, sent, i); }
    }
    if n > sent { assert Underway(states, k, sent, n - 1); }
  }

  /** The same of unending runs: if the tables are settled when the TC is queued, and as long as it is under way what is
      queued is sent and what is sent arrives some day, then it is not under way for ever, and at the step where the last
      copy is gone every node connected to the originator has processed it exactly once since `start`. What happens
      afterwards does not matter. */
  lemma {:induction false} FairFloodComplete(g: Setting, states: nat -> Net, acts: nat -> Action, k: Key, start: nat, sent: nat)
    returns (n: nat)
    requires Unending(states, acts) && start <= sent
    requires Settled(g, states(start)) && Quiet(states(start), k) && |states(start).nodes.Keys| < 64
    requires forall i: nat {:trigger SteadyAt(g, acts, k, i)} | start <= i < sent :: SteadyAt(g, acts, k, i)
    requires Originated(k, MSG_TYPE_TC, true) in LogSince(states(start), states(sent), k.orig)
    requires UnrejectedAt(states, k, start, sent)
    requires forall i: nat {:trigger Underway(states, k, sent, i)} | Underway(states, k, sent, i) ::
               Smooth(g, states, acts, k, start, i) && MovesLater(states, acts, k, i)
    ensures sent <= n && !Pending(states(n), k) && forall j: nat | sent <= j < n :: Pending(states(j), k)
    ensures forall v {:trigger EnteredAt(states, k, start, v, n)} | Connected(g, k.orig, v) && v != k.orig ::
              EnteredAt(states, k, start, v, n)
  {
    var m := DrainsSomeDay(g, states, acts, k, start, sent);
    n := FirstDrained(states, k, sent, m);
    SmoothUntil(g, states, acts, k, start, sent, n);
    forall v | Connected(g, k.orig, v) && v != k.orig ensures EnteredAt(states, k, start, v, n) {
      EntersBy(g, states, acts, k, start, sent, v, n);
    }
  }
}
