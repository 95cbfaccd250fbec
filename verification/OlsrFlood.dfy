module OlsrFlood {
  import opened AddrTree
  import opened OlsrGraph
  import opened OlsrForwarding
  import opened OlsrNetwork

  // ----- one flood: all TC copies under one key, while no entry under that key expires

  /** Node `u` has decided to retransmit the message. */
  ghost predicate Marked(s: Net, k: Key, u: Addr) {
    u in s.nodes && k in s.nodes[u].dupTree && s.nodes[u].dupTree[k]
  }

  /** A copy has been over distinct nodes, and all of them but the originator are marked. */
  ghost predicate Trail(s: Net, k: Key, m: Message) {
    IsTc(m, k) ==> Distinct(m.path) && forall w <- m.path :: w in s.nodes && (w == k.orig || Marked(s, k, w))
  }

  ghost predicate NodeTrail(s: Net, k: Key, u: Addr) {
    u in s.nodes && Expired(k) !in s.nodes[u].log && forall m <- s.nodes[u].tx :: Trail(s, k, m)
  }

  ghost predicate CopyTrail(s: Net, k: Key, c: Copy) { Trail(s, k, c.msg) }

  ghost predicate Trails(s: Net, k: Key) {
    && (forall u {:trigger NodeTrail(s, k, u)} | u in s.nodes :: NodeTrail(s, k, u))
    && (forall c {:trigger CopyTrail(s, k, c)} | c in s.air :: CopyTrail(s, k, c))
  }

  /** Nodes stay, and so do marks. */
  ghost predicate MarksGrow(s: Net, s': Net, k: Key) {
    s'.nodes.Keys == s.nodes.Keys && forall w | Marked(s, k, w) :: Marked(s', k, w)
  }

  lemma {:induction false} TrailGrows(s: Net, s': Net, k: Key, m: Message)
    requires MarksGrow(s, s', k) && Trail(s, k, m)
    ensures Trail(s', k, m)
  {
  }

  lemma {:induction false} ChangeTrails(s: Net, s': Net, k: Key, u: Addr)
    requires Trails(s, k) && MarksGrow(s, s', k) && u in s.nodes && s'.nodes == s.nodes[u := s'.nodes[u]] && NodeTrail(s', k, u)
    requires forall c <- s'.air :: c in s.air || CopyTrail(s', k, c)
    ensures Trails(s', k)
  {
    forall w | w in s'.nodes ensures NodeTrail(s', k, w) {
      if w != u {
        assert NodeTrail(s, k, w);
        forall m <- s'.nodes[w].tx ensures Trail(s', k, m) { TrailGrows(s, s', k, m); }
      }
    }
    forall c | c in s'.air ensures CopyTrail(s', k, c) {
      if c in s.air {
        assert CopyTrail(s, k, c);
        TrailGrows(s, s', k, c.msg);
      }
    }
  }

  lemma {:induction false} QueueTrails(s: Net, k: Key, u: Addr, kind: nat, size: nat)
    requires Safe(s) && Trails(s, k) && u in s.nodes
    ensures Trails(s.(nodes := s.nodes[u := Originate(s.nodes[u], kind, size)]), k)
  {
    var s' := s.(nodes := s.nodes[u := Originate(s.nodes[u], kind, size)]);
    assert NodeSafe(s, u) && NodeTrail(s, k, u) && MarksGrow(s, s', k);
    forall m <- s'.nodes[u].tx ensures Trail(s', k, m) {
      if m in s.nodes[u].tx { TrailGrows(s, s', k, m); }
    }
    ChangeTrails(s, s', k, u);
  }

  lemma {:induction false} TransmitTrails(s: Net, k: Key, u: Addr, r: set<Addr>)
    requires Trails(s, k) && Enabled(s, Transmit(u, r))
    ensures Trails(After(s, Transmit(u, r)), k)
  {
    var s' := After(s, Transmit(u, r));
    assert NodeTrail(s, k, u) && MarksGrow(s, s', k);
    forall c <- s'.air ensures c in s.air || CopyTrail(s', k, c) {
      if c !in s.air {
        assert c in CopiesOf(s.packets, u, s.nodes[u].tx, r) && c.msg in s.nodes[u].tx;
        TrailGrows(s, s', k, c.msg);
      }
    }
    ChangeTrails(s, s', k, u);
  }

  lemma {:induction false} DeliverGrows(s: Net, k: Key, c: Copy)
    requires c in s.air
    ensures MarksGrow(s, After(s, Deliver(c)), k)
  {
    if c.dst in s.nodes {
      HandleQueues(s.nodes[c.dst], c.msg, c.src);
    }
  }

  lemma {:induction false} HandleLogs(n: Node, m: Message, src: Addr, k: Key)
    requires Expired(k) !in n.log
    ensures Expired(k) !in Handle(n, m, src).log
  {
  }

  lemma {:induction false} DeliverTrails(s: Net, k: Key, c: Copy)
    requires Safe(s) && Trails(s, k) && c in s.air
    ensures Trails(After(s, Deliver(c)), k)
  {
    var s' := After(s, Deliver(c));
    DeliverGrows(s, k, c);
    if c.dst in s.nodes {
      var n := s.nodes[c.dst];
      assert NodeSafe(s, c.dst) && NodeTrail(s, k, c.dst) && CopyTrail(s, k, c) && CopySafe(c);
      HandleQueues(n, c.msg, c.src);
      HandleLogs(n, c.msg, c.src, k);
      forall m <- s'.nodes[c.dst].tx ensures Trail(s', k, m) {
        if m in n.tx {
          TrailGrows(s, s', k, m);
        } else if IsTc(m, k) {
          assert m == RelayOf(c.msg, c.dst);
          RelayTrail(s, s', k, c.msg, c.dst);
        }
      }
      ChangeTrails(s, s', k, c.dst);
    } else {
      FewerTrails(s, s', k);
    }
  }

  lemma {:induction false} RelayTrail(s: Net, s': Net, k: Key, m: Message, own: Addr)
    requires IsTc(m, k) && Trail(s, k, m) && MarksGrow(s, s', k)
    requires own != k.orig && !Marked(s, k, own) && Marked(s', k, own)
    ensures Trail(s', k, RelayOf(m, own))
  {
    assert own !in m.path;
    var p := m.path + [own];
    forall i, j | 0 <= i < j < |p| ensures p[i] != p[j] {
      assert p[i] in m.path;
    }
  }

  lemma {:induction false} FewerTrails(s: Net, s': Net, k: Key)
    requires Trails(s, k) && s'.nodes == s.nodes && s'.air <= s.air
    ensures Trails(s', k)
  {
    forall w | w in s'.nodes ensures NodeTrail(s', k, w) {
      assert NodeTrail(s, k, w);
      forall m <- s'.nodes[w].tx ensures Trail(s', k, m) { TrailGrows(s, s', k, m); }
    }
    forall c | c in s'.air ensures CopyTrail(s', k, c) {
      assert CopyTrail(s, k, c);
      TrailGrows(s, s', k, c.msg);
    }
  }

  /** No entry under `k` expires in this step. */
  predicate Keeps(a: Action, k: Key) { !(a.ExpireEntry? && a.key == k) }

  lemma {:induction false} StepGrows(s: Net, a: Action, k: Key)
    requires Enabled(s, a) && Keeps(a, k)
    ensures MarksGrow(s, After(s, a), k)
  {
    if a.Deliver? {
      DeliverGrows(s, k, a.copy);
    }
  }

  lemma {:induction false} StepTrails(s: Net, a: Action, k: Key)
    requires Safe(s) && Trails(s, k) && Enabled(s, a) && Keeps(a, k)
    ensures Trails(After(s, a), k)
  {
    match a
    case QueueTc(u, size) => QueueTrails(s, k, u, MSG_TYPE_TC, size);
    case QueueHello(u, size) => QueueTrails(s, k, u, MSG_TYPE_HELLO, size);
    case Transmit(u, r) => TransmitTrails(s, k, u, r);
    case Deliver(c) => DeliverTrails(s, k, c);
    case Lose(c) => FewerTrails(s, After(s, a), k);
    case ExpireEntry(u, k') => SameQueueTrails(s, a, k, u);
    case Retune(u, sel) => SameQueueTrails(s, a, k, u);
  }

  lemma {:induction false} SameQueueTrails(s: Net, a: Action, k: Key, u: Addr)
    requires Trails(s, k) && Enabled(s, a) && Keeps(a, k) && (a.ExpireEntry? || a.Retune?) && u == a.node
    ensures Trails(After(s, a), k)
  {
    var s' := After(s, a);
    StepGrows(s, a, k);
    assert NodeTrail(s, k, u);
    forall m <- s'.nodes[u].tx ensures Trail(s', k, m) { TrailGrows(s, s', k, m); }
    ChangeTrails(s, s', k, u);
  }

  ghost predicate AllKeep(acts: seq<Action>, k: Key) { forall a <- acts :: Keeps(a, k) }

  lemma {:induction false} PathTrails(ss: seq<Net>, acts: seq<Action>, k: Key)
    requires Path(ss, acts) && AllKeep(acts, k) && Safe(ss[0]) && Trails(ss[0], k)
    ensures Safe(ss[|acts|]) && Trails(ss[|acts|], k)
  {
    if acts != [] {
      var s, a := ss[|acts| - 1], acts[|acts| - 1];
      PathTrails(ss[..|acts|], acts[..|acts| - 1], k);
      StepSafe(s, a);
      StepTrails(s, a, k);
    }
  }

  // ----- a sequence number that is used again

  /** No TC under `k` waits or flies and no node has an entry for it: the number has not been used, or it was used before
      the sender's counter wrapped around and every trace of that flood is gone. */
  ghost predicate Quiet(s: Net, k: Key) {
    !Pending(s, k) && forall u <- s.nodes :: k !in s.nodes[u].dupTree
  }

  function Without(log: seq<Event>, k: Key): seq<Event> {
    if log == [] then []
    else if log[|log| - 1].key == k then Without(log[..|log| - 1], k)
    else Without(log[..|log| - 1], k) + [log[|log| - 1]]
  }

  lemma {:induction false} WithoutHas(log: seq<Event>, k: Key)
    ensures forall e <- Without(log, k) :: e.key != k
  {
    if log != [] { WithoutHas(log[..|log| - 1], k); }
  }

  lemma {:induction false} WithoutSince(log: seq<Event>, k: Key, k': Key)
    requires k' != k
    ensures EnteredSince(Without(log, k), k') <==> EnteredSince(log, k')
    ensures RelayedSince(Without(log, k), k') <==> RelayedSince(log, k')
  {
    if log != [] {
      var p, e := log[..|log| - 1], log[|log| - 1];
      assert log == p + [e];
      WithoutSince(p, k, k');
      Snoc(p, e, k');
      Snoc(Without(p, k), e, k');
    }
  }

  /** The converse of `OnceSnoc`. */
  lemma {:induction false} OnceButLast(log: seq<Event>, e: Event)
    requires AtMostOnce(log + [e])
    ensures AtMostOnce(log)
    ensures e.Relayed? ==> !RelayedSince(log, e.key)
    ensures e.Processed? ==> !EnteredSince(log, e.key)
  {
    var log' := log + [e];
    forall i, j | 0 <= i < j < |log|
      ensures log[i].Relayed? && IsRelaying(log[j], log[i].key) ==> ExpiredBetween(log, log[i].key, i, j)
      ensures log[i].Processed? && log[i].ttl > 1 && log[j].Processed? && log[j].key == log[i].key
              ==> ExpiredBetween(log, log[i].key, i, j)
    {
      assert log'[i] == log[i] && log'[j] == log[j];
      if ExpiredBetween(log', log[i].key, i, j) {
        var x :| i < x < j && log'[x] == Expired(log[i].key);
        assert log[x] == Expired(log[i].key);
      }
    }
    forall i: nat | Since(log, e.key, i) ensures !ExpiredBetween(log', e.key, i, |log|) && log'[i] == log[i] {
      forall x | i < x < |log| ensures log'[x] != Expired(e.key) { assert log'[x] == log[x]; }
    }
    assert log'[|log|] == e;
  }

  lemma {:induction false} WithoutOnce(log: seq<Event>, k: Key)
    requires AtMostOnce(log)
    ensures AtMostOnce(Without(log, k))
  {
    if log != [] {
      var p, e := log[..|log| - 1], log[|log| - 1];
      assert log == p + [e];
      OnceButLast(p, e);
      WithoutOnce(p, k);
      if e.key != k {
        WithoutSince(p, k, e.key);
        OnceSnoc(Without(p, k), e);
      }
    }
  }

  /** The histories without `k`. No step looks at a history. */
  function Forget(s: Net, k: Key): Net {
    s.(nodes := map u <- s.nodes :: s.nodes[u].(log := Without(s.nodes[u].log, k)),
       spoke := (set x | x in s.spoke && x.1 != k), heard := (set x | x in s.heard && x.2 != k))
  }

  lemma {:induction false} ForgetNode(n: Node, k: Key)
    requires NodeOk(n) && k !in n.dupTree
    ensures NodeOk(n.(log := Without(n.log, k)))
  {
    var n' := n.(log := Without(n.log, k));
    WithoutOnce(n.log, k);
    WithoutHas(n.log, k);
    forall k' ensures DupMatches(n', k') {
      assert DupMatches(n, k');
      if k' != k { WithoutSince(n.log, k, k'); }
    }
  }

  lemma {:induction false} ForgetKeeps(s: Net, k: Key)
    requires Safe(s) && Quiet(s, k)
    ensures Safe(Forget(s, k)) && Trails(Forget(s, k), k)
  {
    var t := Forget(s, k);
    forall u | u in t.nodes ensures NodeSafe(t, u) && NodeTrail(t, k, u) {
      assert NodeSafe(s, u) && u !in Holding(s, k);
      ForgetNode(s.nodes[u], k);
      WithoutHas(s.nodes[u].log, k);
      HasKey(s.nodes[u].tx, k);
    }
    forall c | c in t.air ensures CopySafe(c) && CopyTrail(t, k, c) {
      assert CopySafe(c) && c !in Flying(s, k);
    }
  }

  /** Node `n` with another beginning of its log. */
  function Relogged(n: Node, cut: nat, front: seq<Event>): Node
    requires cut <= |n.log|
  {
    n.(log := front + n.log[cut..])
  }

  lemma {:induction false} ReloggedSnoc(n: Node, cut: nat, front: seq<Event>, e: Event)
    requires cut <= |n.log|
    ensures Relogged(n.(log := n.log + [e]), cut, front) == n.(log := Relogged(n, cut, front).log + [e])
  {
    assert (n.log + [e])[cut..] == n.log[cut..] + [e];
    assert front + (n.log[cut..] + [e]) == (front + n.log[cut..]) + [e];
  }

  lemma {:induction false} HandleRelogged(n: Node, m: Message, src: Addr, cut: nat, front: seq<Event>)
    requires cut <= |n.log|
    ensures cut <= |Handle(n, m, src).log|
    ensures Handle(Relogged(n, cut, front), m, src) == Relogged(Handle(n, m, src), cut, front)
  {
    ReloggedSnoc(n, cut, front, Processed(KeyOf(m), m.ttl));
    var p := Process(n, m);
    ReloggedSnoc(p, cut, front, Relayed(KeyOf(m), Fits(p.tx, RelayOf(m, n.ownIp))));
  }

  /** States `s` and `t`, reached by the same steps from `s0` and from `s0` without its histories of `k`, are alike. */
  ghost predicate AlikeAt(s0: Net, s: Net, t: Net, k: Key, u: Addr) {
    && u in s0.nodes && u in s.nodes && u in t.nodes && |s0.nodes[u].log| <= |s.nodes[u].log|
    && t.nodes[u] == Relogged(s.nodes[u], |s0.nodes[u].log|, Without(s0.nodes[u].log, k))
  }

  ghost predicate Alike(s0: Net, s: Net, t: Net, k: Key) {
    && s.nodes.Keys == t.nodes.Keys == s0.nodes.Keys && t.air == s.air && t.packets == s.packets
    && forall u {:trigger AlikeAt(s0, s, t, k, u)} | u in s0.nodes :: AlikeAt(s0, s, t, k, u)
  }

  /** A step that changes one node keeps both sides alike. */
  lemma {:induction false} AlikeNode(s0: Net, s: Net, t: Net, s': Net, t': Net, k: Key, u: Addr)
    requires Alike(s0, s, t, k) && u in s0.nodes
    requires s'.nodes.Keys == t'.nodes.Keys == s0.nodes.Keys
    requires s'.nodes == s.nodes[u := s'.nodes[u]] && t'.nodes == t.nodes[u := t'.nodes[u]]
    requires t'.air == s'.air && t'.packets == s'.packets && AlikeAt(s0, s', t', k, u)
    ensures Alike(s0, s', t', k)
  {
    forall w | w in s0.nodes ensures AlikeAt(s0, s', t', k, w) {
      assert AlikeAt(s0, s, t, k, w);
    }
  }

  lemma {:induction false} AlikeStep(s0: Net, s: Net, t: Net, a: Action, k: Key)
    requires Alike(s0, s, t, k) && Enabled(s, a)
    ensures Enabled(t, a) && Alike(s0, After(s, a), After(t, a), k)
  {
    var u := if a.Deliver? || a.Lose? then a.copy.dst else a.node;
    if u in s0.nodes {
      assert AlikeAt(s0, s, t, k, u);
      var n, cut, front := s.nodes[u], |s0.nodes[u].log|, Without(s0.nodes[u].log, k);
      match a {
        case QueueTc(_, size) => OriginateRelogged(n, MSG_TYPE_TC, size, cut, front);
        case QueueHello(_, size) => OriginateRelogged(n, MSG_TYPE_HELLO, size, cut, front);
        case Deliver(c) => HandleRelogged(n, c.msg, c.src, cut, front);
        case ExpireEntry(_, key) => ReloggedSnoc(n, cut, front, Expired(key));
        case _ =>
      }
      AlikeNode(s0, s, t, After(s, a), After(t, a), k, u);
    } else {
      forall w | w in s0.nodes ensures AlikeAt(s0, After(s, a), After(t, a), k, w) {
        assert AlikeAt(s0, s, t, k, w);
      }
    }
  }

  lemma {:induction false} OriginateRelogged(n: Node, kind: nat, size: nat, cut: nat, front: seq<Event>)
    requires cut <= |n.log|
    ensures cut <= |Originate(n, kind, size).log|
    ensures Originate(Relogged(n, cut, front), kind, size) == Relogged(Originate(n, kind, size), cut, front)
  {
    var n' := Originate(n, kind, size);
    ReloggedSnoc(n, cut, front, n'.log[|n.log|]);
  }

  /** The same steps from the same state without its histories of `k`. */
  lemma {:induction false} Replay(ss: seq<Net>, acts: seq<Action>, k: Key) returns (ts: seq<Net>)
    requires Path(ss, acts)
    ensures Path(ts, acts) && ts[0] == Forget(ss[0], k) && Alike(ss[0], ss[|acts|], ts[|acts|], k)
  {
    if acts == [] {
      ts := [Forget(ss[0], k)];
      forall u | u in ss[0].nodes ensures AlikeAt(ss[0], ss[0], ts[0], k, u) {}
    } else {
      var n := |acts| - 1;
      var ts0 := Replay(ss[..|acts|], acts[..n], k);
      AlikeStep(ss[0], ss[n], ts0[n], acts[n], k);
      ts := ts0 + [After(ts0[n], acts[n])];
    }
  }

  /** What node `u` has done since `s0`. */
  ghost function LogSince(s0: Net, s: Net, u: Addr): seq<Event> {
    if u in s0.nodes && u in s.nodes && |s0.nodes[u].log| <= |s.nodes[u].log| then s.nodes[u].log[|s0.nodes[u].log|..] else []
  }

  /** The events of one flood at one node: it enters the duplicate set once and is retransmitted at most once. */
  ghost predicate OnceEach(log: seq<Event>, k: Key) {
    && (forall i, j | 0 <= i < j < |log| :: !(IsRelaying(log[i], k) && IsRelaying(log[j], k)))
    && (forall i, j | 0 <= i < j < |log| :: !(IsEntering(log[i], k) && IsEntering(log[j], k)))
  }

  /** One flood, from any state of a run in which its number is free: as long as no entry under it expires, every node
      enters and retransmits it at most once, no copy visits a node twice, and a copy that has made `h` hops has been over
      `h + 1` distinct nodes that are marked, so in a network of `n` nodes it still has a ttl of at least `65 - n`. */
  lemma {:induction false} FloodOnce(ss: seq<Net>, acts: seq<Action>, n0: nat, k: Key)
    requires Run(ss, acts) && n0 <= |acts| && Quiet(ss[n0], k) && AllKeep(acts[n0..], k)
    ensures forall u | u in ss[|acts|].nodes :: OnceEach(LogSince(ss[n0], ss[|acts|], u), k)
    ensures forall c | c in ss[|acts|].air && IsTc(c.msg, k) ::
              Trail(ss[|acts|], k, c.msg) && c.msg.hopcnt + 1 == |c.msg.path| <= |ss[|acts|].nodes.Keys|
              && c.msg.ttl + |ss[|acts|].nodes.Keys| >= 65
  {
    var s, ts := FromQuiet(ss, acts, n0, k);
    var t := ts[|acts| - n0];
    PathTrails(ts, acts[n0..], k);
    forall u | u in s.nodes ensures OnceEach(LogSince(ss[n0], s, u), k) {
      assert NodeSafe(t, u) && NodeTrail(t, k, u) && AlikeAt(ss[n0], s, t, k, u);
      OnceFromNoExpiry(t.nodes[u].log, k);
      OnceInTail(Without(ss[n0].nodes[u].log, k), LogSince(ss[n0], s, u), k);
    }
    forall c | c in s.air && IsTc(c.msg, k)
      ensures Trail(s, k, c.msg) && c.msg.hopcnt + 1 == |c.msg.path| <= |s.nodes.Keys| && c.msg.ttl + |s.nodes.Keys| >= 65
    {
      TtlLeft(t, k, c);
      assert CopyTrail(t, k, c);
      forall w <- c.msg.path ensures w in s.nodes && (w == k.orig || Marked(s, k, w)) {
        assert AlikeAt(ss[n0], s, t, k, w);
      }
    }
  }

  lemma {:induction false} OnceInTail(front: seq<Event>, tail: seq<Event>, k: Key)
    requires OnceEach(front + tail, k)
    ensures OnceEach(tail, k)
  {
    var log := front + tail;
    forall i, j | 0 <= i < j < |tail|
      ensures !(IsRelaying(tail[i], k) && IsRelaying(tail[j], k)) && !(IsEntering(tail[i], k) && IsEntering(tail[j], k))
    {
      assert tail[i] == log[|front| + i] && tail[j] == log[|front| + j];
    }
  }

  /** The rest of a run from a state in which `k` is free, replayed without the histories of `k`. */
  lemma {:induction false} FromQuiet(ss: seq<Net>, acts: seq<Action>, n0: nat, k: Key) returns (s: Net, ts: seq<Net>)
    requires Run(ss, acts) && n0 <= |acts| && Quiet(ss[n0], k)
    ensures s == ss[|acts|] && Path(ts, acts[n0..]) && ts[0] == Forget(ss[n0], k) && Safe(ts[0]) && Trails(ts[0], k)
    ensures Alike(ss[n0], s, ts[|acts| - n0], k)
  {
    s := ss[|acts|];
    FloodSafety(ss[..n0 + 1], acts[..n0]);
    ForgetKeeps(ss[n0], k);
    var rest := ss[n0..];
    assert Path(rest, acts[n0..]);
    ts := Replay(rest, acts[n0..], k);
  }

  lemma {:induction false} OnceFromNoExpiry(log: seq<Event>, k: Key)
    requires AtMostOnce(log) && Expired(k) !in log
    ensures OnceEach(log, k)
  {
    forall i, j | 0 <= i < j < |log|
      ensures !(IsRelaying(log[i], k) && IsRelaying(log[j], k)) && !(IsEntering(log[i], k) && IsEntering(log[j], k))
    {
      assert !ExpiredBetween(log, k, i, j);
    }
  }

  lemma {:induction false} TtlLeft(s: Net, k: Key, c: Copy)
    requires Safe(s) && Trails(s, k) && c in s.air && IsTc(c.msg, k)
    ensures Distinct(c.msg.path) && c.msg.hopcnt + 1 == |c.msg.path| <= |s.nodes.Keys|
    ensures c.msg.ttl + |s.nodes.Keys| >= 65
  {
    assert CopySafe(c) && CopyTrail(s, k, c);
    SimpleLength(c.msg.path, s.nodes.Keys);
  }

  // ----- a flood ends

  ghost function Unmarked(s: Net, k: Key): set<Addr> { set u <- s.nodes | !Marked(s, k, u) }

  ghost function Holding(s: Net, k: Key): set<Addr> { set u <- s.nodes | k in TcKeys(s.nodes[u].tx) }

  ghost function Flying(s: Net, k: Key): set<Copy> { set c <- s.air | IsTc(c.msg, k) }

  /** The step moves a copy of the flood: out of a queue, or out of the air. */
  predicate Touches(s: Net, a: Action, k: Key) {
    || (a.Transmit? && a.node in s.nodes && k in TcKeys(s.nodes[a.node].tx))
    || ((a.Deliver? || a.Lose?) && IsTc(a.copy.msg, k))
  }

  /** The step does not start another flood under the same key. */
  predicate NoRestart(s: Net, a: Action, k: Key) {
    Keeps(a, k) && !(a.QueueTc? && a.node in s.nodes && Key(s.nodes[a.node].ownIp, s.nodes[a.node].msgSeq) == k)
  }

  /** What the flood has still to do, compared lexicographically: nodes that may yet retransmit, queues, flying copies. */
  ghost predicate Less(s': Net, s: Net, k: Key) {
    || Unmarked(s', k) < Unmarked(s, k)
    || (Unmarked(s', k) == Unmarked(s, k) && Holding(s', k) < Holding(s, k))
    || (Unmarked(s', k) == Unmarked(s, k) && Holding(s', k) == Holding(s, k) && Flying(s', k) < Flying(s, k))
  }

  ghost predicate Same(s': Net, s: Net, k: Key) {
    Unmarked(s', k) == Unmarked(s, k) && Holding(s', k) == Holding(s, k) && Flying(s', k) == Flying(s, k)
  }

  lemma {:induction false} HasKey(tx: seq<Message>, k: Key)
    ensures k in TcKeys(tx) <==> exists m :: m in tx && IsTc(m, k)
  {
  }

  /** A change at one node that leaves its mark and its queue as far as the flood goes, or sets the mark, is no step back. */
  lemma {:induction false} NodeChange(s: Net, s': Net, k: Key, u: Addr)
    requires u in s.nodes && u in s'.nodes && s'.nodes == s.nodes[u := s'.nodes[u]]
    requires Marked(s, k, u) ==> Marked(s', k, u)
    ensures Marked(s', k, u) && !Marked(s, k, u) ==> Unmarked(s', k) < Unmarked(s, k)
    ensures (Marked(s', k, u) <==> Marked(s, k, u)) ==> Unmarked(s', k) == Unmarked(s, k)
    ensures (k in TcKeys(s'.nodes[u].tx) <==> k in TcKeys(s.nodes[u].tx)) ==> Holding(s', k) == Holding(s, k)
    ensures k !in TcKeys(s'.nodes[u].tx) && k in TcKeys(s.nodes[u].tx) ==> Holding(s', k) < Holding(s, k)
  {
    forall w | w in s.nodes && w != u ensures Marked(s', k, w) == Marked(s, k, w) {}
    if Marked(s', k, u) && !Marked(s, k, u) {
      assert u in Unmarked(s, k) && u !in Unmarked(s', k);
    }
    if k !in TcKeys(s'.nodes[u].tx) && k in TcKeys(s.nodes[u].tx) {
      assert u in Holding(s, k) && u !in Holding(s', k);
    }
  }

  lemma {:induction false} DeliverLess(s: Net, c: Copy, k: Key)
    requires Safe(s) && c in s.air
    ensures if IsTc(c.msg, k) then Less(After(s, Deliver(c)), s, k) else Same(After(s, Deliver(c)), s, k)
  {
    var s' := After(s, Deliver(c));
    FlyingLess(s, s', c, k);
    if c.dst in s.nodes {
      var n := s.nodes[c.dst];
      assert NodeSafe(s, c.dst) && CopySafe(c);
      HandleQueues(n, c.msg, c.src);
      NodeChange(s, s', k, c.dst);
      HasKey(n.tx, k);
      HasKey(s'.nodes[c.dst].tx, k);
      if !IsTc(c.msg, k) {
        assert Marked(s', k, c.dst) == Marked(s, k, c.dst);
      }
    }
  }

  lemma {:induction false} FlyingLess(s: Net, s': Net, c: Copy, k: Key)
    requires c in s.air && s'.air == s.air - {c}
    ensures if IsTc(c.msg, k) then Flying(s', k) < Flying(s, k) else Flying(s', k) == Flying(s, k)
  {
    if IsTc(c.msg, k) {
      assert c in Flying(s, k) && c !in Flying(s', k);
    }
  }

  lemma {:induction false} TransmitLess(s: Net, u: Addr, r: set<Addr>, k: Key)
    requires Enabled(s, Transmit(u, r))
    ensures if k in TcKeys(s.nodes[u].tx) then Less(After(s, Transmit(u, r)), s, k) else Same(After(s, Transmit(u, r)), s, k)
  {
    var s' := After(s, Transmit(u, r));
    NodeChange(s, s', k, u);
    if k !in TcKeys(s.nodes[u].tx) {
      forall c | c in s'.air && IsTc(c.msg, k) ensures c in s.air {
        HasKey(s.nodes[u].tx, k);
      }
      assert Flying(s', k) == Flying(s, k);
    }
  }

  lemma {:induction false} QueueSame(s: Net, a: Action, u: Addr, k: Key)
    requires Enabled(s, a) && (a.QueueTc? || a.QueueHello?) && NoRestart(s, a, k) && u == a.node
    ensures Same(After(s, a), s, k)
  {
    var s' := After(s, a);
    HasKey(s.nodes[u].tx, k);
    HasKey(s'.nodes[u].tx, k);
    NodeChange(s, s', k, u);
  }

  /** A step that moves a copy of the flood gets nearer to its end, and every other step leaves it where it is. */
  lemma {:induction false} StepLess(s: Net, a: Action, k: Key)
    requires Safe(s) && Enabled(s, a) && NoRestart(s, a, k)
    ensures if Touches(s, a, k) then Less(After(s, a), s, k) else Same(After(s, a), s, k)
  {
    match a
    case QueueTc(u, _) => QueueSame(s, a, u, k);
    case QueueHello(u, _) => QueueSame(s, a, u, k);
    case Transmit(u, r) => TransmitLess(s, u, r, k);
    case Deliver(c) => DeliverLess(s, c, k);
    case Lose(c) => FlyingLess(s, After(s, a), c, k);
    case ExpireEntry(u, _) => NodeChange(s, After(s, a), k, u);
    case Retune(u, _) => NodeChange(s, After(s, a), k, u);
  }

  // ----- unending runs

  ghost predicate Unending(states: nat -> Net, acts: nat -> Action) {
    Init(states(0)) && forall i: nat {:trigger Next(states, acts, i)} :: Next(states, acts, i)
  }

  ghost predicate Next(states: nat -> Net, acts: nat -> Action, i: nat) {
    Enabled(states(i), acts(i)) && states(i + 1) == After(states(i), acts(i))
  }

  /** The first `n` steps. */
  lemma {:induction false} Prefix(states: nat -> Net, acts: nat -> Action, n: nat) returns (ss: seq<Net>, as': seq<Action>)
    requires Unending(states, acts)
    ensures |as'| == n && Run(ss, as') && ss[n] == states(n)
    ensures forall i | 0 <= i < n :: as'[i] == acts(i) && ss[i] == states(i)
  {
    ss, as' := seq(n + 1, i requires 0 <= i <= n => states(i)), seq(n, i requires 0 <= i < n => acts(i));
    forall i | 0 <= i < n ensures Enabled(ss[i], as'[i]) && ss[i + 1] == After(ss[i], as'[i]) {
      assert Next(states, acts, i);
    }
  }

  ghost predicate Moves(states: nat -> Net, acts: nat -> Action, k: Key, i: nat) { Touches(states(i), acts(i), k) }

  ghost predicate Single(states: nat -> Net, acts: nat -> Action, k: Key, i: nat) { NoRestart(states(i), acts(i), k) }

  ghost predicate QuietAfter(states: nat -> Net, acts: nat -> Action, k: Key, n: nat) {
    forall i: nat {:trigger Moves(states, acts, k, i)} | i >= n :: !Moves(states, acts, k, i)
  }

  /** From `i` on the flood stands still until it moves. */
  lemma {:induction false} StandsStill(states: nat -> Net, acts: nat -> Action, k: Key, i: nat, j: nat)
    requires Unending(states, acts) && i <= j
    requires forall x: nat {:trigger Single(states, acts, k, x)} | x >= i :: Single(states, acts, k, x)
    requires forall x: nat {:trigger Moves(states, acts, k, x)} | i <= x < j :: !Moves(states, acts, k, x)
    ensures Same(states(j), states(i), k)
    decreases j - i
  {
    if i < j {
      StandsStill(states, acts, k, i, j - 1);
      assert Next(states, acts, j - 1) && Single(states, acts, k, j - 1) && !Moves(states, acts, k, j - 1);
      ReachedSafe(states, acts, j - 1);
      StepLess(states(j - 1), acts(j - 1), k);
    }
  }

  lemma {:induction false} ReachedSafe(states: nat -> Net, acts: nat -> Action, n: nat)
    requires Unending(states, acts)
    ensures Safe(states(n))
  {
    var ss, as' := Prefix(states, acts, n);
    FloodSafety(ss, as');
  }

  /** A flood that is not restarted makes finitely many moves. */
  lemma {:induction false} FloodEnds(states: nat -> Net, acts: nat -> Action, k: Key, i: nat) returns (n: nat)
    requires Unending(states, acts)
    requires forall x: nat {:trigger Single(states, acts, k, x)} | x >= i :: Single(states, acts, k, x)
    ensures n >= i && QuietAfter(states, acts, k, n)
    decreases Unmarked(states(i), k), Holding(states(i), k), Flying(states(i), k)
  {
    if QuietAfter(states, acts, k, i) {
      n := i;
    } else {
      var j := FirstMove(states, acts, k, i);
      StandsStill(states, acts, k, i, j);
      assert Next(states, acts, j) && Single(states, acts, k, j);
      ReachedSafe(states, acts, j);
      StepLess(states(j), acts(j), k);
      n := FloodEnds(states, acts, k, j + 1);
    }
  }

  lemma {:induction false} FirstMove(states: nat -> Net, acts: nat -> Action, k: Key, i: nat) returns (j: nat)
    requires !QuietAfter(states, acts, k, i)
    ensures i <= j && Moves(states, acts, k, j)
    ensures forall x: nat {:trigger Moves(states, acts, k, x)} | i <= x < j :: !Moves(states, acts, k, x)
  {
    j :| j >= i && Moves(states, acts, k, j);
    j := Earliest(states, acts, k, i, j);
  }

  lemma {:induction false} Earliest(states: nat -> Net, acts: nat -> Action, k: Key, i: nat, j: nat) returns (e: nat)
    requires i <= j && Moves(states, acts, k, j)
    ensures i <= e <= j && Moves(states, acts, k, e)
    ensures forall x: nat {:trigger Moves(states, acts, k, x)} | i <= x < e :: !Moves(states, acts, k, x)
    decreases j
  {
    if x: nat :| i <= x < j && Moves(states, acts, k, x) {
      e := Earliest(states, acts, k, i, x);
    } else {
      e := j;
    }
  }

  /** From `start` on, whatever waits in a queue or flies is moved some day. */
  ghost predicate Fair(states: nat -> Net, acts: nat -> Action, k: Key, start: nat) {
    forall i: nat {:trigger Pending(states(i), k)} | i >= start && Pending(states(i), k) :: MovesLater(states, acts, k, i)
  }

  ghost predicate MovesLater(states: nat -> Net, acts: nat -> Action, k: Key, i: nat) {
    exists j: nat :: j >= i && Moves(states, acts, k, j)
  }

  ghost predicate Pending(s: Net, k: Key) { Holding(s, k) != {} || Flying(s, k) != {} }

  /** In a fair run every flood that is not restarted ends: from some step on no copy of it is left. */
  lemma {:induction false} FloodDrains(states: nat -> Net, acts: nat -> Action, k: Key, i: nat) returns (n: nat)
    requires Unending(states, acts) && Fair(states, acts, k, i)
    requires forall x: nat {:trigger Single(states, acts, k, x)} | x >= i :: Single(states, acts, k, x)
    ensures n >= i && forall j: nat | j >= n :: !Pending(states(j), k)
  {
    n := FloodEnds(states, acts, k, i);
    forall j: nat | j >= n ensures !Pending(states(j), k) {}
  }
}
