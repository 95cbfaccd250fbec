module OlsrRelays {
  import opened AddrTree
  import opened OlsrGraph
  import opened OlsrSetting
  import opened OlsrForwarding
  import opened OlsrNetwork
  import opened OlsrFlood
  import opened OlsrCompleteness

  // ----- a node retransmits for its selectors only

  /** Between two states node `v` has decided to retransmit under `k`, or has queued another node's message under it. */
  ghost predicate Retransmits(s: Net, s': Net, v: Addr, k: Key)
    requires v in s.nodes && v in s'.nodes
  {
    || (Marked(s', k, v) && !Marked(s, k, v))
    || (exists m :: m in s'.nodes[v].tx && m !in s.nodes[v].tx && m.originator != v && KeyOf(m) == k)
    || (exists pushed :: Relayed(k, pushed) in s'.nodes[v].log && Relayed(k, pushed) !in s.nodes[v].log)
  }

  /** Whatever the step, it is the arrival of a copy that the node has not retransmitted yet, from one of its selectors. */
  lemma {:induction false} OnlyForSelectors(s: Net, a: Action, v: Addr, k: Key)
    requires Safe(s) && Enabled(s, a) && v in s.nodes
    ensures v in After(s, a).nodes
    ensures Retransmits(s, After(s, a), v, k) ==>
              a.Deliver? && a.copy.dst == v && KeyOf(a.copy.msg) == k && Relays(s.nodes[v], a.copy.msg, a.copy.src)
  {
    assert NodeSafe(s, v);
    if a.Deliver? && a.copy.dst == v {
      RelaysExactly(s.nodes[v], a.copy.msg, a.copy.src);
    }
  }

  /** In step `j` node `u` gets a copy of the TC from a node that is among its selectors at that time. */
  ghost predicate FromSelector(ss: seq<Net>, acts: seq<Action>, k: Key, u: Addr, j: int) {
    && 0 <= j < |acts| && j < |ss| && acts[j].Deliver? && acts[j].copy.dst == u && IsTc(acts[j].copy.msg, k)
    && u in ss[j].nodes && acts[j].copy.src in ss[j].nodes[u].selectors && (acts[j].copy.src, k) in ss[j].spoke
  }

  /** Every copy in the air was sent by the node that it is from. */
  ghost predicate Spoken(s: Net, c: Copy) { c.msg.kind == MSG_TYPE_TC ==> (c.src, KeyOf(c.msg)) in s.spoke }

  lemma {:induction false} AirSpoken(ss: seq<Net>, acts: seq<Action>, c: Copy)
    requires Run(ss, acts) && c in ss[|acts|].air
    ensures Spoken(ss[|acts|], c)
  {
    if acts != [] {
      var n := |acts| - 1;
      if c in ss[n].air {
        AirSpoken(ss[..|acts|], acts[..n], c);
      }
    }
  }

  lemma {:induction false} QueueQuiet(s: Net, k: Key, u: Addr, m: Message)
    requires !Pending(s, k) && u in s.nodes && IsTc(m, k)
    ensures m !in s.nodes[u].tx
  {
    assert u !in Holding(s, k);
    HasKey(s.nodes[u].tx, k);
  }

  lemma {:induction false} HeardSince(ss: seq<Net>, acts: seq<Action>, n0: nat, k: Key, u: Addr, m: Message) returns (j: nat)
    requires Run(ss, acts) && n0 <= |acts| && !Pending(ss[n0], k) && u in ss[|acts|].nodes && m in ss[|acts|].nodes[u].tx
    requires IsTc(m, k) && u != k.orig
    ensures n0 <= j < |acts| && FromSelector(ss, acts, k, u, j)
    decreases |acts|
  {
    if n0 == |acts| {
      QueueQuiet(ss[n0], k, u, m);
      assert false;
    }
    var n := |acts| - 1;
    var s, a := ss[n], acts[n];
    FloodSafety(ss[..|acts|], acts[..n]);
    assert NodeSafe(s, u);
    if m in s.nodes[u].tx {
      j := HeardSince(ss[..|acts|], acts[..n], n0, k, u, m);
    } else {
      j := n;
      RelaysExactly(s.nodes[u], a.copy.msg, a.copy.src);
      AirSpoken(ss[..|acts|], acts[..n], a.copy);
    }
  }

  lemma {:induction false} NothingYet(s: Net, k: Key)
    requires Init(s)
    ensures !Pending(s, k)
  {
  }

  /** In every run, whatever is lost, expires or is retuned: a node other than the originator that sends a TC has got it before
      from a node that was then among its selectors and had sent it. */
  lemma {:induction false} SenderHeard(ss: seq<Net>, acts: seq<Action>, k: Key, u: Addr, i: nat) returns (j: nat)
    requires Run(ss, acts) && i < |acts| && acts[i].Transmit? && acts[i].node == u && u != k.orig
    requires u in ss[i].nodes && k in TcKeys(ss[i].nodes[u].tx)
    ensures j < i && FromSelector(ss, acts, k, u, j)
  {
    var m :| m in ss[i].nodes[u].tx && m.kind == MSG_TYPE_TC && KeyOf(m) == k;
    NothingYet(ss[0], k);
    j := HeardSince(ss[..i + 1], acts[..i], 0, k, u, m);
  }

  // ----- copies travel from relay to relay

  /** Each node on the way of a message is a relay that the node before has chosen. */
  ghost predicate OverRelays(s: Net, m: Message) {
    forall i {:trigger m.path[i]} | 0 < i < |m.path| :: m.path[i] in s.nodes && m.path[i - 1] in s.nodes[m.path[i]].selectors
  }

  ghost predicate NodeRelays(s: Net, k: Key, u: Addr) {
    u in s.nodes && forall m <- s.nodes[u].tx | IsTc(m, k) :: OverRelays(s, m)
  }

  ghost predicate CopyRelays(s: Net, k: Key, c: Copy) { IsTc(c.msg, k) ==> OverRelays(s, c.msg) }

  ghost predicate AllRelays(s: Net, k: Key) {
    && (forall u {:trigger NodeRelays(s, k, u)} | u in s.nodes :: NodeRelays(s, k, u))
    && (forall c {:trigger CopyRelays(s, k, c)} | c in s.air :: CopyRelays(s, k, c))
  }

  ghost predicate SameSelectors(s: Net, s': Net) {
    s'.nodes.Keys == s.nodes.Keys && forall u <- s.nodes :: s'.nodes[u].selectors == s.nodes[u].selectors
  }

  lemma {:induction false} StepSelectors(s: Net, a: Action)
    requires Enabled(s, a) && !a.Retune?
    ensures SameSelectors(s, After(s, a))
  {
    if a.Deliver? && a.copy.dst in s.nodes { RelaysExactly(s.nodes[a.copy.dst], a.copy.msg, a.copy.src); }
  }

  lemma {:induction false} RelayOver(s: Net, m: Message, src: Addr, own: Addr)
    requires Shaped(m, src) && OverRelays(s, m) && own in s.nodes && src in s.nodes[own].selectors
    ensures OverRelays(s, RelayOf(m, own))
  {
    var p := RelayOf(m, own).path;
    forall i {:trigger p[i]} | 0 < i < |p| ensures p[i] in s.nodes && p[i - 1] in s.nodes[p[i]].selectors {
      if i < |m.path| { assert p[i] == m.path[i] && p[i - 1] == m.path[i - 1]; }
    }
  }

  /** What is queued in a step: an own message, or a copy on its way from a selector. */
  lemma {:induction false} StepRelays(s: Net, a: Action, k: Key, u: Addr, m: Message)
    requires Safe(s) && AllRelays(s, k) && Enabled(s, a) && !a.Retune? && u in s.nodes
    requires m in After(s, a).nodes[u].tx && IsTc(m, k)
    ensures OverRelays(After(s, a), m)
  {
    var s' := After(s, a);
    StepSelectors(s, a);
    assert NodeSafe(s, u) && NodeRelays(s, k, u);
    if m !in s.nodes[u].tx && a.Deliver? {
      assert CopySafe(a.copy) && CopyRelays(s, k, a.copy);
      RelaysExactly(s.nodes[u], a.copy.msg, a.copy.src);
      RelayOver(s, a.copy.msg, a.copy.src, u);
    }
  }

  lemma {:induction false} AirRelays(s: Net, a: Action, k: Key, c: Copy)
    requires AllRelays(s, k) && Enabled(s, a) && !a.Retune? && c in After(s, a).air
    ensures CopyRelays(After(s, a), k, c)
  {
    StepSelectors(s, a);
    if c in s.air {
      assert CopyRelays(s, k, c);
    } else {
      assert NodeRelays(s, k, a.node);
      assert c in CopiesOf(s.packets, a.node, s.nodes[a.node].tx, a.receivers) && c.msg in s.nodes[a.node].tx;
    }
  }

  ghost predicate NoRetune(acts: seq<Action>, from: nat) { forall i | from <= i < |acts| :: !acts[i].Retune? }

  lemma {:induction false} StaysRelays(ss: seq<Net>, acts: seq<Action>, n0: nat, k: Key)
    requires Run(ss, acts) && n0 <= |acts| && !Pending(ss[n0], k) && NoRetune(acts, n0)
    ensures AllRelays(ss[|acts|], k) && SameSelectors(ss[n0], ss[|acts|])
    decreases |acts|
  {
    var n := |acts| - 1;
    if n0 == |acts| {
      NothingPending(ss[n0], k);
    } else {
      var s, a := ss[n], acts[n];
      StaysRelays(ss[..|acts|], acts[..n], n0, k);
      FloodSafety(ss[..|acts|], acts[..n]);
      StepSelectors(s, a);
      var s' := ss[|acts|];
      forall u | u in s'.nodes ensures NodeRelays(s', k, u) {
        forall m <- s'.nodes[u].tx | IsTc(m, k) ensures OverRelays(s', m) { StepRelays(s, a, k, u, m); }
      }
      forall c | c in s'.air ensures CopyRelays(s', k, c) { AirRelays(s, a, k, c); }
    }
  }

  lemma {:induction false} NothingPending(s: Net, k: Key)
    requires !Pending(s, k)
    ensures AllRelays(s, k)
  {
    forall u | u in s.nodes ensures NodeRelays(s, k, u) {
      assert u !in Holding(s, k);
      HasKey(s.nodes[u].tx, k);
    }
    forall c | c in s.air ensures CopyRelays(s, k, c) { assert c !in Flying(s, k); }
  }

  // ----- floods of a settled network

  /** Node `b` is a relay of node `a`. */
  ghost predicate Chose(g: Setting, a: Addr, b: Addr) { a in g.mprs && b in g.mprs[a] }

  /** MPR flooding is no plain flooding. Take any run and any state of it whose tables are settled and in which no copy of the
      TC is left. As long as the selectors stay, with loss and expiry, every copy has come from the originator over nodes each of
      which was chosen as relay by the node before it. */
  lemma {:induction false} FloodOverRelays(g: Setting, ss: seq<Net>, acts: seq<Action>, n0: nat, k: Key, c: Copy)
    requires Run(ss, acts) && n0 <= |acts| && Settled(g, ss[n0]) && !Pending(ss[n0], k) && NoRetune(acts, n0)
    requires c in ss[|acts|].air && IsTc(c.msg, k)
    ensures c.msg.path != [] && c.msg.path[0] == k.orig && c.msg.path[|c.msg.path| - 1] == c.src
    ensures forall i {:trigger c.msg.path[i]} | 0 < i < |c.msg.path| :: Chose(g, c.msg.path[i - 1], c.msg.path[i])
  {
    var s := ss[|acts|];
    StaysRelays(ss, acts, n0, k);
    FloodSafety(ss, acts);
    assert CopyRelays(s, k, c) && CopySafe(c);
    forall i {:trigger c.msg.path[i]} | 0 < i < |c.msg.path| ensures Chose(g, c.msg.path[i - 1], c.msg.path[i]) {
      assert Tuned(g, ss[n0], c.msg.path[i]);
    }
  }

  /** So a node that sends the TC without being its originator has got it from a node that chose it, and a node that nobody
      chose sends nothing of the flood. */
  lemma {:induction false} OnlyRelaysSend(g: Setting, ss: seq<Net>, acts: seq<Action>, n0: nat, k: Key, u: Addr, i: nat) returns (j: nat)
    requires Run(ss, acts) && n0 <= i < |acts| && Settled(g, ss[n0]) && !Pending(ss[n0], k) && NoRetune(acts, n0)
    requires acts[i].Transmit? && acts[i].node == u && u in ss[i].nodes && k in TcKeys(ss[i].nodes[u].tx) && u != k.orig
    ensures n0 <= j < i && FromSelector(ss, acts, k, u, j) && Chose(g, acts[j].copy.src, u)
    ensures Selectors(g, u) != {}
  {
    var m :| m in ss[i].nodes[u].tx && m.kind == MSG_TYPE_TC && KeyOf(m) == k;
    j := HeardSince(ss[..i + 1], acts[..i], n0, k, u, m);
    StaysRelays(ss[..j + 1], acts[..j], n0, k);
    assert Tuned(g, ss[n0], u);
    assert acts[j].copy.src in Selectors(g, u);
  }
}
