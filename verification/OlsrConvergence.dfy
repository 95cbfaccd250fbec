module OlsrConvergence {
  import opened AddrTree
  import opened OlsrContext
  import opened OlsrProto
  import opened OlsrHelloCodec
  import opened OlsrLink
  import opened OlsrHello
  import opened OlsrSetting
  import OlsrCover
  import OlsrMpr

  // ----- nodes exchanging HELLOs over fixed links

  /** Who is in reach of whom. */
  type Graph = map<Addr, set<Addr>>

  ghost predicate Symmetrical(adj: Graph) {
    forall u <- adj :: forall v <- adj[u] :: v in adj && v != u && u in adj[v]
  }

  type State = map<Addr, Knowledge>

  /** A HELLO that its sender built in state `built` is processed by a node in reach, or a selector's entry times out. */
  datatype Happening = Hello(sender: Addr, receiver: Addr, built: nat, gs: seq<HelloInfo>) | Forget(node: Addr, selector: Addr)

  ghost predicate Follows(adj: Graph, ss: seq<State>, es: seq<Happening>, i: nat) {
    i < |es| && i + 1 < |ss| &&
    match es[i]
    case Hello(w, u, b, gs) =>
      && u in adj && w in adj[u] && b <= i && w in ss[b] && Tells(ss[b][w].nb, ss[b][w].links, gs)
      && u in ss[i] && u in ss[i + 1] && ss[i + 1] == ss[i][u := ss[i + 1][u]]
      && Hears(u, w, gs, ss[i][u], ss[i + 1][u])
    case Forget(u, w) =>
      u in ss[i] && w in ss[i][u].selectors && ss[i + 1] == ss[i][u := ss[i][u].(selectors := ss[i][u].selectors - {w})]
  }

  /** Node `u` believes of its surroundings only what is so. */
  ghost predicate Truthful(adj: Graph, s: State, u: Addr) {
    && u in adj && u in s && Agreement(s[u].nb, s[u].links, s[u].mpr)
    && OlsrMpr.MprOk(u, s[u].nb, s[u].mpr) && OlsrMpr.Selected(u, s[u].nb, s[u].mpr)
    && s[u].links.Keys <= adj[u] && s[u].nb.Keys <= adj[u] && s[u].selectors <= adj[u]
    && forall a <- s[u].nb :: a in adj && s[u].nb[a].n2 <= adj[a] - {u}
  }

  ghost predicate AllTruthful(adj: Graph, s: State) {
    s.Keys == adj.Keys && forall u {:trigger Truthful(adj, s, u)} | u in adj :: Truthful(adj, s, u)
  }

  ghost predicate History(adj: Graph, ss: seq<State>, es: seq<Happening>) {
    && Symmetrical(adj) && |ss| == |es| + 1 && AllTruthful(adj, ss[0])
    && forall i: nat {:trigger Follows(adj, ss, es, i)} | i < |es| :: Follows(adj, ss, es, i)
  }

  /** Nodes that have heard nothing yet believe nothing wrong. */
  lemma {:induction false} StartTruthful(adj: Graph, s: State)
    requires s.Keys == adj.Keys && forall u <- s :: s[u] == Knowledge(map[], map[], {}, {})
    ensures AllTruthful(adj, s)
  {
    forall u | u in adj ensures Truthful(adj, s, u) {
      assert AgreementNow(map[], map[], {}, 0);
      NothingKnown(u);
      NothingSelected(u);
    }
  }

  lemma {:induction false} NothingSelected(u: Addr)
    ensures OlsrMpr.Selected(u, map[], {})
  {
    var none: seq<Addr> := [];
    OlsrMpr.PassStart(map[], {}, {});
    assert OlsrMpr.Uncovered(u, map[], {}) == {};
    forall x ensures OlsrCover.Bridges(map[], x) == {} {}
    assert OlsrMpr.ChosenBy(u, map[], {}, {}, none);
    assert OlsrMpr.Chosen(u, map[], {});
  }

  /** What a HELLO of a truthful sender says. */
  lemma {:induction false} HelloSays(adj: Graph, s: State, w: Addr, gs: seq<HelloInfo>, u: Addr)
    requires Truthful(adj, s, w) && Tells(s[w].nb, s[w].links, gs)
    ensures AllAddrs(gs) == s[w].links.Keys && !Lost(CodeToMe(gs, u)) && (Heard(CodeToMe(gs, u)) <==> u in s[w].links)
    ensures u in s[w].links ==>
              u in s[w].nb && CodeToMe(gs, u) != STATUS_UNAVAILABLE && ExtractStatus(CodeToMe(gs, u)) == s[w].nb[u].status
    ensures u !in s[w].links ==> CodeToMe(gs, u) == STATUS_UNAVAILABLE
  {
    NeverLost(s[w].nb, s[w].links, s[w].mpr, gs, u);
    AllTold(s[w].nb, s[w].links, s[w].mpr);
    CodeMeans(s[w].nb, s[w].links, gs, u);
  }

  lemma {:induction false} HearTruth(adj: Graph, s: State, s': State, at: State, w: Addr, u: Addr, gs: seq<HelloInfo>)
    requires Symmetrical(adj) && Truthful(adj, s, u) && Truthful(adj, at, w) && w in adj[u]
    requires Tells(at[w].nb, at[w].links, gs) && u in s' && Hears(u, w, gs, s[u], s'[u])
    ensures Truthful(adj, s', u)
  {
    HelloSays(adj, at, w, gs, u);
  }

  lemma {:induction false} OneChanges(adj: Graph, s: State, s': State, u: Addr)
    requires AllTruthful(adj, s) && u in s && u in s' && s' == s[u := s'[u]] && Truthful(adj, s', u)
    ensures AllTruthful(adj, s')
  {
    forall v | v in adj ensures Truthful(adj, s', v) {
      assert Truthful(adj, s, v);
      assert v != u ==> s'[v] == s[v];
    }
  }

  lemma {:induction false} StepTruthful(adj: Graph, ss: seq<State>, es: seq<Happening>, i: nat)
    requires Symmetrical(adj) && Follows(adj, ss, es, i) && AllTruthful(adj, ss[i])
    requires es[i].Hello? && es[i].built < |ss| ==> AllTruthful(adj, ss[es[i].built])
    ensures AllTruthful(adj, ss[i + 1])
  {
    var e := es[i];
    var u := if e.Hello? then e.receiver else e.node;
    assert Truthful(adj, ss[i], u);
    if e.Hello? {
      assert Truthful(adj, ss[e.built], e.sender);
      HearTruth(adj, ss[i], ss[i + 1], ss[e.built], e.sender, u, e.gs);
    }
    OneChanges(adj, ss[i], ss[i + 1], u);
  }

  lemma {:induction false} BuiltBefore(adj: Graph, ss: seq<State>, es: seq<Happening>, i: nat)
    requires History(adj, ss, es) && i < |es|
    ensures Follows(adj, ss, es, i) && (es[i].Hello? ==> es[i].built <= i)
  {
    assert Follows(adj, ss, es, i);
  }

  /** Over fixed links no order of HELLOs makes a node believe what is not so. */
  lemma {:induction false} StaysTruthful(adj: Graph, ss: seq<State>, es: seq<Happening>, i: nat)
    requires History(adj, ss, es) && i < |ss|
    ensures AllTruthful(adj, ss[i])
  {
    if i > 0 {
      StaysTruthful(adj, ss, es, i - 1);
      BuiltBefore(adj, ss, es, i - 1);
      if es[i - 1].Hello? { StaysTruthful(adj, ss, es, es[i - 1].built); }
      StepTruthful(adj, ss, es, i - 1);
    }
  }

  lemma {:induction false} TruthAt(adj: Graph, ss: seq<State>, es: seq<Happening>, i: nat, u: Addr)
    requires History(adj, ss, es) && i < |ss| && u in adj
    ensures Truthful(adj, ss[i], u)
  {
    StaysTruthful(adj, ss, es, i);
  }

  // ----- what is known stays known

  ghost predicate Linked(s: State, u: Addr, w: Addr) { u in s && w in s[u].links }

  /** Node `u` has `w` as symmetric neighbour and knows all of `w`'s neighbours. */
  ghost predicate Full(adj: Graph, s: State, u: Addr, w: Addr) {
    && u in s && IsSym(s[u].links, w) && w in s[u].nb && Symmetric(s[u].nb[w])
    && w in adj && s[u].nb[w].n2 == adj[w] - {u}
  }

  lemma {:induction false} LinkedStays(adj: Graph, ss: seq<State>, es: seq<Happening>, i: nat, j: nat, u: Addr, w: Addr)
    requires History(adj, ss, es) && i <= j < |ss| && Linked(ss[i], u, w)
    ensures Linked(ss[j], u, w)
    decreases j
  {
    if i < j {
      LinkedStays(adj, ss, es, i, j - 1, u, w);
      assert Follows(adj, ss, es, j - 1);
    }
  }

  lemma {:induction false} FullStays(adj: Graph, ss: seq<State>, es: seq<Happening>, i: nat, j: nat, u: Addr, w: Addr)
    requires History(adj, ss, es) && i <= j < |ss| && Full(adj, ss[i], u, w)
    ensures Full(adj, ss[j], u, w)
    decreases j
  {
    if i < j {
      FullStays(adj, ss, es, i, j - 1, u, w);
      assert Follows(adj, ss, es, j - 1);
      var e := es[j - 1];
      if e.Hello? && e.receiver == u {
        HelloStep(adj, ss, es, j - 1);
        HelloSays(adj, ss[e.built], e.sender, e.gs, u);
        StillFull(adj, ss[j - 1], ss[j], e.sender, u, e.gs, w);
      }
    }
  }

  lemma {:induction false} StillFull(adj: Graph, s: State, s': State, src: Addr, u: Addr, gs: seq<HelloInfo>, w: Addr)
    requires Full(adj, s, u, w) && Truthful(adj, s', u) && Hears(u, src, gs, s[u], s'[u]) && !Lost(CodeToMe(gs, u))
    ensures Full(adj, s', u, w)
  {
  }

  /** A HELLO of a node that has links with all its neighbours. */
  lemma {:induction false} HelloFull(adj: Graph, s: State, s': State, at: State, w: Addr, u: Addr, gs: seq<HelloInfo>)
    requires Symmetrical(adj) && Truthful(adj, s', u) && Truthful(adj, at, w) && w in adj[u] && u in s
    requires at[w].links.Keys == adj[w] && Tells(at[w].nb, at[w].links, gs) && Hears(u, w, gs, s[u], s'[u])
    ensures Full(adj, s', u, w)
  {
    HelloSays(adj, at, w, gs, u);
  }

  // ----- rounds

  ghost predicate HeardAt(es: seq<Happening>, i: int, w: Addr, u: Addr, since: nat) {
    0 <= i < |es| && es[i].Hello? && es[i].sender == w && es[i].receiver == u && es[i].built >= since
  }

  ghost predicate HeardWithin(es: seq<Happening>, from: nat, to: nat, w: Addr, u: Addr) {
    exists i {:trigger HeardAt(es, i, w, u, from)} :: from <= i < to && HeardAt(es, i, w, u, from)
  }

  /** In each round every node processes a HELLO that each of its neighbours built in the round, and by the end of the next
      round all HELLOs of the round have been processed or lost. */
  ghost predicate Round(adj: Graph, es: seq<Happening>, t: seq<nat>, n: nat) {
    && n + 1 < |t| && t[n] <= t[n + 1] <= |es|
    && (forall u, w {:trigger HeardWithin(es, t[n], t[n + 1], w, u)} | u in adj && w in adj[u] :: HeardWithin(es, t[n], t[n + 1], w, u))
    && forall i | t[n + 1] <= i < |es| && es[i].Hello? :: es[i].built >= t[n]
  }

  ghost predicate Rounds(adj: Graph, es: seq<Happening>, t: seq<nat>) {
    forall n: nat {:trigger Round(adj, es, t, n)} | n + 1 < |t| :: Round(adj, es, t, n)
  }

  lemma {:induction false} RoundOrder(adj: Graph, es: seq<Happening>, t: seq<nat>, m: nat, n: nat)
    requires Rounds(adj, es, t) && m <= n < |t| && |t| > 1
    ensures t[m] <= t[n] <= |es|
    decreases n
  {
    if m < n {
      RoundOrder(adj, es, t, m, n - 1);
      assert Round(adj, es, t, n - 1);
    } else {
      assert if n > 0 then Round(adj, es, t, n - 1) else Round(adj, es, t, 0);
    }
  }

  /** After the first round every node has a link with each neighbour. */
  lemma {:induction false} AllLinked(adj: Graph, ss: seq<State>, es: seq<Happening>, t: seq<nat>, i: nat, u: Addr)
    requires History(adj, ss, es) && Rounds(adj, es, t) && |t| > 1 && t[1] <= i < |ss| && u in adj
    ensures u in ss[i] && ss[i][u].links.Keys == adj[u]
  {
    assert Round(adj, es, t, 0);
    StaysTruthful(adj, ss, es, i);
    assert Truthful(adj, ss[i], u);
    forall w | w in adj[u] ensures Linked(ss[i], u, w) {
      assert HeardWithin(es, t[0], t[1], w, u);
      var x :| t[0] <= x < t[1] && HeardAt(es, x, w, u, t[0]);
      assert Follows(adj, ss, es, x);
      LinkedStays(adj, ss, es, x + 1, i, u, w);
    }
  }

  lemma {:induction false} HelloStep(adj: Graph, ss: seq<State>, es: seq<Happening>, i: nat)
    requires History(adj, ss, es) && i < |es| && es[i].Hello?
    ensures var Hello(w, u, b, gs) := es[i];
            && u in adj && w in adj[u] && w in adj && b <= i && Truthful(adj, ss[b], w) && Truthful(adj, ss[i], u) && Truthful(adj, ss[i + 1], u)
            && Tells(ss[b][w].nb, ss[b][w].links, gs) && Hears(u, w, gs, ss[i][u], ss[i + 1][u])
  {
    assert Follows(adj, ss, es, i);
    var Hello(w, u, b, gs) := es[i];
    TruthAt(adj, ss, es, b, w);
    TruthAt(adj, ss, es, i, u);
    TruthAt(adj, ss, es, i + 1, u);
  }

  /** After the second round every node knows its two-hop neighbourhood. */
  lemma {:induction false} AllFull(adj: Graph, ss: seq<State>, es: seq<Happening>, t: seq<nat>, i: nat, u: Addr, w: Addr)
    requires History(adj, ss, es) && Rounds(adj, es, t) && |t| > 2 && t[2] <= i < |ss| && u in adj && w in adj[u]
    ensures Full(adj, ss[i], u, w)
  {
    assert Round(adj, es, t, 1);
    assert HeardWithin(es, t[1], t[2], w, u);
    var x :| t[1] <= x < t[2] && HeardAt(es, x, w, u, t[1]);
    HelloStep(adj, ss, es, x);
    AllLinked(adj, ss, es, t, es[x].built, w);
    HelloFull(adj, ss[x], ss[x + 1], ss[es[x].built], w, u, es[x].gs);
    FullStays(adj, ss, es, x + 1, i, u, w);
  }

  // ----- converged tables and relays

  ghost function SettingOf(s: State): Setting {
    Setting(map u <- s :: s[u].nb, map u <- s :: s[u].mpr)
  }

  ghost predicate Known(adj: Graph, s: State, u: Addr) {
    Truthful(adj, s, u) && forall w {:trigger Full(adj, s, u, w)} | w in adj[u] :: Full(adj, s, u, w)
  }

  lemma {:induction false} KnownAt(adj: Graph, ss: seq<State>, es: seq<Happening>, t: seq<nat>, i: nat, u: Addr)
    requires History(adj, ss, es) && Rounds(adj, es, t) && |t| > 2 && t[2] <= i < |ss| && u in adj
    ensures Known(adj, ss[i], u)
  {
    TruthAt(adj, ss, es, i, u);
    forall w | w in adj[u] ensures Full(adj, ss[i], u, w) {
      AllFull(adj, ss, es, t, i, u, w);
    }
  }

  /** The neighbours of a node that knows its neighbourhood. */
  lemma {:induction false} KnownNear(adj: Graph, s: State, u: Addr)
    requires Symmetrical(adj) && Known(adj, s, u)
    ensures s[u].nb.Keys == adj[u] == N1(s[u].nb)
    ensures forall w <- adj[u] :: w in adj && s[u].nb[w].n2 == adj[w] - {u}
    ensures forall w <- adj[u] :: s[u].nb[w].status == MPR_NEIGH <==> w in s[u].mpr
    ensures s[u].mpr <= adj[u] && s[u].links.Keys == adj[u]
  {
    forall w | w in adj[u]
      ensures w in s[u].nb && Symmetric(s[u].nb[w]) && w in s[u].links && w in adj && s[u].nb[w].n2 == adj[w] - {u}
    {
      assert Full(adj, s, u, w);
    }
  }

  lemma {:induction false} SameKnowledge(adj: Graph, s: State, s': State, u: Addr)
    requires Symmetrical(adj) && Known(adj, s, u) && Known(adj, s', u)
    ensures s[u].mpr == s'[u].mpr
  {
    KnownNear(adj, s, u);
    KnownNear(adj, s', u);
    OlsrMpr.RelaysDetermined(u, s[u].nb, s'[u].nb, s[u].mpr, s'[u].mpr);
  }

  /** Tables that know their neighbourhood are converged. */
  lemma {:induction false} KnownLearned(adj: Graph, s: State)
    requires Symmetrical(adj) && s.Keys == adj.Keys
    requires forall u {:trigger Known(adj, s, u)} | u in adj :: Known(adj, s, u)
    ensures AllLearned(SettingOf(s)) && forall u <- adj :: Near(SettingOf(s), u) == adj[u]
  {
    var g := SettingOf(s);
    forall u | u in adj ensures Near(g, u) == adj[u] && forall w <- adj[u] :: s[u].nb[w].n2 == adj[w] - {u} {
      assert Known(adj, s, u);
      KnownNear(adj, s, u);
    }
    forall u | u in g.tables ensures Learned(g, u) {
      assert Known(adj, s, u);
      KnownNear(adj, s, u);
    }
  }

  /** Once tables are complete, a node is a relay of another only if it links the two to somebody the other does not reach
      itself. So where all nodes are in reach of each other there are no relays. */
  lemma {:induction false} RelaysNeeded(adj: Graph, s: State, u: Addr, m: Addr) returns (x: Addr)
    requires Symmetrical(adj) && Known(adj, s, u) && m in s[u].mpr
    ensures m in adj[u] && m in adj && x in adj[m] && x != u && x !in adj[u]
  {
    KnownNear(adj, s, u);
    x := OlsrMpr.RelayReaches(u, s[u].nb, s[u].mpr, m);
  }

  // ----- selectors

  /** A HELLO of `w` that names `u` as relay, so that the entry of `w` in the selectors of `u` is new or its timer restarts. */
  ghost predicate Renews(es: seq<Happening>, i: int, u: Addr, w: Addr) {
    && 0 <= i < |es| && es[i].Hello? && es[i].sender == w && es[i].receiver == u
    && CodeToMe(es[i].gs, u) != STATUS_UNAVAILABLE && ExtractStatus(CodeToMe(es[i].gs, u)) == MPR_NEIGH
  }

  ghost predicate RenewedWithin(es: seq<Happening>, from: nat, to: nat, u: Addr, w: Addr) {
    exists i {:trigger Renews(es, i, u, w)} :: from <= i < to && Renews(es, i, u, w)
  }

  /** An entry that times out in round `n` has not been renewed since round `n - 1` began. */
  ghost predicate HeldLong(es: seq<Happening>, t: seq<nat>, n: nat, j: int) {
    1 <= n && n + 1 < |t| && t[n] <= j < t[n + 1] <= |es| && es[j].Forget? ==>
      !RenewedWithin(es, t[n - 1], j, es[j].node, es[j].selector)
  }

  /** An entry in a state at the end of round `n - 1` has been renewed in the `hold` rounds before. */
  ghost predicate GoneInTime(ss: seq<State>, es: seq<Happening>, t: seq<nat>, hold: nat, n: nat, u: Addr) {
    hold <= n < |t| && t[n] < |ss| && u in ss[t[n]] ==>
      forall w | w in ss[t[n]][u].selectors :: RenewedWithin(es, t[n - hold], t[n], u, w)
  }

  /** The hold time of selectors is more than two rounds and ends after `hold` rounds. */
  ghost predicate Timed(ss: seq<State>, es: seq<Happening>, t: seq<nat>, hold: nat) {
    && (forall n: nat, j {:trigger HeldLong(es, t, n, j)} :: HeldLong(es, t, n, j))
    && forall n: nat, u {:trigger GoneInTime(ss, es, t, hold, n, u)} :: GoneInTime(ss, es, t, hold, n, u)
  }

  /** A HELLO built after the second round names exactly the relays that its sender has for good. */
  lemma {:induction false} NamesRelays(adj: Graph, ss: seq<State>, es: seq<Happening>, t: seq<nat>, i: nat, u: Addr, w: Addr, now: nat)
    requires History(adj, ss, es) && Rounds(adj, es, t) && |t| > 2 && HeardAt(es, i, w, u, t[2]) && t[2] <= now < |ss|
    ensures w in ss[now] && (Renews(es, i, u, w) <==> u in ss[now][w].mpr)
    ensures w in adj && u in adj && w in adj[u]
  {
    HelloStep(adj, ss, es, i);
    var b := es[i].built;
    KnownAt(adj, ss, es, t, b, w);
    KnownAt(adj, ss, es, t, now, w);
    SameKnowledge(adj, ss[b], ss[now], w);
    KnownNear(adj, ss[b], w);
    HelloSays(adj, ss[b], w, es[i].gs, u);
  }

  lemma {:induction false} EntryStays(adj: Graph, ss: seq<State>, es: seq<Happening>, t: seq<nat>, n: nat, x: nat, j: nat, u: Addr, w: Addr)
    requires History(adj, ss, es) && 1 <= n && n + 1 < |t| && t[n - 1] <= t[n] <= x < j <= t[n + 1] <= |es|
    requires Renews(es, x, u, w) && u in ss[x + 1] && w in ss[x + 1][u].selectors
    requires forall i {:trigger HeldLong(es, t, n, i)} :: HeldLong(es, t, n, i)
    ensures u in ss[j] && w in ss[j][u].selectors
    decreases j
  {
    if x + 1 < j {
      EntryStays(adj, ss, es, t, n, x, j - 1, u, w);
      assert Follows(adj, ss, es, j - 1);
      assert HeldLong(es, t, n, j - 1);
      assert es[j - 1] == Forget(u, w) ==> RenewedWithin(es, t[n - 1], j - 1, u, w);
    }
  }

  /** At the end of a round the nodes that chose `u` are among its selectors. */
  lemma {:induction false} Chosers(adj: Graph, ss: seq<State>, es: seq<Happening>, t: seq<nat>, hold: nat, n: nat, u: Addr, w: Addr)
    requires History(adj, ss, es) && Rounds(adj, es, t) && Timed(ss, es, t, hold) && 2 <= n && n + 1 < |t|
    requires t[n + 1] < |ss| && u in adj && w in adj && w in ss[t[n + 1]] && u in ss[t[n + 1]][w].mpr
    ensures u in ss[t[n + 1]] && w in ss[t[n + 1]][u].selectors
  {
    assert Round(adj, es, t, n) && Round(adj, es, t, n - 1);
    RoundOrder(adj, es, t, 2, n);
    KnownAt(adj, ss, es, t, t[n + 1], w);
    KnownNear(adj, ss[t[n + 1]], w);
    assert HeardWithin(es, t[n], t[n + 1], w, u);
    var x :| t[n] <= x < t[n + 1] && HeardAt(es, x, w, u, t[n]);
    NamesRelays(adj, ss, es, t, x, u, w, t[n + 1]);
    HelloStep(adj, ss, es, x);
    EntryStays(adj, ss, es, t, n, x, t[n + 1], u, w);
  }

  /** And after the hold time no others are. */
  lemma {:induction false} NoOthers(adj: Graph, ss: seq<State>, es: seq<Happening>, t: seq<nat>, hold: nat, n: nat, u: Addr, w: Addr)
    requires History(adj, ss, es) && Rounds(adj, es, t) && Timed(ss, es, t, hold) && hold + 3 <= n < |t|
    requires t[n] < |ss| && u in ss[t[n]] && w in ss[t[n]][u].selectors
    ensures w in ss[t[n]] && u in ss[t[n]][w].mpr
  {
    assert GoneInTime(ss, es, t, hold, n, u);
    var i :| t[n - hold] <= i < t[n] && Renews(es, i, u, w);
    RoundOrder(adj, es, t, 3, n - hold);
    RoundOrder(adj, es, t, 2, n);
    assert Round(adj, es, t, 2);
    NamesRelays(adj, ss, es, t, i, u, w, t[n]);
  }

  ghost predicate MirrorsRelays(s: State, u: Addr) {
    u in s && s[u].selectors == Selectors(SettingOf(s), u)
  }

  lemma {:induction false} SelectorsRight(adj: Graph, ss: seq<State>, es: seq<Happening>, t: seq<nat>, hold: nat, n: nat, u: Addr)
    requires History(adj, ss, es) && Rounds(adj, es, t) && Timed(ss, es, t, hold) && hold + 3 <= n < |t|
    requires t[n] < |ss| && ss[t[n]].Keys == adj.Keys && u in adj
    ensures MirrorsRelays(ss[t[n]], u)
  {
    var s := ss[t[n]];
    forall w ensures w in s[u].selectors <==> w in s && u in s[w].mpr {
      if w in s[u].selectors { NoOthers(adj, ss, es, t, hold, n, u, w); }
      if w in s && u in s[w].mpr { Chosers(adj, ss, es, t, hold, n - 1, u, w); }
    }
  }

  /** Over fixed links the nodes converge, from any state in which they believe nothing wrong, whatever the order of HELLOs:
      two rounds make the neighbour tables complete, the relays that are then chosen stay, and a hold time after one more
      round the selectors of every node are the nodes that chose it. */
  lemma {:induction false} HellosConverge(adj: Graph, ss: seq<State>, es: seq<Happening>, t: seq<nat>, hold: nat, n: nat)
    requires History(adj, ss, es) && Rounds(adj, es, t) && Timed(ss, es, t, hold) && hold + 3 <= n < |t|
    ensures t[n] < |ss| && ss[t[n]].Keys == adj.Keys
    ensures AllLearned(SettingOf(ss[t[n]])) && forall u <- adj :: Near(SettingOf(ss[t[n]]), u) == adj[u]
    ensures forall u {:trigger MirrorsRelays(ss[t[n]], u)} | u in adj :: MirrorsRelays(ss[t[n]], u)
  {
    RoundOrder(adj, es, t, 2, n);
    StaysTruthful(adj, ss, es, t[n]);
    forall u | u in adj ensures Known(adj, ss[t[n]], u) { KnownAt(adj, ss, es, t, t[n], u); }
    KnownLearned(adj, ss[t[n]]);
    forall u | u in adj ensures MirrorsRelays(ss[t[n]], u) {
      SelectorsRight(adj, ss, es, t, hold, n, u);
    }
  }
}
