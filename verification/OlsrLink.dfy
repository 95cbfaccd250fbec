module OlsrLink {
  import opened AddrTree
  import opened OlsrContext
  import opened OlsrProto
  import opened OlsrNeighbor

  ghost predicate IsSym(links: Links, a: Addr) { a in links && links[a].status == SYM_LINK }

  // ----- the agreement between links and neighbours

  predicate Running(t: Option<Alarm>) { t.Some? && t.value.active }

  /** A stored link is symmetric or asymmetric, never lost or unspecified, and its timers run. */
  ghost predicate LinkOk(l: Link) {
    && (l.status == SYM_LINK || l.status == ASYM_LINK)
    && Running(l.expireTimer) && Running(l.asymTimer)
    && (l.status == SYM_LINK ==> Running(l.symTimer))
  }

  /** A neighbour is symmetric, as plain neighbour or as relay, exactly if its link is; and relays are in the relay tree. */
  ghost predicate Agrees(nb: Neighbors, links: Links, mpr: set<Addr>, a: Addr)
    requires a in nb
  {
    && (Symmetric(nb[a]) <==> IsSym(links, a))
    && (nb[a].status == NOT_NEIGH || nb[a].status == SYM_NEIGH || nb[a].status == MPR_NEIGH)
    && (nb[a].status == MPR_NEIGH ==> a in mpr)
  }

  ghost predicate AgreementNow(nb: Neighbors, links: Links, mpr: set<Addr>, k: int) {
    && (forall a <- links :: a in nb && LinkOk(links[a]))
    && (forall a <- nb :: Agrees(nb, links, mpr, a))
  }

  /** What holds between any two events. */
  ghost predicate Agreement(nb: Neighbors, links: Links, mpr: set<Addr>) {
    forall k {:trigger AgreementNow(nb, links, mpr, k)} :: AgreementNow(nb, links, mpr, k)
  }

  ghost predicate AgreementButNow(nb: Neighbors, links: Links, mpr: set<Addr>, a: Addr, k: int) {
    && (forall b <- links :: b in nb && LinkOk(links[b]))
    && (forall b <- nb :: b != a ==> Agrees(nb, links, mpr, b))
    && a in nb && (nb[a].status == MPR_NEIGH ==> a in mpr)
  }

  /** The same for all but neighbour `a`, whose status or link is being changed. */
  ghost predicate AgreementBut(nb: Neighbors, links: Links, mpr: set<Addr>, a: Addr) {
    forall k {:trigger AgreementButNow(nb, links, mpr, a, k)} :: AgreementButNow(nb, links, mpr, a, k)
  }

  /** Neighbour `a` exists, and its link is put into the tree or changed. */
  lemma {:induction false} LinkChanges(nb: Neighbors, links: Links, mpr: set<Addr>, a: Addr, l: Link)
    requires AgreementBut(nb, links, mpr, a) && LinkOk(l)
    ensures AgreementBut(nb, links[a := l], mpr, a) && a in nb
  {
    assert AgreementButNow(nb, links, mpr, a, 0);
  }

  lemma {:induction false} LinkGoes(nb: Neighbors, links: Links, mpr: set<Addr>, a: Addr)
    requires AgreementBut(nb, links, mpr, a)
    ensures AgreementBut(nb, links - {a}, mpr, a) && a in nb
  {
    assert AgreementButNow(nb, links, mpr, a, 0);
  }

  lemma {:induction false} StatusChanges(nb: Neighbors, links: Links, mpr: set<Addr>, a: Addr, n: Neighbor)
    requires AgreementBut(nb, links, mpr, a) && n.status != MPR_NEIGH
    ensures AgreementBut(nb[a := n], links, mpr, a)
  {
    assert AgreementButNow(nb, links, mpr, a, 0);
  }

  lemma {:induction false} Except(nb: Neighbors, links: Links, mpr: set<Addr>, a: Addr)
    requires Agreement(nb, links, mpr)
    ensures a in nb ==> AgreementBut(nb, links, mpr, a)
    ensures a !in nb ==> AgreementBut(nb[a := Neighbor(STATUS_UNAVAILABLE, {})], links, mpr, a)
    ensures a in links ==> a in nb && LinkOk(links[a])
  {
    assert AgreementNow(nb, links, mpr, 0);
  }

  function NewStatus(status: nat, sym: bool): nat {
    if sym then if status == MPR_NEIGH then MPR_NEIGH else SYM_NEIGH else NOT_NEIGH
  }

  /** The status follows the link, and a relay stays a relay as long as the link is symmetric. */
  lemma {:induction false} StatusFollows(status: nat, sym: bool)
    ensures NewStatus(status, sym) == MPR_NEIGH <==> sym && status == MPR_NEIGH
    ensures NewStatus(status, sym) == SYM_NEIGH <==> sym && status != MPR_NEIGH
    ensures NewStatus(status, sym) == NOT_NEIGH <==> !sym
  {
  }

  lemma {:induction false} StatusAgrees(nb: Neighbors, links: Links, mpr: set<Addr>, a: Addr)
    requires AgreementBut(nb, links, mpr, a)
    ensures a in nb && Agreement(nb[a := nb[a].(status := NewStatus(nb[a].status, IsSym(links, a)))], links, mpr)
  {
    assert AgreementButNow(nb, links, mpr, a, 0);
  }

  // ----- olsr_neighbor.c

  method UpdateNeighborStatus(ctx: OlsrContext, a: Addr)
    requires Routed(ctx) && a in ctx.neighborTree
    modifies ctx`neighborTree, ctx`topology, ctx`routingTable, ctx`nodeStatTree, ctx`nodeInfo, ctx`nodeStatsNum
    ensures Routed(ctx) && ctx.topology == old(ctx.topology)
    ensures ctx.neighborTree == old(ctx.neighborTree)[a := old(ctx.neighborTree)[a].(status :=
              NewStatus(old(ctx.neighborTree)[a].status, IsSym(ctx.linkTree, a)))]
  {
    var neighborIsSym := SymLinkTo(ctx, a);
    if neighborIsSym {
      if ctx.neighborTree[a].status != MPR_NEIGH {
        SetNeighborStatus(ctx, a, SYM_NEIGH);
      }
    } else {
      SetNeighborStatus(ctx, a, NOT_NEIGH);
    }
  }

  method SymLinkTo(ctx: OlsrContext, a: Addr) returns (neighborIsSym: bool)
    ensures neighborIsSym <==> IsSym(ctx.linkTree, a)
  {
    neighborIsSym := false;
    var lelem := First(ctx.linkTree.Keys);
    while lelem.Some?
      invariant lelem.Some? ==> lelem.value in ctx.linkTree
      invariant neighborIsSym <==> IsSym(ctx.linkTree, a) && Seen(lelem, a)
      decreases Left(ctx.linkTree.Keys, lelem)
    {
      var l := lelem.value;
      if l == a {
        if ctx.linkTree[l].status == SYM_LINK {
          neighborIsSym := true;
        }
      }
      Step(ctx.linkTree.Keys, l);
      lelem := Next(ctx.linkTree.Keys, l);
    }
  }

  method MakeNeighborElem(ctx: OlsrContext, a: Addr)
    requires Routed(ctx) && a in ctx.world && a !in ctx.neighborTree
    modifies ctx`neighborTree
    ensures Routed(ctx) && ctx.neighborTree == old(ctx.neighborTree)[a := Neighbor(STATUS_UNAVAILABLE, {})]
  {
    assert RoutedNow(ctx, 0);
    ctx.neighborTree := ctx.neighborTree[a := Neighbor(STATUS_UNAVAILABLE, {})];
    assert N1(ctx.neighborTree) == N1(old(ctx.neighborTree));
  }

  /** More two-hop neighbours reported by `a`. */
  function WithN2(nb: Neighbors, a: Addr, more: set<Addr>): Neighbors
    requires a in nb
  {
    nb[a := nb[a].(n2 := nb[a].n2 + more)]
  }

  lemma {:induction false} WithMoreN2(nb: Neighbors, a: Addr, some: set<Addr>, more: set<Addr>)
    requires a in nb
    ensures WithN2(nb, a, {}) == nb && WithN2(WithN2(nb, a, some), a, more) == WithN2(nb, a, some + more)
  {
    assert nb[a].n2 + {} == nb[a].n2;
    assert nb[a].n2 + some + more == nb[a].n2 + (some + more);
    assert WithN2(WithN2(nb, a, some), a, more)[a] == WithN2(nb, a, some + more)[a];
  }

  ghost predicate EachTimedNow(nb: Neighbors, timers: map<(Addr, Addr), nat>, k: int) {
    forall a, b :: (a, b) in timers <==> a in nb && b in nb[a].n2
  }

  /** Every report of a two-hop neighbour has its timer. */
  ghost predicate EachTimed(nb: Neighbors, timers: map<(Addr, Addr), nat>) {
    forall k {:trigger EachTimedNow(nb, timers, k)} :: EachTimedNow(nb, timers, k)
  }

  /** The timers after a HELLO of `a` has confirmed its reports of `more` until `until`. */
  function Confirmed(timers: map<(Addr, Addr), nat>, a: Addr, more: set<Addr>, until: nat): map<(Addr, Addr), nat> {
    timers + map b <- more :: (a, b) := until
  }

  lemma {:induction false} ConfirmMore(timers: map<(Addr, Addr), nat>, a: Addr, some: set<Addr>, more: set<Addr>, until: nat)
    ensures Confirmed(timers, a, {}, until) == timers
    ensures Confirmed(Confirmed(timers, a, some, until), a, more, until) == Confirmed(timers, a, some + more, until)
  {
  }

  lemma {:induction false} ConfirmOne(timers: map<(Addr, Addr), nat>, a: Addr, b: Addr, until: nat)
    ensures Confirmed(timers, a, {b}, until) == timers[(a, b) := until]
  {
  }

  /** Two-hop neighbours do not matter for routing. */
  method SetNeigh2(ctx: OlsrContext, a: Addr, n2: set<Addr>)
    requires Routed(ctx) && a in ctx.neighborTree
    modifies ctx`neighborTree
    ensures Routed(ctx) && ctx.neighborTree == old(ctx.neighborTree)[a := old(ctx.neighborTree)[a].(n2 := n2)]
  {
    assert RoutedNow(ctx, 0);
    ctx.neighborTree := ctx.neighborTree[a := ctx.neighborTree[a].(n2 := n2)];
    assert N1(ctx.neighborTree) == N1(old(ctx.neighborTree));
  }

  method UpdateNeigh2Tuple(ctx: OlsrContext, a: Addr, n2addr: Addr, until: nat)
    requires Routed(ctx) && a in ctx.neighborTree
    modifies ctx`neighborTree, ctx`neigh2Timers
    ensures Routed(ctx) && ctx.neighborTree == WithN2(old(ctx.neighborTree), a, {n2addr})
    ensures ctx.neigh2Timers == Confirmed(old(ctx.neigh2Timers), a, {n2addr}, until)
  {
    ConfirmOne(ctx.neigh2Timers, a, n2addr, until);
    ctx.neigh2Timers := ctx.neigh2Timers[(a, n2addr) := until];
    if n2addr !in ctx.neighborTree[a].n2 {
      SetNeigh2(ctx, a, ctx.neighborTree[a].n2 + {n2addr});
    } else {
      assert ctx.neighborTree[a].n2 + {n2addr} == ctx.neighborTree[a].n2;
    }
  }

  /** The expiry of one report of a two-hop neighbour. The relays stay as they are until the next HELLO. */
  method Neigh2ElemExpire(ctx: OlsrContext, a: Addr, n2addr: Addr)
    requires Routed(ctx) && Agreement(ctx.neighborTree, ctx.linkTree, ctx.mprTree)
    requires EachTimed(ctx.neighborTree, ctx.neigh2Timers) && (a, n2addr) in ctx.neigh2Timers
    modifies ctx`neighborTree, ctx`neigh2Timers
    ensures EachTimed(ctx.neighborTree, ctx.neigh2Timers) && ctx.neigh2Timers == old(ctx.neigh2Timers) - {(a, n2addr)}
    ensures Routed(ctx) && Agreement(ctx.neighborTree, ctx.linkTree, ctx.mprTree)
    ensures a in old(ctx.neighborTree)
    ensures ctx.neighborTree == old(ctx.neighborTree)[a := old(ctx.neighborTree)[a].(n2 := old(ctx.neighborTree)[a].n2 - {n2addr})]
  {
    ghost var was := ctx.neigh2Timers;
    ctx.neigh2Timers := ctx.neigh2Timers - {(a, n2addr)};
    assert AgreementNow(ctx.neighborTree, ctx.linkTree, ctx.mprTree, 0) && EachTimedNow(ctx.neighborTree, was, 0);
    SetNeigh2(ctx, a, ctx.neighborTree[a].n2 - {n2addr});
  }

  // ----- olsr_link.c

  method SetLinkStatus(ctx: OlsrContext, a: Addr, status: nat)
    requires a in ctx.linkTree
    modifies ctx`linkTree
    ensures ctx.linkTree == old(ctx.linkTree)[a := old(ctx.linkTree)[a].(status := status)]
  {
    if ctx.linkTree[a].status != status {
      ctx.linkTree := ctx.linkTree[a := ctx.linkTree[a].(status := status)];
    }
  }

  method LinkElemExpireTimerSet(ctx: OlsrContext, a: Addr, until: nat)
    requires a in ctx.linkTree
    modifies ctx`linkTree
    ensures ctx.linkTree == old(ctx.linkTree)[a := old(ctx.linkTree)[a].(expireTimer := Some(Alarm(true, until)))]
  {
    ctx.linkTree := ctx.linkTree[a := ctx.linkTree[a].(expireTimer := Some(Alarm(true, until)))];
  }

  method LinkElemAsymTimerSet(ctx: OlsrContext, a: Addr, until: nat)
    requires a in ctx.linkTree
    modifies ctx`linkTree
    ensures ctx.linkTree == old(ctx.linkTree)[a := old(ctx.linkTree)[a].(asymTimer := Some(Alarm(true, until)),
                              status := if IsSym(old(ctx.linkTree), a) then SYM_LINK else ASYM_LINK)]
  {
    if ctx.linkTree[a].status != SYM_LINK {
      SetLinkStatus(ctx, a, ASYM_LINK);
    }
    ctx.linkTree := ctx.linkTree[a := ctx.linkTree[a].(asymTimer := Some(Alarm(true, until)))];
  }

  method LinkElemSymTimerSet(ctx: OlsrContext, a: Addr, until: nat)
    requires a in ctx.linkTree
    modifies ctx`linkTree
    ensures ctx.linkTree == old(ctx.linkTree)[a := old(ctx.linkTree)[a].(symTimer := Some(Alarm(true, until)), status := SYM_LINK)]
  {
    SetLinkStatus(ctx, a, SYM_LINK);
    ctx.linkTree := ctx.linkTree[a := ctx.linkTree[a].(symTimer := Some(Alarm(true, until)))];
  }

  method MakeLinkElem(ctx: OlsrContext, a: Addr, until: nat)
    requires a !in ctx.linkTree
    modifies ctx`linkTree
    ensures ctx.linkTree == old(ctx.linkTree)[a := Link(LOST_LINK, None, None, Some(Alarm(true, until)))]
  {
    ctx.linkTree := ctx.linkTree[a := Link(UNSPEC_LINK, None, None, None)];
    SetLinkStatus(ctx, a, LOST_LINK);
    LinkElemExpireTimerSet(ctx, a, until);
  }

  /** Called on a LOST_LINK report with the asymmetric timer running: the link falls back to asymmetric. */
  method SymLinkTimerExpire(ctx: OlsrContext, a: Addr)
    requires Routed(ctx) && a in ctx.linkTree && a in ctx.neighborTree && ctx.linkTree[a].asymTimer.Some?
    modifies ctx`linkTree
    modifies ctx`neighborTree, ctx`topology, ctx`routingTable, ctx`nodeStatTree, ctx`nodeInfo, ctx`nodeStatsNum
    ensures Routed(ctx) && ctx.topology == old(ctx.topology)
    ensures ctx.linkTree == old(ctx.linkTree)[a := old(ctx.linkTree)[a].(status :=
              if old(ctx.linkTree)[a].asymTimer.value.active then ASYM_LINK else LOST_LINK)]
    ensures ctx.neighborTree == old(ctx.neighborTree)[a := old(ctx.neighborTree)[a].(status := NOT_NEIGH)]
  {
    if ctx.linkTree[a].asymTimer.value.active {
      SetLinkStatus(ctx, a, ASYM_LINK);
    } else {
      SetLinkStatus(ctx, a, LOST_LINK);
    }
    UpdateNeighborStatus(ctx, a);
  }

  /** Every timer of a link has this callback: the link disappears, and its neighbour is none any more. */
  method LinkTimerExpire(ctx: OlsrContext, a: Addr)
    requires Routed(ctx) && Agreement(ctx.neighborTree, ctx.linkTree, ctx.mprTree) && a in ctx.linkTree
    modifies ctx`linkTree
    modifies ctx`neighborTree, ctx`topology, ctx`routingTable, ctx`nodeStatTree, ctx`nodeInfo, ctx`nodeStatsNum
    ensures Routed(ctx) && Agreement(ctx.neighborTree, ctx.linkTree, ctx.mprTree) && ctx.topology == old(ctx.topology)
    ensures ctx.linkTree == old(ctx.linkTree) - {a}
    ensures a in old(ctx.neighborTree) && ctx.neighborTree == old(ctx.neighborTree)[a := old(ctx.neighborTree)[a].(status := NOT_NEIGH)]
  {
    Except(ctx.neighborTree, ctx.linkTree, ctx.mprTree, a);
    LinkGoes(ctx.neighborTree, ctx.linkTree, ctx.mprTree, a);
    ctx.linkTree := ctx.linkTree - {a};
    StatusAgrees(ctx.neighborTree, ctx.linkTree, ctx.mprTree, a);
    UpdateNeighborStatus(ctx, a);
  }
}
