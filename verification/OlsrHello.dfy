module OlsrHello {
  import opened AddrTree
  import opened NetUtil
  import opened OlsrContext
  import opened OlsrProto
  import opened OlsrHelloCodec
  import opened OlsrNeighbor
  import opened OlsrLink
  import OlsrGraph
  import opened OlsrSpf
  import OlsrMpr

  // ----- the start

  /** A started node has current routes, agreeing links and neighbours, and relays that cover all it knows. Every event
      below is shown to keep this. */
  method InitOlsrContext(own: Addr, ghost world: set<Addr>) returns (ctx: OlsrContext)
    requires |world| <= MAX_NODE_COUNT
    ensures fresh(ctx) && ctx.ownIp == own && ctx.world == world
    ensures Routed(ctx) && Agreement(ctx.neighborTree, ctx.linkTree, ctx.mprTree)
    ensures OlsrMpr.MprOk(own, ctx.neighborTree, ctx.mprTree)
    ensures ctx.neighborTree == map[] && ctx.linkTree == map[] && ctx.topology == map[] && ctx.topologySeq == map[]
    ensures ctx.selectorTree == map[] && ctx.neigh2Timers == map[] && ctx.topologyTimers == map[]
    ensures EachTimed(ctx.neighborTree, ctx.neigh2Timers)
  {
    ctx := new OlsrContext(own, world);
    NothingKnown(own);
    assert N1(ctx.neighborTree) == {};
    CorrectIsCurrent(own, {}, map[], map[]);
    assert RoutedNow(ctx, 0);
    assert AgreementNow(ctx.neighborTree, ctx.linkTree, ctx.mprTree, 0);
  }

  lemma {:induction false} NothingKnown(own: Addr)
    ensures OlsrGraph.Correct(own, {}, map[], map[]) && OlsrMpr.MprOk(own, map[], {})
  {
  }

  // ----- what a HELLO means for the link it came over

  /** The sender has heard this node. */
  predicate Heard(code: nat) {
    code != STATUS_UNAVAILABLE && (ExtractLink(code) == SYM_LINK || ExtractLink(code) == ASYM_LINK)
  }

  predicate Lost(code: nat) { code != STATUS_UNAVAILABLE && ExtractLink(code) == LOST_LINK }

  /** The link is symmetric if the sender lists this node as heard, or says nothing new about a symmetric link. */
  predicate SymAfter(wasSym: bool, code: nat) { Heard(code) || (wasSym && !Lost(code)) }

  ghost predicate LinkUpdated(was: Links, now: Links, src: Addr, code: nat) {
    && src in now && now == was[src := now[src]] && LinkOk(now[src])
    && (IsSym(now, src) <==> SymAfter(IsSym(was, src), code))
  }

  /** A LOST_LINK report only arrives for a link that has been symmetric. */
  predicate Expected(links: Links, src: Addr, code: nat) {
    Lost(code) ==> src in links && links[src].symTimer.Some?
  }

  ghost predicate NeighborUpdated(was: Neighbors, now: Neighbors, src: Addr, sym: bool, reported: set<Addr>) {
    && now.Keys == was.Keys + {src}
    && (forall a <- was :: a != src ==> now[a].n2 == was[a].n2)
    && now[src].n2 == (if src in was then was[src].n2 else {}) + (if sym then reported else {})
    && (forall a <- was :: a != src ==> (Symmetric(now[a]) <==> Symmetric(was[a])))
    && (Symmetric(now[src]) <==> sym)
  }

  /** The link with its expiry and asymmetric timers restarted. */
  function Touched(links: Links, a: Addr, until: nat): Link {
    var alarm := Some(Alarm(true, until));
    if a in links then links[a].(expireTimer := alarm, asymTimer := alarm, status := if links[a].status == SYM_LINK then SYM_LINK else ASYM_LINK)
    else Link(ASYM_LINK, None, alarm, alarm)
  }

  method TouchLink(ctx: OlsrContext, src: Addr, until: nat)
    modifies ctx`linkTree
    ensures ctx.linkTree == old(ctx.linkTree)[src := Touched(old(ctx.linkTree), src, until)]
  {
    if src !in ctx.linkTree {
      MakeLinkElem(ctx, src, until);
    } else {
      LinkElemExpireTimerSet(ctx, src, until);
    }
    LinkElemAsymTimerSet(ctx, src, until);
  }

  /** A timer that runs on without a callback. */
  function Silenced(t: Option<Alarm>): Option<Alarm> { if t.Some? then Some(t.value.(active := false)) else None }

  /** What the report does to a link that has just been touched. */
  function Answered(l: Link, code: nat, until: nat): Link {
    if Heard(code) then l.(symTimer := Some(Alarm(true, until)), status := SYM_LINK)
    else if Lost(code) then l.(symTimer := Silenced(l.symTimer), status := ASYM_LINK)
    else l
  }

  lemma {:induction false} AnsweredIs(was: Links, src: Addr, code: nat, until: nat)
    requires src in was ==> LinkOk(was[src])
    ensures LinkUpdated(was, was[src := Touched(was, src, until)][src := Answered(Touched(was, src, until), code, until)], src, code)
  {
  }

  /** What the sender reports about the link to this node. */
  method PopulateLinkset(ctx: OlsrContext, orig: Addr, src: Addr, helloInfo: seq<Byte>, until: nat)
    requires Routed(ctx) && src in ctx.linkTree && src in ctx.neighborTree && Running(ctx.linkTree[src].asymTimer)
    requires Formed(helloInfo) && Expected(ctx.linkTree, src, CodeToMe(Infos(helloInfo), ctx.ownIp))
    modifies ctx`linkTree, ctx`selectorTree
    modifies ctx`neighborTree, ctx`topology, ctx`routingTable, ctx`nodeStatTree, ctx`nodeInfo, ctx`nodeStatsNum
    ensures Routed(ctx) && ctx.topology == old(ctx.topology)
    ensures ctx.linkTree == old(ctx.linkTree)[src := Answered(old(ctx.linkTree)[src], CodeToMe(Infos(helloInfo), ctx.ownIp), until)]
    ensures ctx.neighborTree == if Lost(CodeToMe(Infos(helloInfo), ctx.ownIp))
                                then old(ctx.neighborTree)[src := old(ctx.neighborTree)[src].(status := NOT_NEIGH)]
                                else old(ctx.neighborTree)
    ensures ctx.selectorTree == SelectorTreeAfter(old(ctx.selectorTree), orig, src, CodeToMe(Infos(helloInfo), ctx.ownIp), until)
  {
    var code := LinkCodeToMe(ctx.ownIp, helloInfo);
    if code != STATUS_UNAVAILABLE {
      HearLink(ctx, src, code, until);
      HearStatus(ctx, orig, src, code, until);
    }
  }

  method HearLink(ctx: OlsrContext, src: Addr, code: nat, until: nat)
    requires Routed(ctx) && src in ctx.linkTree && src in ctx.neighborTree && Running(ctx.linkTree[src].asymTimer)
    requires code != STATUS_UNAVAILABLE && Expected(ctx.linkTree, src, code)
    modifies ctx`linkTree
    modifies ctx`neighborTree, ctx`topology, ctx`routingTable, ctx`nodeStatTree, ctx`nodeInfo, ctx`nodeStatsNum
    ensures Routed(ctx) && ctx.topology == old(ctx.topology)
    ensures ctx.linkTree == old(ctx.linkTree)[src := Answered(old(ctx.linkTree)[src], code, until)]
    ensures ctx.neighborTree == if Lost(code) then old(ctx.neighborTree)[src := old(ctx.neighborTree)[src].(status := NOT_NEIGH)]
                                else old(ctx.neighborTree)
  {
    var linkstat := ExtractLink(code);
    if linkstat == SYM_LINK || linkstat == ASYM_LINK {
      LinkElemSymTimerSet(ctx, src, until);
    } else if linkstat == LOST_LINK {
      ctx.linkTree := ctx.linkTree[src := ctx.linkTree[src].(symTimer := Silenced(ctx.linkTree[src].symTimer))];
      SymLinkTimerExpire(ctx, src);
    }
  }

  method HearStatus(ctx: OlsrContext, orig: Addr, src: Addr, code: nat, until: nat)
    requires code != STATUS_UNAVAILABLE
    modifies ctx`selectorTree
    ensures ctx.selectorTree == SelectorTreeAfter(old(ctx.selectorTree), orig, src, code, until)
  {
    var neighstat := ExtractStatus(code);
    if neighstat == MPR_NEIGH {
      if src in ctx.selectorTree {
        ctx.selectorTree := ctx.selectorTree[src := until];
      } else if orig !in ctx.selectorTree {
        ctx.selectorTree := ctx.selectorTree[orig := until];
      }
    }
  }

  function SelectorsAfter(selectors: set<Addr>, orig: Addr, src: Addr, code: nat): set<Addr> {
    if code != STATUS_UNAVAILABLE && ExtractStatus(code) == MPR_NEIGH && src !in selectors then selectors + {orig} else selectors
  }

  /** The same with the timers: the entry of the sender is confirmed, or a new one made. */
  function SelectorTreeAfter(tree: map<Addr, nat>, orig: Addr, src: Addr, code: nat, until: nat): (r: map<Addr, nat>)
    ensures r.Keys == SelectorsAfter(tree.Keys, orig, src, code)
  {
    if code == STATUS_UNAVAILABLE || ExtractStatus(code) != MPR_NEIGH then tree
    else if src in tree then tree[src := until]
    else if orig in tree then tree
    else tree[orig := until]
  }

  method MprSelectorExpire(ctx: OlsrContext, a: Addr)
    requires a in ctx.selectorTree
    modifies ctx`selectorTree
    ensures ctx.selectorTree == old(ctx.selectorTree) - {a}
  {
    ctx.selectorTree := ctx.selectorTree - {a};
  }

  // ----- the two-hop neighbours reported

  ghost predicate CollectingNow(s: seq<Byte>, offset: nat, done: set<Addr>, k: int) {
    offset <= |s| && Formed(s) && Formed(s[offset..]) && AllAddrs(Infos(s)) == done + AllAddrs(Infos(s[offset..]))
  }

  /** A walk over the groups has come to `offset` and seen the addresses in `done`. */
  ghost predicate Collecting(s: seq<Byte>, offset: nat, done: set<Addr>) {
    forall k {:trigger CollectingNow(s, offset, done, k)} :: CollectingNow(s, offset, done, k)
  }

  lemma {:induction false} CollectStart(s: seq<Byte>)
    requires Formed(s)
    ensures Collecting(s, 0, {})
  {
    assert s[0..] == s;
  }

  lemma {:induction false} CollectStep(s: seq<Byte>, offset: nat, done: set<Addr>)
    requires Collecting(s, offset, done) && offset < |s|
    ensures offset + HELLO_INFO_LEN <= |s| && offset + HELLO_INFO_LEN + ADDR_LEN * Word(s[offset + 2], s[offset + 3]) <= |s|
    ensures var n := Word(s[offset + 2], s[offset + 3]);
            var list := Addrs(s[offset + HELLO_INFO_LEN..offset + HELLO_INFO_LEN + ADDR_LEN * n]);
            Collecting(s, offset + HELLO_INFO_LEN + ADDR_LEN * n, done + Elements(list))
  {
    assert CollectingNow(s, offset, done, 0);
    var t := s[offset..];
    var end := offset + GroupLen(t);
    assert t[HELLO_INFO_LEN..GroupLen(t)] == s[offset + HELLO_INFO_LEN..end];
    assert t[GroupLen(t)..] == s[end..];
    FirstInfo(t, 0);
  }

  lemma {:induction false} CollectEnd(s: seq<Byte>, offset: nat, done: set<Addr>)
    requires Collecting(s, offset, done) && offset >= |s|
    ensures Formed(s) && done == AllAddrs(Infos(s))
  {
    assert CollectingNow(s, offset, done, 0);
    assert s[offset..] == [];
  }

  method PopulateNeigh2set(ctx: OlsrContext, src: Addr, helloInfo: seq<Byte>, until: nat)
    requires Routed(ctx) && src in ctx.neighborTree && Formed(helloInfo)
    modifies ctx`neighborTree, ctx`neigh2Timers
    ensures Routed(ctx)
    ensures ctx.neighborTree == WithN2(old(ctx.neighborTree), src, AllAddrs(Infos(helloInfo)) - {ctx.ownIp})
    ensures ctx.neigh2Timers == Confirmed(old(ctx.neigh2Timers), src, AllAddrs(Infos(helloInfo)) - {ctx.ownIp}, until)
  {
    ghost var nb, timers, done: set<Addr> := ctx.neighborTree, ctx.neigh2Timers, {};
    var offset := 0;
    CollectStart(helloInfo);
    AddNothing(nb, timers, src, ctx.ownIp, until);
    while |helloInfo| > offset
      invariant Routed(ctx) && Collecting(helloInfo, offset, done)
      invariant ctx.neighborTree == WithN2(nb, src, done - {ctx.ownIp})
      invariant ctx.neigh2Timers == Confirmed(timers, src, done - {ctx.ownIp}, until)
      decreases |helloInfo| - offset
    {
      CollectStep(helloInfo, offset, done);
      var info := offset;
      offset := offset + HELLO_INFO_LEN;
      var entrynum := Word(helloInfo[info + 2], helloInfo[info + 3]);
      ghost var more := AddEntries(ctx, src, helloInfo, offset, entrynum, until);
      AddMore(nb, timers, src, ctx.ownIp, done, more, until);
      done := done + more;
      offset := offset + ADDR_LEN * entrynum;
    }
    CollectEnd(helloInfo, offset, done);
  }

  /** The entries of one group. */
  method AddEntries(ctx: OlsrContext, src: Addr, s: seq<Byte>, at: nat, entrynum: nat, until: nat) returns (ghost more: set<Addr>)
    requires Routed(ctx) && src in ctx.neighborTree && at + ADDR_LEN * entrynum <= |s|
    modifies ctx`neighborTree, ctx`neigh2Timers
    ensures Routed(ctx) && more == Elements(Addrs(s[at..at + ADDR_LEN * entrynum]))
    ensures ctx.neighborTree == WithN2(old(ctx.neighborTree), src, more - {ctx.ownIp})
    ensures ctx.neigh2Timers == Confirmed(old(ctx.neigh2Timers), src, more - {ctx.ownIp}, until)
  {
    ghost var nb, timers, list := ctx.neighborTree, ctx.neigh2Timers, Addrs(s[at..at + ADDR_LEN * entrynum]);
    more := {};
    AddNothing(nb, timers, src, ctx.ownIp, until);
    for i := 0 to entrynum
      invariant Routed(ctx) && more == Elements(list[..i])
      invariant ctx.neighborTree == WithN2(nb, src, more - {ctx.ownIp})
      invariant ctx.neigh2Timers == Confirmed(timers, src, more - {ctx.ownIp}, until)
    {
      PrefixElements(list, i);
      AddMore(nb, timers, src, ctx.ownIp, more, {list[i]}, until);
      var neigh2Addr := NeighAddr(s, at, entrynum, i);
      more := more + {neigh2Addr};
      if neigh2Addr == ctx.ownIp {
        continue;
      }
      UpdateNeigh2Tuple(ctx, src, neigh2Addr, until);
    }
    assert list[..entrynum] == list;
  }

  lemma {:induction false} AddNothing(nb: Neighbors, timers: map<(Addr, Addr), nat>, src: Addr, own: Addr, until: nat)
    requires src in nb
    ensures WithN2(nb, src, {} - {own}) == nb && Confirmed(timers, src, {} - {own}, until) == timers
  {
    WithMoreN2(nb, src, {}, {});
    ConfirmMore(timers, src, {}, {}, until);
    assert {} - {own} == {};
  }

  /** Adding some more addresses, the own one left out each time. */
  lemma {:induction false} AddMore(nb: Neighbors, timers: map<(Addr, Addr), nat>, src: Addr, own: Addr, done: set<Addr>,
                                   more: set<Addr>, until: nat)
    requires src in nb
    ensures WithN2(WithN2(nb, src, done - {own}), src, more - {own}) == WithN2(nb, src, done + more - {own})
    ensures Confirmed(Confirmed(timers, src, done - {own}, until), src, more - {own}, until)
              == Confirmed(timers, src, done + more - {own}, until)
    ensures own !in more ==> more - {own} == more
    ensures more == {own} ==> done + more - {own} == done - {own}
  {
    WithMoreN2(nb, src, done - {own}, more - {own});
    ConfirmMore(timers, src, done - {own}, more - {own}, until);
    assert (done - {own}) + (more - {own}) == done + more - {own};
  }

  /** The link and the neighbour after a HELLO, before relays are selected anew. */
  ghost predicate Reported(nb: Neighbors, now: Neighbors, src: Addr, sym: bool, reported: set<Addr>) {
    && src in now && now.Keys == nb.Keys + {src} && (forall a <- nb :: a != src ==> now[a] == nb[a])
    && now[src].n2 == (if src in nb then nb[src].n2 else {}) + (if sym then reported else {})
  }

  /** Makes the neighbour and the link if they are new, and works in what the sender reports about the link. */
  method PopulateLink(ctx: OlsrContext, src: Addr, orig: Addr, info: seq<Byte>, until: nat)
    requires Routed(ctx) && src in ctx.world
    requires Formed(info) && Expected(ctx.linkTree, src, CodeToMe(Infos(info), ctx.ownIp))
    modifies ctx`linkTree, ctx`selectorTree
    modifies ctx`neighborTree, ctx`topology, ctx`routingTable, ctx`nodeStatTree, ctx`nodeInfo, ctx`nodeStatsNum
    ensures Routed(ctx) && ctx.topology == old(ctx.topology)
    ensures ctx.linkTree == LinksAfter(old(ctx.linkTree), src, CodeToMe(Infos(info), ctx.ownIp), until)
    ensures ctx.neighborTree == HeardFrom(old(ctx.neighborTree), src, CodeToMe(Infos(info), ctx.ownIp))
    ensures ctx.selectorTree == SelectorTreeAfter(old(ctx.selectorTree), orig, src, CodeToMe(Infos(info), ctx.ownIp), until)
  {
    if src !in ctx.neighborTree {
      MakeNeighborElem(ctx, src);
    }
    TouchLink(ctx, src, until);
    PopulateLinkset(ctx, orig, src, info, until);
  }

  method PopulateLinkAndNeighbor(ctx: OlsrContext, src: Addr, orig: Addr, info: seq<Byte>, until: nat)
    requires Routed(ctx) && src in ctx.world
    requires Formed(info) && Expected(ctx.linkTree, src, CodeToMe(Infos(info), ctx.ownIp))
    modifies ctx`linkTree, ctx`selectorTree, ctx`neigh2Timers
    modifies ctx`neighborTree, ctx`topology, ctx`routingTable, ctx`nodeStatTree, ctx`nodeInfo, ctx`nodeStatsNum
    ensures Routed(ctx) && ctx.topology == old(ctx.topology)
    ensures ctx.linkTree == LinksAfter(old(ctx.linkTree), src, CodeToMe(Infos(info), ctx.ownIp), until)
    ensures ctx.neighborTree == After(old(ctx.neighborTree), old(ctx.linkTree), src, CodeToMe(Infos(info), ctx.ownIp),
                                      AllAddrs(Infos(info)) - {ctx.ownIp}, until)
    ensures ctx.neigh2Timers == Confirmed(old(ctx.neigh2Timers), src,
              if IsSym(ctx.linkTree, src) then AllAddrs(Infos(info)) - {ctx.ownIp} else {}, until)
    ensures ctx.selectorTree == SelectorTreeAfter(old(ctx.selectorTree), orig, src, CodeToMe(Infos(info), ctx.ownIp), until)
  {
    PopulateLink(ctx, src, orig, info, until);
    UpdateNeighborStatus(ctx, src);
    if ctx.neighborTree[src].status == SYM_NEIGH || ctx.neighborTree[src].status == MPR_NEIGH {
      PopulateNeigh2set(ctx, src, info, until);
    } else {
      ConfirmMore(ctx.neigh2Timers, src, {}, {}, until);
    }
  }

  // The same steps on values: the neighbour exists, hears the report, gets its status, and its two-hop neighbours.

  function Made(nb: Neighbors, src: Addr): Neighbors {
    if src in nb then nb else nb[src := Neighbor(STATUS_UNAVAILABLE, {})]
  }

  function LinksAfter(links: Links, src: Addr, code: nat, until: nat): Links {
    links[src := Touched(links, src, until)][src := Answered(Touched(links, src, until), code, until)]
  }

  function HeardFrom(nb: Neighbors, src: Addr, code: nat): Neighbors {
    var made := Made(nb, src);
    if Lost(code) then made[src := made[src].(status := NOT_NEIGH)] else made
  }

  ghost function StatusSet(nb: Neighbors, links: Links, src: Addr): Neighbors
    requires src in nb
  {
    nb[src := nb[src].(status := NewStatus(nb[src].status, IsSym(links, src)))]
  }

  ghost function After(nb: Neighbors, links: Links, src: Addr, code: nat, reported: set<Addr>, until: nat): Neighbors {
    var now := StatusSet(HeardFrom(nb, src, code), LinksAfter(links, src, code, until), src);
    if Symmetric(now[src]) then WithN2(now, src, reported) else now
  }

  lemma {:induction false} ReportKeeps(nb: Neighbors, links: Links, mpr: set<Addr>, src: Addr, code: nat, reported: set<Addr>,
                                       until: nat)
    requires Agreement(nb, links, mpr)
    ensures var links', now := LinksAfter(links, src, code, until), After(nb, links, src, code, reported, until);
            && Agreement(now, links', mpr) && LinkUpdated(links, links', src, code)
            && Reported(nb, now, src, IsSym(links', src), reported)
    ensures Running(Touched(links, src, until).asymTimer)
  {
    var l := Answered(Touched(links, src, until), code, until);
    Except(nb, links, mpr, src);
    AnsweredIs(links, src, code, until);
    LinkChanges(Made(nb, src), links, mpr, src, l);
    var links' := LinksAfter(links, src, code, until);
    assert links' == links[src := l];
    StatusChanges(Made(nb, src), links', mpr, src, Made(nb, src)[src].(status := NOT_NEIGH));
    var mid := StatusSet(HeardFrom(nb, src, code), links', src);
    StatusAgrees(HeardFrom(nb, src, code), links', mpr, src);
    SymAgrees(mid, links', mpr, src);
    AgreementN2(mid, After(nb, links, src, code, reported, until), links', mpr);
  }

  /** What a LOST_LINK report does to a link that was symmetric: it is asymmetric, its symmetric timer is off, the sender is no
      neighbour any more, and nothing that the HELLO lists is taken in. The other links and neighbours stay. */
  lemma {:induction false} LostReport(nb: Neighbors, links: Links, src: Addr, code: nat, reported: set<Addr>,
                                       until: nat)
    requires src in links && src in nb && links[src].status == SYM_LINK && Lost(code)
    ensures var l := LinksAfter(links, src, code, until)[src];
            l.status == ASYM_LINK && !Running(l.symTimer) && l.asymTimer == l.expireTimer == Some(Alarm(true, until))
    ensures After(nb, links, src, code, reported, until)[src] == Neighbor(NOT_NEIGH, nb[src].n2)
    ensures forall a <- links :: a != src ==> a in LinksAfter(links, src, code, until) && LinksAfter(links, src, code, until)[a] == links[a]
    ensures forall a <- nb :: a != src ==> a in After(nb, links, src, code, reported, until) && After(nb, links, src, code, reported, until)[a] == nb[a]
  {
  }

  /** What any other report does: a report that names this node makes the link symmetric, and one that does not leaves a
      symmetric link symmetric; then what the HELLO lists is taken in. */
  lemma {:induction false} OtherReport(nb: Neighbors, links: Links, src: Addr, code: nat, reported: set<Addr>,
                                       until: nat)
    requires !Lost(code)
    ensures var l := LinksAfter(links, src, code, until)[src];
            && l.status == (if Heard(code) || IsSym(links, src) then SYM_LINK else ASYM_LINK)
            && l.asymTimer == l.expireTimer == Some(Alarm(true, until))
            && l.symTimer == (if Heard(code) then Some(Alarm(true, until)) else if src in links then links[src].symTimer else None)
    ensures var n := After(nb, links, src, code, reported, until)[src];
            var sym := Heard(code) || IsSym(links, src);
            && (n.status == NOT_NEIGH <==> !sym)
            && n.n2 == (if src in nb then nb[src].n2 else {}) + (if sym then reported else {})
  {
  }

  lemma {:induction false} SymAgrees(nb: Neighbors, links: Links, mpr: set<Addr>, a: Addr)
    requires Agreement(nb, links, mpr) && a in nb
    ensures Symmetric(nb[a]) <==> IsSym(links, a)
  {
    assert AgreementNow(nb, links, mpr, 0);
    assert Agrees(nb, links, mpr, a);
  }

  /** What a node knows of its surroundings. */
  datatype Knowledge = Knowledge(nb: Neighbors, links: Links, mpr: set<Addr>, selectors: set<Addr>)

  ghost function KnowledgeOf(ctx: OlsrContext): Knowledge
    reads ctx`neighborTree, ctx`linkTree, ctx`mprTree, ctx`selectorTree
  {
    Knowledge(ctx.neighborTree, ctx.linkTree, ctx.mprTree, ctx.selectorTree.Keys)
  }

  /** What node `own` knows before and after a HELLO of `src`. */
  ghost predicate Hears(own: Addr, src: Addr, gs: seq<HelloInfo>, k: Knowledge, k': Knowledge) {
    && Agreement(k'.nb, k'.links, k'.mpr) && OlsrMpr.MprOk(own, k'.nb, k'.mpr) && OlsrMpr.Selected(own, k'.nb, k'.mpr)
    && LinkUpdated(k.links, k'.links, src, CodeToMe(gs, own))
    && NeighborUpdated(k.nb, k'.nb, src, IsSym(k'.links, src), AllAddrs(gs) - {own})
    && k'.selectors == SelectorsAfter(k.selectors, src, src, CodeToMe(gs, own))
  }

  /** What a node keeps only for as long as it is confirmed: links, selectors and reports of two-hop neighbours. */
  datatype Ledger = Ledger(links: Links, selectors: map<Addr, nat>, reports: map<(Addr, Addr), nat>)

  ghost function LedgerOf(ctx: OlsrContext): Ledger
    reads ctx`linkTree, ctx`selectorTree, ctx`neigh2Timers
  {
    Ledger(ctx.linkTree, ctx.selectorTree, ctx.neigh2Timers)
  }

  /** What a HELLO with these groups confirms until `until`. */
  ghost function LedgerAfter(l: Ledger, own: Addr, src: Addr, orig: Addr, gs: seq<HelloInfo>, until: nat): Ledger {
    var links := LinksAfter(l.links, src, CodeToMe(gs, own), until);
    Ledger(links, SelectorTreeAfter(l.selectors, orig, src, CodeToMe(gs, own), until),
           Confirmed(l.reports, src, if IsSym(links, src) then AllAddrs(gs) - {own} else {}, until))
  }

  /** What a HELLO changes before relays are selected anew. */
  method TakeReport(ctx: OlsrContext, src: Addr, orig: Addr, info: seq<Byte>, until: nat)
    requires Routed(ctx) && Agreement(ctx.neighborTree, ctx.linkTree, ctx.mprTree) && src in ctx.world
    requires Formed(info) && Expected(ctx.linkTree, src, CodeToMe(Infos(info), ctx.ownIp))
    modifies ctx`linkTree, ctx`selectorTree, ctx`neigh2Timers
    modifies ctx`neighborTree, ctx`topology, ctx`routingTable, ctx`nodeStatTree, ctx`nodeInfo, ctx`nodeStatsNum
    ensures Routed(ctx) && ctx.topology == old(ctx.topology) && Agreement(ctx.neighborTree, ctx.linkTree, ctx.mprTree)
    ensures LinkUpdated(old(ctx.linkTree), ctx.linkTree, src, CodeToMe(Infos(info), ctx.ownIp))
    ensures Reported(old(ctx.neighborTree), ctx.neighborTree, src, IsSym(ctx.linkTree, src), AllAddrs(Infos(info)) - {ctx.ownIp})
    ensures LedgerOf(ctx) == LedgerAfter(old(LedgerOf(ctx)), ctx.ownIp, src, orig, Infos(info), until)
  {
    ReportKeeps(ctx.neighborTree, ctx.linkTree, ctx.mprTree, src, CodeToMe(Infos(info), ctx.ownIp),
                AllAddrs(Infos(info)) - {ctx.ownIp}, until);
    PopulateLinkAndNeighbor(ctx, src, orig, info, until);
  }

  /** Relays are selected anew, from the neighbours as the HELLO has left them. */
  method SelectRelays(ctx: OlsrContext, src: Addr, ghost nb: Neighbors, ghost reported: set<Addr>)
    requires Routed(ctx) && Agreement(ctx.neighborTree, ctx.linkTree, ctx.mprTree)
    requires Reported(nb, ctx.neighborTree, src, IsSym(ctx.linkTree, src), reported)
    modifies ctx`mprTree, ctx`ansn
    modifies ctx`neighborTree, ctx`topology, ctx`routingTable, ctx`nodeStatTree, ctx`nodeInfo, ctx`nodeStatsNum
    ensures Routed(ctx) && ctx.topology == old(ctx.topology) && Agreement(ctx.neighborTree, ctx.linkTree, ctx.mprTree)
    ensures OlsrMpr.MprOk(ctx.ownIp, ctx.neighborTree, ctx.mprTree) && OlsrMpr.Selected(ctx.ownIp, ctx.neighborTree, ctx.mprTree)
    ensures NeighborUpdated(nb, ctx.neighborTree, src, IsSym(ctx.linkTree, src), reported)
  {
    ghost var mid, mpr := ctx.neighborTree, ctx.mprTree;
    ghost var first, picks := OlsrMpr.PopulateMprSet(ctx);
    OlsrMpr.IsSelected(ctx.ownIp, mid, ctx.neighborTree, ctx.mprTree, first, picks);
    AgreementSelected(ctx.ownIp, mid, ctx.neighborTree, ctx.linkTree, mpr, ctx.mprTree);
    HelloDone(nb, mid, ctx.neighborTree, src, ctx.linkTree, reported, ctx.mprTree);
  }

  /** Everything a received HELLO changes. Afterwards links and neighbours agree, every strict two-hop neighbour is covered, and
      what the HELLO confirms is kept until its validity time is over. */
  method ProcessOlsrHello(ctx: OlsrContext, src: Addr, orig: Addr, hello: seq<Byte>, vtime: nat, now: nat)
    requires Routed(ctx) && Agreement(ctx.neighborTree, ctx.linkTree, ctx.mprTree) && src in ctx.world
    requires EachTimed(ctx.neighborTree, ctx.neigh2Timers)
    requires |hello| >= HELLO_MSG_LEN && Formed(hello[HELLO_MSG_LEN..])
    requires Expected(ctx.linkTree, src, CodeToMe(Infos(hello[HELLO_MSG_LEN..]), ctx.ownIp))
    modifies ctx`linkTree, ctx`selectorTree, ctx`neigh2Timers, ctx`mprTree, ctx`ansn
    modifies ctx`neighborTree, ctx`topology, ctx`routingTable, ctx`nodeStatTree, ctx`nodeInfo, ctx`nodeStatsNum
    ensures Routed(ctx) && ctx.topology == old(ctx.topology)
    ensures Agreement(ctx.neighborTree, ctx.linkTree, ctx.mprTree)
    ensures OlsrMpr.MprOk(ctx.ownIp, ctx.neighborTree, ctx.mprTree)
    ensures LinkUpdated(old(ctx.linkTree), ctx.linkTree, src, CodeToMe(Infos(hello[HELLO_MSG_LEN..]), ctx.ownIp))
    ensures NeighborUpdated(old(ctx.neighborTree), ctx.neighborTree, src, IsSym(ctx.linkTree, src),
                            AllAddrs(Infos(hello[HELLO_MSG_LEN..])) - {ctx.ownIp})
    ensures LedgerOf(ctx) == LedgerAfter(old(LedgerOf(ctx)), ctx.ownIp, src, orig, Infos(hello[HELLO_MSG_LEN..]), Until(now, vtime))
    ensures EachTimed(ctx.neighborTree, ctx.neigh2Timers)
    ensures orig == src ==> Hears(ctx.ownIp, src, Infos(hello[HELLO_MSG_LEN..]), old(KnowledgeOf(ctx)), KnowledgeOf(ctx))
  {
    ghost var nb, timers := ctx.neighborTree, ctx.neigh2Timers;
    ghost var reported := AllAddrs(Infos(hello[HELLO_MSG_LEN..])) - {ctx.ownIp};
    TakeReport(ctx, src, orig, hello[HELLO_MSG_LEN..], Until(now, vtime));
    SelectRelays(ctx, src, nb, reported);
    StillTimed(nb, ctx.neighborTree, timers, src, IsSym(ctx.linkTree, src), reported, Until(now, vtime));
  }

  lemma {:induction false} StillTimed(nb: Neighbors, end: Neighbors, timers: map<(Addr, Addr), nat>, src: Addr, sym: bool,
                                      reported: set<Addr>, until: nat)
    requires EachTimed(nb, timers) && NeighborUpdated(nb, end, src, sym, reported)
    ensures EachTimed(end, Confirmed(timers, src, if sym then reported else {}, until))
  {
    assert EachTimedNow(nb, timers, 0);
  }

  lemma {:induction false} AgreementN2(nb: Neighbors, now: Neighbors, links: Links, mpr: set<Addr>)
    requires Agreement(nb, links, mpr) && now.Keys == nb.Keys
    requires forall a <- nb :: now[a].status == nb[a].status
    ensures Agreement(now, links, mpr)
  {
    assert AgreementNow(nb, links, mpr, 0);
  }

  lemma {:induction false} AgreementSelected(own: Addr, nb: Neighbors, now: Neighbors, links: Links, mpr: set<Addr>, mpr': set<Addr>)
    requires Agreement(nb, links, mpr) && OlsrMpr.SameNeighbors(nb, now) && OlsrMpr.MprOk(own, now, mpr')
    ensures Agreement(now, links, mpr')
  {
    assert AgreementNow(nb, links, mpr, 0);
    forall a <- now ensures Agrees(now, links, mpr', a) {
      assert Agrees(nb, links, mpr, a);
      assert Symmetric(now[a]) <==> a in N1(now);
      assert Symmetric(nb[a]) <==> a in N1(nb);
    }
  }

  lemma {:induction false} HelloDone(nb: Neighbors, now: Neighbors, end: Neighbors, src: Addr,
                  links: Links, reported: set<Addr>, mpr: set<Addr>)
    requires Reported(nb, now, src, IsSym(links, src), reported)
    requires OlsrMpr.SameNeighbors(now, end) && Agreement(end, links, mpr)
    ensures NeighborUpdated(nb, end, src, IsSym(links, src), reported)
  {
    SymAgrees(end, links, mpr, src);
    forall a <- nb | a != src ensures Symmetric(end[a]) <==> Symmetric(nb[a]) {
      assert a in N1(end) <==> a in N1(now);
    }
  }

  // ----- two nodes running this program

  lemma {:induction false} AllTold(nb: Neighbors, links: Links, mpr: set<Addr>)
    requires Agreement(nb, links, mpr)
    ensures Known(nb) && forall b <- links :: LinkCode(nb, links, b).Some?
    ensures forall b <- links :: links[b].status == SYM_LINK || links[b].status == ASYM_LINK
  {
    assert AgreementNow(nb, links, mpr, 0);
    forall b <- nb ensures nb[b].status < NEIGHBOR_STATUS_END { assert Agrees(nb, links, mpr, b); }
    forall b <- links ensures LinkCode(nb, links, b).Some? { assert LinkOk(links[b]); }
  }

  /** A node never announces a lost link, and it announces every link. */
  lemma {:induction false} NeverLost(nb: Neighbors, links: Links, mpr: set<Addr>, gs: seq<HelloInfo>, a: Addr)
    requires Agreement(nb, links, mpr) && Tells(nb, links, gs)
    ensures !Lost(CodeToMe(gs, a))
    ensures Heard(CodeToMe(gs, a)) <==> a in links
    ensures forall b :: b in AllAddrs(gs) <==> b in links
  {
    AllTold(nb, links, mpr);
    CodeMeans(nb, links, gs, a);
    forall b ensures b in AllAddrs(gs) <==> b in links {
      CodeMeans(nb, links, gs, b);
    }
  }

  /** What the node at the other end makes of a HELLO: the link becomes symmetric exactly if the sender has a link back or
      it was symmetric before, and the sender becomes a selector if this node is its relay. */
  lemma {:induction false} Handshake(nb: Neighbors, links: Links, mpr: set<Addr>, gs: seq<HelloInfo>, own: Addr, sender: Addr,
                  was: Links, now: Links, selectors: set<Addr>)
    requires Agreement(nb, links, mpr) && Tells(nb, links, gs)
    requires LinkUpdated(was, now, sender, CodeToMe(gs, own))
    ensures Expected(was, sender, CodeToMe(gs, own))
    ensures IsSym(now, sender) <==> own in links || IsSym(was, sender)
    ensures own in links && own in nb && nb[own].status == MPR_NEIGH ==>
              sender in SelectorsAfter(selectors, sender, sender, CodeToMe(gs, own))
    ensures sender !in selectors && sender in SelectorsAfter(selectors, sender, sender, CodeToMe(gs, own)) ==>
              own in mpr && own in links
  {
    AllTold(nb, links, mpr);
    CodeMeans(nb, links, gs, own);
    if own in links {
      RelayAgrees(nb, links, mpr, own);
      Answer(CodeToMe(gs, own), links[own].status, was, now, sender, selectors);
    }
  }

  /** What a code that tells of a symmetric or asymmetric link does. */
  lemma {:induction false} Answer(code: nat, link: nat, was: Links, now: Links, sender: Addr, selectors: set<Addr>)
    requires code < STATUS_UNAVAILABLE && ExtractLink(code) == link && (link == SYM_LINK || link == ASYM_LINK)
    requires LinkUpdated(was, now, sender, code)
    ensures Expected(was, sender, code) && IsSym(now, sender)
    ensures ExtractStatus(code) == MPR_NEIGH ==> sender in SelectorsAfter(selectors, sender, sender, code)
    ensures ExtractStatus(code) != MPR_NEIGH ==> SelectorsAfter(selectors, sender, sender, code) == selectors
  {
  }

  lemma {:induction false} RelayAgrees(nb: Neighbors, links: Links, mpr: set<Addr>, a: Addr)
    requires Agreement(nb, links, mpr) && a in nb
    ensures nb[a].status == MPR_NEIGH ==> a in mpr
  {
    assert AgreementNow(nb, links, mpr, 0);
    assert Agrees(nb, links, mpr, a);
  }
}
