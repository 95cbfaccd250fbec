module OlsrSpf {
  import opened AddrTree
  import opened OlsrGraph
  import opened OlsrContext

  const MAX_DUPLICATES := 50

  // ----- the temporary symmetric database

  method DuplicateNeighInfo(ctx: OlsrContext)
    modifies ctx`topology
    ensures Extended(ctx.ownIp, old(ctx.topology), ctx.topology, None, None)
  {
    ghost var topo := ctx.topology;
    var telem := First(ctx.topology.Keys);
    while telem.Some?
      invariant Extended(ctx.ownIp, topo, ctx.topology, telem, Some(0))
      invariant telem.Some? ==> telem.value in topo
      decreases Left(topo.Keys, telem)
    {
      DuplicateFrom(ctx, telem.value, topo);
      Step(topo.Keys, telem.value);
      NextOriginator(ctx.ownIp, topo, ctx.topology, telem.value);
      telem := Next(ctx.topology.Keys, telem.value);
    }
  }

  /** Copies what originator `t` advertises to the advertised nodes, while visiting a tree that copies may enter. */
  method DuplicateFrom(ctx: OlsrContext, t: Addr, ghost topo: Topology)
    requires Extended(ctx.ownIp, topo, ctx.topology, Some(t), Some(0)) && t in topo
    modifies ctx`topology
    ensures Extended(ctx.ownIp, topo, ctx.topology, Some(t), None)
  {
    var aelem := First(ctx.topology[t].Keys);
    ghost var ks := ctx.topology[t].Keys;
    while aelem.Some?
      invariant Extended(ctx.ownIp, topo, ctx.topology, Some(t), aelem) && ctx.topology[t].Keys == ks
      invariant aelem.Some? ==> aelem.value in ks
      decreases Left(ks, aelem)
    {
      var a := aelem.value;
      ghost var before := ctx.topology;
      if a != ctx.ownIp && a in ctx.topology && t !in ctx.topology[a] {
        ctx.topology := WithCopy(ctx.topology, a, t);
      }
      CopyStep(ctx.ownIp, topo, before, ctx.topology, t, a);
      Step(ks, a);
      aelem := Next(ctx.topology[t].Keys, a);
    }
  }

  method UnduplicateNeighInfo(ctx: OlsrContext, ghost topo: Topology)
    requires Extended(ctx.ownIp, topo, ctx.topology, None, None) && Plain(topo)
    requires forall u <- topo :: |Copies(ctx.ownIp, topo, u)| <= MAX_DUPLICATES
    modifies ctx`topology
    ensures ctx.topology == topo
  {
    ghost var now := ctx.topology;
    var telem := First(ctx.topology.Keys);
    while telem.Some?
      invariant telem.Some? ==> telem.value in topo
      invariant Undoing(topo, now, ctx.topology, telem)
      decreases Left(topo.Keys, telem)
    {
      var t := telem.value;
      PlainLeft(ctx.ownIp, topo, now, t);
      UndoStep(topo, now, ctx.topology, t);
      UnduplicateFrom(ctx, t, Copies(ctx.ownIp, topo, t));
      Step(topo.Keys, t);
      telem := Next(ctx.topology.Keys, t);
    }
  }

  /** The trees an iteration at `it` has passed are as they were in `topo`; the others still hold their copies. */
  ghost predicate Undoing(topo: Topology, now: Topology, cur: Topology, it: Option<Addr>) {
    cur.Keys == now.Keys == topo.Keys && forall u <- topo :: cur[u] == if Seen(it, u) then topo[u] else now[u]
  }

  lemma {:induction false} UndoStep(topo: Topology, now: Topology, cur: Topology, t: Addr)
    requires Undoing(topo, now, cur, Some(t)) && t in topo
    ensures cur.Keys == topo.Keys && cur[t] == now[t] && Undoing(topo, now, cur[t := topo[t]], Next(topo.Keys, t))
  {
    Step(topo.Keys, t);
  }

  method UnduplicateFrom(ctx: OlsrContext, t: Addr, ghost bound: set<Addr>)
    requires t in ctx.topology && |bound| <= MAX_DUPLICATES && forall a <- ctx.topology[t] :: ctx.topology[t][a] ==> a in bound
    modifies ctx`topology
    ensures ctx.topology == old(ctx.topology)[t := Originals(old(ctx.topology)[t])]
  {
    var an := WithoutCopies(ctx.topology[t], bound);
    ctx.topology := ctx.topology[t := an];
  }

  /** Collects the copies of one tree in a fixed array, to delete them after the iteration. */
  method CollectCopies(an: map<Addr, bool>, duplicates: array<Addr>, ghost bound: set<Addr>)
    returns (dupCount: nat, ghost dups: seq<Addr>)
    requires |bound| <= duplicates.Length && forall a <- an :: an[a] ==> a in bound
    modifies duplicates
    ensures dupCount == |dups| <= duplicates.Length && duplicates[..dupCount] == dups
    ensures forall a :: a in dups <==> a in an && an[a]
  {
    dupCount, dups := 0, [];
    var aelem := First(an.Keys);
    while aelem.Some?
      invariant aelem.Some? ==> aelem.value in an
      invariant dupCount == |dups| <= duplicates.Length && duplicates[..dupCount] == dups
      invariant Distinct(dups)
      invariant forall a :: a in dups <==> a in an && an[a] && Seen(aelem, a)
      decreases Left(an.Keys, aelem)
    {
      var a := aelem.value;
      Step(an.Keys, a);
      if an[a] {
        SimpleLength(dups + [a], bound);
        duplicates[dupCount] := a;
        dupCount, dups := dupCount + 1, dups + [a];
      }
      aelem := Next(an.Keys, a);
    }
  }

  /** A tree without its copies. */
  ghost function Originals(an: map<Addr, bool>): map<Addr, bool> { map a <- an | !an[a] :: an[a] }

  method WithoutCopies(anTree: map<Addr, bool>, ghost bound: set<Addr>) returns (an: map<Addr, bool>)
    requires |bound| <= MAX_DUPLICATES && forall a <- anTree :: anTree[a] ==> a in bound
    ensures an == Originals(anTree)
  {
    var duplicates := new Addr[MAX_DUPLICATES];
    var dupCount, dups := CollectCopies(anTree, duplicates, bound);
    an := DeleteAll(anTree, duplicates, dupCount, dups);
  }

  method DeleteAll(anTree: map<Addr, bool>, duplicates: array<Addr>, dupCount: nat, ghost dups: seq<Addr>) returns (an: map<Addr, bool>)
    requires dupCount <= duplicates.Length && duplicates[..dupCount] == dups
    ensures an == map a <- anTree | a !in dups :: anTree[a]
  {
    an := anTree;
    for i := 0 to dupCount
      invariant an == map a <- anTree | a !in dups[..i] :: anTree[a]
    {
      assert dups[..i + 1] == dups[..i] + [dups[i]];
      an := an - {duplicates[i]};
    }
    assert dups[..dupCount] == dups;
  }

  lemma {:induction false} PlainLeft(own: Addr, topo: Topology, now: Topology, t: Addr)
    requires Extended(own, topo, now, None, None) && Plain(topo) && t in topo && t in now
    ensures forall a <- now[t] :: now[t][a] ==> a in Copies(own, topo, t)
    ensures Originals(now[t]) == topo[t]
  {
    forall a ensures a in Originals(now[t]) <==> a in topo[t] {
      if a in now[t] && a !in topo[t] { assert now[t][a]; }
    }
  }

  // ----- the search

  ghost predicate Ordered(t: Table, q: seq<Addr>) {
    && (forall d <- q :: d in t)
    && forall i, j | 0 <= i < j < |q| :: t[q[i]].hop <= t[q[j]].hop
  }

  /** The state of the search between two visits: what left the queue `q` has been expanded. */
  ghost predicate Searching(own: Addr, n1: set<Addr>, topo: Topology, t: Table, q: seq<Addr>) {
    && Sound(own, n1, topo, t) && Ordered(t, q)
    && (forall n <- n1 :: n in t && t[n].hop == 1)
    && (forall d <- t :: d !in q ==> Done(own, topo, t, d))
    && (q != [] ==> forall d <- t :: t[d].hop <= t[q[0]].hop + 1)
  }

  /** The search while the advertisements of `u` are visited in key order. */
  ghost predicate Expanding(own: Addr, n1: set<Addr>, topo: Topology, t: Table, q: seq<Addr>, u: Addr, it: Option<Addr>) {
    && Sound(own, n1, topo, t) && Ordered(t, q) && u in t && u in topo && u != own
    && (forall n <- n1 :: n in t && t[n].hop == 1)
    && (forall d <- t :: d !in q && d != u ==> Done(own, topo, t, d))
    && (forall d <- t :: t[d].hop <= t[u].hop + 1)
    && (forall d <- q :: t[u].hop <= t[d].hop)
    && (forall v <- topo[u] :: v != own && Seen(it, v) ==> v in t)
  }

  lemma {:induction false} AddSound(own: Addr, n1: set<Addr>, topo: Topology, t: Table, u: Addr, v: Addr)
    requires Sound(own, n1, topo, t) && u in t && v !in t && Edge(own, topo, u, v)
    ensures Sound(own, n1, topo, t[v := Route(t[u].hop + 1, t[u].path + [v])])
  {
    var r := Route(t[u].hop + 1, t[u].path + [v]);
    var t' := t[v := r];
    assert EntryOk(own, n1, topo, t, u);
    assert r.path[..r.hop - 1] == t[u].path;
    forall d <- t' ensures EntryOk(own, n1, topo, t', d) {
      if d == v {
        assert Walk(own, n1, topo, r.path);
      } else {
        assert EntryOk(own, n1, topo, t, d);
      }
    }
  }

  lemma {:induction false} AddRoute(own: Addr, n1: set<Addr>, topo: Topology, t: Table, q: seq<Addr>, u: Addr, v: Addr)
    requires Expanding(own, n1, topo, t, q, u, Some(v)) && v in topo[u] && v != own && v !in t
    ensures Expanding(own, n1, topo, t[v := Route(t[u].hop + 1, t[u].path + [v])], q + [v], u, Next(topo[u].Keys, v))
  {
    var t' := t[v := Route(t[u].hop + 1, t[u].path + [v])];
    AddSound(own, n1, topo, t, u, v);
    assert forall d | d in t && Done(own, topo, t, d) :: Done(own, topo, t', d);
    assert v in q + [v];
    Step(topo[u].Keys, v);
  }

  lemma {:induction false} SkipRoute(own: Addr, n1: set<Addr>, topo: Topology, t: Table, q: seq<Addr>, u: Addr, v: Addr)
    requires Expanding(own, n1, topo, t, q, u, Some(v)) && v in topo[u] && (v == own || v in t)
    ensures Expanding(own, n1, topo, t, q, u, Next(topo[u].Keys, v))
  {
    Step(topo[u].Keys, v);
  }

  lemma {:induction false} Expanded(own: Addr, n1: set<Addr>, topo: Topology, t: Table, q: seq<Addr>, u: Addr)
    requires Expanding(own, n1, topo, t, q, u, None)
    ensures Searching(own, n1, topo, t, q)
  {
    assert Done(own, topo, t, u);
  }

  lemma {:induction false} PopRoute(own: Addr, n1: set<Addr>, topo: Topology, t: Table, q: seq<Addr>)
    requires Searching(own, n1, topo, t, q) && q != []
    ensures q[0] in topo && q[0] != own ==> Expanding(own, n1, topo, t, q[1..], q[0], First(topo[q[0]].Keys))
    ensures q[0] !in topo || q[0] == own ==> Searching(own, n1, topo, t, q[1..])
  {
    assert forall d <- t :: d !in q[1..] && d != q[0] ==> d !in q;
    assert q[0] !in topo || q[0] == own ==> Done(own, topo, t, q[0]);
    assert q[1..] != [] ==> t[q[0]].hop <= t[q[1..][0]].hop;
  }

  lemma {:induction false} SearchEnds(own: Addr, n1: set<Addr>, topo: Topology, t: Table)
    requires Searching(own, n1, topo, t, [])
    ensures Shortest(own, n1, topo, t)
  {
    forall w | Walk(own, n1, topo, w) ensures Last(w) in t && t[Last(w)].hop <= |w| {
      AllReached(own, n1, topo, t, w);
    }
  }

  /** Addresses the search has not reached yet: each enqueuing removes one. */
  ghost function Unreached(known: set<Addr>, t: Table): set<Addr> { known - t.Keys }

  method RoutingTableAddOneHopNeigh(ctx: OlsrContext) returns (q: seq<Addr>)
    requires ctx.routingTable == map[]
    modifies ctx`routingTable
    ensures Searching(ctx.ownIp, N1(ctx.neighborTree), ctx.topology, ctx.routingTable, q)
    ensures ctx.routingTable.Keys == N1(ctx.neighborTree)
  {
    q := [];
    var nelem := First(ctx.neighborTree.Keys);
    while nelem.Some?
      invariant nelem.Some? ==> nelem.value in ctx.neighborTree
      invariant ctx.routingTable.Keys == set a <- N1(ctx.neighborTree) | Seen(nelem, a)
      invariant forall a <- ctx.routingTable :: ctx.routingTable[a] == Route(1, [a]) && a in q
      invariant forall a <- q :: a in ctx.routingTable
      decreases Left(ctx.neighborTree.Keys, nelem)
    {
      var a := nelem.value;
      if Symmetric(ctx.neighborTree[a]) {
        ctx.routingTable := ctx.routingTable[a := Route(1, [a])];
        q := q + [a];
      }
      Step(ctx.neighborTree.Keys, a);
      nelem := Next(ctx.neighborTree.Keys, a);
    }
  }

  /** The queue loop. */
  method Search(ctx: OlsrContext, start: seq<Addr>, ghost n1: set<Addr>, ghost known: set<Addr>)
    requires Searching(ctx.ownIp, n1, ctx.topology, ctx.routingTable, start)
    requires ctx.routingTable.Keys <= known && forall u <- ctx.topology :: ctx.topology[u].Keys <= known
    modifies ctx`routingTable
    ensures Shortest(ctx.ownIp, n1, ctx.topology, ctx.routingTable) && ctx.routingTable.Keys <= known
    ensures forall d <- ctx.routingTable :: forall a <- ctx.routingTable[d].path :: a in known
  {
    var visitQueue := start;
    while visitQueue != []
      invariant Searching(ctx.ownIp, n1, ctx.topology, ctx.routingTable, visitQueue)
      invariant ctx.routingTable.Keys <= known
      decreases |Unreached(known, ctx.routingTable)| + |visitQueue|
    {
      PopRoute(ctx.ownIp, n1, ctx.topology, ctx.routingTable, visitQueue);
      var curr := visitQueue[0];
      visitQueue := visitQueue[1..];
      if curr == ctx.ownIp {
        continue;
      }
      if curr !in ctx.topology {
        continue;
      }
      visitQueue := Expand(ctx, curr, visitQueue, n1, known);
    }
    SearchEnds(ctx.ownIp, n1, ctx.topology, ctx.routingTable);
    forall d, a | d in ctx.routingTable && a in ctx.routingTable[d].path ensures a in known {
      assert EntryOk(ctx.ownIp, n1, ctx.topology, ctx.routingTable, d);
      var i :| 0 <= i < |ctx.routingTable[d].path| && ctx.routingTable[d].path[i] == a;
      PrefixEntry(ctx.ownIp, n1, ctx.topology, ctx.routingTable, d, i + 1);
    }
  }

  /** Visits what `curr` advertises; new destinations go to the end of the queue. */
  method Expand(ctx: OlsrContext, curr: Addr, q0: seq<Addr>, ghost n1: set<Addr>, ghost known: set<Addr>)
    returns (q: seq<Addr>)
    requires curr in ctx.topology
    requires Expanding(ctx.ownIp, n1, ctx.topology, ctx.routingTable, q0, curr, First(ctx.topology[curr].Keys))
    requires ctx.routingTable.Keys <= known && ctx.topology[curr].Keys <= known
    modifies ctx`routingTable
    ensures Searching(ctx.ownIp, n1, ctx.topology, ctx.routingTable, q)
    ensures ctx.routingTable.Keys <= known
    ensures |Unreached(known, ctx.routingTable)| + |q| == |Unreached(known, old(ctx.routingTable))| + |q0|
  {
    q := q0;
    var aelem := First(ctx.topology[curr].Keys);
    while aelem.Some?
      invariant aelem.Some? ==> aelem.value in ctx.topology[curr]
      invariant Expanding(ctx.ownIp, n1, ctx.topology, ctx.routingTable, q, curr, aelem)
      invariant ctx.routingTable.Keys <= known
      invariant |Unreached(known, ctx.routingTable)| + |q| == |Unreached(known, old(ctx.routingTable))| + |q0|
      decreases Left(ctx.topology[curr].Keys, aelem)
    {
      q := Visit(ctx, curr, aelem.value, q, n1, known);
      Step(ctx.topology[curr].Keys, aelem.value);
      aelem := Next(ctx.topology[curr].Keys, aelem.value);
    }
    Expanded(ctx.ownIp, n1, ctx.topology, ctx.routingTable, q, curr);
  }

  method Visit(ctx: OlsrContext, curr: Addr, a: Addr, q0: seq<Addr>, ghost n1: set<Addr>, ghost known: set<Addr>)
    returns (q: seq<Addr>)
    requires curr in ctx.topology && a in ctx.topology[curr]
    requires Expanding(ctx.ownIp, n1, ctx.topology, ctx.routingTable, q0, curr, Some(a))
    requires ctx.routingTable.Keys <= known && ctx.topology[curr].Keys <= known
    modifies ctx`routingTable
    ensures Expanding(ctx.ownIp, n1, ctx.topology, ctx.routingTable, q, curr, Next(ctx.topology[curr].Keys, a))
    ensures ctx.routingTable.Keys <= known
    ensures |Unreached(known, ctx.routingTable)| + |q| == |Unreached(known, old(ctx.routingTable))| + |q0|
  {
    q := q0;
    if a == ctx.ownIp || a in ctx.routingTable {
      SkipRoute(ctx.ownIp, n1, ctx.topology, ctx.routingTable, q, curr, a);
    } else {
      AddRoute(ctx.ownIp, n1, ctx.topology, ctx.routingTable, q, curr, a);
      var entry := Route(ctx.routingTable[curr].hop + 1, ctx.routingTable[curr].path + [a]);
      assert Unreached(known, ctx.routingTable[a := entry]) == Unreached(known, ctx.routingTable) - {a};
      ctx.routingTable := ctx.routingTable[a := entry];
      q := q + [a];
    }
  }

  // ----- the route reports

  /** The report of a destination is the current entry, hop count 0 standing for no route. */
  ghost predicate Mirror(reports: map<Addr, RoutingInfo>, t: Table) {
    && t.Keys <= reports.Keys
    && forall d <- reports :: reports[d].hopCount == (if d in t then t[d].hop else 0)
                           && reports[d].path == (if d in t then t[d].path else [])
  }

  ghost function EntryOf(t: Table, d: Addr): Option<Route> {
    if d in t then Some(t[d]) else None
  }

  /** `after` is what the reports become when the table changes from `t` to `t'`. */
  ghost predicate Reported(before: map<Addr, RoutingInfo>, after: map<Addr, RoutingInfo>, t: Table, t': Table) {
    && after.Keys == before.Keys + t'.Keys
    && Mirror(after, t')
    && forall d <- after :: after[d].dirty <==> (d in before && before[d].dirty) || EntryOf(t, d) != EntryOf(t', d)
  }

  /** Compares two routes to the same destination element by element, over the length of the new one. */
  method RouteChanged(newEntry: Route, oldEntry: Route, ghost d: Addr) returns (changed: bool)
    requires TidyRoute(newEntry, d) && TidyRoute(oldEntry, d)
    ensures changed <==> newEntry != oldEntry
  {
    changed := false;
    var i := 0;
    while i < newEntry.hop
      invariant i <= newEntry.hop && i <= oldEntry.hop
      invariant forall j | 0 <= j < i :: newEntry.path[j] == oldEntry.path[j]
    {
      assert i > 0 ==> newEntry.path[i - 1] != Last(newEntry.path);
      if newEntry.path[i] != oldEntry.path[i] {
        return true;
      }
      i := i + 1;
    }
    assert oldEntry.path[newEntry.hop - 1] == Last(newEntry.path);
    assert newEntry.path == oldEntry.path;
  }

  /** Reports of destinations visited by an iteration that stands at `it`; the others are still as before. */
  ghost predicate Disconnecting(before: map<Addr, RoutingInfo>, now: map<Addr, RoutingInfo>, t: Table, t': Table, it: Option<Addr>) {
    && now.Keys == before.Keys
    && forall d <- before ::
         now[d] == if d in t && d !in t' && Seen(it, d) then RoutingInfo(0, [], true) else before[d]
  }

  method UpdateRouteInfoDisconnected(ctx: OlsrContext, oldTable: Table, newTable: Table)
    requires ctx.StatsOk() && Mirror(ctx.Reports(), oldTable)
    modifies ctx`nodeStatTree, ctx`nodeInfo, ctx`nodeStatsNum
    ensures ctx.StatsOk() && Disconnecting(old(ctx.Reports()), ctx.Reports(), oldTable, newTable, None)
  {
    ghost var before, now := ctx.Reports(), ctx.Reports();
    var oldEntry := First(oldTable.Keys);
    while oldEntry.Some?
      invariant oldEntry.Some? ==> oldEntry.value in oldTable
      invariant ctx.StatsOk() && now == ctx.Reports() && Disconnecting(before, now, oldTable, newTable, oldEntry)
      decreases Left(oldTable.Keys, oldEntry)
    {
      var d := oldEntry.value;
      DisconnectStep(before, now, oldTable, newTable, d);
      Step(oldTable.Keys, d);
      if d !in newTable {
        ReportDisconnected(ctx, d);
        now := now[d := RoutingInfo(0, [], true)];
      }
      oldEntry := Next(oldTable.Keys, d);
    }
  }

  lemma {:induction false} DisconnectStep(before: map<Addr, RoutingInfo>, now: map<Addr, RoutingInfo>, t: Table, t': Table, d: Addr)
    requires Mirror(before, t) && Disconnecting(before, now, t, t', Some(d)) && d in t
    ensures d in now
    ensures Disconnecting(before, if d in t' then now else now[d := RoutingInfo(0, [], true)], t, t', Next(t.Keys, d))
  {
    Step(t.Keys, d);
  }

  method ReportDisconnected(ctx: OlsrContext, d: Addr)
    requires ctx.StatsOk() && d in ctx.nodeStatTree
    modifies ctx`nodeStatTree, ctx`nodeInfo, ctx`nodeStatsNum
    ensures ctx.StatsOk() && ctx.Reports() == old(ctx.Reports())[d := RoutingInfo(0, [], true)]
  {
    var nstat := GetNeighborStatBuf(ctx, d);
    SetRouting(ctx, nstat, ctx.nodeInfo[nstat].routing.(hopCount := 0, dirty := true), d);
  }

  /** Reports while the new entries are visited; `mid` is how they were before that. */
  ghost predicate Changing(mid: map<Addr, RoutingInfo>, now: map<Addr, RoutingInfo>, t: Table, t': Table, it: Option<Addr>) {
    && now.Keys == mid.Keys + (set d <- t' | Seen(it, d) && EntryOf(t, d) != Some(t'[d]))
    && forall d <- now ::
         if d in t' && Seen(it, d) && EntryOf(t, d) != Some(t'[d]) then now[d] == RoutingInfo(t'[d].hop, t'[d].path, true)
         else d in mid && now[d] == mid[d]
  }

  method UpdateRouteInfoChanged(ctx: OlsrContext, oldTable: Table, newTable: Table)
    requires ctx.StatsOk() && Tidy(oldTable) && Tidy(newTable)
    requires forall d <- newTable :: d in ctx.world && newTable[d].hop <= MAX_HOP_COUNT
    modifies ctx`nodeStatTree, ctx`nodeInfo, ctx`nodeStatsNum
    ensures ctx.StatsOk() && Changing(old(ctx.Reports()), ctx.Reports(), oldTable, newTable, None)
  {
    ghost var mid, now := ctx.Reports(), ctx.Reports();
    var newEntry := First(newTable.Keys);
    while newEntry.Some?
      invariant newEntry.Some? ==> newEntry.value in newTable
      invariant ctx.StatsOk() && now == ctx.Reports() && Changing(mid, now, oldTable, newTable, newEntry)
      decreases Left(newTable.Keys, newEntry)
    {
      var d := newEntry.value;
      ChangeStep(mid, now, oldTable, newTable, d);
      Step(newTable.Keys, d);
      newEntry := Next(newTable.Keys, d);
      if d in oldTable {
        var changed := RouteChanged(newTable[d], oldTable[d], d);
        if !changed {
          continue;
        }
      }
      ReportRoute(ctx, d, newTable[d]);
      now := now[d := RoutingInfo(newTable[d].hop, newTable[d].path, true)];
    }
  }

  lemma {:induction false} ChangeStep(mid: map<Addr, RoutingInfo>, now: map<Addr, RoutingInfo>, t: Table, t': Table, d: Addr)
    requires Changing(mid, now, t, t', Some(d)) && d in t'
    ensures Changing(mid, if EntryOf(t, d) == Some(t'[d]) then now else now[d := RoutingInfo(t'[d].hop, t'[d].path, true)],
                     t, t', Next(t'.Keys, d))
  {
    Step(t'.Keys, d);
  }

  /** Writes one new route into its report. */
  method ReportRoute(ctx: OlsrContext, d: Addr, entry: Route)
    requires ctx.StatsOk() && d in ctx.world
    requires entry.hop == |entry.path| <= MAX_HOP_COUNT
    modifies ctx`nodeStatTree, ctx`nodeInfo, ctx`nodeStatsNum
    ensures ctx.StatsOk()
    ensures ctx.Reports() == old(ctx.Reports())[d := RoutingInfo(entry.hop, entry.path, true)]
  {
    ghost var before := ctx.Reports();
    var nstat := GetNeighborStatBuf(ctx, d);
    Overwrite(before, ctx.Reports(), d, RoutingInfo(entry.hop, entry.path, true));
    var path := WritePath(ctx.nodeInfo[nstat].routing.path, entry.path);
    SetRouting(ctx, nstat, RoutingInfo(entry.hop, path, true), d);
  }

  lemma {:induction false} Overwrite(before: map<Addr, RoutingInfo>, mid: map<Addr, RoutingInfo>, d: Addr, r: RoutingInfo)
    requires mid == before || mid == before[d := RoutingInfo(0, [], false)]
    ensures mid[d := r] == before[d := r]
  {
  }

  /** The fixed path array after the route has been written to its front. */
  method WritePath(before: seq<Addr>, route: seq<Addr>) returns (path: seq<Addr>)
    requires |route| <= |before|
    ensures |path| == |before| && path[..|route|] == route
  {
    path := before;
    for entryIdx := 0 to |route|
      invariant |path| == |before| && path[..entryIdx] == route[..entryIdx]
    {
      path := path[entryIdx := route[entryIdx]];
    }
  }

  lemma {:induction false} UpdateReports(before: map<Addr, RoutingInfo>, mid: map<Addr, RoutingInfo>, after: map<Addr, RoutingInfo>, t: Table, t': Table)
    requires Mirror(before, t) && Tidy(t) && Tidy(t')
    requires Disconnecting(before, mid, t, t', None) && Changing(mid, after, t, t', None)
    ensures Reported(before, after, t, t')
  {
    forall d ensures d in after <==> d in before || d in t' {
      if d in t' && EntryOf(t, d) == Some(t'[d]) {
        assert d in before;
      }
    }
    forall d <- after
      ensures after[d].hopCount == (if d in t' then t'[d].hop else 0) && after[d].path == (if d in t' then t'[d].path else [])
      ensures after[d].dirty <==> (d in before && before[d].dirty) || EntryOf(t, d) != EntryOf(t', d)
    {
      UpdateReport(before, mid, after, t, t', d);
    }
  }

  lemma {:induction false} UpdateReport(before: map<Addr, RoutingInfo>, mid: map<Addr, RoutingInfo>, after: map<Addr, RoutingInfo>, t: Table, t': Table, d: Addr)
    requires Mirror(before, t) && d in after
    requires Disconnecting(before, mid, t, t', None) && Changing(mid, after, t, t', None)
    ensures after[d].hopCount == (if d in t' then t'[d].hop else 0) && after[d].path == (if d in t' then t'[d].path else [])
    ensures after[d].dirty <==> (d in before && before[d].dirty) || EntryOf(t, d) != EntryOf(t', d)
  {
  }

  // ----- the calculation

  /** Neighbours, originators and advertised addresses are among the addresses the node ever meets. */
  ghost predicate Fits(ctx: OlsrContext)
    reads ctx`neighborTree, ctx`topology
  {
    && |ctx.world| <= MAX_NODE_COUNT
    && ctx.neighborTree.Keys <= ctx.world && ctx.topology.Keys <= ctx.world
    && forall u <- ctx.topology :: ctx.topology[u].Keys <= ctx.world
  }

  /** What holds between two calculations. */
  ghost predicate Ready(ctx: OlsrContext)
    reads ctx`topology, ctx`routingTable, ctx`nodeStatTree, ctx`nodeInfo, ctx`nodeStatsNum
  {
    ctx.StatsOk() && Plain(ctx.topology) && Tidy(ctx.routingTable) && Mirror(ctx.Reports(), ctx.routingTable)
  }

  /** The routing table is the right one for the current neighbours and topology database. */
  ghost predicate Fresh(ctx: OlsrContext)
    reads ctx`neighborTree, ctx`topology, ctx`routingTable
  {
    Correct(ctx.ownIp, N1(ctx.neighborTree), ctx.topology, ctx.routingTable)
  }

  /** The table is the right one but for what the originators in `silent` would add, which advertise nothing. */
  ghost predicate CorrectBut(own: Addr, n1: set<Addr>, topo: Topology, t: Table, silent: set<Addr>) {
    (forall m <- silent :: m in topo && topo[m] == map[]) && Correct(own, n1, topo - silent, t)
  }

  /** How current a routing table is between two events: a new originator that advertises nothing starts no calculation. */
  ghost predicate Current(own: Addr, n1: set<Addr>, topo: Topology, t: Table) {
    exists silent: set<Addr> {:trigger CorrectBut(own, n1, topo, t, silent)} :: CorrectBut(own, n1, topo, t, silent)
  }

  lemma {:induction false} CorrectIsCurrent(own: Addr, n1: set<Addr>, topo: Topology, t: Table)
    requires Correct(own, n1, topo, t)
    ensures Current(own, n1, topo, t)
  {
    assert topo - {} == topo;
    assert CorrectBut(own, n1, topo, t, {});
  }

  lemma {:induction false} SilentOriginator(own: Addr, n1: set<Addr>, topo: Topology, t: Table, orig: Addr)
    requires Current(own, n1, topo, t) && orig !in topo
    ensures Current(own, n1, topo[orig := map[]], t)
  {
    var silent: set<Addr> :| CorrectBut(own, n1, topo, t, silent);
    assert topo[orig := map[]] - (silent + {orig}) == topo - silent;
    assert CorrectBut(own, n1, topo[orig := map[]], t, silent + {orig});
  }

  method CalcRoutingTable(ctx: OlsrContext)
    requires Ready(ctx) && Fits(ctx)
    modifies ctx`topology, ctx`routingTable, ctx`nodeStatTree, ctx`nodeInfo, ctx`nodeStatsNum
    ensures Ready(ctx)
    ensures ctx.topology == old(ctx.topology)
    ensures Fresh(ctx)
    ensures Reported(old(ctx.Reports()), ctx.Reports(), old(ctx.routingTable), ctx.routingTable)
  {
    var oldTable := ctx.routingTable;
    BuildTable(ctx);
    UpdateRouteInfo(ctx, oldTable, ctx.routingTable);
  }

  /** The calculation up to the reports: the database is symmetric only meanwhile. */
  method BuildTable(ctx: OlsrContext)
    requires Plain(ctx.topology) && Fits(ctx)
    modifies ctx`topology, ctx`routingTable
    ensures ctx.topology == old(ctx.topology)
    ensures Correct(ctx.ownIp, N1(ctx.neighborTree), ctx.topology, ctx.routingTable) && Tidy(ctx.routingTable)
    ensures forall d <- ctx.routingTable :: d in ctx.world && ctx.routingTable[d].hop <= MAX_HOP_COUNT
  {
    ghost var topo := ctx.topology;
    ctx.routingTable := map[];
    DuplicateNeighInfo(ctx);
    ExtendedWithin(ctx.ownIp, topo, ctx.topology, ctx.world);
    var visitQueue := RoutingTableAddOneHopNeigh(ctx);
    Search(ctx, visitQueue, N1(ctx.neighborTree), ctx.world);
    CorrectFromExtended(ctx.ownIp, N1(ctx.neighborTree), topo, ctx.topology, ctx.routingTable);
    TidyFromSound(ctx.ownIp, N1(ctx.neighborTree), ctx.topology, ctx.routingTable);
    TableFits(ctx.routingTable, ctx.world);
    forall u <- topo ensures |Copies(ctx.ownIp, topo, u)| <= MAX_DUPLICATES {
      SubsetSize(Copies(ctx.ownIp, topo, u), ctx.world);
    }
    UnduplicateNeighInfo(ctx, topo);
  }

  method UpdateRouteInfo(ctx: OlsrContext, oldTable: Table, newTable: Table)
    requires ctx.StatsOk() && Mirror(ctx.Reports(), oldTable) && Tidy(oldTable) && Tidy(newTable)
    requires forall d <- newTable :: d in ctx.world && newTable[d].hop <= MAX_HOP_COUNT
    modifies ctx`nodeStatTree, ctx`nodeInfo, ctx`nodeStatsNum
    ensures ctx.StatsOk() && Reported(old(ctx.Reports()), ctx.Reports(), oldTable, newTable)
  {
    ghost var before := ctx.Reports();
    UpdateRouteInfoDisconnected(ctx, oldTable, newTable);
    ghost var mid := ctx.Reports();
    UpdateRouteInfoChanged(ctx, oldTable, newTable);
    UpdateReports(before, mid, ctx.Reports(), oldTable, newTable);
  }

  lemma {:induction false} ExtendedWithin(own: Addr, topo: Topology, now: Topology, world: set<Addr>)
    requires Extended(own, topo, now, None, None)
    requires topo.Keys <= world && forall u <- topo :: topo[u].Keys <= world
    ensures forall u <- now :: now[u].Keys <= world
  {
  }

  /** No route is longer than there are addresses. */
  lemma {:induction false} TableFits(t: Table, world: set<Addr>)
    requires Tidy(t) && forall d <- t :: forall a <- t[d].path :: a in world
    ensures forall d <- t :: t[d].hop <= |world|
  {
    forall d <- t ensures t[d].hop <= |world| {
      assert TidyRoute(t[d], d);
      SimpleLength(t[d].path, world);
    }
  }
}
