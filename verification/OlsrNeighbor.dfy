module OlsrNeighbor {
  import opened AddrTree
  import opened OlsrContext
  import opened OlsrSpf

  /** The routing side is ready for a calculation and the table is current. */
  ghost predicate RoutedNow(ctx: OlsrContext, k: int)
    reads ctx`neighborTree, ctx`topology, ctx`routingTable, ctx`nodeStatTree, ctx`nodeInfo, ctx`nodeStatsNum
  {
    Ready(ctx) && Fits(ctx) && Current(ctx.ownIp, N1(ctx.neighborTree), ctx.topology, ctx.routingTable)
  }

  /** What every change of the neighbour set keeps. The quantifier keeps the definition folded in longer proofs. */
  ghost predicate Routed(ctx: OlsrContext)
    reads ctx`neighborTree, ctx`topology, ctx`routingTable, ctx`nodeStatTree, ctx`nodeInfo, ctx`nodeStatsNum
  {
    forall k {:trigger RoutedNow(ctx, k)} :: RoutedNow(ctx, k)
  }

  method Recalculate(ctx: OlsrContext)
    requires Ready(ctx) && Fits(ctx)
    modifies ctx`topology, ctx`routingTable, ctx`nodeStatTree, ctx`nodeInfo, ctx`nodeStatsNum
    ensures Routed(ctx) && Fresh(ctx) && ctx.topology == old(ctx.topology)
  {
    CalcRoutingTable(ctx);
    CorrectIsCurrent(ctx.ownIp, N1(ctx.neighborTree), ctx.topology, ctx.routingTable);
    assert RoutedNow(ctx, 0);
  }

  /** Sets the status and makes the routes right; a status that stays changes nothing at all. */
  method SetNeighborStatus(ctx: OlsrContext, a: Addr, status: nat)
    requires Routed(ctx) && a in ctx.neighborTree
    modifies ctx`neighborTree, ctx`topology, ctx`routingTable, ctx`nodeStatTree, ctx`nodeInfo, ctx`nodeStatsNum
    ensures Routed(ctx) && ctx.topology == old(ctx.topology)
    ensures ctx.neighborTree == old(ctx.neighborTree)[a := old(ctx.neighborTree)[a].(status := status)]
    ensures old(ctx.neighborTree)[a].status != status ==> Fresh(ctx)
    ensures old(ctx.neighborTree)[a].status == status ==> unchanged(ctx)
  {
    assert RoutedNow(ctx, 0);
    if ctx.neighborTree[a].status != status {
      ctx.neighborTree := ctx.neighborTree[a := ctx.neighborTree[a].(status := status)];
      Recalculate(ctx);
    }
  }
}
