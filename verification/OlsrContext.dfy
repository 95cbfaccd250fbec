module OlsrContext {
  import opened AddrTree
  import opened OlsrGraph

  const STATUS_UNAVAILABLE: nat := 255
  const NOT_NEIGH: nat := 0
  const SYM_NEIGH: nat := 1
  const MPR_NEIGH: nat := 2

  const MAX_NODE_COUNT: nat := 50
  const MAX_HOP_COUNT: nat := 50

  /** One neighbour: its status and the two-hop neighbours it reported. */
  datatype Neighbor = Neighbor(status: nat, n2: set<Addr>)

  /** A waiting timer as its entry sees it: whether its callback will be made, and when, in microseconds. */
  datatype Alarm = Alarm(active: bool, due: nat)

  /** When what is valid for `vtime` milliseconds from `now` on is over. */
  function Until(now: nat, vtime: nat): nat { now + vtime * 1000 }

  /** One link and its three timers, if they exist. */
  datatype Link = Link(status: nat, symTimer: Option<Alarm>, asymTimer: Option<Alarm>, expireTimer: Option<Alarm>)

  /** The timer of an originator: its interval, which the first TC sets for good, and when it is due. */
  datatype Holding = Holding(vtime: nat, due: nat)

  type Neighbors = map<Addr, Neighbor>

  type Links = map<Addr, Link>

  datatype RoutingInfo = RoutingInfo(hopCount: nat, path: seq<Addr>, dirty: bool)

  datatype NeighborInfo = NeighborInfo(addr: Addr, routing: RoutingInfo)

  predicate Symmetric(n: Neighbor) { n.status == SYM_NEIGH || n.status == MPR_NEIGH }

  function N1(neighbors: Neighbors): set<Addr> {
    set a <- neighbors | Symmetric(neighbors[a])
  }

  /** The statistics tree and the statistics array index each other. */
  ghost predicate Indexed(tree: map<Addr, nat>, info: seq<NeighborInfo>, n: nat) {
    && n <= MAX_NODE_COUNT == |info|
    && (forall d <- tree :: tree[d] < n && info[tree[d]].addr == d)
    && (forall i | 0 <= i < n :: info[i].addr in tree && tree[info[i].addr] == i)
    && (forall i | 0 <= i < |info| :: |info[i].routing.path| == MAX_HOP_COUNT && info[i].routing.hopCount <= MAX_HOP_COUNT)
    && (forall i | n <= i < |info| :: info[i].routing.hopCount == 0 && !info[i].routing.dirty)
  }

  ghost function ReportsOf(tree: map<Addr, nat>, info: seq<NeighborInfo>): map<Addr, RoutingInfo>
    requires forall d <- tree :: tree[d] < |info| && info[tree[d]].routing.hopCount <= |info[tree[d]].routing.path|
  {
    map d <- tree :: var r := info[tree[d]].routing; r.(path := r.path[..r.hopCount])
  }

  lemma {:induction false} AddIndexed(tree: map<Addr, nat>, info: seq<NeighborInfo>, n: nat, d: Addr)
    requires Indexed(tree, info, n) && n < MAX_NODE_COUNT && d !in tree
    ensures Indexed(tree[d := n], info[n := info[n].(addr := d)], n + 1)
    ensures ReportsOf(tree[d := n], info[n := info[n].(addr := d)]) == ReportsOf(tree, info)[d := RoutingInfo(0, [], false)]
  {
    var tree', info' := tree[d := n], info[n := info[n].(addr := d)];
    forall x <- tree ensures tree'[x] == tree[x] && info'[tree[x]] == info[tree[x]] {}
  }

  class OlsrContext {
    const ownIp: Addr
    /** Every address the node ever meets; the program's arrays hold fifty. */
    ghost const world: set<Addr>
    var neighborTree: Neighbors
    var linkTree: Links
    /** The nodes that chose this one as relay, and when each entry is due to go. */
    var selectorTree: map<Addr, nat>
    /** For each neighbour and each two-hop neighbour that it reported, when the report is due to go. */
    var neigh2Timers: map<(Addr, Addr), nat>
    var mprTree: set<Addr>
    var ansn: nat
    var topology: Topology
    /** The advertised sequence number each originator sent last. */
    var topologySeq: map<Addr, nat>
    var topologyTimers: map<Addr, Holding>
    var routingTable: Table
    var nodeStatTree: map<Addr, nat>
    var nodeInfo: seq<NeighborInfo>
    var nodeStatsNum: nat

    /** A node that has heard nothing yet. */
    constructor (own: Addr, ghost all: set<Addr>)
      requires |all| <= MAX_NODE_COUNT
      ensures ownIp == own && world == all
      ensures neighborTree == map[] && linkTree == map[] && topology == map[] && routingTable == map[]
      ensures topologySeq == map[] && topologyTimers == map[] && mprTree == {} && ansn == 0
      ensures selectorTree == map[] && neigh2Timers == map[]
      ensures StatsOk() && nodeStatTree == map[]
    {
      ownIp, world := own, all;
      neighborTree, linkTree, topology, routingTable := map[], map[], map[], map[];
      topologySeq, topologyTimers, mprTree, ansn := map[], map[], {}, 0;
      selectorTree, neigh2Timers := map[], map[];
      nodeStatTree, nodeStatsNum := map[], 0;
      nodeInfo := seq(MAX_NODE_COUNT, i => NeighborInfo(0, RoutingInfo(0, seq(MAX_HOP_COUNT, j => 0), false)));
    }

    ghost predicate StatsOk()
      reads `nodeStatTree, `nodeInfo, `nodeStatsNum
    {
      && Indexed(nodeStatTree, nodeInfo, nodeStatsNum)
      && |world| <= MAX_NODE_COUNT && nodeStatTree.Keys <= world
    }

    /** What the reporter reads for each destination: hop count, that many addresses, and the flag. */
    ghost function Reports(): map<Addr, RoutingInfo>
      reads `nodeStatTree, `nodeInfo, `nodeStatsNum
      requires StatsOk()
    {
      ReportsOf(nodeStatTree, nodeInfo)
    }
  }

  method GetNeighborStatBuf(ctx: OlsrContext, dest: Addr) returns (i: nat)
    requires ctx.StatsOk() && dest in ctx.world
    modifies ctx`nodeStatTree, ctx`nodeInfo, ctx`nodeStatsNum
    ensures ctx.StatsOk() && i < ctx.nodeStatsNum
    ensures dest in ctx.nodeStatTree && ctx.nodeStatTree[dest] == i
    ensures ctx.nodeStatTree.Keys == old(ctx.nodeStatTree.Keys) + {dest}
    ensures ctx.Reports() == if dest in old(ctx.nodeStatTree) then old(ctx.Reports())
                             else old(ctx.Reports())[dest := RoutingInfo(0, [], false)]
  {
    if dest in ctx.nodeStatTree {
      i := ctx.nodeStatTree[dest];
      return;
    }
    i := 0;
    while i < ctx.nodeStatsNum && ctx.nodeInfo[i].addr != dest
      invariant i <= ctx.nodeStatsNum
    {
      i := i + 1;
    }
    StatsCount(ctx.nodeStatTree, ctx.nodeInfo, ctx.nodeStatsNum, dest, ctx.world);
    AddIndexed(ctx.nodeStatTree, ctx.nodeInfo, ctx.nodeStatsNum, dest);
    if i == ctx.nodeStatsNum {
      ctx.nodeInfo := ctx.nodeInfo[i := ctx.nodeInfo[i].(addr := dest)];
      ctx.nodeStatsNum := i + 1;
    }
    ctx.nodeStatTree := ctx.nodeStatTree[dest := i];
  }

  /** There is room in the array for an address that is not in the tree. */
  lemma {:induction false} StatsCount(tree: map<Addr, nat>, info: seq<NeighborInfo>, n: nat, dest: Addr, world: set<Addr>)
    requires Indexed(tree, info, n) && tree.Keys <= world && dest in world && dest !in tree
    ensures n < |world|
  {
    var addrs := seq(n, i requires 0 <= i < n => info[i].addr);
    forall i, j | 0 <= i < j < n ensures addrs[i] != addrs[j] {
      assert tree[info[i].addr] == i && tree[info[j].addr] == j;
    }
    SimpleLength(addrs + [dest], world);
  }

  method SetRouting(ctx: OlsrContext, i: nat, r: RoutingInfo, ghost dest: Addr)
    requires ctx.StatsOk() && dest in ctx.nodeStatTree && ctx.nodeStatTree[dest] == i
    requires |r.path| == MAX_HOP_COUNT && r.hopCount <= MAX_HOP_COUNT
    modifies ctx`nodeInfo
    ensures ctx.StatsOk()
    ensures ctx.Reports() == old(ctx.Reports())[dest := r.(path := r.path[..r.hopCount])]
  {
    ctx.nodeInfo := ctx.nodeInfo[i := ctx.nodeInfo[i].(routing := r)];
  }
}
