module OlsrSetting {
  import opened AddrTree
  import opened OlsrGraph
  import opened OlsrContext
  import opened OlsrCover
  import OlsrMpr

  /** What each node has learned from HELLOs and what it has selected from it. */
  datatype Setting = Setting(tables: map<Addr, Neighbors>, mprs: map<Addr, set<Addr>>)

  ghost function Near(g: Setting, u: Addr): set<Addr> {
    if u in g.tables then N1(g.tables[u]) else {}
  }

  /** Node `u`'s tables are converged: its neighbours are its symmetric links, they have reported theirs, and its relays pass
      `MprOk`. */
  ghost predicate Learned(g: Setting, u: Addr) {
    && u in g.tables && u in g.mprs
    && (forall v <- Near(g, u) :: v != u && u in Near(g, v))
    && (forall a <- Near(g, u) :: g.tables[u][a].n2 == Near(g, a) - {u})
    && OlsrMpr.MprOk(u, g.tables[u], g.mprs[u])
  }

  ghost predicate AllLearned(g: Setting) {
    g.tables.Keys == g.mprs.Keys && forall u {:trigger Learned(g, u)} | u in g.tables :: Learned(g, u)
  }

  /** The nodes that chose `m` as their relay. */
  ghost function Selectors(g: Setting, m: Addr): set<Addr> {
    set w | w in g.mprs && m in g.mprs[w]
  }

  ghost predicate LinkPath(g: Setting, w: seq<Addr>) {
    |w| > 0 && forall i | 0 <= i < |w| - 1 :: w[i + 1] in Near(g, w[i])
  }

  ghost predicate Connected(g: Setting, u: Addr, v: Addr) {
    exists w :: LinkPath(g, w) && w[0] == u && Last(w) == v
  }

  /** Links join nodes, in both directions. */
  lemma {:induction false} NearNodes(g: Setting, u: Addr, v: Addr)
    requires AllLearned(g) && v in Near(g, u)
    ensures u in g.tables && v in g.tables && v != u && u in Near(g, v)
  {
    assert Learned(g, u);
  }

  /** A relay that `u` chose reaches `v`, which is two hops away through `w`. */
  lemma {:induction false} Bridge(g: Setting, u: Addr, w: Addr, v: Addr) returns (m: Addr)
    requires AllLearned(g) && w in Near(g, u) && v in Near(g, w) && v != u && v !in Near(g, u)
    ensures m in Near(g, u) && v in Near(g, m) && u in Selectors(g, m)
  {
    assert Learned(g, u);
    var nb := g.tables[u];
    assert w in Bridges(nb, v);
    assert Strict(u, nb, v);
    m :| m in g.mprs[u] && v in nb[m].n2;
  }
}
