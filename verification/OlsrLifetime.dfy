module OlsrLifetime {
  import opened AddrTree
  import opened OlsrContext
  import opened OlsrProto
  import opened OlsrHelloCodec
  import opened OlsrLink
  import opened OlsrHello
  import opened OlsrTc

  // ----- one entry

  /** What happens to an entry with a timer: news confirms it until an instant, or its timer is due and it goes, or neither. */
  datatype Change = Renew(until: nat) | Go(now: nat) | Keep

  ghost predicate Changes(was: Option<nat>, c: Change, now: Option<nat>) {
    match c
    case Renew(until) => now == Some(until)
    case Go(at) => was.Some? && was.value <= at && now == None
    case Keep => now == was
  }

  /** When the entry is due to go, if it exists, before and after each change. */
  ghost predicate Lives(h: seq<Option<nat>>, cs: seq<Change>) {
    && |h| == |cs| + 1
    && forall j | 0 <= j < |cs| :: Changes(h[j], cs[j], h[j + 1])
  }

  ghost predicate NoneBetween(cs: seq<Change>, i: int, n: int) {
    forall j | i < j < n && 0 <= j < |cs| :: !cs[j].Renew?
  }

  /** An entry that was confirmed until `until` is due then, and does not go before. */
  lemma {:induction false} EntryExactly(h: seq<Option<nat>>, cs: seq<Change>, i: nat, n: nat, now: nat)
    requires Lives(h, cs) && i < n <= |cs| && cs[i].Renew? && NoneBetween(cs, i, n)
    requires forall j | i < j < n && cs[j].Go? :: cs[j].now <= now
    ensures h[n].Some? ==> h[n].value == cs[i].until
    ensures now < cs[i].until ==> h[n].Some?
    decreases n
  {
    if i + 1 < n {
      EntryExactly(h, cs, i, n - 1, now);
    }
  }

  // ----- the HELLOs that a node takes, and the expiry of what they confirmed

  datatype Event =
    | Taken(src: Addr, gs: seq<HelloInfo>, vtime: nat, now: nat)
    | LinkGone(a: Addr, now: nat)
    | SelectorGone(a: Addr, now: nat)
    | ReportGone(a: Addr, b: Addr, now: nat)

  predicate Rings(t: Option<Alarm>, now: nat) { t.Some? && t.value.active && t.value.due <= now }

  /** Each of the three timers of a link removes it. */
  predicate LinkDue(l: Link, now: nat) { Rings(l.symTimer, now) || Rings(l.asymTimer, now) || Rings(l.expireTimer, now) }

  ghost predicate Happens(own: Addr, l: Ledger, e: Event, l': Ledger) {
    match e
    case Taken(src, gs, vtime, now) => l' == LedgerAfter(l, own, src, src, gs, Until(now, vtime))
    case LinkGone(a, now) => a in l.links && LinkDue(l.links[a], now) && l' == l.(links := l.links - {a})
    case SelectorGone(a, now) => a in l.selectors && l.selectors[a] <= now && l' == l.(selectors := l.selectors - {a})
    case ReportGone(a, b, now) =>
      (a, b) in l.reports && l.reports[(a, b)] <= now && l' == l.(reports := l.reports - {(a, b)})
  }

  ghost predicate Run(own: Addr, ls: seq<Ledger>, es: seq<Event>) {
    |ls| == |es| + 1 && forall i: nat {:trigger es[i]} | i < |es| :: Happens(own, ls[i], es[i], ls[i + 1])
  }

  /** A HELLO of `a` that names this node as heard. */
  predicate Names(own: Addr, e: Event, a: Addr) { e.Taken? && e.src == a && Heard(CodeToMe(e.gs, own)) }

  function Expiry(e: Event): nat
    requires e.Taken?
  {
    Until(e.now, e.vtime)
  }

  // ----- links

  ghost predicate LinkHolds(l: Ledger, a: Addr, until: nat) {
    && a in l.links && l.links[a].status == SYM_LINK
    && LastsTo(l.links[a].symTimer, until) && LastsTo(l.links[a].asymTimer, until) && LastsTo(l.links[a].expireTimer, until)
  }

  predicate LastsTo(t: Option<Alarm>, until: nat) { t.Some? && t.value.due >= until }

  /** What a neighbour of this node sends: no LOST_LINK report, and what it says later is valid for longer. */
  ghost predicate Steady(own: Addr, es: seq<Event>, i: int, n: nat, a: Addr, until: nat) {
    forall j | i < j < n && 0 <= j < |es| && es[j].Taken? && es[j].src == a :: !Lost(CodeToMe(es[j].gs, own)) && Expiry(es[j]) >= until
  }

  /** After a HELLO that names this node the link is symmetric at least as long as the HELLO is valid. */
  lemma {:induction false} LinkStays(own: Addr, ls: seq<Ledger>, es: seq<Event>, i: nat, n: nat, a: Addr)
    requires Run(own, ls, es) && i < n <= |es| && Names(own, es[i], a) && Steady(own, es, i, n, a, Expiry(es[i]))
    requires forall j | i < j < n :: es[j].now < Expiry(es[i])
    ensures LinkHolds(ls[n], a, Expiry(es[i]))
    decreases n
  {
    var e := es[n - 1];
    assert Happens(own, ls[n - 1], e, ls[n]);
    if i + 1 < n {
      LinkStays(own, ls, es, i, n - 1, a);
    }
  }

  /** Of a link whose neighbour has been silent since, the timers are due as soon as its last HELLO is not valid any more. */
  lemma {:induction false} SilentLinkGoes(own: Addr, ls: seq<Ledger>, es: seq<Event>, i: nat, n: nat, a: Addr, now: nat)
    requires Run(own, ls, es) && i < n <= |es| && es[i].Taken? && es[i].src == a
    requires forall j | i < j < n && es[j].Taken? :: es[j].src != a
    ensures a in ls[n].links ==> ls[n].links[a].expireTimer == ls[n].links[a].asymTimer == Some(Alarm(true, Expiry(es[i])))
    ensures a in ls[n].links && Expiry(es[i]) <= now ==> LinkDue(ls[n].links[a], now)
    decreases n
  {
    var e := es[n - 1];
    assert Happens(own, ls[n - 1], e, ls[n]);
    if i + 1 < n {
      SilentLinkGoes(own, ls, es, i, n - 1, a, now);
    }
  }

  /** A link that is symmetric since a HELLO that named this node, the last one to do so: its third timer runs from that HELLO. */
  lemma {:induction false} UnnamedLinkGoes(own: Addr, ls: seq<Ledger>, es: seq<Event>, i: nat, n: nat, a: Addr, now: nat)
    requires Run(own, ls, es) && i < n <= |es| && Names(own, es[i], a)
    requires forall j | i < j < n :: !Names(own, es[j], a)
    ensures IsSym(ls[n].links, a) ==> ls[n].links[a].symTimer == Some(Alarm(true, Expiry(es[i])))
    ensures IsSym(ls[n].links, a) && Expiry(es[i]) <= now ==> LinkDue(ls[n].links[a], now)
    decreases n
  {
    var e := es[n - 1];
    assert Happens(own, ls[n - 1], e, ls[n]);
    if i + 1 < n {
      UnnamedLinkGoes(own, ls, es, i, n - 1, a, now);
    }
  }

  /** No timer is due that has not been served. */
  ghost predicate Served(l: Ledger, now: nat) {
    && (forall a <- l.links :: !LinkDue(l.links[a], now))
    && (forall a <- l.selectors :: now < l.selectors[a])
    && (forall x <- l.reports :: now < l.reports[x])
  }

  /** Once all timers due at `now` have been served, a link is symmetric exactly if the last HELLO that named this node is
      still valid. */
  lemma {:induction false} SymmetricExactly(own: Addr, ls: seq<Ledger>, es: seq<Event>, i: nat, n: nat, a: Addr, now: nat)
    requires Run(own, ls, es) && i < n <= |es| && Names(own, es[i], a) && Steady(own, es, i, n, a, Expiry(es[i]))
    requires forall j | i < j < n :: !Names(own, es[j], a) && es[j].now <= now
    requires Served(ls[n], now)
    ensures IsSym(ls[n].links, a) <==> now < Expiry(es[i])
  {
    UnnamedLinkGoes(own, ls, es, i, n, a, now);
    if now < Expiry(es[i]) {
      LinkStays(own, ls, es, i, n, a);
    }
  }

  /** Without such a HELLO a link does not become symmetric. */
  lemma {:induction false} NeverNamed(own: Addr, ls: seq<Ledger>, es: seq<Event>, n: nat, a: Addr)
    requires Run(own, ls, es) && n <= |es| && !IsSym(ls[0].links, a) && forall j | 0 <= j < n :: !Names(own, es[j], a)
    ensures !IsSym(ls[n].links, a)
  {
    if n > 0 {
      NeverNamed(own, ls, es, n - 1, a);
      assert Happens(own, ls[n - 1], es[n - 1], ls[n]);
    }
  }

  // ----- selectors and reports

  /** A HELLO of `a` that names this node as relay. */
  predicate Chooses(own: Addr, e: Event, a: Addr) {
    e.Taken? && e.src == a && CodeToMe(e.gs, own) != STATUS_UNAVAILABLE && ExtractStatus(CodeToMe(e.gs, own)) == MPR_NEIGH
  }

  function SelectorChange(own: Addr, e: Event, a: Addr): Change {
    if Chooses(own, e, a) then Renew(Expiry(e)) else if e.SelectorGone? && e.a == a then Go(e.now) else Keep
  }

  function Entry<K>(m: map<K, nat>, k: K): Option<nat> { if k in m then Some(m[k]) else None }

  lemma {:induction false} SelectorLives(own: Addr, ls: seq<Ledger>, es: seq<Event>, a: Addr) returns (h: seq<Option<nat>>, cs: seq<Change>)
    requires Run(own, ls, es)
    ensures |h| == |ls| && |cs| == |es| && Lives(h, cs)
    ensures (forall j | 0 <= j < |ls| :: h[j] == Entry(ls[j].selectors, a)) && forall j | 0 <= j < |es| :: cs[j] == SelectorChange(own, es[j], a)
  {
    h, cs := seq(|ls|, j requires 0 <= j < |ls| => Entry(ls[j].selectors, a)), seq(|es|, j requires 0 <= j < |es| => SelectorChange(own, es[j], a));
    forall j | 0 <= j < |es| ensures Happens(own, ls[j], es[j], ls[j + 1]) {}
  }

  /** Once all timers due at `now` have been served, the selectors are exactly the nodes whose last HELLO that chose this node
      is still valid. */
  lemma {:induction false} SelectorExactly(own: Addr, ls: seq<Ledger>, es: seq<Event>, i: nat, n: nat, a: Addr, now: nat)
    requires Run(own, ls, es) && i < n <= |es| && Chooses(own, es[i], a)
    requires forall j | i < j < n :: !Chooses(own, es[j], a) && es[j].now <= now
    requires Served(ls[n], now)
    ensures a in ls[n].selectors <==> now < Expiry(es[i])
  {
    var h, cs := SelectorLives(own, ls, es, a);
    EntryExactly(h, cs, i, n, now);
    assert h[n] == Entry(ls[n].selectors, a);
  }

  /** A HELLO of `a`, taken with the link symmetric, that lists `b`. */
  ghost predicate Reports(own: Addr, e: Event, l': Ledger, a: Addr, b: Addr) {
    e.Taken? && e.src == a && b != own && b in AllAddrs(e.gs) && IsSym(l'.links, a)
  }

  ghost function ReportChange(own: Addr, e: Event, l': Ledger, a: Addr, b: Addr): Change {
    if Reports(own, e, l', a, b) then Renew(Expiry(e)) else if e.ReportGone? && e.a == a && e.b == b then Go(e.now) else Keep
  }

  lemma {:induction false} ReportStep(own: Addr, l: Ledger, e: Event, l': Ledger, a: Addr, b: Addr)
    requires Happens(own, l, e, l')
    ensures Changes(Entry(l.reports, (a, b)), ReportChange(own, e, l', a, b), Entry(l'.reports, (a, b)))
  {
  }

  lemma {:induction false} ReportLives(own: Addr, ls: seq<Ledger>, es: seq<Event>, a: Addr, b: Addr)
    returns (h: seq<Option<nat>>, cs: seq<Change>)
    requires Run(own, ls, es)
    ensures |h| == |ls| && |cs| == |es| && Lives(h, cs) && forall j | 0 <= j < |ls| :: h[j] == Entry(ls[j].reports, (a, b))
    ensures forall j | 0 <= j < |es| :: cs[j] == ReportChange(own, es[j], ls[j + 1], a, b)
  {
    h := seq(|ls|, j requires 0 <= j < |ls| => Entry(ls[j].reports, (a, b)));
    cs := seq(|es|, j requires 0 <= j < |es| => ReportChange(own, es[j], ls[j + 1], a, b));
    forall j | 0 <= j < |es| ensures Changes(Entry(ls[j].reports, (a, b)), cs[j], Entry(ls[j + 1].reports, (a, b))) {
      ReportStep(own, ls[j], es[j], ls[j + 1], a, b);
    }
  }

  /** The same of two-hop neighbours: `b` is known to be reported by `a` exactly as long as the last such HELLO is valid. */
  lemma {:induction false} ReportExactly(own: Addr, ls: seq<Ledger>, es: seq<Event>, i: nat, n: nat, a: Addr, b: Addr, now: nat)
    requires Run(own, ls, es) && i < n <= |es| && Reports(own, es[i], ls[i + 1], a, b)
    requires forall j | i < j < n :: !Reports(own, es[j], ls[j + 1], a, b) && es[j].now <= now
    requires Served(ls[n], now)
    ensures (a, b) in ls[n].reports <==> now < Expiry(es[i])
  {
    var h, cs := ReportLives(own, ls, es, a, b);
    EntryExactly(h, cs, i, n, now);
    assert h[n] == Entry(ls[n].reports, (a, b));
  }

  /** Without such HELLOs there is no entry. */
  lemma {:induction false} Unfounded(own: Addr, ls: seq<Ledger>, es: seq<Event>, n: nat, a: Addr, b: Addr)
    requires Run(own, ls, es) && n <= |es|
    ensures a !in ls[0].selectors && (forall j | 0 <= j < n :: !Chooses(own, es[j], a)) ==> a !in ls[n].selectors
    ensures (a, b) !in ls[0].reports && (forall j | 0 <= j < n :: !Reports(own, es[j], ls[j + 1], a, b)) ==> (a, b) !in ls[n].reports
  {
    if n > 0 {
      Unfounded(own, ls, es, n - 1, a, b);
      assert Happens(own, ls[n - 1], es[n - 1], ls[n]);
    }
  }

  // ----- originators

  /** A TC of `orig` is taken, out of date or not, or the entry goes. */
  datatype TcEvent = TcSeen(orig: Addr, outdated: bool, vtime: nat, now: nat) | OriginatorGone(orig: Addr, now: nat)

  ghost predicate TcHappens(m: map<Addr, Holding>, e: TcEvent, m': map<Addr, Holding>) {
    match e
    case TcSeen(orig, outdated, vtime, now) => (outdated ==> orig in m) && m' == TimersAfter(m, orig, outdated, vtime, now)
    case OriginatorGone(orig, now) => orig in m && m[orig].due <= now && m' == m - {orig}
  }

  ghost predicate TcRun(ms: seq<map<Addr, Holding>>, es: seq<TcEvent>) {
    |ms| == |es| + 1 && forall i: nat {:trigger es[i]} | i < |es| :: TcHappens(ms[i], es[i], ms[i + 1])
  }

  predicate NewsOf(e: TcEvent, orig: Addr) { e.TcSeen? && e.orig == orig && !e.outdated }

  /** Every TC of `orig` is valid for `vtime`, as those of nodes that run this program are. */
  ghost predicate ValidFor(ms: seq<map<Addr, Holding>>, es: seq<TcEvent>, orig: Addr, vtime: nat) {
    && |ms| > 0 && (orig in ms[0] ==> ms[0][orig].vtime == vtime)
    && forall j | 0 <= j < |es| && es[j].TcSeen? && es[j].orig == orig :: es[j].vtime == vtime
  }

  function TcChange(e: TcEvent, orig: Addr, vtime: nat): Change {
    if NewsOf(e, orig) then Renew(Until(e.now, vtime)) else if e.OriginatorGone? && e.orig == orig then Go(e.now) else Keep
  }

  function DueOf(m: map<Addr, Holding>, orig: Addr): Option<nat> { if orig in m then Some(m[orig].due) else None }

  lemma {:induction false} HeldFor(ms: seq<map<Addr, Holding>>, es: seq<TcEvent>, orig: Addr, vtime: nat, n: nat)
    requires TcRun(ms, es) && ValidFor(ms, es, orig, vtime) && n <= |es|
    ensures orig in ms[n] ==> ms[n][orig].vtime == vtime
  {
    if n > 0 {
      HeldFor(ms, es, orig, vtime, n - 1);
      assert TcHappens(ms[n - 1], es[n - 1], ms[n]);
    }
  }

  /** An originator is in the database exactly as long as its last TC that was not out of date is valid. */
  lemma {:induction false} OriginatorExactly(ms: seq<map<Addr, Holding>>, es: seq<TcEvent>, i: nat, n: nat, orig: Addr, vtime: nat, now: nat)
    requires TcRun(ms, es) && ValidFor(ms, es, orig, vtime) && i < n <= |es| && NewsOf(es[i], orig)
    requires forall j | i < j < n :: !NewsOf(es[j], orig) && es[j].now <= now
    requires orig in ms[n] ==> now < ms[n][orig].due
    ensures orig in ms[n] <==> now < Until(es[i].now, vtime)
  {
    var h := seq(|ms|, j requires 0 <= j < |ms| => DueOf(ms[j], orig));
    var cs := seq(|es|, j requires 0 <= j < |es| => TcChange(es[j], orig, vtime));
    forall j: nat | j < |es| ensures TcHappens(ms[j], es[j], ms[j + 1]) && (orig in ms[j] ==> ms[j][orig].vtime == vtime) {
      HeldFor(ms, es, orig, vtime, j);
    }
    EntryExactly(h, cs, i, n, now);
    assert h[n] == DueOf(ms[n], orig);
  }
}
