module TimerQueue {
  import opened AddrTree

  type Ptr = nat

  // ----- time

  type Nanosecond = n: nat | n < 1_000_000_000

  datatype Time = Time(sec: nat, nsec: Nanosecond)

  function Ns(t: Time): nat { t.sec * 1_000_000_000 + t.nsec }

  function TimespecAddUsec(t: Time, usec: nat): (r: Time)
    ensures Ns(r) == Ns(t) + usec * 1000
  {
    var add := t.nsec + usec * 1000;
    Time(t.sec + add / 1_000_000_000, add % 1_000_000_000)
  }

  predicate CheckExpire(expiretime: Time, currtime: Time)
    ensures CheckExpire(expiretime, currtime) <==> Ns(expiretime) <= Ns(currtime)
  {
    if expiretime.sec == currtime.sec then expiretime.nsec <= currtime.nsec else expiretime.sec < currtime.sec
  }

  datatype TqKey = TqKey(expire: Time, ptr: Ptr)

  function CompareElem(k1: TqKey, k2: TqKey): int {
    if k1.expire.nsec == k2.expire.nsec && k1.expire.sec == k2.expire.sec then
      if k1.ptr > k2.ptr then 1 else if k1.ptr < k2.ptr then -1 else 0
    else if CheckExpire(k1.expire, k2.expire) then -1
    else 1
  }

  predicate Before(k1: TqKey, k2: TqKey) { CompareElem(k1, k2) < 0 }

  /** The comparison is a strict total order: earlier first, and among timers due together the lower address first. */
  lemma {:induction false} CompareIsOrder(a: TqKey, b: TqKey, c: TqKey)
    ensures Before(a, b) <==> Ns(a.expire) < Ns(b.expire) || (Ns(a.expire) == Ns(b.expire) && a.ptr < b.ptr)
    ensures CompareElem(a, b) == 0 <==> a == b
    ensures CompareElem(a, b) == -CompareElem(b, a)
    ensures Before(a, b) && Before(b, c) ==> Before(a, c)
  {
    SameNs(a.expire, b.expire);
    SameNs(b.expire, c.expire);
    SameNs(a.expire, c.expire);
  }

  lemma {:induction false} SameNs(t: Time, u: Time)
    ensures Ns(t) == Ns(u) ==> t == u
  {
  }

  // ----- timers

  datatype Timer = Timer(expire: Time, maxJitter: nat, active: bool, attached: bool, freeOnDetach: bool, interval: nat, useOnce: bool)

  datatype Firing = Firing(timer: Ptr, due: Time)

  /** The allocated timers, the tree of waiting ones, and all callbacks made so far. */
  datatype Queue = Queue(timers: map<Ptr, Timer>, rbt: set<Ptr>, fired: seq<Firing>)

  function KeyOf(q: Queue, p: Ptr): TqKey
    requires p in q.timers
  {
    TqKey(q.timers[p].expire, p)
  }

  /** Arming a timer never makes it due at once, and the program's `int` arithmetic does not overflow. */
  predicate Sane(t: Timer) {
    t.interval < 0x4000_0000 && t.maxJitter < 5_000_000 && (t.useOnce || t.interval > t.maxJitter)
  }

  ghost predicate TimerOk(q: Queue, self: Option<Ptr>, p: Ptr) {
    p in q.timers && Sane(q.timers[p])
    && (q.timers[p].attached <==> p in q.rbt || self == Some(p))
    && (q.timers[p].freeOnDetach ==> q.timers[p].attached && !q.timers[p].active)
  }

  /** `self` is the timer whose callback is running: out of the tree but still attached. */
  ghost predicate QueueOk(q: Queue, self: Option<Ptr>) {
    && q.rbt <= q.timers.Keys && (self.Some? ==> self.value in q.timers && self.value !in q.rbt)
    && forall p {:trigger TimerOk(q, self, p)} | p in q.timers :: TimerOk(q, self, p)
  }

  /** The earlier of `a` and `b` is before whatever `a` is before. */
  lemma {:induction false} EarlierOfTwo(a: TqKey, b: TqKey, c: TqKey)
    ensures !Before(a, b) && a != b ==> Before(b, a)
    ensures !Before(a, b) && Before(a, c) ==> b == a || Before(b, c)
  {
    CompareIsOrder(a, b, c);
    CompareIsOrder(b, a, c);
  }

  /** No timer of `s` comes before `f`. */
  predicate Leads(q: Queue, s: set<Ptr>, f: Ptr)
    requires s <= q.timers.Keys
  {
    f in s && forall p <- s :: p == f || Before(KeyOf(q, f), KeyOf(q, p))
  }

  lemma {:induction false} LeadsMore(q: Queue, s: set<Ptr>, x: Ptr, f: Ptr) returns (m: Ptr)
    requires s <= q.timers.Keys && x in s && Leads(q, s - {x}, f)
    ensures Leads(q, s, m)
  {
    m := if Before(KeyOf(q, f), KeyOf(q, x)) then f else x;
    forall p <- s ensures p == m || Before(KeyOf(q, m), KeyOf(q, p)) {
      EarlierOfTwo(KeyOf(q, f), KeyOf(q, x), KeyOf(q, p));
    }
  }

  lemma {:induction false} FirstExists(q: Queue, s: set<Ptr>)
    requires s != {} && s <= q.timers.Keys
    ensures exists f :: Leads(q, s, f)
  {
    var x :| x in s;
    if s == {x} {
      assert Leads(q, s, x);
    } else {
      FirstExists(q, s - {x});
      var f :| Leads(q, s - {x}, f);
      var m := LeadsMore(q, s, x, f);
    }
  }

  /** The first timer of the tree. */
  function Soonest(q: Queue): (f: Ptr)
    requires q.rbt != {} && q.rbt <= q.timers.Keys
    ensures f in q.rbt && forall p <- q.rbt :: p == f || Before(KeyOf(q, f), KeyOf(q, p))
  {
    FirstExists(q, q.rbt);
    var f :| f in q.rbt && Leads(q, q.rbt, f);
    f
  }

  // ----- operations of the interface

  function FreeTimer(q: Queue, p: Ptr): Queue
    requires p in q.timers
  {
    var t := q.timers[p].(active := false);
    if t.attached then q.(timers := q.timers[p := t.(freeOnDetach := true)]) else q.(timers := q.timers - {p})
  }

  function RegisterTimer(q: Queue, p: Ptr, now: Time): Queue
    requires p in q.timers
  {
    var t := q.timers[p];
    q.(timers := q.timers[p := t.(expire := TimespecAddUsec(now, t.interval), attached := true, active := true)], rbt := q.rbt + {p})
  }

  function ReactivateTimer(q: Queue, p: Ptr, now: Time): Queue
    requires p in q.timers
  {
    var q' := if q.timers[p].attached
              then q.(rbt := q.rbt - {p}, timers := q.timers[p := q.timers[p].(attached := false)])
              else q;
    RegisterTimer(q', p, now)
  }

  // ----- what a callback may do

  datatype Call =
    | Start(timer: Ptr, now: Time, interval: nat, useOnce: bool, maxJitter: nat)
    | Rearm(timer: Ptr, now: Time, interval: nat)
    | Free(timer: Ptr)
    | Deactivate(timer: Ptr)

  /** A call that respects the interface: only unused memory is allocated, only live timers are used, the timer that is
      firing is not armed again, and nothing armed is due within the same pass. The standing timer stays. */
  predicate Legal(q: Queue, self: Ptr, standing: Ptr, currtime: Time, c: Call) {
    match c
    case Start(p, now, interval, once, jitter) =>
      p !in q.timers && Ns(now) >= Ns(currtime) && interval > 0 && Sane(Timer(now, jitter, true, true, false, interval, once))
    case Rearm(p, now, interval) =>
      p in q.timers && p != self && !q.timers[p].freeOnDetach && Ns(now) >= Ns(currtime) && interval > 0
      && Sane(q.timers[p].(interval := interval))
    case Free(p) => p in q.timers && p != standing && !q.timers[p].freeOnDetach
    case Deactivate(p) => p in q.timers && p != standing
  }

  /** Calls that do not respect the interface are outside the model and skipped. */
  function Apply(q: Queue, self: Ptr, standing: Ptr, currtime: Time, c: Call): Queue {
    if !Legal(q, self, standing, currtime, c) then q
    else match c
      case Start(p, now, interval, once, jitter) =>
        RegisterTimer(q.(timers := q.timers[p := Timer(now, jitter, false, false, false, interval, once)]), p, now)
      case Rearm(p, now, interval) =>
        ReactivateTimer(q.(timers := q.timers[p := q.timers[p].(interval := interval)]), p, now)
      case Free(p) => FreeTimer(q, p)
      case Deactivate(p) => q.(timers := q.timers[p := q.timers[p].(active := false)])
  }

  function ApplyAll(q: Queue, self: Ptr, standing: Ptr, currtime: Time, cs: seq<Call>): Queue {
    if cs == [] then q else Apply(ApplyAll(q, self, standing, currtime, cs[..|cs| - 1]), self, standing, currtime, cs[|cs| - 1])
  }

  /** A timer that always waits again: the loop relies on the tree never being empty. */
  ghost predicate Standing(q: Queue, p: Ptr) {
    p in q.timers && q.timers[p].active && !q.timers[p].useOnce && q.timers[p].attached && !q.timers[p].freeOnDetach
  }

  /** What calls of a callback leave: everything outside is waiting as before, or waits for a time after `currtime`. */
  ghost predicate Outside(q: Queue, q': Queue, self: Ptr, currtime: Time) {
    && self in q.timers && self in q'.timers && q'.timers[self].expire == q.timers[self].expire
    && q'.timers[self].useOnce == q.timers[self].useOnce
    && q'.rbt <= q'.timers.Keys
    && (forall p <- q'.rbt :: (p in q.rbt && p in q.timers && q'.timers[p].expire == q.timers[p].expire)
                              || Ns(q'.timers[p].expire) > Ns(currtime))
    && q'.fired == q.fired
  }

  lemma {:induction false} ApplyKeeps(q: Queue, self: Ptr, standing: Ptr, currtime: Time, c: Call)
    requires QueueOk(q, Some(self)) && Standing(q, standing)
    ensures QueueOk(Apply(q, self, standing, currtime, c), Some(self)) && Standing(Apply(q, self, standing, currtime, c), standing)
    ensures Outside(q, Apply(q, self, standing, currtime, c), self, currtime)
  {
    var q' := Apply(q, self, standing, currtime, c);
    assert TimerOk(q, Some(self), self);
    if c.timer in q.timers { assert TimerOk(q, Some(self), c.timer); }
    forall p | p in q'.timers ensures TimerOk(q', Some(self), p) {
      assert p != c.timer ==> TimerOk(q, Some(self), p);
    }
  }

  lemma {:induction false} ApplyAllKeeps(q: Queue, self: Ptr, standing: Ptr, currtime: Time, cs: seq<Call>)
    requires QueueOk(q, Some(self)) && Standing(q, standing)
    ensures QueueOk(ApplyAll(q, self, standing, currtime, cs), Some(self))
    ensures Standing(ApplyAll(q, self, standing, currtime, cs), standing)
    ensures Outside(q, ApplyAll(q, self, standing, currtime, cs), self, currtime)
  {
    if cs == [] {
    } else {
      ApplyAllKeeps(q, self, standing, currtime, cs[..|cs| - 1]);
      ApplyKeeps(ApplyAll(q, self, standing, currtime, cs[..|cs| - 1]), self, standing, currtime, cs[|cs| - 1]);
    }
  }

  // ----- one turn of the loop

  /** The interval to the next expiry. `draw` is what the random generator returned. */
  function NextInterval(t: Timer, draw: nat): int {
    if t.maxJitter != 0 then t.interval + (draw % 100 + 1) * (t.maxJitter * 2) / 100 - t.maxJitter else t.interval
  }

  /** A jittered re-arm stays within the interval plus or minus the jitter, and is exact without jitter. */
  lemma {:induction false} JitterBounds(t: Timer, draw: nat)
    requires Sane(t)
    ensures t.interval - t.maxJitter <= NextInterval(t, draw) <= t.interval + t.maxJitter
    ensures t.maxJitter == 0 ==> NextInterval(t, draw) == t.interval
    ensures 0 <= (draw % 100 + 1) * (t.maxJitter * 2) < 0x8000_0000
    ensures -0x8000_0000 <= NextInterval(t, draw) < 0x8000_0000
    ensures !t.useOnce ==> NextInterval(t, draw) > 0
  {
    Scale(draw % 100 + 1, t.maxJitter * 2);
  }

  lemma {:induction false} Scale(r: nat, j: nat)
    requires 1 <= r <= 100
    ensures 0 <= r * j <= 100 * j && 0 <= r * j / 100 <= j
  {
  }

  function Detach(q: Queue, p: Ptr): Queue
    requires p in q.timers
  {
    if q.timers[p].freeOnDetach then q.(timers := q.timers - {p})
    else q.(timers := q.timers[p := q.timers[p].(attached := false)])
  }

  /** Behind the callback: a timer that fires once is detached, every other one waits again. */
  function Settle(q: Queue, f: Ptr, draw: nat): Queue
    requires f in q.timers && (q.timers[f].useOnce || NextInterval(q.timers[f], draw) >= 0)
  {
    var t := q.timers[f];
    if t.useOnce then Detach(q.(timers := q.timers[f := t.(active := false)]), f)
    else q.(timers := q.timers[f := t.(expire := TimespecAddUsec(t.expire, NextInterval(t, draw)))], rbt := q.rbt + {f})
  }

  /** The callbacks' behaviour and the random draws, per callback made; within a pass no two are made for the same timer
      and instant. */
  datatype World = World(standing: Ptr, calls: Firing -> seq<Call>, draws: Firing -> nat)

  /** The tree holds the timer that always waits again. */
  ghost predicate Ready(q: Queue, standing: Ptr) { QueueOk(q, None) && Standing(q, standing) && q.rbt != {} }

  /** Takes the first timer off the tree and serves it. */
  function Turn(q: Queue, w: World, currtime: Time): Queue
    requires Ready(q, w.standing)
  {
    var f := Soonest(q);
    var out := q.(rbt := q.rbt - {f});
    if q.timers[f].active then
      var q2 := out.(fired := q.fired + [Firing(f, q.timers[f].expire)]);
      OutKeeps(q, f, w);
      ApplyAllKeeps(q2, f, w.standing, currtime, w.calls(Firing(f, q.timers[f].expire)));
      var q3 := ApplyAll(q2, f, w.standing, currtime, w.calls(Firing(f, q.timers[f].expire)));
      assert TimerOk(q3, Some(f), f);
      JitterBounds(q3.timers[f], w.draws(Firing(f, q.timers[f].expire)));
      Settle(q3, f, w.draws(Firing(f, q.timers[f].expire)))
    else
      Detach(out, f)
  }

  lemma {:induction false} OutKeeps(q: Queue, f: Ptr, w: World)
    requires Ready(q, w.standing) && f in q.rbt
    ensures QueueOk(q.(rbt := q.rbt - {f}), Some(f))
    ensures forall log :: QueueOk(q.(rbt := q.rbt - {f}, fired := log), Some(f)) && Standing(q.(rbt := q.rbt - {f}, fired := log), w.standing)
  {
    forall log, p | p in q.timers ensures TimerOk(q.(rbt := q.rbt - {f}, fired := log), Some(f), p) {
      assert TimerOk(q, None, p);
    }
    var q' := q.(rbt := q.rbt - {f});
    forall p | p in q.timers ensures TimerOk(q', Some(f), p) {
      assert TimerOk(q, None, p);
    }
  }

  ghost predicate Due(q: Queue, currtime: Time) {
    q.rbt != {} && q.rbt <= q.timers.Keys && CheckExpire(q.timers[Soonest(q)].expire, currtime)
  }

  /** After a turn every waiting timer comes behind the one just served, and the timers waiting for the same
      instant as that one are fewer. */
  lemma {:induction false} TurnKeeps(q: Queue, w: World, currtime: Time)
    requires Ready(q, w.standing) && Due(q, currtime)
    ensures Ready(Turn(q, w, currtime), w.standing)
    ensures var f, q' := Soonest(q), Turn(q, w, currtime);
            && (forall p <- q'.rbt :: Before(KeyOf(q, f), KeyOf(q', p)))
            && (forall p <- q'.rbt :: q'.timers[p].expire == q.timers[f].expire ==> p in q.rbt && p != f && q.timers[p].expire == q.timers[f].expire)
            && q'.fired == (if q.timers[f].active then q.fired + [Firing(f, q.timers[f].expire)] else q.fired)
  {
    var f, q' := Soonest(q), Turn(q, w, currtime);
    var out := q.(rbt := q.rbt - {f});
    OutKeeps(q, f, w);
    assert TimerOk(q, None, f);
    if q.timers[f].active {
      var q2 := out.(fired := q.fired + [Firing(f, q.timers[f].expire)]);
      var q3 := ApplyAll(q2, f, w.standing, currtime, w.calls(Firing(f, q.timers[f].expire)));
      ApplyAllKeeps(q2, f, w.standing, currtime, w.calls(Firing(f, q.timers[f].expire)));
      SettleKeeps(q3, f, w, w.draws(Firing(f, q.timers[f].expire)));
      forall p <- q'.rbt ensures Before(KeyOf(q, f), KeyOf(q', p))
      {
        CompareIsOrder(KeyOf(q, f), KeyOf(q', p), KeyOf(q', p));
        if p != f && p in q.rbt { CompareIsOrder(KeyOf(q, f), KeyOf(q, p), KeyOf(q, p)); }
      }
    } else {
      DetachKeeps(out, f, w);
    }
  }

  lemma {:induction false} SettleKeeps(q: Queue, f: Ptr, w: World, draw: nat)
    requires QueueOk(q, Some(f)) && Standing(q, w.standing)
    ensures f in q.timers && (q.timers[f].useOnce || NextInterval(q.timers[f], draw) >= 0)
    ensures Ready(Settle(q, f, draw), w.standing)
    ensures var q' := Settle(q, f, draw);
            && q'.fired == q.fired
            && (forall p <- q'.rbt :: p != f ==> p in q.rbt && q'.timers[p] == q.timers[p])
            && (f in q'.rbt ==> Ns(q'.timers[f].expire) > Ns(q.timers[f].expire))
  {
    assert TimerOk(q, Some(f), f) && TimerOk(q, Some(f), w.standing);
    JitterBounds(q.timers[f], draw);
    var q' := Settle(q, f, draw);
    forall p | p in q'.timers ensures TimerOk(q', None, p) {
      assert TimerOk(q, Some(f), p);
    }
    if f != w.standing { assert w.standing in q.rbt; } else { assert f in q'.rbt; }
  }

  lemma {:induction false} DetachKeeps(q: Queue, f: Ptr, w: World)
    requires QueueOk(q, Some(f)) && Standing(q, w.standing) && !q.timers[f].active
    ensures Ready(Detach(q, f), w.standing) && Detach(q, f).rbt == q.rbt && Detach(q, f).fired == q.fired
    ensures forall p <- q.rbt :: p in Detach(q, f).timers && Detach(q, f).timers[p] == q.timers[p]
  {
    assert TimerOk(q, Some(f), f) && TimerOk(q, Some(f), w.standing);
    assert w.standing in q.rbt;
    forall p | p in Detach(q, f).timers ensures TimerOk(Detach(q, f), None, p) {
      assert TimerOk(q, Some(f), p);
    }
  }

  // ----- the whole pass

  ghost function Lag(q: Queue, currtime: Time): nat {
    if Due(q, currtime) then Ns(currtime) - Ns(q.timers[Soonest(q)].expire) + 1 else 0
  }

  /** The timers waiting for the earliest instant. */
  ghost function Earliest(q: Queue): set<Ptr> {
    if q.rbt != {} && q.rbt <= q.timers.Keys then set p <- q.rbt | q.timers[p].expire == q.timers[Soonest(q)].expire else {}
  }

  lemma {:induction false} TurnShrinks(q: Queue, w: World, currtime: Time)
    requires Ready(q, w.standing) && Due(q, currtime)
    ensures var q' := Turn(q, w, currtime);
            Lag(q', currtime) < Lag(q, currtime) || (Lag(q', currtime) == Lag(q, currtime) && Earliest(q') < Earliest(q))
  {
    TurnKeeps(q, w, currtime);
    var f, q' := Soonest(q), Turn(q, w, currtime);
    CompareIsOrder(KeyOf(q, f), KeyOf(q', Soonest(q')), KeyOf(q, f));
    if q'.timers[Soonest(q')].expire == q.timers[f].expire {
      assert f in Earliest(q) && f !in Earliest(q');
    } else {
      SameNs(q'.timers[Soonest(q')].expire, q.timers[f].expire);
    }
  }

  /** Serves timers until the first one is not due. */
  ghost function Work(q: Queue, w: World, currtime: Time): (q': Queue)
    requires Ready(q, w.standing)
    ensures Ready(q', w.standing)
    decreases Lag(q, currtime), Earliest(q)
  {
    if Due(q, currtime) then
      TurnKeeps(q, w, currtime);
      TurnShrinks(q, w, currtime);
      Work(Turn(q, w, currtime), w, currtime)
    else q
  }

  ghost predicate AtOrAfter(a: TqKey, b: TqKey) { a == b || Before(a, b) }

  function FiringKey(x: Firing): TqKey { TqKey(x.due, x.timer) }

  /** The callbacks made between two logs: all due, and in strictly increasing order of expiry. */
  ghost predicate FiredInOrder(was: seq<Firing>, now: seq<Firing>, currtime: Time) {
    && was <= now
    && (forall i | |was| <= i < |now| :: Ns(now[i].due) <= Ns(currtime))
    && (forall i, j | |was| <= i < j < |now| :: Before(FiringKey(now[i]), FiringKey(now[j])))
  }

  /** A pass fires only due timers, in order of expiry, and leaves none due. It returns. */
  lemma {:induction false} WorkFires(q: Queue, w: World, currtime: Time)
    requires Ready(q, w.standing)
    ensures FiredInOrder(q.fired, Work(q, w, currtime).fired, currtime)
    ensures forall p <- Work(q, w, currtime).rbt :: Ns(Work(q, w, currtime).timers[p].expire) > Ns(currtime)
    ensures forall i | |q.fired| <= i < |Work(q, w, currtime).fired| ::
              AtOrAfter(KeyOf(q, Soonest(q)), FiringKey(Work(q, w, currtime).fired[i]))
    decreases Lag(q, currtime), Earliest(q)
  {
    var f, end := Soonest(q), Work(q, w, currtime);
    if Due(q, currtime) {
      var q' := Turn(q, w, currtime);
      TurnKeeps(q, w, currtime);
      TurnShrinks(q, w, currtime);
      WorkFires(q', w, currtime);
      forall i | |q'.fired| <= i < |end.fired| ensures Before(KeyOf(q, f), FiringKey(end.fired[i])) {
        CompareIsOrder(KeyOf(q, f), KeyOf(q', Soonest(q')), FiringKey(end.fired[i]));
      }
    } else {
      forall p <- q.rbt ensures Ns(q.timers[p].expire) > Ns(currtime) {
        CompareIsOrder(KeyOf(q, f), KeyOf(q, p), KeyOf(q, p));
      }
    }
  }

  // ----- periodic timers

  /** When timer `p` fired. */
  function Fires(log: seq<Firing>, p: Ptr): seq<nat> {
    if log == [] then []
    else Fires(log[..|log| - 1], p) + (if log[|log| - 1].timer == p then [Ns(log[|log| - 1].due)] else [])
  }

  /** No callback touches `p`. */
  ghost predicate Spares(w: World, p: Ptr) { forall x: Firing, c | c in w.calls(x) :: c.timer != p }

  /** A jitter-free periodic timer first due at `start`: it has fired at `start`, `start + I`, `start + 2I`, ... and
      waits for the next instant of that row. */
  ghost predicate Regular(q: Queue, p: Ptr, start: nat, step: nat) {
    && p in q.timers && p in q.rbt && q.timers[p].active && !q.timers[p].useOnce && q.timers[p].maxJitter == 0
    && q.timers[p].interval * 1000 == step
    && (forall i | 0 <= i < |Fires(q.fired, p)| :: Fires(q.fired, p)[i] == start + i * step)
    && Ns(q.timers[p].expire) == start + |Fires(q.fired, p)| * step
  }

  /** Timer `p` is as it was, or still unallocated. */
  ghost predicate Untouched(q: Queue, q': Queue, p: Ptr) {
    && (p in q'.timers <==> p in q.timers) && (p in q'.rbt <==> p in q.rbt)
    && (p in q.timers ==> q'.timers[p] == q.timers[p])
  }

  lemma {:induction false} ApplySpares(q: Queue, self: Ptr, standing: Ptr, currtime: Time, c: Call, p: Ptr)
    requires c.timer != p
    ensures Untouched(q, Apply(q, self, standing, currtime, c), p)
  {
  }

  lemma {:induction false} ApplyAllSpares(q: Queue, self: Ptr, standing: Ptr, currtime: Time, cs: seq<Call>, p: Ptr)
    requires forall c <- cs :: c.timer != p
    ensures Untouched(q, ApplyAll(q, self, standing, currtime, cs), p)
  {
    if cs != [] {
      ApplyAllSpares(q, self, standing, currtime, cs[..|cs| - 1], p);
      assert cs[|cs| - 1] in cs;
      ApplySpares(ApplyAll(q, self, standing, currtime, cs[..|cs| - 1]), self, standing, currtime, cs[|cs| - 1], p);
    }
  }

  lemma {:induction false} TurnRegular(q: Queue, w: World, currtime: Time, p: Ptr, start: nat, step: nat)
    requires Ready(q, w.standing) && Due(q, currtime) && Regular(q, p, start, step) && Spares(w, p)
    ensures Regular(Turn(q, w, currtime), p, start, step)
  {
    TurnKeeps(q, w, currtime);
    var f, q' := Soonest(q), Turn(q, w, currtime);
    assert q'.fired[..|q.fired|] == q.fired;
    if q.timers[f].active {
      var q2 := q.(rbt := q.rbt - {f}, fired := q.fired + [Firing(f, q.timers[f].expire)]);
      var cs := w.calls(Firing(f, q.timers[f].expire));
      assert forall c <- cs :: c.timer != p;
      ApplyAllSpares(q2, f, w.standing, currtime, cs, p);
      if f == p { OneMore(|Fires(q.fired, p)|, step); }
    }
  }

  lemma {:induction false} WorkRegular(q: Queue, w: World, currtime: Time, p: Ptr, start: nat, step: nat)
    requires Ready(q, w.standing) && Regular(q, p, start, step) && Spares(w, p)
    ensures Regular(Work(q, w, currtime), p, start, step)
    decreases Lag(q, currtime), Earliest(q)
  {
    if Due(q, currtime) {
      TurnRegular(q, w, currtime, p, start, step);
      TurnKeeps(q, w, currtime);
      TurnShrinks(q, w, currtime);
      WorkRegular(Turn(q, w, currtime), w, currtime, p, start, step);
    }
  }

  /** One pass: when it was made, and how the callbacks behaved during it. */
  datatype Pass = Pass(w: World, now: Time)

  /** Passes one after the other. */
  ghost function WorkAt(q: Queue, standing: Ptr, passes: seq<Pass>): (q': Queue)
    requires Ready(q, standing) && forall x <- passes :: x.w.standing == standing
    ensures Ready(q', standing)
  {
    if passes == [] then q
    else
      var x := passes[|passes| - 1];
      Work(WorkAt(q, standing, passes[..|passes| - 1]), x.w, x.now)
  }

  /** How many instants of the row `start`, `start + step`, ... have come at `now`. */
  function Instants(start: nat, step: nat, now: nat): nat
    requires step > 0
  {
    if now < start then 0 else (now - start) / step + 1
  }

  lemma {:induction false} InstantsIs(start: nat, step: nat, now: nat, n: nat)
    requires step > 0 && now < start + n * step && (n > 0 ==> start + (n - 1) * step <= now)
    ensures n == Instants(start, step, now)
  {
    if n > 0 {
      var d := now - start - (n - 1) * step;
      assert now - start == (n - 1) * step + d && 0 <= d < step;
      DivExact(n - 1, step, d);
    }
  }

  lemma {:induction false} Quotient(n: nat, step: nat)
    requires step > 0
    ensures n / step * step <= n < n / step * step + step
  {
    assert n == n / step * step + n % step;
  }

  lemma {:induction false} Multiples(a: nat, b: nat, step: nat)
    ensures a < b ==> a * step + step <= b * step
    decreases b
  {
    if a < b {
      OneMore(b - 1, step);
      if a < b - 1 { Multiples(a, b - 1, step); }
    }
  }

  lemma {:induction false} OneMore(a: nat, step: nat)
    ensures (a + 1) * step == a * step + step
  {
  }

  lemma {:induction false} DivExact(a: nat, step: nat, d: nat)
    requires d < step
    ensures (a * step + d) / step == a
  {
    var x := (a * step + d) / step;
    assert x * step <= a * step + d < x * step + step by { Quotient(a * step + d, step); }
    Multiples(x, a, step);
    Multiples(a, x, step);
  }

  /** One pass brings the count of firings up to the instants that have come. */
  lemma {:induction false} PunctualPass(q: Queue, x: Pass, p: Ptr, start: nat, step: nat)
    requires Ready(q, x.w.standing) && Regular(q, p, start, step) && Spares(x.w, p)
    requires var n := |Fires(q.fired, p)|; n > 0 ==> start + (n - 1) * step <= Ns(x.now)
    ensures Regular(Work(q, x.w, x.now), p, start, step)
    ensures step > 0 && |Fires(Work(q, x.w, x.now).fired, p)| == Instants(start, step, Ns(x.now))
  {
    WorkRegular(q, x.w, x.now, p, start, step);
    WorkFires(q, x.w, x.now);
    assert TimerOk(q, None, p);
    var q' := Work(q, x.w, x.now);
    var n := |Fires(q'.fired, p)|;
    if n > 0 {
      LastFire(q.fired, q'.fired, p, Ns(x.now));
    }
    InstantsIs(start, step, Ns(x.now), n);
  }

  /** Whatever the schedule of passes, a periodic timer fires at every instant of its row that has come, once each, and at
      no other time. */
  lemma {:induction false} Punctual(q: Queue, standing: Ptr, passes: seq<Pass>, p: Ptr, start: nat, step: nat)
    requires Ready(q, standing) && (forall x <- passes :: x.w.standing == standing && Spares(x.w, p))
    requires Regular(q, p, start, step) && Fires(q.fired, p) == []
    requires forall i, j | 0 <= i < j < |passes| :: Ns(passes[i].now) <= Ns(passes[j].now)
    requires passes != []
    ensures Regular(WorkAt(q, standing, passes), p, start, step)
    ensures step > 0 && |Fires(WorkAt(q, standing, passes).fired, p)| == Instants(start, step, Ns(passes[|passes| - 1].now))
  {
    var front, x := passes[..|passes| - 1], passes[|passes| - 1];
    if |passes| > 1 {
      Punctual(q, standing, front, p, start, step);
      var n := |Fires(WorkAt(q, standing, front).fired, p)|;
      if n > 0 { EarlierFire(start, step, Ns(passes[|passes| - 2].now), n); }
    }
    PunctualPass(WorkAt(q, standing, front), x, p, start, step);
  }

  /** The last instant counted has come. */
  lemma {:induction false} EarlierFire(start: nat, step: nat, now: nat, n: nat)
    requires step > 0 && n > 0 && n == Instants(start, step, now)
    ensures start + (n - 1) * step <= now
  {
  }

  lemma {:induction false} LastFire(was: seq<Firing>, now: seq<Firing>, p: Ptr, currtime: nat)
    requires was <= now && forall i | |was| <= i < |now| :: Ns(now[i].due) <= currtime
    ensures |Fires(was, p)| <= |Fires(now, p)|
    ensures |Fires(was, p)| < |Fires(now, p)| ==> Fires(now, p)[|Fires(now, p)| - 1] <= currtime
    decreases |now|
  {
    if |was| < |now| {
      LastFire(was, now[..|now| - 1], p, currtime);
    } else {
      assert was == now;
    }
  }

  // ----- freed timers

  lemma {:induction false} TurnFreed(q: Queue, w: World, currtime: Time, p: Ptr)
    requires Ready(q, w.standing) && Due(q, currtime) && Spares(w, p) && (p in q.timers ==> q.timers[p].freeOnDetach)
    ensures var q' := Turn(q, w, currtime);
            && Fires(q'.fired, p) == Fires(q.fired, p)
            && (p in q'.timers <==> p in q.timers && p != Soonest(q))
            && (p in q'.timers ==> q'.timers[p] == q.timers[p])
  {
    var f, q' := Soonest(q), Turn(q, w, currtime);
    TurnKeeps(q, w, currtime);
    if p in q.timers { assert TimerOk(q, None, p); }
    if q.timers[f].active {
      assert q'.fired[..|q.fired|] == q.fired;
      var q2 := q.(rbt := q.rbt - {f}, fired := q.fired + [Firing(f, q.timers[f].expire)]);
      var cs := w.calls(Firing(f, q.timers[f].expire));
      assert forall c <- cs :: c.timer != p;
      ApplyAllSpares(q2, f, w.standing, currtime, cs, p);
    }
  }

  /** A timer freed while it waits never fires again. Its memory stays until its instant has come, so the tree never holds
      a freed one, and is released by the first pass after that. */
  lemma {:induction false} FreedNeverFires(q: Queue, w: World, currtime: Time, p: Ptr)
    requires Ready(q, w.standing) && Spares(w, p) && (p in q.timers ==> q.timers[p].freeOnDetach)
    ensures Fires(Work(q, w, currtime).fired, p) == Fires(q.fired, p)
    ensures p in Work(q, w, currtime).timers <==> p in q.timers && Ns(q.timers[p].expire) > Ns(currtime)
    ensures Work(q, w, currtime).rbt <= Work(q, w, currtime).timers.Keys
    decreases Lag(q, currtime), Earliest(q)
  {
    if p in q.timers { assert TimerOk(q, None, p); }
    if Due(q, currtime) {
      TurnFreed(q, w, currtime, p);
      TurnKeeps(q, w, currtime);
      TurnShrinks(q, w, currtime);
      FreedNeverFires(Turn(q, w, currtime), w, currtime, p);
    } else if p in q.timers {
      CompareIsOrder(KeyOf(q, Soonest(q)), KeyOf(q, p), KeyOf(q, p));
    }
  }

  // ----- timers that fire once

  ghost predicate WaitsFor(q: Queue, p: Ptr, instant: nat) {
    && p in q.timers && p in q.rbt && q.timers[p].active && q.timers[p].attached && Ns(q.timers[p].expire) == instant
  }

  /** A reactivated timer waits for the end of a whole interval from now on, whether it was waiting or not. Nothing else
      changes. */
  lemma {:induction false} ReactivateMoves(q: Queue, p: Ptr, now: Time)
    requires p in q.timers
    ensures WaitsFor(ReactivateTimer(q, p, now), p, Ns(now) + q.timers[p].interval * 1000)
    ensures ReactivateTimer(q, p, now).timers[p].interval == q.timers[p].interval
    ensures ReactivateTimer(q, p, now).timers[p].useOnce == q.timers[p].useOnce
    ensures ReactivateTimer(q, p, now).fired == q.fired && ReactivateTimer(q, p, now).timers.Keys == q.timers.Keys
    ensures forall x :: x != p ==> Untouched(q, ReactivateTimer(q, p, now), x)
  {
  }

  /** The same of a callback's or a handler's call between two passes; it keeps the queue ready. */
  lemma {:induction false} RefreshKeeps(q: Queue, standing: Ptr, p: Ptr, now: Time)
    requires Ready(q, standing) && p in q.timers && p != standing && !q.timers[p].freeOnDetach
    ensures Ready(ReactivateTimer(q, p, now), standing)
  {
    var q' := ReactivateTimer(q, p, now);
    assert TimerOk(q, None, standing);
    forall x | x in q'.timers ensures TimerOk(q', None, x) { assert TimerOk(q, None, x); }
  }

  /** A timer that fires once waits for `instant`. */
  ghost predicate Pending(q: Queue, p: Ptr, instant: nat) { WaitsFor(q, p, instant) && q.timers[p].useOnce }

  /** It has fired, and waits for nothing. */
  ghost predicate Spent(q: Queue, p: Ptr) { p in q.timers && p !in q.rbt && !q.timers[p].active && !q.timers[p].attached }

  lemma {:induction false} FiresSnoc(log: seq<Firing>, x: Firing, p: Ptr)
    ensures Fires(log + [x], p) == Fires(log, p) + if x.timer == p then [Ns(x.due)] else []
  {
    assert (log + [x])[..|log|] == log;
  }

  lemma {:induction false} TurnOnce(q: Queue, w: World, currtime: Time, p: Ptr, instant: nat)
    requires Ready(q, w.standing) && Due(q, currtime) && Spares(w, p) && p != w.standing
    requires Pending(q, p, instant) || Spent(q, p)
    ensures var q' := Turn(q, w, currtime);
            if Pending(q, p, instant) && Soonest(q) == p then Spent(q', p) && Fires(q'.fired, p) == Fires(q.fired, p) + [instant]
            else Fires(q'.fired, p) == Fires(q.fired, p) && (if Pending(q, p, instant) then Pending(q', p, instant) else Spent(q', p))
  {
    var f := Soonest(q);
    assert TimerOk(q, None, p) && TimerOk(q, None, f);
    if q.timers[f].active {
      FiresSnoc(q.fired, Firing(f, q.timers[f].expire), p);
      var q2 := q.(rbt := q.rbt - {f}, fired := q.fired + [Firing(f, q.timers[f].expire)]);
      var cs := w.calls(Firing(f, q.timers[f].expire));
      assert forall c <- cs :: c.timer != p;
      ApplyAllSpares(q2, f, w.standing, currtime, cs, p);
      OutKeeps(q, f, w);
      ApplyAllKeeps(q2, f, w.standing, currtime, cs);
    }
  }

  /** One pass over a timer that fires once. */
  lemma {:induction false} WorkOnce(q: Queue, w: World, currtime: Time, p: Ptr, instant: nat)
    requires Ready(q, w.standing) && Spares(w, p) && p != w.standing && (Pending(q, p, instant) || Spent(q, p))
    ensures var q' := Work(q, w, currtime);
            if Pending(q, p, instant) && instant <= Ns(currtime) then Spent(q', p) && Fires(q'.fired, p) == Fires(q.fired, p) + [instant]
            else Fires(q'.fired, p) == Fires(q.fired, p) && (if Pending(q, p, instant) then Pending(q', p, instant) else Spent(q', p))
    decreases Lag(q, currtime), Earliest(q)
  {
    if Due(q, currtime) {
      TurnOnce(q, w, currtime, p, instant);
      TurnKeeps(q, w, currtime);
      TurnShrinks(q, w, currtime);
      WorkOnce(Turn(q, w, currtime), w, currtime, p, instant);
    } else if Pending(q, p, instant) {
      CompareIsOrder(KeyOf(q, Soonest(q)), KeyOf(q, p), KeyOf(q, p));
    }
    if Pending(q, p, instant) && Due(q, currtime) && Soonest(q) == p {
      CompareIsOrder(KeyOf(q, p), KeyOf(q, p), KeyOf(q, p));
    }
  }

  // ----- entries that news keeps alive

  /** Between two passes the timer is re-armed, as on every HELLO or TC that confirms what it is for; or a pass is made. */
  datatype Upkeep = Refresh(now: Time, interval: nat) | Made(pass: Pass)

  /** When timer `p` is due after these events, if it was due at `instant` before them. */
  function DueAfter(es: seq<Upkeep>, instant: nat): nat {
    if es == [] then instant
    else match es[|es| - 1]
      case Refresh(now, interval) => Ns(now) + interval * 1000
      case Made(_) => DueAfter(es[..|es| - 1], instant)
  }

  /** Each pass is made before the timer is due. */
  ghost predicate InTime(es: seq<Upkeep>, instant: nat) {
    forall i | 0 <= i < |es| && es[i].Made? :: Ns(es[i].pass.now) < DueAfter(es[..i], instant)
  }

  ghost predicate Orderly(es: seq<Upkeep>, standing: Ptr, p: Ptr) {
    forall i | 0 <= i < |es| ::
      match es[i]
      case Refresh(_, interval) => 0 < interval < 0x4000_0000
      case Made(x) => x.w.standing == standing && Spares(x.w, p)
  }

  ghost function RefreshTo(q: Queue, p: Ptr, now: Time, interval: nat): Queue
    requires p in q.timers
  {
    ReactivateTimer(q.(timers := q.timers[p := q.timers[p].(interval := interval)]), p, now)
  }

  lemma {:induction false} RefreshReady(q: Queue, standing: Ptr, p: Ptr, now: Time, interval: nat, instant: nat)
    requires Ready(q, standing) && p != standing && Pending(q, p, instant) && 0 < interval < 0x4000_0000
    ensures Ready(RefreshTo(q, p, now, interval), standing) && Pending(RefreshTo(q, p, now, interval), p, Ns(now) + interval * 1000)
    ensures RefreshTo(q, p, now, interval).fired == q.fired
  {
    var q1 := q.(timers := q.timers[p := q.timers[p].(interval := interval)]);
    assert TimerOk(q, None, p);
    forall x | x in q1.timers ensures TimerOk(q1, None, x) { assert TimerOk(q, None, x); }
    RefreshKeeps(q1, standing, p, now);
    ReactivateMoves(q1, p, now);
  }

  ghost predicate UpkeepStep(q: Queue, p: Ptr, e: Upkeep, q': Queue) {
    match e
    case Refresh(now, interval) => p in q.timers && q' == RefreshTo(q, p, now, interval)
    case Made(x) => Ready(q, x.w.standing) && q' == Work(q, x.w, x.now)
  }

  /** The events lead from `q` to `q'`. */
  ghost predicate Kept(q: Queue, p: Ptr, es: seq<Upkeep>, q': Queue)
    decreases es
  {
    if es == [] then q' == q
    else exists mid {:trigger Kept(q, p, es[..|es| - 1], mid)} ::
      Kept(q, p, es[..|es| - 1], mid) && UpkeepStep(mid, p, es[|es| - 1], q')
  }

  /** What is confirmed in time does not expire: as long as each pass is made before the interval since the last confirmation
      is over, the timer does not fire, and it is due one interval after the last confirmation. */
  lemma {:induction false} ConfirmedStays(q: Queue, standing: Ptr, p: Ptr, instant: nat, es: seq<Upkeep>, q': Queue)
    requires Ready(q, standing) && p != standing && Pending(q, p, instant) && Orderly(es, standing, p) && InTime(es, instant)
    requires Kept(q, p, es, q')
    ensures Ready(q', standing) && Pending(q', p, DueAfter(es, instant)) && Fires(q'.fired, p) == Fires(q.fired, p)
    decreases es
  {
    if es != [] {
      var n := |es| - 1;
      var mid :| Kept(q, p, es[..n], mid) && UpkeepStep(mid, p, es[n], q');
      forall i | 0 <= i < n && es[..n][i].Made? ensures Ns(es[..n][i].pass.now) < DueAfter(es[..n][..i], instant) {
        assert es[..n][..i] == es[..i];
      }
      ConfirmedStays(q, standing, p, instant, es[..n], mid);
      match es[n]
      case Refresh(now, interval) => RefreshReady(mid, standing, p, now, interval, DueAfter(es[..n], instant));
      case Made(x) => WorkOnce(mid, x.w, x.now, p, DueAfter(es[..n], instant));
    }
  }

  /** And what is not confirmed any more expires: the first pass from then on fires it, once, and no later one does. */
  lemma {:induction false} UnconfirmedExpires(q: Queue, standing: Ptr, passes: seq<Pass>, p: Ptr, instant: nat)
    requires Ready(q, standing) && p != standing && Pending(q, p, instant)
    requires forall x <- passes :: x.w.standing == standing && Spares(x.w, p)
    ensures var q' := WorkAt(q, standing, passes);
            if exists x :: x in passes && instant <= Ns(x.now) then Spent(q', p) && Fires(q'.fired, p) == Fires(q.fired, p) + [instant]
            else Pending(q', p, instant) && Fires(q'.fired, p) == Fires(q.fired, p)
  {
    if passes != [] {
      var front, x := passes[..|passes| - 1], passes[|passes| - 1];
      UnconfirmedExpires(q, standing, front, p, instant);
      assert passes == front + [x];
      WorkOnce(WorkAt(q, standing, front), x.w, x.now, p, instant);
    }
  }

  // ----- freed and deactivated timers, from the call on

  /** A timer that is freed keeps its memory as long as it waits, and loses it at once otherwise. Nothing else changes. */
  lemma {:induction false} FreeMeans(q: Queue, standing: Ptr, p: Ptr)
    requires Ready(q, standing) && p in q.timers && p != standing && !q.timers[p].freeOnDetach
    ensures Ready(FreeTimer(q, p), standing)
    ensures p in FreeTimer(q, p).timers <==> p in q.rbt
    ensures p in q.rbt ==> FreeTimer(q, p).timers[p].freeOnDetach && FreeTimer(q, p).timers[p].expire == q.timers[p].expire
    ensures FreeTimer(q, p).fired == q.fired && FreeTimer(q, p).rbt == q.rbt
    ensures forall x :: x != p ==> Untouched(q, FreeTimer(q, p), x)
  {
    var q' := FreeTimer(q, p);
    assert TimerOk(q, None, p) && TimerOk(q, None, standing);
    forall x | x in q'.timers ensures TimerOk(q', None, x) { assert TimerOk(q, None, x); }
  }

  /** From the call that frees it on, a timer never fires, and its memory is gone after the first pass at or behind its instant. */
  lemma {:induction false} FreedGoes(q: Queue, w: World, currtime: Time, p: Ptr)
    requires Ready(q, w.standing) && Spares(w, p) && p in q.timers && p != w.standing && !q.timers[p].freeOnDetach
    ensures Ready(FreeTimer(q, p), w.standing)
    ensures Fires(Work(FreeTimer(q, p), w, currtime).fired, p) == Fires(q.fired, p)
    ensures p in Work(FreeTimer(q, p), w, currtime).timers <==> p in q.rbt && Ns(q.timers[p].expire) > Ns(currtime)
  {
    FreeMeans(q, w.standing, p);
    FreedNeverFires(FreeTimer(q, p), w, currtime, p);
  }

  /** A deactivated timer that is not freed. */
  ghost predicate Idle(q: Queue, p: Ptr) { p in q.timers && !q.timers[p].active && !q.timers[p].freeOnDetach }

  lemma {:induction false} TurnIdle(q: Queue, w: World, currtime: Time, p: Ptr)
    requires Ready(q, w.standing) && Due(q, currtime) && Spares(w, p) && Idle(q, p)
    ensures Idle(Turn(q, w, currtime), p) && Fires(Turn(q, w, currtime).fired, p) == Fires(q.fired, p)
    ensures p in Turn(q, w, currtime).rbt <==> p in q.rbt && Soonest(q) != p
    ensures Turn(q, w, currtime).timers[p].expire == q.timers[p].expire
  {
    var f := Soonest(q);
    if q.timers[f].active {
      FiresSnoc(q.fired, Firing(f, q.timers[f].expire), p);
      var q2 := q.(rbt := q.rbt - {f}, fired := q.fired + [Firing(f, q.timers[f].expire)]);
      var cs := w.calls(Firing(f, q.timers[f].expire));
      assert forall c <- cs :: c.timer != p;
      ApplyAllSpares(q2, f, w.standing, currtime, cs, p);
      OutKeeps(q, f, w);
      ApplyAllKeeps(q2, f, w.standing, currtime, cs);
    }
  }

  /** It never fires either, and leaves the tree without being released. */
  lemma {:induction false} IdleSilent(q: Queue, w: World, currtime: Time, p: Ptr)
    requires Ready(q, w.standing) && Spares(w, p) && Idle(q, p)
    ensures Idle(Work(q, w, currtime), p) && Fires(Work(q, w, currtime).fired, p) == Fires(q.fired, p)
    ensures p in Work(q, w, currtime).rbt <==> p in q.rbt && Ns(q.timers[p].expire) > Ns(currtime)
    decreases Lag(q, currtime), Earliest(q)
  {
    assert TimerOk(q, None, p);
    if Due(q, currtime) {
      TurnIdle(q, w, currtime, p);
      TurnKeeps(q, w, currtime);
      TurnShrinks(q, w, currtime);
      IdleSilent(Turn(q, w, currtime), w, currtime, p);
    } else if p in q.rbt {
      CompareIsOrder(KeyOf(q, Soonest(q)), KeyOf(q, p), KeyOf(q, p));
    }
  }

  /** What the calls of a callback do to the timer they name. */
  lemma {:induction false} CallsMean(q: Queue, self: Ptr, standing: Ptr, currtime: Time, c: Call)
    requires Legal(q, self, standing, currtime, c)
    ensures var q' := Apply(q, self, standing, currtime, c);
            match c
            case Start(p, now, interval, once, jitter) =>
              WaitsFor(q', p, Ns(now) + interval * 1000) && q'.timers[p].useOnce == once && q'.timers[p].maxJitter == jitter
              && q'.timers[p].interval == interval && !q'.timers[p].freeOnDetach
            case Rearm(p, now, interval) => WaitsFor(q', p, Ns(now) + interval * 1000) && q'.timers[p].interval == interval
            case Free(p) => (p in q'.timers <==> q.timers[p].attached) && (p in q'.timers ==> q'.timers[p].freeOnDetach)
            case Deactivate(p) => p in q'.timers && q'.timers[p] == q.timers[p].(active := false)
    ensures forall x :: x != c.timer ==> Untouched(q, Apply(q, self, standing, currtime, c), x)
  {
  }

  // ----- jitter

  /** The draws spread the interval evenly over the range: the largest draw gives the interval plus the jitter, each larger draw
      gives no smaller interval, and two draws that follow each other are no more than a fiftieth of the jitter apart. */
  lemma {:induction false} JitterSpread(t: Timer, draw: nat, draw': nat)
    requires Sane(t) && t.maxJitter > 0
    ensures draw % 100 == 99 ==> NextInterval(t, draw) == t.interval + t.maxJitter
    ensures draw % 100 == 0 ==> NextInterval(t, draw) == t.interval - t.maxJitter + t.maxJitter / 50
    ensures draw % 100 <= draw' % 100 ==> NextInterval(t, draw) <= NextInterval(t, draw')
    ensures draw' % 100 == draw % 100 + 1 ==>
              t.maxJitter / 50 <= NextInterval(t, draw') - NextInterval(t, draw) <= t.maxJitter / 50 + 1
  {
    var j := t.maxJitter * 2;
    ScaleUp(draw % 100 + 1, draw' % 100 + 1, j);
    if draw' % 100 == draw % 100 + 1 {
      ScaleStep(draw % 100 + 1, j);
    }
  }

  lemma {:induction false} ScaleUp(r: nat, r': nat, j: nat)
    ensures r <= r' ==> r * j / 100 <= r' * j / 100
  {
    if r <= r' {
      Multiples(r, r', j);
      Monotone(r * j, r' * j);
    }
  }

  lemma {:induction false} Monotone(a: nat, b: nat)
    requires a <= b
    ensures a / 100 <= b / 100
  {
  }

  lemma {:induction false} ScaleStep(r: nat, j: nat)
    ensures j / 100 <= (r + 1) * j / 100 - r * j / 100 <= j / 100 + 1
  {
    OneMore(r, j);
  }

  // ----- the pace of periodic timers

  ghost predicate Spaced(ts: seq<nat>, lo: int, hi: int) {
    forall i {:trigger ts[i]} | 0 < i < |ts| :: ts[i - 1] + lo <= ts[i] <= ts[i - 1] + hi
  }

  /** A periodic timer with jitter: each of its instants, the one it waits for included, is an interval give or take the jitter
      behind the one before. */
  ghost predicate Paced(q: Queue, p: Ptr, interval: nat, maxJitter: nat) {
    && p in q.timers && p in q.rbt && q.timers[p].active && !q.timers[p].useOnce
    && q.timers[p].interval == interval && q.timers[p].maxJitter == maxJitter
    && Spaced(Fires(q.fired, p) + [Ns(q.timers[p].expire)], (interval - maxJitter) * 1000, (interval + maxJitter) * 1000)
  }

  lemma {:induction false} SpacedMore(ts: seq<nat>, t: nat, lo: int, hi: int)
    requires Spaced(ts, lo, hi) && ts != [] && ts[|ts| - 1] + lo <= t <= ts[|ts| - 1] + hi
    ensures Spaced(ts + [t], lo, hi)
  {
  }

  lemma {:induction false} TurnPaced(q: Queue, w: World, currtime: Time, p: Ptr, interval: nat, maxJitter: nat)
    requires Ready(q, w.standing) && Due(q, currtime) && Paced(q, p, interval, maxJitter) && Spares(w, p)
    ensures Paced(Turn(q, w, currtime), p, interval, maxJitter)
  {
    var f, q' := Soonest(q), Turn(q, w, currtime);
    assert TimerOk(q, None, f) && TimerOk(q, None, p);
    if q.timers[f].active {
      var x := Firing(f, q.timers[f].expire);
      FiresSnoc(q.fired, x, p);
      var q2 := q.(rbt := q.rbt - {f}, fired := q.fired + [x]);
      assert forall c <- w.calls(x) :: c.timer != p;
      ApplyAllSpares(q2, f, w.standing, currtime, w.calls(x), p);
      OutKeeps(q, f, w);
      ApplyAllKeeps(q2, f, w.standing, currtime, w.calls(x));
      var q3 := ApplyAll(q2, f, w.standing, currtime, w.calls(x));
      if f == p {
        SettlePaced(q3, p, w.draws(x), Fires(q.fired, p), interval, maxJitter);
      } else {
        assert Fires(q'.fired, p) == Fires(q.fired, p) && q'.timers[p] == q.timers[p];
      }
    }
  }

  /** The instant served joins the row, and the next one keeps the pace. */
  lemma {:induction false} SettlePaced(q: Queue, p: Ptr, draw: nat, was: seq<nat>, interval: nat, maxJitter: nat)
    requires p in q.timers && Sane(q.timers[p]) && !q.timers[p].useOnce && q.timers[p].active
    requires q.timers[p].interval == interval && q.timers[p].maxJitter == maxJitter
    requires Fires(q.fired, p) == was + [Ns(q.timers[p].expire)]
    requires Spaced(was + [Ns(q.timers[p].expire)], (interval - maxJitter) * 1000, (interval + maxJitter) * 1000)
    ensures NextInterval(q.timers[p], draw) >= 0 && Paced(Settle(q, p, draw), p, interval, maxJitter)
  {
    JitterBounds(q.timers[p], draw);
    var next := NextInterval(q.timers[p], draw);
    Bounds(interval, maxJitter, next);
    SpacedMore(Fires(q.fired, p), Ns(q.timers[p].expire) + next * 1000, (interval - maxJitter) * 1000, (interval + maxJitter) * 1000);
  }

  lemma {:induction false} Bounds(interval: nat, maxJitter: nat, next: int)
    requires interval - maxJitter <= next <= interval + maxJitter
    ensures (interval - maxJitter) * 1000 <= next * 1000 <= (interval + maxJitter) * 1000
  {
  }

  lemma {:induction false} WorkPaced(q: Queue, w: World, currtime: Time, p: Ptr, interval: nat, maxJitter: nat)
    requires Ready(q, w.standing) && Paced(q, p, interval, maxJitter) && Spares(w, p)
    ensures Paced(Work(q, w, currtime), p, interval, maxJitter)
    decreases Lag(q, currtime), Earliest(q)
  {
    if Due(q, currtime) {
      TurnPaced(q, w, currtime, p, interval, maxJitter);
      TurnKeeps(q, w, currtime);
      TurnShrinks(q, w, currtime);
      WorkPaced(Turn(q, w, currtime), w, currtime, p, interval, maxJitter);
    }
  }

  /** Whatever the schedule of passes and the draws, a periodic timer keeps its pace, and at the end of a pass its last instant is
      less than an interval and the jitter ago. */
  lemma {:induction false} KeepsPace(q: Queue, standing: Ptr, passes: seq<Pass>, p: Ptr, interval: nat, maxJitter: nat)
    requires Ready(q, standing) && Paced(q, p, interval, maxJitter)
    requires forall x <- passes :: x.w.standing == standing && Spares(x.w, p)
    ensures Paced(WorkAt(q, standing, passes), p, interval, maxJitter)
    ensures var fs := Fires(WorkAt(q, standing, passes).fired, p);
            passes != [] && fs != [] ==> Ns(passes[|passes| - 1].now) < fs[|fs| - 1] + (interval + maxJitter) * 1000
  {
    if passes != [] {
      var front, x := passes[..|passes| - 1], passes[|passes| - 1];
      KeepsPace(q, standing, front, p, interval, maxJitter);
      var before := WorkAt(q, standing, front);
      WorkPaced(before, x.w, x.now, p, interval, maxJitter);
      WorkFires(before, x.w, x.now);
      var q' := Work(before, x.w, x.now);
      var ts := Fires(q'.fired, p) + [Ns(q'.timers[p].expire)];
      assert |ts| > 1 ==> ts[|ts| - 2] + (interval - maxJitter) * 1000 <= ts[|ts| - 1] <= ts[|ts| - 2] + (interval + maxJitter) * 1000;
    }
  }

  // ----- how the queue comes to work

  /** A new timer with its fields set, and registered. */
  function Arm(q: Queue, p: Ptr, interval: nat, maxJitter: nat, now: Time): Queue {
    RegisterTimer(q.(timers := q.timers[p := Timer(Time(0, 0), maxJitter, false, false, false, interval, false)]), p, now)
  }

  /** A periodic timer that has been armed at `now` and is to fire for the first time. */
  ghost predicate Starts(q: Queue, p: Ptr, now: Time, interval: nat, maxJitter: nat) {
    Paced(q, p, interval, maxJitter) && Fires(q.fired, p) == [] && Ns(q.timers[p].expire) == Ns(now) + interval * 1000
  }

  /** Every periodic timer armed between two passes keeps the queue ready, and the first one makes it ready; without jitter
      it starts on its row of instants. */
  lemma {:induction false} ArmReady(q: Queue, p: Ptr, interval: nat, maxJitter: nat, now: Time)
    requires QueueOk(q, None) && p !in q.timers && maxJitter < interval < 0x4000_0000 && maxJitter < 5_000_000
    ensures Ready(Arm(q, p, interval, maxJitter, now), p)
    ensures forall x :: Ready(q, x) ==> Ready(Arm(q, p, interval, maxJitter, now), x)
    ensures forall x, start, step :: Regular(q, x, start, step) ==> Regular(Arm(q, p, interval, maxJitter, now), x, start, step)
    ensures maxJitter == 0 && Fires(q.fired, p) == [] ==>
              Regular(Arm(q, p, interval, maxJitter, now), p, Ns(now) + interval * 1000, interval * 1000)
    ensures Fires(q.fired, p) == [] ==> Starts(Arm(q, p, interval, maxJitter, now), p, now, interval, maxJitter)
    ensures forall x, t, i, j :: Starts(q, x, t, i, j) ==> Starts(Arm(q, p, interval, maxJitter, now), x, t, i, j)
  {
    var q' := Arm(q, p, interval, maxJitter, now);
    forall x | x in q'.timers ensures TimerOk(q', None, x) {
      assert x != p ==> TimerOk(q, None, x);
    }
  }

  lemma {:induction false} FourDistinct(a: Ptr, b: Ptr, c: Ptr, d: Ptr)
    requires |{a, b, c, d}| == 4
    ensures a != b && a != c && a != d && b != c && b != d && c != d
  {
    assert {a, b, c, d} == {a} + {b} + {c} + {d};
  }

  lemma {:induction false} StartReady(q: Queue, hello: Ptr, tc: Ptr, jobTx: Ptr, debug: Ptr, helloMs: nat, tcMs: nat, nows: seq<Time>)
    requires q == Queue(map[], {}, []) && |nows| == 4 && 0 < helloMs < 40_000 && 0 < tcMs < 40_000
    requires hello != tc && hello != jobTx && hello != debug && tc != jobTx && tc != debug && jobTx != debug
    ensures var q1 := Arm(q, hello, helloMs * 1000, helloMs * 1000 / 8, nows[0]);
            var q2 := Arm(q1, tc, tcMs * 1000, tcMs * 1000 / 8, nows[1]);
            var q3 := Arm(q2, jobTx, 50 * 1000, 0, nows[2]);
            var q4 := Arm(q3, debug, 6000 * 1000, 100 * 1000, nows[3]);
            && (forall p <- {hello, tc, jobTx, debug} :: Ready(q4, p))
            && Regular(q4, jobTx, Ns(nows[2]) + 50_000_000, 50_000_000)
            && Starts(q4, hello, nows[0], helloMs * 1000, helloMs * 1000 / 8) && Starts(q4, tc, nows[1], tcMs * 1000, tcMs * 1000 / 8)
            && Starts(q4, debug, nows[3], 6_000_000, 100_000)
  {
    var q1 := Arm(q, hello, helloMs * 1000, helloMs * 1000 / 8, nows[0]);
    var q2 := Arm(q1, tc, tcMs * 1000, tcMs * 1000 / 8, nows[1]);
    var q3 := Arm(q2, jobTx, 50 * 1000, 0, nows[2]);
    ArmReady(q, hello, helloMs * 1000, helloMs * 1000 / 8, nows[0]);
    ArmReady(q1, tc, tcMs * 1000, tcMs * 1000 / 8, nows[1]);
    ArmReady(q2, jobTx, 50 * 1000, 0, nows[2]);
    ArmReady(q3, debug, 6000 * 1000, 100 * 1000, nows[3]);
  }

  // ----- the program's object

  class TimerqueueContext {
    var timers: map<Ptr, Timer>
    var rbt: set<Ptr>
    ghost var fired: seq<Firing>

    ghost function State(): Queue
      reads this
    {
      Queue(timers, rbt, fired)
    }

    constructor ()
      ensures State() == Queue(map[], {}, []) && QueueOk(State(), None)
    {
      timers, rbt, fired := map[], {}, [];
    }

    method TimerqueueFreeTimer(p: Ptr)
      requires p in timers
      modifies `timers
      ensures State() == FreeTimer(old(State()), p)
    {
      timers := timers[p := timers[p].(active := false)];
      if timers[p].attached {
        timers := timers[p := timers[p].(freeOnDetach := true)];
      } else {
        timers := timers - {p};
      }
    }

    method TimerqueueRegisterTimer(p: Ptr, now: Time)
      requires p in timers
      modifies `timers, `rbt
      ensures State() == RegisterTimer(old(State()), p, now)
    {
      timers := timers[p := timers[p].(expire := TimespecAddUsec(now, timers[p].interval))];
      rbt := rbt + {p};
      timers := timers[p := timers[p].(attached := true, active := true)];
    }

    method TimerqueueReactivateTimer(p: Ptr, now: Time)
      requires p in timers
      modifies `timers, `rbt
      ensures State() == ReactivateTimer(old(State()), p, now)
    {
      if timers[p].attached {
        rbt := rbt - {p};
        timers := timers[p := timers[p].(attached := false)];
      }
      TimerqueueRegisterTimer(p, now);
    }

    method TimerqueueNewTimer(p: Ptr)
      requires p !in timers
      modifies `timers
      ensures timers == old(timers)[p := Timer(Time(0, 0), 0, false, false, false, 0, false)]
    {
      timers := timers[p := Timer(Time(0, 0), 0, false, false, false, 0, false)];
    }

    method ArmTimer(p: Ptr, interval: nat, maxJitter: nat, now: Time)
      requires p !in timers
      modifies `timers, `rbt
      ensures State() == Arm(old(State()), p, interval, maxJitter, now)
    {
      TimerqueueNewTimer(p);
      timers := timers[p := timers[p].(interval := interval, maxJitter := maxJitter)];
      TimerqueueRegisterTimer(p, now);
    }

    /** The router's four periodic timers. From then on passes may be made, and the one that sends is on its row. */
    method OlsrStartTimer(hello: Ptr, tc: Ptr, jobTx: Ptr, debug: Ptr, helloMs: nat, tcMs: nat, nows: seq<Time>)
      requires State() == Queue(map[], {}, []) && |nows| == 4 && |{hello, tc, jobTx, debug}| == 4
      requires 0 < helloMs < 40_000 && 0 < tcMs < 40_000
      modifies `timers, `rbt
      ensures rbt == {hello, tc, jobTx, debug} && fired == []
      ensures forall p <- rbt :: Ready(State(), p)
      ensures Regular(State(), jobTx, Ns(nows[2]) + 50_000_000, 50_000_000)
      ensures Starts(State(), hello, nows[0], helloMs * 1000, helloMs * 1000 / 8)
      ensures Starts(State(), tc, nows[1], tcMs * 1000, tcMs * 1000 / 8)
      ensures Starts(State(), debug, nows[3], 6_000_000, 100_000)
    {
      FourDistinct(hello, tc, jobTx, debug);
      StartReady(State(), hello, tc, jobTx, debug, helloMs, tcMs, nows);
      ArmTimer(hello, helloMs * 1000, helloMs * 1000 / 8, nows[0]);
      ArmTimer(tc, tcMs * 1000, tcMs * 1000 / 8, nows[1]);
      ArmTimer(jobTx, 50 * 1000, 0, nows[2]);
      ArmTimer(debug, 6000 * 1000, 100 * 1000, nows[3]);
    }

    /** One call that a callback makes. */
    method Perform(c: Call, self: Ptr, standing: Ptr, currtime: Time)
      modifies `timers, `rbt
      ensures State() == Apply(old(State()), self, standing, currtime, c)
    {
      if Legal(Queue(timers, rbt, []), self, standing, currtime, c) {
        match c
        case Start(p, now, interval, once, jitter) =>
          timers := timers[p := Timer(now, jitter, false, false, false, interval, once)];
          TimerqueueRegisterTimer(p, now);
        case Rearm(p, now, interval) =>
          timers := timers[p := timers[p].(interval := interval)];
          TimerqueueReactivateTimer(p, now);
        case Free(p) =>
          TimerqueueFreeTimer(p);
        case Deactivate(p) =>
          timers := timers[p := timers[p].(active := false)];
      }
    }

    method Callback(calls: seq<Call>, self: Ptr, standing: Ptr, currtime: Time)
      modifies `timers, `rbt
      ensures State() == ApplyAll(old(State()), self, standing, currtime, calls)
    {
      for i := 0 to |calls|
        invariant State() == ApplyAll(old(State()), self, standing, currtime, calls[..i])
      {
        assert calls[..i + 1][..i] == calls[..i];
        Perform(calls[i], self, standing, currtime);
      }
      assert calls[..|calls|] == calls;
    }

    method DetachFirst(first: Ptr)
      requires first in timers
      modifies `timers
      ensures State() == Detach(old(State()), first)
    {
      if timers[first].freeOnDetach {
        timers := timers - {first};
      } else {
        timers := timers[first := timers[first].(attached := false)];
      }
    }

    /** What happens to the first timer once it has been found due. */
    method Serve(first: Ptr, w: World, currtime: Time)
      requires Ready(State(), w.standing) && first == Soonest(State())
      modifies this
      ensures State() == Turn(old(State()), w, currtime)
    {
      OutKeeps(State(), first, w);
      rbt := rbt - {first};
      if timers[first].active {
        var firing := Firing(first, timers[first].expire);
        fired := fired + [firing];
        ApplyAllKeeps(State(), first, w.standing, currtime, w.calls(firing));
        Callback(w.calls(firing), first, w.standing, currtime);
        assert TimerOk(State(), Some(first), first);
        if timers[first].useOnce {
          timers := timers[first := timers[first].(active := false)];
          DetachFirst(first);
        } else {
          var newInterval := timers[first].interval;
          if timers[first].maxJitter != 0 {
            newInterval := newInterval + (w.draws(firing) % 100 + 1) * (timers[first].maxJitter * 2) / 100;
            newInterval := newInterval - timers[first].maxJitter;
          }
          JitterBounds(timers[first], w.draws(firing));
          timers := timers[first := timers[first].(expire := TimespecAddUsec(timers[first].expire, newInterval))];
          rbt := rbt + {first};
        }
      } else {
        DetachFirst(first);
      }
    }

    /** A pass over an empty tree does nothing. */
    method TimerqueueWork(w: World, currtime: Time)
      requires rbt == {} || Ready(State(), w.standing)
      modifies this
      ensures old(rbt) == {} ==> State() == old(State())
      ensures old(rbt) != {} ==> Ready(State(), w.standing) && State() == Work(old(State()), w, currtime)
    {
      if rbt == {} {
        return;
      }
      var first := RbtreeFirst();
      while CheckExpire(timers[first].expire, currtime)
        invariant Ready(State(), w.standing) && first == Soonest(State())
        invariant Work(State(), w, currtime) == Work(old(State()), w, currtime)
        decreases Lag(State(), currtime), Earliest(State())
      {
        TurnKeeps(State(), w, currtime);
        TurnShrinks(State(), w, currtime);
        Serve(first, w, currtime);
        first := RbtreeFirst();
      }
    }

    method RbtreeFirst() returns (first: Ptr)
      requires rbt != {} && rbt <= timers.Keys
      ensures first == Soonest(State())
    {
      first := Soonest(Queue(timers, rbt, []));
      FirstSame(State(), Queue(timers, rbt, []));
    }
  }

  /** The first timer depends on the tree alone. */
  lemma {:induction false} FirstSame(q: Queue, r: Queue)
    requires q.rbt != {} && q.rbt <= q.timers.Keys && r.rbt == q.rbt && r.timers == q.timers
    ensures Soonest(q) == Soonest(r)
  {
    var f, g := Soonest(q), Soonest(r);
    if f != g {
      CompareIsOrder(KeyOf(q, f), KeyOf(q, g), KeyOf(q, f));
    }
  }
}
