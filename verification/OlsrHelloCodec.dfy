module OlsrHelloCodec {
  import opened AddrTree
  import opened OlsrGraph
  import opened NetUtil
  import opened OlsrContext
  import opened OlsrProto

  /** The code under which a link is announced; none while its neighbour has no status. */
  function LinkCode(nb: Neighbors, links: Links, a: Addr): Option<nat>
    requires a in links
  {
    if a !in nb || nb[a].status == STATUS_UNAVAILABLE || links[a].status >= LINK_STATUS_END then None
    else Some(CreateLinkCode(nb[a].status, links[a].status))
  }

  ghost function Members(nb: Neighbors, links: Links, code: nat): set<Addr> {
    set a <- links | LinkCode(nb, links, a) == Some(code)
  }

  /** Addresses fit four bytes and link statuses two bits. */
  ghost predicate Writable(links: Links) {
    |links.Keys| < 0x1_0000 && forall a <- links :: a < 0x1_0000_0000 && links[a].status < LINK_STATUS_END
  }

  /** `list` enumerates `s`. */
  ghost predicate Lists(list: seq<Addr>, s: set<Addr>) { Distinct(list) && forall a :: a in list <==> a in s }

  /** The bytes of one group: nothing if no link has the code. */
  ghost predicate GroupFor(nb: Neighbors, links: Links, code: Byte, s: seq<Byte>) {
    if Members(nb, links, code) == {} then s == []
    else Formed(s) && exists list :: Infos(s) == [HelloInfo(code, list)] && Lists(list, Members(nb, links, code))
  }

  method GetNeighborStatus(ctx: OlsrContext, addr: Addr) returns (status: nat)
    ensures status == if addr in ctx.neighborTree then ctx.neighborTree[addr].status else STATUS_UNAVAILABLE
  {
    if addr in ctx.neighborTree {
      return ctx.neighborTree[addr].status;
    }
    return STATUS_UNAVAILABLE;
  }

  lemma {:induction false} ListsSnoc(list: seq<Addr>, s: set<Addr>, a: Addr)
    requires Lists(list, s) && a !in s
    ensures Lists(list + [a], s + {a})
  {
  }

  lemma {:induction false} ListsLength(list: seq<Addr>, s: set<Addr>, t: set<Addr>)
    requires Lists(list, s) && s <= t
    ensures |list| <= |t|
  {
    SimpleLength(list, t);
  }

  /** What the walk over the links has put into the group. */
  ghost function SoFar(nb: Neighbors, links: Links, code: nat, it: Option<Addr>): set<Addr> {
    set a <- Members(nb, links, code) | Seen(it, a)
  }

  lemma {:induction false} SoFarStep(nb: Neighbors, links: Links, code: nat, a: Addr)
    requires a in links
    ensures SoFar(nb, links, code, Next(links.Keys, a))
            == SoFar(nb, links, code, Some(a)) + if LinkCode(nb, links, a) == Some(code) then {a} else {}
  {
    Step(links.Keys, a);
  }

  /** The address bytes behind `offset` after one more address has been written. */
  lemma {:induction false} AppendBytes(was: seq<Byte>, now: seq<Byte>, from: nat, to: nat, a: Addr)
    requires from <= to && to + 4 <= |was| && (to - from) % 4 == 0 && a < 0x1_0000_0000
    requires now == Put(was, to, AddrBytes(a))
    ensures now[..to] == was[..to]
    ensures Addrs(now[from..to + 4]) == Addrs(was[from..to]) + [a]
  {
    assert now[from..to + 4] == was[from..to] + AddrBytes(a);
    AddrsSnoc(was[from..to], a);
  }

  /** A group being written at `offset`: its code, and behind its header the addresses in `list` for the links before `it`. */
  ghost predicate GroupNow(nb: Neighbors, links: Links, code: Byte, front: seq<Byte>, cells: seq<Byte>, it: Option<Addr>, list: seq<Addr>, k: int) {
    && Lists(list, SoFar(nb, links, code, it)) && |list| <= |Members(nb, links, code)|
    && |front| + HELLO_INFO_LEN + ADDR_LEN * |list| <= |cells|
    && cells[..|front|] == front && cells[|front|] == code
    && Addrs(cells[|front| + HELLO_INFO_LEN..|front| + HELLO_INFO_LEN + ADDR_LEN * |list|]) == list
  }

  ghost predicate Group(nb: Neighbors, links: Links, code: Byte, front: seq<Byte>, cells: seq<Byte>, it: Option<Addr>, list: seq<Addr>) {
    forall k {:trigger GroupNow(nb, links, code, front, cells, it, list, k)} :: GroupNow(nb, links, code, front, cells, it, list, k)
  }

  lemma {:induction false} GroupStart(nb: Neighbors, links: Links, code: Byte, front: seq<Byte>, cells: seq<Byte>)
    requires |front| + HELLO_INFO_LEN <= |cells| && cells[..|front|] == front && cells[|front|] == code
    ensures Group(nb, links, code, front, cells, First(links.Keys), [])
  {
    var none: seq<Addr> := [];
    assert SoFar(nb, links, code, First(links.Keys)) == {};
    assert cells[|front| + HELLO_INFO_LEN..|front| + HELLO_INFO_LEN + ADDR_LEN * |none|] == [];
  }

  lemma {:induction false} GroupSkip(nb: Neighbors, links: Links, code: Byte, front: seq<Byte>, cells: seq<Byte>, a: Addr, list: seq<Addr>)
    requires Group(nb, links, code, front, cells, Some(a), list) && a in links && LinkCode(nb, links, a) != Some(code as nat)
    ensures Group(nb, links, code, front, cells, Next(links.Keys, a), list)
  {
    assert GroupNow(nb, links, code, front, cells, Some(a), list, 0);
    SoFarStep(nb, links, code, a);
    assert SoFar(nb, links, code, Next(links.Keys, a)) == SoFar(nb, links, code, Some(a));
  }

  lemma {:induction false} GroupAdd(nb: Neighbors, links: Links, code: Byte, front: seq<Byte>, cells: seq<Byte>, a: Addr, list: seq<Addr>)
    requires Group(nb, links, code, front, cells, Some(a), list)
    requires a in links && a < 0x1_0000_0000 && LinkCode(nb, links, a) == Some(code as nat)
    requires |front| + HELLO_INFO_LEN + ADDR_LEN * |Members(nb, links, code)| <= |cells|
    ensures var end := |front| + HELLO_INFO_LEN + ADDR_LEN * |list|;
            && end + ADDR_LEN <= |cells|
            && Group(nb, links, code, front, Put(cells, end, AddrBytes(a)), Next(links.Keys, a), list + [a])
  {
    assert GroupNow(nb, links, code, front, cells, Some(a), list, 0);
    SoFarStep(nb, links, code, a);
    ListsSnoc(list, SoFar(nb, links, code, Some(a)), a);
    ListsLength(list + [a], SoFar(nb, links, code, Next(links.Keys, a)), Members(nb, links, code));
    var end := |front| + HELLO_INFO_LEN + ADDR_LEN * |list|;
    AppendBytes(cells, Put(cells, end, AddrBytes(a)), |front| + HELLO_INFO_LEN, end, a);
    GroupAdded(nb, links, code, front, Put(cells, end, AddrBytes(a)), Next(links.Keys, a), list + [a]);
  }

  lemma {:induction false} GroupAdded(nb: Neighbors, links: Links, code: Byte, front: seq<Byte>, cells: seq<Byte>, it: Option<Addr>, list: seq<Addr>)
    requires GroupNow(nb, links, code, front, cells, it, list, 0)
    ensures Group(nb, links, code, front, cells, it, list)
  {
  }

  /** Behind the loop: without addresses the group is taken back, and with some it gets its size. */
  lemma {:induction false} GroupEnd(nb: Neighbors, links: Links, code: Byte, front: seq<Byte>, cells: seq<Byte>, list: seq<Addr>)
    requires Group(nb, links, code, front, cells, None, list) && |links.Keys| < 0x1_0000
    ensures |list| <= |Members(nb, links, code)|
    ensures |front| + HELLO_INFO_LEN + ADDR_LEN * |list| <= |cells| && cells[..|front|] == front
    ensures list == [] ==> GroupFor(nb, links, code, [])
    ensures list != [] ==>
              var now := Put(cells, |front| + 2, U16(|list|));
              now[..|front|] == front && GroupFor(nb, links, code, now[|front|..|front| + HELLO_INFO_LEN + ADDR_LEN * |list|])
  {
    assert GroupNow(nb, links, code, front, cells, None, list, 0);
    assert SoFar(nb, links, code, None) == Members(nb, links, code);
    if list == [] {
      assert forall m :: m in Members(nb, links, code) ==> m in list;
    } else {
      assert list[0] in Members(nb, links, code);
      ListsLength(list, Members(nb, links, code), links.Keys);
      GroupBytes(cells, Put(cells, |front| + 2, U16(|list|)), |front|, |front| + HELLO_INFO_LEN + ADDR_LEN * |list|, code, list);
    }
  }

  method HelloWriteLinksWithCode(ctx: OlsrContext, buf: array<Byte>, offset: nat, code: Byte) returns (end: nat)
    requires Writable(ctx.linkTree)
    requires offset + HELLO_INFO_LEN + ADDR_LEN * |Members(ctx.neighborTree, ctx.linkTree, code)| <= buf.Length
    modifies buf
    ensures offset <= end <= buf.Length && buf[..offset] == old(buf[..offset])
    ensures end - offset <= HELLO_INFO_LEN + ADDR_LEN * |Members(ctx.neighborTree, ctx.linkTree, code)|
    ensures GroupFor(ctx.neighborTree, ctx.linkTree, code, buf[offset..end])
  {
    ghost var nb, links, front, list: seq<Addr> := ctx.neighborTree, ctx.linkTree, buf[..offset], [];
    buf[offset] := code;
    end := offset + HELLO_INFO_LEN;
    var writeCount := 0;
    var lelem := First(ctx.linkTree.Keys);
    GroupStart(nb, links, code, front, buf[..]);
    while lelem.Some?
      invariant lelem.Some? ==> lelem.value in links
      invariant Group(nb, links, code, front, buf[..], lelem, list) && |list| == writeCount
      invariant end == offset + HELLO_INFO_LEN + ADDR_LEN * writeCount
      decreases Left(links.Keys, lelem)
    {
      var a := lelem.value;
      Step(links.Keys, a);
      lelem := Next(ctx.linkTree.Keys, a);
      var status := GetNeighborStatus(ctx, a);
      if status == STATUS_UNAVAILABLE {
        GroupSkip(nb, links, code, front, buf[..], a, list);
        continue;
      }
      if CreateLinkCode(status, ctx.linkTree[a].status) == code {
        GroupAdd(nb, links, code, front, buf[..], a, list);
        CopyTo(buf, end, AddrBytes(a));
        list := list + [a];
        writeCount := writeCount + 1;
        end := end + ADDR_LEN;
      } else {
        GroupSkip(nb, links, code, front, buf[..], a, list);
      }
    }
    GroupEnd(nb, links, code, front, buf[..], list);
    if writeCount == 0 {
      end := end - HELLO_INFO_LEN;
      assert buf[offset..end] == [];
    } else {
      CopyTo(buf, offset + 2, U16(writeCount));
    }
  }

  lemma {:induction false} GroupSlice(was: seq<Byte>, offset: nat, end: nat, size: seq<Byte>)
    requires offset + HELLO_INFO_LEN <= end <= |was| && |size| == 2
    ensures Put(was, offset + 2, size)[offset..end] == [was[offset], was[offset + 1]] + size + was[offset + HELLO_INFO_LEN..end]
    ensures Put(was, offset + 2, size)[..offset] == was[..offset]
  {
  }

  lemma {:induction false} GroupOf(code: Byte, pad: Byte, list: seq<Addr>, body: seq<Byte>)
    requires |list| < 0x1_0000 && |body| == ADDR_LEN * |list| && Addrs(body) == list
    ensures var s := [code, pad] + U16(|list|) + body; Formed(s) && Infos(s) == [HelloInfo(code, list)]
  {
    var s := [code, pad] + U16(|list|) + body;
    SmallWord(|list|);
    assert s[2] == U16(|list|)[0] && s[3] == U16(|list|)[1] && s[HELLO_INFO_LEN..] == body;
    OneInfo(s);
  }

  lemma {:induction false} GroupBytes(was: seq<Byte>, now: seq<Byte>, offset: nat, end: nat, code: Byte, list: seq<Addr>)
    requires |list| < 0x1_0000 && end == offset + HELLO_INFO_LEN + ADDR_LEN * |list| <= |was|
    requires was[offset] == code && Addrs(was[offset + HELLO_INFO_LEN..end]) == list
    requires now == Put(was, offset + 2, U16(|list|))
    ensures now[..offset] == was[..offset]
    ensures Formed(now[offset..end]) && Infos(now[offset..end]) == [HelloInfo(code, list)]
  {
    GroupSlice(was, offset, end, U16(|list|));
    GroupOf(code, was[offset + 1], list, was[offset + HELLO_INFO_LEN..end]);
  }

  // ----- all groups

  /** The groups hold every link whose code is below `limit`, each once, and nothing else. */
  ghost predicate TellsBelow(nb: Neighbors, links: Links, gs: seq<HelloInfo>, limit: nat) {
    && (forall i | 0 <= i < |gs| :: gs[i].linkCode < limit && Lists(gs[i].neighAddr, Members(nb, links, gs[i].linkCode)))
    && (forall i, j | 0 <= i < j < |gs| :: gs[i].linkCode < gs[j].linkCode)
    && (forall a <- links :: LinkCode(nb, links, a).Some? && LinkCode(nb, links, a).value < limit ==>
          exists i :: 0 <= i < |gs| && gs[i].linkCode == LinkCode(nb, links, a).value)
  }

  ghost function Below(nb: Neighbors, links: Links, limit: nat): set<Addr> {
    set a <- links | LinkCode(nb, links, a).Some? && LinkCode(nb, links, a).value < limit
  }

  lemma {:induction false} BelowStep(nb: Neighbors, links: Links, code: nat)
    ensures |Below(nb, links, code + 1)| == |Below(nb, links, code)| + |Members(nb, links, code)|
    ensures |Below(nb, links, code + 1)| <= |links.Keys|
  {
    var a, b, c := Below(nb, links, code), Members(nb, links, code), Below(nb, links, code + 1);
    assert forall x :: x in c <==> x in a || x in b;
    assert forall x :: !(x in a && x in b);
    PartSize(a, b, c);
    SubsetSize(c, links.Keys);
  }

  lemma {:induction false} PartSize(a: set<Addr>, b: set<Addr>, c: set<Addr>)
    requires (forall x :: x in c <==> x in a || x in b) && forall x :: !(x in a && x in b)
    ensures |c| == |a| + |b|
  {
    assert c == a + b && a !! b;
  }

  lemma {:induction false} TellsStep(nb: Neighbors, links: Links, gs: seq<HelloInfo>, code: Byte, s: seq<Byte>)
    requires TellsBelow(nb, links, gs, code) && GroupFor(nb, links, code, s) && Formed(s)
    ensures TellsBelow(nb, links, gs + Infos(s), code + 1)
  {
    var gs' := gs + Infos(s);
    if Members(nb, links, code) == {} {
      assert gs' == gs;
      forall a <- links ensures LinkCode(nb, links, a) != Some(code as nat) {
        assert a !in Members(nb, links, code);
      }
    } else {
      assert |gs'| == |gs| + 1 && gs'[|gs|].linkCode == code;
      forall a <- links | LinkCode(nb, links, a).Some? && LinkCode(nb, links, a).value < code + 1
        ensures exists i :: 0 <= i < |gs'| && gs'[i].linkCode == LinkCode(nb, links, a).value
      {
        if LinkCode(nb, links, a).value < code {
          var i :| 0 <= i < |gs| && gs[i].linkCode == LinkCode(nb, links, a).value;
          assert gs'[i] == gs[i];
        }
      }
    }
  }

  /** The groups already written, in terms of the cells of the buffer. */
  ghost predicate WrittenNow(nb: Neighbors, links: Links, front: seq<Byte>, cells: seq<Byte>, offset: nat, code: nat, k: int) {
    && |front| <= offset <= |cells| && cells[..|front|] == front && Formed(cells[|front|..offset])
    && TellsBelow(nb, links, Infos(cells[|front|..offset]), code)
    && offset <= |front| + HELLO_INFO_LEN * code + ADDR_LEN * |Below(nb, links, code)|
  }

  ghost predicate Written(nb: Neighbors, links: Links, front: seq<Byte>, cells: seq<Byte>, offset: nat, code: nat) {
    forall k {:trigger WrittenNow(nb, links, front, cells, offset, code, k)} :: WrittenNow(nb, links, front, cells, offset, code, k)
  }

  lemma {:induction false} WrittenStart(nb: Neighbors, links: Links, front: seq<Byte>, cells: seq<Byte>)
    requires |front| <= |cells| && cells[..|front|] == front
    ensures Written(nb, links, front, cells, |front|, 0)
  {
    assert cells[|front|..|front|] == [];
  }

  lemma {:induction false} RoomForGroup(nb: Neighbors, links: Links, front: seq<Byte>, cells: seq<Byte>, offset: nat, code: nat)
    requires Written(nb, links, front, cells, offset, code) && code < 12
    requires |front| + 12 * HELLO_INFO_LEN + ADDR_LEN * |links.Keys| <= |cells|
    ensures offset + HELLO_INFO_LEN + ADDR_LEN * |Members(nb, links, code)| <= |cells|
  {
    assert WrittenNow(nb, links, front, cells, offset, code, 0);
    BelowStep(nb, links, code);
  }

  lemma {:induction false} WrittenStep(nb: Neighbors, links: Links, front: seq<Byte>, was: seq<Byte>, now: seq<Byte>, offset: nat, end: nat, code: Byte)
    requires Written(nb, links, front, was, offset, code) && |now| == |was| && offset <= |was| && now[..offset] == was[..offset]
    requires offset <= end <= |now| && GroupFor(nb, links, code, now[offset..end])
    requires end - offset <= HELLO_INFO_LEN + ADDR_LEN * |Members(nb, links, code)|
    ensures Written(nb, links, front, now, end, code + 1)
  {
    assert WrittenNow(nb, links, front, was, offset, code, 0);
    var a, s := was[|front|..offset], now[offset..end];
    SamePart(was, now, |front|, offset, end);
    assert Formed(s);
    InfosAppend(a, s);
    TellsStep(nb, links, Infos(a), code, s);
    BelowStep(nb, links, code);
  }

  lemma {:induction false} SamePart(was: seq<Byte>, now: seq<Byte>, from: nat, offset: nat, end: nat)
    requires |now| == |was| && from <= offset <= end <= |was| && now[..offset] == was[..offset]
    ensures now[..from] == was[..from] && now[from..end] == was[from..offset] + now[offset..end]
  {
    assert now[..offset][..from] == now[..from] && was[..offset][..from] == was[..from];
    assert now[..offset][from..] == now[from..offset] && was[..offset][from..] == was[from..offset];
  }

  method HelloWriteLinks(ctx: OlsrContext, buf: array<Byte>, start: nat) returns (offset: nat)
    requires Writable(ctx.linkTree)
    requires start + 12 * HELLO_INFO_LEN + ADDR_LEN * |ctx.linkTree.Keys| <= buf.Length
    modifies buf
    ensures Written(ctx.neighborTree, ctx.linkTree, old(buf[..start]), buf[..], offset, 12)
  {
    ghost var nb, links, front := ctx.neighborTree, ctx.linkTree, buf[..start];
    offset := start;
    WrittenStart(nb, links, front, buf[..]);
    for nstat := 0 to NEIGHBOR_STATUS_END
      invariant Written(nb, links, front, buf[..], offset, nstat * 4)
    {
      for lstat := 0 to LINK_STATUS_END
        invariant Written(nb, links, front, buf[..], offset, nstat * 4 + lstat)
      {
        var code := CreateLinkCode(nstat, lstat);
        ghost var was := buf[..];
        RoomForGroup(nb, links, front, was, offset, code);
        var end := HelloWriteLinksWithCode(ctx, buf, offset, code);
        assert buf[..][..offset] == was[..offset] && buf[..][offset..end] == buf[offset..end];
        WrittenStep(nb, links, front, was, buf[..], offset, end, code);
        offset := end;
      }
    }
  }

  const HELLO_MSG_LEN: nat := 4

  /** The groups hold exactly one (link code, address) pair per link whose neighbour status is known. */
  ghost predicate Tells(nb: Neighbors, links: Links, gs: seq<HelloInfo>) {
    && (forall i | 0 <= i < |gs| :: Lists(gs[i].neighAddr, Members(nb, links, gs[i].linkCode)))
    && (forall i, j | 0 <= i < j < |gs| :: gs[i].linkCode < gs[j].linkCode)
    && (forall a <- links :: LinkCode(nb, links, a).Some? ==>
          exists i :: 0 <= i < |gs| && gs[i].linkCode == LinkCode(nb, links, a).value)
  }

  /** Neighbour statuses are those of the protocol. */
  ghost predicate Known(nb: Neighbors) { forall a <- nb :: nb[a].status < NEIGHBOR_STATUS_END || nb[a].status == STATUS_UNAVAILABLE }

  method BuildOlsrHello(ctx: OlsrContext, buf: array<Byte>, start: nat, htime: Byte, willingness: Byte) returns (len: nat)
    requires Writable(ctx.linkTree) && Known(ctx.neighborTree)
    requires start + HELLO_MSG_LEN + 12 * HELLO_INFO_LEN + ADDR_LEN * |ctx.linkTree.Keys| <= buf.Length
    modifies buf
    ensures HELLO_MSG_LEN <= len && start + len <= buf.Length && buf[..start] == old(buf[..start])
    ensures buf[start..start + HELLO_MSG_LEN] == [0, 0, htime, willingness]
    ensures Formed(buf[start + HELLO_MSG_LEN..start + len])
    ensures Tells(ctx.neighborTree, ctx.linkTree, Infos(buf[start + HELLO_MSG_LEN..start + len]))
  {
    ghost var was := buf[..];
    CopyTo(buf, start, [0, 0, htime, willingness]);
    ghost var front := buf[..start + HELLO_MSG_LEN];
    assert front == was[..start] + [0, 0, htime, willingness];
    var offset := HelloWriteLinks(ctx, buf, start + HELLO_MSG_LEN);
    HelloEnds(ctx.neighborTree, ctx.linkTree, front, buf[..], offset);
    len := offset - start;
    assert buf[..][start + HELLO_MSG_LEN..offset] == buf[start + HELLO_MSG_LEN..start + len];
    assert buf[..start] == front[..start] && buf[start..start + HELLO_MSG_LEN] == front[start..];
  }

  lemma {:induction false} HelloEnds(nb: Neighbors, links: Links, front: seq<Byte>, cells: seq<Byte>, offset: nat)
    requires Written(nb, links, front, cells, offset, 12) && Known(nb)
    ensures |front| <= offset <= |cells| && cells[..|front|] == front
    ensures Formed(cells[|front|..offset]) && Tells(nb, links, Infos(cells[|front|..offset]))
  {
    assert WrittenNow(nb, links, front, cells, offset, 12, 0);
  }

  // ----- reading

  /** The code in the first group that lists `own`. */
  function CodeToMe(gs: seq<HelloInfo>, own: Addr): nat {
    if gs == [] then STATUS_UNAVAILABLE
    else if own in gs[0].neighAddr && gs[0].linkCode != STATUS_UNAVAILABLE then gs[0].linkCode
    else CodeToMe(gs[1..], own)
  }

  function AllAddrs(gs: seq<HelloInfo>): set<Addr> {
    if gs == [] then {} else Elements(gs[0].neighAddr) + AllAddrs(gs[1..])
  }

  lemma {:induction false} CodeIs(gs: seq<HelloInfo>, own: Addr, i: nat)
    requires i < |gs| && own in gs[i].neighAddr && gs[i].linkCode != STATUS_UNAVAILABLE
    requires forall j | 0 <= j < i :: own !in gs[j].neighAddr
    ensures CodeToMe(gs, own) == gs[i].linkCode
  {
    if i > 0 {
      assert gs[1..][i - 1] == gs[i];
      CodeIs(gs[1..], own, i - 1);
    }
  }

  lemma {:induction false} CodeNone(gs: seq<HelloInfo>, own: Addr)
    requires forall j | 0 <= j < |gs| :: own !in gs[j].neighAddr
    ensures CodeToMe(gs, own) == STATUS_UNAVAILABLE
  {
    if gs != [] {
      CodeNone(gs[1..], own);
    }
  }

  lemma {:induction false} AllAddrsIs(gs: seq<HelloInfo>, a: Addr)
    ensures a in AllAddrs(gs) <==> exists i :: 0 <= i < |gs| && a in gs[i].neighAddr
  {
    if gs != [] {
      AllAddrsIs(gs[1..], a);
      if i :| 0 <= i < |gs| && a in gs[i].neighAddr {
        assert i > 0 ==> gs[1..][i - 1] == gs[i];
      }
    }
  }

  /** What the sender knows of a link is what the node at its other end reads, and the receiver learns exactly the links. */
  lemma {:induction false} HelloMeans(nb: Neighbors, links: Links, gs: seq<HelloInfo>, a: Addr)
    requires Tells(nb, links, gs) && Known(nb)
    ensures CodeToMe(gs, a) == if a in links && LinkCode(nb, links, a).Some? then LinkCode(nb, links, a).value else STATUS_UNAVAILABLE
    ensures a in AllAddrs(gs) <==> a in links && LinkCode(nb, links, a).Some?
  {
    AllAddrsIs(gs, a);
    forall j | 0 <= j < |gs| ensures a in gs[j].neighAddr <==> a in Members(nb, links, gs[j].linkCode) {
      assert Lists(gs[j].neighAddr, Members(nb, links, gs[j].linkCode));
    }
    if a in links && LinkCode(nb, links, a).Some? {
      var i :| 0 <= i < |gs| && gs[i].linkCode == LinkCode(nb, links, a).value;
      SmallCode(nb, links, a);
      CodeIs(gs, a, i);
    } else {
      CodeNone(gs, a);
    }
  }

  lemma {:induction false} SmallCode(nb: Neighbors, links: Links, a: Addr)
    requires Known(nb) && a in links && LinkCode(nb, links, a).Some?
    ensures LinkCode(nb, links, a).value < STATUS_UNAVAILABLE
    ensures ExtractStatus(LinkCode(nb, links, a).value) == nb[a].status && ExtractLink(LinkCode(nb, links, a).value) == links[a].status
  {
    CodeParts(nb[a].status, links[a].status);
  }

  /** The two halves of what is read about `a`. */
  lemma {:induction false} CodeMeans(nb: Neighbors, links: Links, gs: seq<HelloInfo>, a: Addr)
    requires Tells(nb, links, gs) && Known(nb)
    requires forall b <- links :: LinkCode(nb, links, b).Some?
    ensures a !in links ==> CodeToMe(gs, a) == STATUS_UNAVAILABLE
    ensures a in links ==> a in nb && CodeToMe(gs, a) < STATUS_UNAVAILABLE
                           && ExtractStatus(CodeToMe(gs, a)) == nb[a].status && ExtractLink(CodeToMe(gs, a)) == links[a].status
    ensures a in AllAddrs(gs) <==> a in links
  {
    HelloMeans(nb, links, gs, a);
    if a in links { SmallCode(nb, links, a); }
  }

  /** A walk over the groups has come to `offset` and not found `own` so far. */
  ghost predicate ReadingNow(s: seq<Byte>, own: Addr, offset: nat, k: int) {
    offset <= |s| && Formed(s[offset..]) && Formed(s) && CodeToMe(Infos(s[offset..]), own) == CodeToMe(Infos(s), own)
  }

  ghost predicate Reading(s: seq<Byte>, own: Addr, offset: nat) {
    forall k {:trigger ReadingNow(s, own, offset, k)} :: ReadingNow(s, own, offset, k)
  }

  lemma {:induction false} ReadingStart(s: seq<Byte>, own: Addr)
    requires Formed(s)
    ensures Reading(s, own, 0)
  {
    assert s[0..] == s;
  }

  lemma {:induction false} ReadingEnd(s: seq<Byte>, own: Addr, offset: nat)
    requires Reading(s, own, offset)
    ensures offset <= |s| && Formed(s)
    ensures offset == |s| ==> CodeToMe(Infos(s), own) == STATUS_UNAVAILABLE
  {
    assert ReadingNow(s, own, offset, 0);
    assert offset == |s| ==> s[offset..] == [];
  }

  /** The group at `offset`, and what the walk does with it. */
  lemma {:induction false} ReadingStep(s: seq<Byte>, own: Addr, offset: nat)
    requires Reading(s, own, offset) && offset < |s|
    ensures Formed(s) && offset + HELLO_INFO_LEN <= |s| && offset + HELLO_INFO_LEN + ADDR_LEN * Word(s[offset + 2], s[offset + 3]) <= |s|
    ensures var n := Word(s[offset + 2], s[offset + 3]);
            var list := Addrs(s[offset + HELLO_INFO_LEN..offset + HELLO_INFO_LEN + ADDR_LEN * n]);
            if own in list && s[offset] != STATUS_UNAVAILABLE then CodeToMe(Infos(s), own) == s[offset]
            else Reading(s, own, offset + HELLO_INFO_LEN + ADDR_LEN * n)
  {
    assert ReadingNow(s, own, offset, 0);
    var t := s[offset..];
    var end := offset + GroupLen(t);
    assert t[HELLO_INFO_LEN..GroupLen(t)] == s[offset + HELLO_INFO_LEN..end];
    assert t[GroupLen(t)..] == s[end..];
    FirstInfo(t, own);
  }

  lemma {:induction false} FirstInfo(t: seq<Byte>, own: Addr)
    requires t != [] && Formed(t)
    ensures CodeToMe(Infos(t), own) ==
              if own in Addrs(t[HELLO_INFO_LEN..GroupLen(t)]) && t[0] != STATUS_UNAVAILABLE then t[0]
              else CodeToMe(Infos(t[GroupLen(t)..]), own)
    ensures AllAddrs(Infos(t)) == Elements(Addrs(t[HELLO_INFO_LEN..GroupLen(t)])) + AllAddrs(Infos(t[GroupLen(t)..]))
  {
    assert Infos(t)[1..] == Infos(t[GroupLen(t)..]);
  }

  /** The entry `i` of a group whose addresses start at `at`. */
  method NeighAddr(s: seq<Byte>, at: nat, n: nat, i: nat) returns (a: Addr)
    requires at + ADDR_LEN * n <= |s| && i < n
    ensures a == Addrs(s[at..at + ADDR_LEN * n])[i]
  {
    AddrsAt(s[at..at + ADDR_LEN * n], i);
    SliceOfSlice(s, at, at + ADDR_LEN * n, 4 * i, 4 * i + 4);
    a := AddrOf(s[at + 4 * i..at + 4 * i + 4]);
  }

  /** Looks for `own` in the entries of one group. */
  method FindInGroup(own: Addr, s: seq<Byte>, at: nat, entrynum: nat) returns (found: bool)
    requires at + ADDR_LEN * entrynum <= |s|
    ensures found <==> own in Addrs(s[at..at + ADDR_LEN * entrynum])
  {
    ghost var list := Addrs(s[at..at + ADDR_LEN * entrynum]);
    found := false;
    for i := 0 to entrynum
      invariant own !in list[..i] && !found
    {
      var neighAddr := NeighAddr(s, at, entrynum, i);
      if neighAddr == own {
        return true;
      }
    }
    assert list[..entrynum] == list;
  }

  /** The receiver's first walk over the groups. */
  method LinkCodeToMe(own: Addr, s: seq<Byte>) returns (code: nat)
    requires Formed(s)
    ensures code == CodeToMe(Infos(s), own)
  {
    code := STATUS_UNAVAILABLE;
    var offset := 0;
    ReadingStart(s, own);
    while |s| > offset
      invariant Reading(s, own, offset) && code == STATUS_UNAVAILABLE
    {
      ReadingStep(s, own, offset);
      var info := offset;
      offset := offset + HELLO_INFO_LEN;
      var entrynum := Word(s[info + 2], s[info + 3]);
      var found := FindInGroup(own, s, offset, entrynum);
      if found {
        code := s[info];
      }
      if code != STATUS_UNAVAILABLE {
        break;
      }
      offset := offset + ADDR_LEN * entrynum;
    }
    if code == STATUS_UNAVAILABLE {
      ReadingEnd(s, own, offset);
    }
  }
}
