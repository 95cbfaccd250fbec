module SimServer {
  import opened NetUtil
  import opened RingBuffers

  const TCP_IO_SIZE: nat := 10240
  const TCP_BUFFER_SIZE: nat := 819200

  // ----- the stream format: a big-endian length and that many bytes

  /** The complete frames at the start of a stream. */
  function Frames(s: seq<Byte>): seq<seq<Byte>> {
    if |s| < 2 || |s| < 2 + Word(s[0], s[1]) then []
    else [s[2..2 + Word(s[0], s[1])]] + Frames(s[2 + Word(s[0], s[1])..])
  }

  /** What is left of a stream behind its complete frames. */
  function Rest(s: seq<Byte>): seq<Byte> {
    if |s| < 2 || |s| < 2 + Word(s[0], s[1]) then s else Rest(s[2 + Word(s[0], s[1])..])
  }

  function Stream(fs: seq<seq<Byte>>): seq<Byte>
    requires forall f <- fs :: |f| < 0x1_0000
  {
    if fs == [] then [] else U16(|fs[0]|) + fs[0] + Stream(fs[1..])
  }

  /** A frame on the wire: two bytes of length, the high one first, and the bytes. */
  lemma {:induction false} FrameLayout(f: seq<Byte>)
    requires |f| < 0x1_0000
    ensures Stream([f]) == [|f| / 256, |f| % 256] + f
  {
    NetworkOrder(|f|, 0, 0);
    assert Stream([f]) == U16(|f|) + f + Stream([]);
  }

  lemma {:induction false} FrontFrame(f: seq<Byte>, more: seq<Byte>)
    requires |f| < 0x1_0000
    ensures Frames(U16(|f|) + f + more) == [f] + Frames(more) && Rest(U16(|f|) + f + more) == Rest(more)
  {
    var s := U16(|f|) + f + more;
    SmallWord(|f|);
    assert s[0] == U16(|f|)[0] && s[1] == U16(|f|)[1];
    assert s[2..2 + |f|] == f && s[2 + |f|..] == more;
  }

  /** Frames come out as they were sent, and an incomplete frame behind them stays. */
  lemma {:induction false} StreamRoundTrip(fs: seq<seq<Byte>>, tail: seq<Byte>)
    requires forall f <- fs :: |f| < 0x1_0000
    requires Frames(tail) == [] && Rest(tail) == tail
    ensures Frames(Stream(fs) + tail) == fs && Rest(Stream(fs) + tail) == tail
  {
    if fs == [] {
      assert Stream(fs) + tail == tail;
    } else {
      StreamRoundTrip(fs[1..], tail);
      FrontFrame(fs[0], Stream(fs[1..]) + tail);
      assert Stream(fs) + tail == U16(|fs[0]|) + fs[0] + (Stream(fs[1..]) + tail);
    }
  }

  lemma {:induction false} FirstFrame(s: seq<Byte>, n: nat)
    requires |s| >= 2 && 2 + Word(s[0], s[1]) == n <= |s|
    ensures Frames(s) == [s[2..n]] + Frames(s[n..]) && Rest(s) == Rest(s[n..])
  {
  }

  lemma {:induction false} NoFrame(s: seq<Byte>)
    requires |s| < 2 || |s| < 2 + Word(s[0], s[1])
    ensures Frames(s) == [] && Rest(s) == s
  {
  }

  lemma {:induction false} FrontOf(a: seq<Byte>, b: seq<Byte>, s: seq<Byte>, n: nat)
    requires s == a + b && 2 <= n <= |a|
    ensures s[0] == a[0] && s[1] == a[1] && s[2..n] == a[2..n] && s[n..] == a[n..] + b
  {
  }

  /** Cutting a stream `s` in two: the frames of the first part, then those of `r`, what it left over with the second part. */
  lemma {:induction false} FramesAppend(a: seq<Byte>, b: seq<Byte>, s: seq<Byte>, r: seq<Byte>)
    requires s == a + b && r == Rest(a) + b
    ensures Frames(s) == Frames(a) + Frames(r) && Rest(s) == Rest(r)
    decreases |a|
  {
    if |a| >= 2 && |a| >= 2 + Word(a[0], a[1]) {
      var n := 2 + Word(a[0], a[1]);
      FrontOf(a, b, s, n);
      FirstFrame(a, n);
      FirstFrame(s, n);
      FramesAppend(a[n..], b, s[n..], r);
      Regroup([a[2..n]], Frames(a[n..]), Frames(r));
    } else {
      NoFrame(a);
      assert [] + Frames(r) == Frames(r);
    }
  }

  lemma {:induction false} RestIncomplete(s: seq<Byte>)
    ensures Frames(Rest(s)) == [] && Rest(Rest(s)) == Rest(s) && |Rest(s)| < 2 + 0x1_0000
    decreases |s|
  {
    if |s| >= 2 && |s| >= 2 + Word(s[0], s[1]) {
      RestIncomplete(s[2 + Word(s[0], s[1])..]);
    }
  }

  // ----- the receiving side of the server

  ghost predicate AccountsNow(handled: seq<seq<Byte>>, queued: seq<Byte>, stream: seq<Byte>, k: int) {
    handled + Frames(queued) == Frames(stream) && Rest(queued) == Rest(stream)
  }

  /** The frames handed on and those still queued are the frames of the stream. */
  ghost predicate Accounts(handled: seq<seq<Byte>>, queued: seq<Byte>, stream: seq<Byte>) {
    forall k {:trigger AccountsNow(handled, queued, stream, k)} :: AccountsNow(handled, queued, stream, k)
  }

  lemma {:induction false} AccountStart()
    ensures Accounts([], [], [])
  {
  }

  lemma {:induction false} AccountSame(s: seq<Byte>)
    ensures Accounts([], s, s)
  {
  }

  lemma {:induction false} AccountChunk(handled: seq<seq<Byte>>, queued: seq<Byte>, stream: seq<Byte>, chunk: seq<Byte>)
    requires Accounts(handled, queued, stream)
    ensures Accounts(handled, queued + chunk, stream + chunk)
  {
    assert AccountsNow(handled, queued, stream, 0);
    FramesAppend(queued, chunk, queued + chunk, Rest(queued) + chunk);
    FramesAppend(stream, chunk, stream + chunk, Rest(stream) + chunk);
    Regroup(handled, Frames(queued), Frames(Rest(queued) + chunk));
    forall k ensures AccountsNow(handled, queued + chunk, stream + chunk, k) {}
  }

  lemma {:induction false} Regroup(a: seq<seq<Byte>>, b: seq<seq<Byte>>, c: seq<seq<Byte>>)
    ensures a + (b + c) == (a + b) + c
  {
  }

  lemma {:induction false} AccountFrame(handled: seq<seq<Byte>>, queued: seq<Byte>, stream: seq<Byte>, n: nat)
    requires Accounts(handled, queued, stream) && |queued| >= 2 + n && n == Word(queued[0], queued[1])
    ensures Accounts(handled + [queued[2..][..n]], queued[2..][n..], stream)
  {
    assert AccountsNow(handled, queued, stream, 0);
    FrameOff(queued, n);
  }

  /** When no complete frame is queued, all frames have been handed on. */
  lemma {:induction false} AccountDone(handled: seq<seq<Byte>>, queued: seq<Byte>, stream: seq<Byte>)
    requires Accounts(handled, queued, stream) && (|queued| < 2 || |queued| < 2 + Word(queued[0], queued[1]))
    ensures handled == Frames(stream) && queued == Rest(stream)
  {
    assert AccountsNow(handled, queued, stream, 0);
  }

  /** Two accounts of one queue: what `frames` has taken off `before` is what is missing from `handled`. */
  lemma {:induction false} AccountJoin(handled: seq<seq<Byte>>, before: seq<Byte>, frames: seq<seq<Byte>>, queued: seq<Byte>, stream: seq<Byte>)
    requires Accounts(handled, before, stream) && Accounts(frames, queued, before)
    ensures Accounts(handled + frames, queued, stream)
  {
    assert AccountsNow(handled, before, stream, 0) && AccountsNow(frames, queued, before, 0);
    assert handled + frames + Frames(queued) == handled + (frames + Frames(queued));
  }

  /** The receive ring, and the frames handed on so far. `stream` is a history: all bytes that the ring accepted. */
  class SimulatorServerCtx {
    var recvq: RingBuffer?
    ghost var stream: seq<Byte>
    ghost var handled: seq<seq<Byte>>

    /** Handed on and queued bytes together are the stream. */
    ghost predicate Valid()
      reads this, recvq, if recvq == null then {} else {recvq.buf}
    {
      recvq != null ==>
        && recvq.Valid() && recvq.size == TCP_BUFFER_SIZE
        && Accounts(handled, recvq.Contents(), stream)
    }

    constructor ()
      ensures recvq == null && Valid()
    {
      recvq := null;
      stream, handled := [], [];
    }

    method StartServer()
      requires Valid() && recvq == null
      modifies this
      ensures Valid() && recvq != null && fresh(recvq) && fresh(recvq.buf) && recvq.Contents() == [] == stream && handled == []
    {
      AccountStart();
      recvq := new RingBuffer(TCP_BUFFER_SIZE);
      stream, handled := [], [];
    }

    /** A chunk from the socket. A chunk that does not fit is lost as a whole. */
    method Receive(chunk: seq<Byte>) returns (pushed: bool)
      requires Valid() && recvq != null
      modifies this`stream, recvq`tail, recvq.buf
      ensures Valid() && recvq == old(recvq)
      ensures pushed <==> |old(recvq.Contents())| + |chunk| <= TCP_BUFFER_SIZE
      ensures recvq.Contents() == if pushed then old(recvq.Contents()) + chunk else old(recvq.Contents())
      ensures stream == if pushed then old(stream) + chunk else old(stream)
    {
      ghost var queued := recvq.Contents();
      pushed := recvq.Push(chunk);
      if pushed {
        AccountChunk(handled, queued, stream, chunk);
        stream := stream + chunk;
      }
    }

    /** Hands on every complete frame and keeps the incomplete one. */
    method ParseClientJson() returns (frames: seq<seq<Byte>>)
      requires Valid()
      modifies this`handled, if recvq == null then {} else {recvq}
      ensures Valid() && recvq == old(recvq) && stream == old(stream)
      ensures recvq == null ==> frames == [] && handled == old(handled)
      ensures recvq != null ==> frames == Frames(old(recvq.Contents())) && recvq.Contents() == Rest(old(recvq.Contents()))
      ensures recvq != null ==> handled == old(handled) + frames == Frames(stream) && recvq.Contents() == Rest(stream)
    {
      frames := [];
      if recvq == null {
        return;
      }
      ghost var before := recvq.Contents();
      AccountSame(before);
      while true
        invariant recvq == old(recvq) && recvq.Valid()
        invariant Accounts(frames, recvq.Contents(), before)
        invariant handled == old(handled) && stream == old(stream)
        decreases |recvq.Contents()|
      {
        var canread := recvq.GetReadableBufsize();
        if canread >= 2 {
          var _, header := recvq.Read(2);
          var jsonlen := Word(header[0], header[1]);
          if canread >= 2 + jsonlen {
            AccountFrame(frames, recvq.Contents(), before, jsonlen);
            var _, _ := recvq.Pop(2);
            var _, jsonstr := recvq.Pop(jsonlen);
            frames := frames + [jsonstr];
          } else {
            break;
          }
        } else {
          break;
        }
      }
      AccountDone(frames, recvq.Contents(), before);
      AccountJoin(handled, before, frames, recvq.Contents(), stream);
      handled := handled + frames;
      AccountDone(handled, recvq.Contents(), stream);
    }
  }

  lemma {:induction false} FrameOff(s: seq<Byte>, n: nat)
    requires |s| >= 2 + n && n == Word(s[0], s[1])
    ensures s[2..][..n] == s[2..2 + n] && s[2..][n..] == s[2 + n..]
    ensures Frames(s) == [s[2..2 + n]] + Frames(s[2 + n..]) && Rest(s) == Rest(s[2 + n..])
  {
  }

  // ----- any chunking, any interleaving

  datatype Op = Chunk(bytes: seq<Byte>) | Parse

  datatype Server = Server(queued: seq<Byte>, stream: seq<Byte>, handled: seq<seq<Byte>>)

  function Do(s: Server, op: Op): Server {
    match op
    case Chunk(b) =>
      if |s.queued| + |b| <= TCP_BUFFER_SIZE then s.(queued := s.queued + b, stream := s.stream + b) else s
    case Parse => s.(queued := Rest(s.queued), handled := s.handled + Frames(s.queued))
  }

  function Serve(ops: seq<Op>): Server {
    if ops == [] then Server([], [], []) else Do(Serve(ops[..|ops| - 1]), ops[|ops| - 1])
  }

  /** However the stream is cut into chunks and whenever it is parsed, after a parse exactly the frames of everything
      accepted have been handed on, in order, and the incomplete frame at its end is still queued. */
  lemma {:induction false} Reassembled(ops: seq<Op>)
    ensures Accounts(Serve(ops).handled, Serve(ops).queued, Serve(ops).stream)
    ensures ops != [] && ops[|ops| - 1] == Parse ==>
              Serve(ops).handled == Frames(Serve(ops).stream) && Serve(ops).queued == Rest(Serve(ops).stream)
  {
    if ops != [] {
      var s, op := Serve(ops[..|ops| - 1]), ops[|ops| - 1];
      Reassembled(ops[..|ops| - 1]);
      match op
      case Chunk(b) =>
        AccountChunk(s.handled, s.queued, s.stream, b);
      case Parse =>
        RestIncomplete(s.queued);
        AccountParse(s.handled, s.queued, s.stream);
    }
  }

  lemma {:induction false} AccountParse(handled: seq<seq<Byte>>, queued: seq<Byte>, stream: seq<Byte>)
    requires Accounts(handled, queued, stream)
    ensures Accounts(handled + Frames(queued), Rest(queued), stream)
    ensures handled + Frames(queued) == Frames(stream) && Rest(queued) == Rest(stream)
  {
    assert AccountsNow(handled, queued, stream, 0);
    RestIncomplete(queued);
  }

  /** After a parse there is room for every chunk the socket can deliver: the server never gets stuck on a long frame. */
  lemma {:induction false} RoomAfterParse(ops: seq<Op>, chunk: seq<Byte>)
    requires |chunk| < TCP_IO_SIZE
    ensures Serve(ops + [Parse, Chunk(chunk)]).stream == Serve(ops).stream + chunk
  {
    var s := Serve(ops);
    RestIncomplete(s.queued);
    assert (ops + [Parse, Chunk(chunk)])[..|ops| + 1] == ops + [Parse];
    assert (ops + [Parse])[..|ops|] == ops;
  }
}
