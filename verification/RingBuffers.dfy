module RingBuffers {
  import opened Division
  import opened NetUtil

  /** The bytes queued in a buffer of `max + 1` cells between `head` and `tail`. */
  function Between(buf: seq<Byte>, head: nat, tail: nat): seq<Byte>
    requires head < |buf| && tail < |buf|
  {
    if head <= tail then buf[head..tail] else buf[head..] + buf[..tail]
  }

  class RingBuffer {
    const size: nat
    const maxOffset: nat
    var head: nat
    var tail: nat
    const buf: array<Byte>

    ghost predicate Valid()
      reads this
    {
      maxOffset == size < 0x8000_0000 && buf.Length == size + 1 && head <= maxOffset && tail <= maxOffset
    }

    /** The queued bytes, oldest first. */
    ghost function Contents(): (s: seq<Byte>)
      reads this, buf
      requires Valid()
      ensures |s| <= size
    {
      Between(buf[..], head, tail)
    }

    constructor (size: nat)
      requires size < 0x8000_0000
      ensures Valid() && this.size == size && Contents() == [] && fresh(buf)
    {
      this.size := size;
      maxOffset := size;
      head, tail := 0, 0;
      buf := new Byte[size + 1];
    }

    method DropBuffer()
      requires Valid()
      modifies this
      ensures Valid() && Contents() == []
    {
      head, tail := 0, 0;
    }

    method GetRemainBufsize() returns (remain: nat)
      requires Valid()
      ensures remain == size - |Contents()|
    {
      if head == tail {
        remain := size;
      } else if head < tail {
        remain := size - (tail - head);
      } else {
        remain := head - tail - 1;
      }
    }

    method GetReadableBufsize() returns (readable: nat)
      requires Valid()
      ensures readable == |Contents()|
    {
      var remain := GetRemainBufsize();
      readable := size - remain;
    }

    /** Writes the first bytes up to the end of the buffer, the others from its start. */
    method CopyAround(data: seq<Byte>, contRemain: nat)
      requires Valid() && contRemain <= |data| && tail + contRemain == buf.Length && |data| - contRemain <= buf.Length
      modifies buf
      ensures buf[..] == Put(Put(old(buf[..]), tail, data[..contRemain]), 0, data[contRemain..])
    {
      CopyTo(buf, tail, data[..contRemain]);
      CopyTo(buf, 0, data[contRemain..]);
    }

    /** Appends all of `data`, or nothing when there is not enough room. */
    method Push(data: seq<Byte>) returns (pushed: bool)
      requires Valid()
      modifies this`tail, buf
      ensures Valid()
      ensures pushed <==> |old(Contents())| + |data| <= size
      ensures Contents() == if pushed then old(Contents()) + data else old(Contents())
    {
      var remain := GetRemainBufsize();
      if |data| > remain {
        return false;
      }
      ghost var was := buf[..];
      var contRemain := maxOffset - tail + 1;
      if contRemain < |data| {
        PushWraps(was, head, tail, data);
        CopyAround(data, contRemain);
        tail := |data| - contRemain;
      } else {
        PushFits(was, head, tail, data);
        CopyTo(buf, tail, data);
        tail := Advance(tail, |data|, maxOffset + 1);
      }
      pushed := true;
    }

    /** The oldest `readlen` bytes; they stay queued unless `doPop`. */
    method ReadInternal(readlen: nat, doPop: bool) returns (ok: bool, data: seq<Byte>)
      requires Valid()
      modifies this`head
      ensures Valid()
      ensures ok <==> readlen <= |old(Contents())|
      ensures ok ==> data == old(Contents())[..readlen]
      ensures Contents() == if ok && doPop then old(Contents())[readlen..] else old(Contents())
    {
      var readable := GetReadableBufsize();
      if readlen > readable {
        return false, [];
      }
      ReadIs(buf[..], head, tail, readlen);
      var contReadable := maxOffset - head + 1;
      if contReadable < readlen {
        data := buf[head..] + buf[..readlen - contReadable];
        if doPop {
          head := readlen - contReadable;
        }
      } else {
        data := buf[head..head + readlen];
        if doPop {
          head := Advance(head, readlen, maxOffset + 1);
        }
      }
      ok := true;
    }

    method Read(readlen: nat) returns (ok: bool, data: seq<Byte>)
      requires Valid()
      modifies this`head
      ensures Valid()
      ensures ok <==> readlen <= |old(Contents())|
      ensures ok ==> data == old(Contents())[..readlen]
      ensures Contents() == old(Contents())
    {
      ok, data := ReadInternal(readlen, false);
    }

    method Pop(readlen: nat) returns (ok: bool, data: seq<Byte>)
      requires Valid()
      modifies this`head
      ensures Valid()
      ensures ok <==> readlen <= |old(Contents())|
      ensures ok ==> data == old(Contents())[..readlen]
      ensures Contents() == if ok then old(Contents())[readlen..] else old(Contents())
    {
      ok, data := ReadInternal(readlen, true);
    }
  }

  /** The tail of the queue after `n` more bytes, on a ring of `len` cells. */
  function Wrapped(i: nat, n: nat, len: nat): (r: nat)
    requires i < len && n < len
    ensures r < len
  {
    if i + n < len then i + n else i + n - len
  }

  lemma {:induction false} WrapIsMod(i: nat, n: nat, len: nat)
    requires i < len && n < len
    ensures (i + n) % len == Wrapped(i, n, len)
  {
    IsDivision(i + n, len);
  }

  method Advance(i: nat, n: nat, len: nat) returns (r: nat)
    requires i < len && n < len
    ensures r == Wrapped(i, n, len)
  {
    WrapIsMod(i, n, len);
    r := (i + n) % len;
  }

  /** Bytes that fit before the end of the buffer go behind the queue. */
  lemma {:induction false} PushFits(buf: seq<Byte>, head: nat, tail: nat, data: seq<Byte>)
    requires head < |buf| && tail < |buf| && |Between(buf, head, tail)| + |data| < |buf| && tail + |data| <= |buf|
    ensures Between(Put(buf, tail, data), head, Wrapped(tail, |data|, |buf|)) == Between(buf, head, tail) + data
  {
    if head <= tail {
      PutBehind(buf, head, tail, data);
      assert Put(buf, tail, data)[..0] == [];
    } else {
      PutBehind(buf, 0, tail, data);
      PutBefore(buf, tail, data, head);
      assert buf[0..tail] == buf[..tail];
    }
  }

  lemma {:induction false} PutBehind(buf: seq<Byte>, from: nat, at: nat, data: seq<Byte>)
    requires from <= at && at + |data| <= |buf|
    ensures Put(buf, at, data)[from..at + |data|] == buf[from..at] + data
  {
  }

  lemma {:induction false} PutBefore(buf: seq<Byte>, at: nat, data: seq<Byte>, from: nat)
    requires at + |data| <= from <= |buf|
    ensures Put(buf, at, data)[from..] == buf[from..]
  {
  }

  /** Bytes that do not are written through the end of the buffer and go on at its start. */
  lemma {:induction false} PushWraps(buf: seq<Byte>, head: nat, tail: nat, data: seq<Byte>)
    requires head < |buf| && tail < |buf| && |Between(buf, head, tail)| + |data| < |buf| < tail + |data|
    ensures |buf| - tail < |data| && |data| - (|buf| - tail) < head <= tail
    ensures Between(Put(Put(buf, tail, data[..|buf| - tail]), 0, data[|buf| - tail..]), head, |data| - (|buf| - tail))
            == Between(buf, head, tail) + data
  {
    var n := |buf| - tail;
    var once := Put(buf, tail, data[..n]);
    assert once[head..] == buf[head..tail] + data[..n];
    var now := Put(once, 0, data[n..]);
    assert now[head..] == once[head..] && now[..|data| - n] == data[n..];
    JoinBack(Between(buf, head, tail), data, n);
  }

  lemma {:induction false} JoinBack(a: seq<Byte>, b: seq<Byte>, n: nat)
    requires n <= |b|
    ensures a + b[..n] + b[n..] == a + b
  {
    assert b[..n] + b[n..] == b;
  }

  /** The first `n` queued bytes and what is left behind them, in terms of the cells. */
  lemma {:induction false} ReadIs(buf: seq<Byte>, head: nat, tail: nat, n: nat)
    requires head < |buf| && tail < |buf| && n <= |Between(buf, head, tail)|
    ensures |buf| - head < n ==> n - (|buf| - head) <= tail < head
                                 && Between(buf, head, tail)[..n] == buf[head..] + buf[..n - (|buf| - head)]
                                 && Between(buf, n - (|buf| - head), tail) == Between(buf, head, tail)[n..]
    ensures head + n <= |buf| ==> Between(buf, head, tail)[..n] == buf[head..head + n]
                                  && Between(buf, Wrapped(head, n, |buf|), tail) == Between(buf, head, tail)[n..]
  {
  }
}
