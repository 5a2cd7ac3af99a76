/** The congestion FIFO: a ring buffer with wrapping read and write positions that grows by blocks. It
    refines the byte queue of FifoSpec. Pointers are offsets from the start of the buffer; the end
    pointer is the buffer's length. */
module RingFifo {
  import opened Common
  import opened Handles
  import opened Seqs
  import FifoSpec

  /** The bytes between the read and the write position, going round the end if need be. */
  function Ring(b: seq<byte>, r: nat, w: nat): (q: seq<byte>)
    requires r < |b| && w < |b|
    ensures |q| == if r <= w then w - r else w + |b| - r
  {
    if r <= w then b[r..w] else b[r..] + b[..w]
  }

  /** Writing a chunk at the write position appends it to the ring, as long as a byte stays free. */
  lemma RingWrite(b: seq<byte>, b': seq<byte>, r: nat, w: nat, chunk: seq<byte>)
    requires r < |b| && w < |b| && w + |chunk| <= |b| && |Ring(b, r, w)| + |chunk| < |b|
    requires b' == b[..w] + chunk + b[w + |chunk|..]
    ensures var w' := if w + |chunk| == |b| then 0 else w + |chunk|;
      w' < |b'| && Ring(b', r, w') == Ring(b, r, w) + chunk
  {
    var e := w + |chunk|;
    if r <= w {
      assert b'[r..e] == b[r..w] + chunk;
      if e == |b| {
        assert b'[r..] == b'[r..e];
      }
    } else {
      assert b'[r..] == b[r..] && b'[..e] == b[..w] + chunk;
      Associate(b[r..], b[..w], chunk);
    }
  }

  /** Moving the read position drops a prefix of the ring. */
  lemma RingDrain(b: seq<byte>, r: nat, w: nat, n: nat)
    requires r < |b| && w < |b| && n <= |Ring(b, r, w)|
    ensures var r' := if r + n >= |b| then r + n - |b| else r + n;
      r' < |b| && Ring(b, r', w) == Ring(b, r, w)[n..]
  {
    if r > w {
      if r + n >= |b| {
        assert Ring(b, r, w)[n..] == b[r + n - |b|..w];
      } else {
        assert Ring(b, r, w)[n..] == b[r + n..] + b[..w];
      }
    }
  }

  /** The bytes from the read position up to the end of the buffer come first. */
  lemma RingPrefix(b: seq<byte>, r: nat, w: nat, n: nat)
    requires r < |b| && w < |b| && n <= |Ring(b, r, w)| && r + n <= |b|
    ensures Ring(b, r, w)[..n] == b[r..r + n]
  {
  }

  class IvyFifoBuffer {
    var buffer: array<byte>
    var rptr: nat
    var wptr: nat
    var full: bool

    ghost predicate Valid()
      reads this, buffer
    {
      rptr < buffer.Length && wptr < buffer.Length && FifoSpec.Sound(Contents())
    }

    ghost function Contents(): FifoSpec.Fifo
      requires rptr < buffer.Length && wptr < buffer.Length
      reads this, buffer
    {
      FifoSpec.Fifo(Ring(buffer[..], rptr, wptr), buffer.Length, full)
    }

    /** IvyFifoInit. */
    constructor ()
      ensures Valid() && fresh(buffer) && Contents() == FifoSpec.Init() == FifoSpec.Fifo([], 262144, false)
      ensures rptr == wptr == 0
    {
      buffer := new byte[FifoSpec.ALLOC_SIZE](_ => 0);
      rptr, wptr, full := 0, 0, false;
    }

    /** IvyFifoSize. */
    function Size(): nat
      reads this
    {
      buffer.Length
    }

    /** IvyFifoLength. */
    function Length(): (r: nat)
      requires rptr < buffer.Length && wptr < buffer.Length
      reads this, buffer
      ensures r == |Contents().queue|
    {
      if wptr < rptr then wptr - rptr + buffer.Length else wptr - rptr
    }

    /** IvyFifoAvail. */
    function Avail(): (r: nat)
      requires rptr < buffer.Length && wptr < buffer.Length
      reads this, buffer
      ensures r == Size() - |Contents().queue| > 0
    {
      Size() - Length()
    }

    /** The queued bytes that lie before the end of the buffer. */
    ghost function FirstSegment(): (m: nat)
      requires rptr < buffer.Length && wptr < buffer.Length
      reads this, buffer
      ensures m <= |Contents().queue|
    {
      Min(buffer.Length - rptr, |Contents().queue|)
    }

    /** IvyFifoDrain (ivyfifo.c:168-176). */
    method Drain(size: nat)
      requires Valid() && size <= Length()
      modifies this`rptr, this`full
      ensures Valid() && Contents() == FifoSpec.Drain(old(Contents()), size)
      ensures rptr == if old(rptr) + size >= buffer.Length then old(rptr) + size - buffer.Length else old(rptr) + size
    {
      RingDrain(buffer[..], rptr, wptr, size);
      rptr := rptr + size;
      if rptr >= buffer.Length {
        rptr := rptr - buffer.Length;
      }
      if size > 0 {
        full := false;
      }
    }

    /** memcpy of the next len queued bytes to dest[done..]. */
    method ChunkOut(dest: array<byte>, done: nat, len: nat)
      requires Valid() && dest != buffer && done + len <= dest.Length
      requires len <= Length() && rptr + len <= buffer.Length
      modifies dest
      ensures dest[..] == old(dest[..done]) + Contents().queue[..len] + old(dest[done + len..])
    {
      RingPrefix(buffer[..], rptr, wptr, len);
      forall k | 0 <= k < len {
        dest[done + k] := buffer[rptr + k];
      }
    }

    /** The first `done` bytes of f's queue went to dest, which held d before. */
    ghost predicate Reading(dest: array<byte>, f: FifoSpec.Fifo, d: seq<byte>, done: nat)
      reads this, buffer, dest
    {
      && Valid() && done <= |f.queue| && done <= |d|
      && Contents() == FifoSpec.Drain(f, done) && dest[..] == f.queue[..done] + d[done..]
    }

    lemma ReadStart(dest: array<byte>)
      requires Valid()
      ensures Reading(dest, Contents(), dest[..], 0)
    {
      assert Contents().queue[0..] == Contents().queue;
      assert Contents().queue[..0] + dest[..][0..] == dest[..];
    }

    /** One turn of the read loop (ivyfifo.c:133-141). */
    method ReadStep(dest: array<byte>, done: nat, bytesToRead: nat, ghost f: FifoSpec.Fifo, ghost d: seq<byte>)
      returns (len: nat)
      requires dest != buffer && Reading(dest, f, d, done)
      requires done + bytesToRead <= |f.queue| && done + bytesToRead <= |d|
      modifies this`rptr, this`full, dest
      ensures len <= bytesToRead && (bytesToRead > 0 ==> len > 0) && Reading(dest, f, d, done + len)
    {
      len := Min(buffer.Length - rptr, bytesToRead);
      ChunkOut(dest, done, len);
      ReadSplice(f.queue, d, done, len);
      Drain(len);
      DrainTwice(f, done, len);
    }

    /** The read loop (ivyfifo.c:132-142). */
    method ReadLoop(dest: array<byte>, count: nat, ghost f: FifoSpec.Fifo, ghost d: seq<byte>)
      requires dest != buffer && Reading(dest, f, d, 0) && count <= |f.queue| && count <= |d|
      modifies this`rptr, this`full, dest
      ensures Reading(dest, f, d, count)
    {
      hide Reading;
      var bytesToRead: nat, done: nat, more := count, 0, true;
      while more
        invariant done + bytesToRead == count && (!more ==> bytesToRead == 0)
        invariant Reading(dest, f, d, done)
        decreases more, bytesToRead
      {
        var len := ReadStep(dest, done, bytesToRead, f, d);
        done, bytesToRead := done + len, bytesToRead - len;
        more := bytesToRead > 0;
      }
    }

    /** IvyFifoRead (ivyfifo.c:80-83, 127-144): up to bufSize bytes go to the start of dest. */
    method Read(dest: array<byte>, bufSize: nat) returns (retV: nat)
      requires Valid() && dest != buffer && Min(bufSize, Length()) <= dest.Length
      modifies this`rptr, this`full, dest
      ensures Valid() && retV == Min(bufSize, |old(Contents().queue)|)
      ensures Contents() == FifoSpec.Drain(old(Contents()), retV)
      ensures dest[..] == old(Contents().queue[..retV]) + old(dest[retV..])
    {
      ReadStart(dest);
      retV := Min(bufSize, Length());
      ReadLoop(dest, retV, Contents(), dest[..]);
    }

    /** memcpy of len bytes of data, from off on, to the write position (ivyfifo.c:116-118). */
    method ChunkIn(data: seq<byte>, off: nat, len: nat)
      requires Valid() && off + len <= |data| && wptr + len <= buffer.Length && Length() + len < Size()
      modifies this`wptr, buffer
      ensures Valid() && Contents() == old(Contents()).(queue := old(Contents()).queue + data[off..off + len])
      ensures wptr == if old(wptr) + len >= buffer.Length then 0 else old(wptr) + len
    {
      ghost var b := buffer[..];
      forall k | 0 <= k < len {
        buffer[wptr + k] := data[off + k];
      }
      RingWrite(b, buffer[..], rptr, wptr, data[off..off + len]);
      wptr := wptr + len;
      if wptr >= buffer.Length {
        wptr := 0;
      }
    }

    /** IvyFifoRealloc (ivyfifo.c:85-105). */
    method Realloc(newSize: nat)
      requires Valid() && newSize >= Length()
      modifies this
      ensures Valid() && Contents() == FifoSpec.Realloc(old(Contents()), newSize)
      ensures (buffer == old(buffer) && rptr == old(rptr)) || (fresh(buffer) && rptr == 0)
    {
      FifoSpec.AlignedIsNext(newSize);
      var alignedNewSize := (newSize / FifoSpec.ALLOC_SIZE + 1) * FifoSpec.ALLOC_SIZE;
      if alignedNewSize > FifoSpec.MAX_ALLOC_SIZE {
        full := true;
      } else if Size() < alignedNewSize {
        var len := Length();
        var buffer2 := new byte[alignedNewSize];
        ghost var q := Contents().queue;
        var n := Read(buffer2, len);
        assert buffer2[..len] == q;
        buffer, rptr, wptr, full := buffer2, 0, len, false;
      }
    }

    /** One turn of the write loop (ivyfifo.c:115-122). */
    method WriteStep(data: seq<byte>, off: nat, size: nat, ghost f: FifoSpec.Fifo) returns (len: nat)
      requires Valid() && off + size == |data| && |f.queue| + |data| < f.size
      requires Contents() == f.(queue := f.queue + data[..off])
      modifies this`wptr, buffer
      ensures Valid() && len <= size && (size > 0 ==> len > 0)
      ensures Contents() == f.(queue := f.queue + data[..off + len])
    {
      len := Min(buffer.Length - wptr, size);
      ChunkIn(data, off, len);
      Associate(f.queue, data[..off], data[off..off + len]);
      assert data[..off] + data[off..off + len] == data[..off + len];
    }

    /** The write loop (ivyfifo.c:115-123), once there is room. */
    method CopyIn(data: seq<byte>)
      requires Valid() && Length() + |data| < Size()
      modifies this`wptr, buffer
      ensures Valid() && Contents() == old(Contents()).(queue := old(Contents()).queue + data)
    {
      ghost var f := Contents();
      var size: nat, off: nat, more := |data|, 0, true;
      assert f.queue + data[..0] == f.queue;
      while more
        invariant Valid() && off + size == |data| && (!more ==> size == 0)
        invariant Contents() == f.(queue := f.queue + data[..off])
        decreases more, size
      {
        var len := WriteStep(data, off, size, f);
        off, size := off + len, size - len;
        more := size > 0;
      }
      assert data[..off] == data;
    }

    /** The test and the growth at the start of a write (ivyfifo.c:109-111). */
    method MakeRoom(size: nat)
      requires Valid()
      modifies this
      ensures Valid() && Contents() == FifoSpec.MakeRoom(old(Contents()), size)
      ensures !full ==> Length() + size < Size()
      ensures (buffer == old(buffer) && rptr == old(rptr)) || (fresh(buffer) && rptr == 0)
    {
      FifoSpec.RoomToSpare(Contents(), size);
      if size >= Avail() {
        Realloc(size + Length());
      }
    }

    /** IvyFifoWrite (ivyfifo.c:107-124). */
    method Write(data: seq<byte>)
      requires Valid()
      modifies this, buffer
      ensures Valid() && Contents() == FifoSpec.Write(old(Contents()), data)
      ensures (buffer == old(buffer) && rptr == old(rptr)) || (fresh(buffer) && rptr == 0)
    {
      MakeRoom(|data|);
      if !full {
        CopyIn(data);
      }
    }

    /** One send (ivyfifo.c:152-158): the bytes up to the end of the buffer are offered, `chunk` of
        them got through. */
    method SendOnce(send: (nat, seq<byte>) -> nat, k: nat) returns (chunk: seq<byte>, maxLen: nat)
      requires Valid() && forall i, d :: send(i, d) <= |d|
      modifies this`rptr, this`full
      ensures Valid() && |chunk| <= maxLen <= |old(Contents().queue)| && chunk == old(Contents().queue)[..|chunk|]
      ensures Contents() == FifoSpec.Drain(old(Contents()), |chunk|)
      ensures maxLen == old(FirstSegment()) && |chunk| == send(k, old(Contents().queue)[..maxLen])
      ensures |chunk| == maxLen && |Contents().queue| > 0 ==> FirstSegment() == |Contents().queue|
    {
      maxLen := Min(buffer.Length - rptr, Length());
      RingPrefix(buffer[..], rptr, wptr, maxLen);
      var offered := buffer[rptr..rptr + maxLen];
      var realLen := send(k, offered);
      chunk := offered[..realLen];
      assert chunk == Contents().queue[..maxLen][..realLen];
      Drain(realLen);
    }

    /** The state of a send loop on f, whose first m bytes lie before the end of the buffer. */
    ghost predicate Sending(send: (nat, seq<byte>) -> nat, f: FifoSpec.Fifo, m: nat, sent: seq<byte>, calls: nat,
                            more: bool)
      reads this, buffer
    {
      && Valid() && |sent| <= |f.queue| && sent == f.queue[..|sent|] && m <= |f.queue|
      && Contents() == FifoSpec.Drain(f, |sent|)
      && if calls == 0 then more && sent == [] && FirstSegment() == m
         else if calls == 1 then
           && |sent| == send(0, f.queue[..m]) && (more <==> FifoSpec.SecondSend(send, f.queue, m))
           && (more ==> FirstSegment() == |f.queue| - m)
         else calls == 2 && !more && FifoSpec.SecondSend(send, f.queue, m) && |sent| == m + send(1, f.queue[m..])
    }

    /** One turn of the send loop (ivyfifo.c:151-161). */
    method SendTurn(send: (nat, seq<byte>) -> nat, sent0: seq<byte>, calls: nat, ghost f: FifoSpec.Fifo, ghost m: nat)
      returns (sent: seq<byte>, more: bool)
      requires Sending(send, f, m, sent0, calls, true) && forall i, d :: send(i, d) <= |d|
      modifies this`rptr, this`full
      ensures Sending(send, f, m, sent, calls + 1, more)
    {
      hide *;
      OpenSend(send, sent0, calls, f, m);
      var chunk, maxLen := SendOnce(send, calls);
      DrainTwice(f, |sent0|, |chunk|);
      sent := sent0 + chunk;
      more := Length() > 0 && maxLen == |chunk|;
      CloseSend(send, sent0, calls, f, m, chunk, more);
    }

    /** What the loop's state says before a send: how much is offered, and that it is next in the queue. */
    lemma OpenSend(send: (nat, seq<byte>) -> nat, sent: seq<byte>, calls: nat, f: FifoSpec.Fifo, m: nat)
      requires Sending(send, f, m, sent, calls, true)
      ensures Valid() && calls <= 1 && |sent| <= |f.queue| && sent == f.queue[..|sent|] && m <= |f.queue|
      ensures Contents() == FifoSpec.Drain(f, |sent|) && Contents().queue == f.queue[|sent|..]
      ensures calls == 0 ==> sent == [] && FirstSegment() == m
      ensures calls == 1 ==> |sent| == m && FirstSegment() == |f.queue| - m && FifoSpec.SecondSend(send, f.queue, m)
    {
    }

    lemma CloseSend(send: (nat, seq<byte>) -> nat, sent: seq<byte>, calls: nat, f: FifoSpec.Fifo, m: nat,
                    chunk: seq<byte>, more: bool)
      requires Valid() && calls <= 1 && |sent| + |chunk| <= |f.queue| && sent == f.queue[..|sent|] && m <= |f.queue|
      requires chunk == f.queue[|sent|..][..|chunk|] && Contents() == FifoSpec.Drain(f, |sent| + |chunk|)
      requires calls == 0 ==> sent == [] && |chunk| == send(0, f.queue[|sent|..][..m])
      requires calls == 0 ==> (more <==> |chunk| == m && |Contents().queue| > 0)
      requires calls == 0 && more ==> FirstSegment() == |Contents().queue|
      requires calls == 1 ==> |sent| == m && FifoSpec.SecondSend(send, f.queue, m)
      requires calls == 1 ==> |chunk| == send(1, f.queue[|sent|..][..|f.queue| - m])
      requires calls == 1 ==> (more <==> |chunk| == |f.queue| - m && |Contents().queue| > 0)
      ensures Sending(send, f, m, sent + chunk, calls + 1, more)
    {
      Prefixes(f.queue, |sent|, |chunk|);
      assert f.queue[0..] == f.queue && f.queue[m..][..|f.queue| - m] == f.queue[m..];
    }

    /** IvyFifoSendSocket (ivyfifo.c:147-164). The k-th call of send() on the bytes d takes send(k, d)
        of them. */
    method SendSocket(send: (nat, seq<byte>) -> nat) returns (left: nat, sent: seq<byte>, calls: nat)
      requires Valid() && forall k, d :: send(k, d) <= |d|
      modifies this`rptr, this`full
      ensures Valid() && |sent| <= |old(Contents().queue)| && sent == old(Contents().queue)[..|sent|]
      ensures Contents() == FifoSpec.Drain(old(Contents()), |sent|) && left == |Contents().queue|
      ensures var q, m := old(Contents().queue), old(Min(buffer.Length - rptr, Length()));
        var second := send(0, q[..m]) == m && m < |q|;
        && calls == (if second then 2 else 1)
        && |sent| == (if second then m + send(1, q[m..]) else send(0, q[..m]))
        && (left == 0 <==> send(0, q[..m]) == m && (second ==> send(1, q[m..]) == |q| - m))
    {
      ghost var f, m := Contents(), FirstSegment();
      SendStart(send);
      hide Sending;
      sent, calls := [], 0;
      var more := true;
      while more
        invariant Sending(send, f, m, sent, calls, more) && calls <= 2 && (calls == 2 ==> !more)
        decreases more, 2 - calls
      {
        sent, more := SendTurn(send, sent, calls, f, m);
        calls := calls + 1;
        SendBound(send, f, m, sent, calls, more);
      }
      SendEnd(send, f, m, sent, calls);
      FifoSpec.SentAllExactly(send, f.queue, m);
      left := Length();
    }

    lemma SendStart(send: (nat, seq<byte>) -> nat)
      requires Valid()
      ensures Sending(send, Contents(), FirstSegment(), [], 0, true)
    {
      assert Contents().queue[0..] == Contents().queue;
    }

    lemma SendBound(send: (nat, seq<byte>) -> nat, f: FifoSpec.Fifo, m: nat, sent: seq<byte>, calls: nat, more: bool)
      requires Sending(send, f, m, sent, calls, more)
      ensures calls <= 2 && (calls == 2 ==> !more)
    {
    }

    lemma SendEnd(send: (nat, seq<byte>) -> nat, f: FifoSpec.Fifo, m: nat, sent: seq<byte>, calls: nat)
      requires Sending(send, f, m, sent, calls, false)
      ensures Valid() && |sent| <= |f.queue| && sent == f.queue[..|sent|] && Contents() == FifoSpec.Drain(f, |sent|)
      ensures m <= |f.queue| && |sent| == FifoSpec.SentBy(send, f.queue, m)
      ensures calls == if FifoSpec.SecondSend(send, f.queue, m) then 2 else 1
    {
    }
  }

  lemma Prefixes(q: seq<byte>, m: nat, n: nat)
    requires m + n <= |q|
    ensures q[..m] + q[m..][..n] == q[..m + n]
  {
  }

  lemma DrainTwice(f: FifoSpec.Fifo, m: nat, n: nat)
    requires m + n <= |f.queue|
    ensures FifoSpec.Drain(FifoSpec.Drain(f, m), n) == FifoSpec.Drain(f, m + n)
  {
  }

  lemma ReadSplice(q: seq<byte>, d: seq<byte>, done: nat, len: nat)
    requires done + len <= |q| && done + len <= |d|
    ensures var cur := q[..done] + d[done..];
      cur[..done] + q[done..][..len] + cur[done + len..] == q[..done + len] + d[done + len..]
  {
  }
}
