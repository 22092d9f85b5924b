/**
 `ring_conn`: one side of the shared 1024-byte rings.  Indices are 32-bit, run freely and wrap; a
 position is the index masked to the ring.  The peer's steps happen at any time; here they fall between
 the moment the indices are sampled and the copy, which is where they could do harm, and between the
 chunks of one transfer.
 */
module Ring {

  import opened Bytes

  const SIZE := 1024          // XENSTORE_RING_SIZE of Xen's io/xs_wire.h
  const WORD := 0x1_0000_0000 // indices are uint32_t

  /** MASK_XENSTORE_IDX */
  function Mask(i: nat): (r: nat)
    ensures r < SIZE
  {
    i % SIZE
  }

  /** An index as it is kept: a uint32_t */
  function Wrap(x: nat): nat { x % WORD }

  /** uint32_t subtraction */
  function Diff(a: nat, b: nat): nat { (a - b) % WORD }

  function Min(a: nat, b: nat): nat { if a < b then a else b }

  /** Free-running indices count the bytes in the ring, wrap or no wrap. */
  lemma DiffIsOccupancy(produced: nat, taken: nat)
    requires taken <= produced <= taken + SIZE
    ensures Diff(Wrap(produced), Wrap(taken)) == produced - taken
  {
    var a, b := produced % WORD, taken % WORD;
    var k := produced / WORD - taken / WORD;
    assert a - b == produced - taken - k * WORD;
    assert k == 0 || k == 1;
  }

  lemma MaskOfIndex(x: nat)
    ensures Mask(Wrap(x)) == Mask(x) < SIZE
  {
    var k := x / WORD;
    assert x == k * WORD + x % WORD;
    assert x == (k * 4194304) * SIZE + x % WORD;
    ModOfMultiple(k * 4194304, x % WORD);
  }

  lemma IndexAdvances(x: nat, n: nat)
    ensures Wrap(Wrap(x) + n) == Wrap(x + n)
  {
  }

  lemma ModOfMultiple(k: nat, y: nat)
    ensures (k * SIZE + y) % SIZE == y % SIZE
  {
  }

  /** Two different stream positions within one ring's length never share a slot. */
  lemma SlotsDiffer(i: nat, j: nat)
    requires i < j < i + SIZE
    ensures Mask(i) != Mask(j)
  {
    var k := j / SIZE - i / SIZE;
    assert Mask(j) - Mask(i) == j - i - k * SIZE;
    assert k == 0 || k == 1;
  }

  lemma SlotAfter(taken: nat, k: nat)
    requires Mask(taken) + k < SIZE
    ensures Mask(taken + k) == Mask(taken) + k
  {
    assert taken + k == (taken / SIZE) * SIZE + (taken % SIZE + k);
    ModOfMultiple(taken / SIZE, taken % SIZE + k);
  }

  /** The slots from `taken` to the produced end hold the stream. */
  ghost predicate Holds(buf: seq<byte>, stream: seq<byte>, taken: nat) {
    && |buf| == SIZE && taken <= |stream| <= taken + SIZE
    && forall i | taken <= i < |stream| :: buf[Mask(i)] == stream[i]
  }

  /** Up to the end of the buffer, unread bytes lie side by side. */
  lemma UnreadIsContiguous(buf: seq<byte>, stream: seq<byte>, taken: nat, len: nat)
    requires Holds(buf, stream, taken) && taken + len <= |stream| && Mask(taken) + len <= SIZE
    ensures buf[Mask(taken)..Mask(taken) + len] == stream[taken..taken + len]
  {
    var a, b := buf[Mask(taken)..Mask(taken) + len], stream[taken..taken + len];
    forall i | 0 <= i < len ensures a[i] == b[i] {
      SlotAfter(taken, i);
      assert a[i] == buf[Mask(taken + i)];
    }
  }

  /** The slots about to be written hold no unread byte. */
  lemma FreeSlots(i: nat, start: nat, n: nat)
    requires i < start && start + n <= i + SIZE && Mask(start) + n <= SIZE
    ensures !(Mask(start) <= Mask(i) < Mask(start) + n)
  {
    hide Mask;
    if Mask(start) <= Mask(i) < Mask(start) + n {
      SlotAfter(start, Mask(i) - Mask(start));
      SlotsDiffer(i, start + (Mask(i) - Mask(start)));
    }
  }

  lemma HoldsLess(buf: seq<byte>, stream: seq<byte>, taken: nat, n: nat)
    requires Holds(buf, stream, taken) && taken + n <= |stream|
    ensures Holds(buf, stream, taken + n)
  {
  }

  /** Writing into free slots up to the end of the buffer extends what is held. */
  lemma WrittenIsHeld(buf: seq<byte>, stream: seq<byte>, taken: nat, x: seq<byte>)
    requires Holds(buf, stream, taken) && |stream| - taken + |x| <= SIZE && Mask(|stream|) + |x| <= SIZE
    ensures Holds(Splice(buf, Mask(|stream|), x), stream + x, taken)
  {
    var start := |stream|;
    var after := Splice(buf, Mask(start), x);
    forall i | taken <= i < start + |x| ensures after[Mask(i)] == (stream + x)[i] {
      if i >= start {
        SlotAfter(start, i - start);
      } else {
        FreeSlots(i, start, |x|);
      }
    }
  }

  /** How much one chunk moves: up to the end of the buffer, of what is there, of what is wanted. */
  function Chunk(start: nat, there: nat, bytes: nat): (r: nat)
    ensures r <= there && r <= bytes && Mask(start) + r <= SIZE
  {
    Min(Min(SIZE - Mask(start), there), bytes)
  }

  /** A chunk that stopped at the end of the buffer leaves its index at slot 0, and one that stopped
      short of it does not: so the two chunks move all that is there, or all that is wanted. */
  lemma TwoChunks(start: nat, there: nat, bytes: nat, first: nat, thereLater: nat)
    requires there <= first + thereLater && thereLater <= SIZE
    requires first == Chunk(start, there, bytes)
    ensures first < bytes && Mask(start + first) == 0 ==>
      var second := Chunk(start + first, thereLater, bytes - first);
      Min(bytes, there) <= first + second == Min(bytes, first + thereLater)
    ensures !(first < bytes && Mask(start + first) == 0) ==> first == Min(bytes, there)
  {
    if first < SIZE - Mask(start) {
      SlotAfter(start, first);
    } else {
      assert start + first == (start / SIZE + 1) * SIZE;
      ModOfMultiple(start / SIZE + 1, 0);
    }
  }

  /** One direction: a producer appends to the stream, a consumer takes from it. */
  class Ring {
    const buf: array<byte>
    var cons: nat
    var prod: nat
    /** Everything ever produced, and how much of it has been consumed. */
    ghost var stream: seq<byte>
    ghost var taken: nat

    /** The slots between the two indices hold the bytes that are produced and not consumed. */
    ghost predicate Valid()
      reads this, buf
    {
      && buf.Length == SIZE && taken <= |stream| <= taken + SIZE
      && Holds(buf[..], stream, taken)
      && cons == Wrap(taken) && prod == Wrap(|stream|)
    }

    /** What the two sides of a ring agree on: 1024 slots, byte i of the stream in slot i modulo 1024, and
        32-bit indices that count what was produced and consumed. */
    lemma SharedLayout()
      requires Valid()
      ensures buf.Length == 1024 && 0 <= |stream| - taken <= 1024
      ensures cons == taken % 4294967296 && prod == |stream| % 4294967296
      ensures forall i | taken <= i < |stream| :: buf[i % 1024] == stream[i]
    {
      forall i | taken <= i < |stream| ensures buf[i % 1024] == stream[i] {
        assert buf[..][Mask(i)] == stream[i];
      }
    }

    constructor ()
      ensures Valid() && fresh(buf) && stream == [] && taken == 0
    {
      buf := new byte[SIZE](_ => '\0');
      cons, prod, stream, taken := 0, 0, [], 0;
    }

    /** A step of the other side: it appends within the free space. */
    method PeerProduces(data: seq<byte>)
      requires Valid() && |stream| - taken + |data| <= SIZE
      modifies this`prod, this`stream, buf
      ensures Valid() && stream == old(stream) + data
    {
      var i := 0;
      while i < |data|
        invariant i <= |data| && Valid() && stream == old(stream) + data[..i]
      {
        hide Mask, Wrap, Holds;
        label L:
        MaskOfIndex(|stream|);
        IndexAdvances(|stream|, 1);
        WrittenIsHeld(buf[..], stream, taken, [data[i]]);
        buf[Mask(prod)] := data[i];
        assert buf[..] == Splice(old@L(buf[..]), Mask(|stream|), [data[i]]);
        prod := Wrap(prod + 1);
        stream := stream + [data[i]];
        i := i + 1;
      }
    }

    /** A step of the other side: it consumes what is there. */
    method PeerConsumes(n: nat)
      requires Valid() && taken + n <= |stream|
      modifies this`cons, this`taken
      ensures Valid() && taken == old(taken) + n
    {
      hide Mask, Wrap;
      HoldsLess(buf[..], stream, taken, n);
      IndexAdvances(taken, n);
      cons := Wrap(cons + n);
      taken := taken + n;
    }

    /** The bytes up to the end of the buffer, of those that are there, of those that are wanted. */
    method ReadChunk(dst: array<byte>, at: nat, bytes: nat, inflight: seq<byte>) returns (len: nat)
      requires Valid() && dst != buf && at + bytes <= dst.Length
      requires |stream| - taken + |inflight| <= SIZE
      modifies this, buf, dst
      ensures Valid() && stream == old(stream) + inflight && taken == old(taken) + len
      ensures len == Chunk(old(taken), |old(stream)| - old(taken), bytes)
      ensures dst[..] == Splice(old(dst[..]), at, stream[old(taken)..taken])
    {
      hide Mask, Wrap, Diff, Holds, Splice;
      var c := cons;
      var p := prod;
      DiffIsOccupancy(|stream|, taken);
      MaskOfIndex(taken);
      PeerProduces(inflight);
      len := SIZE - Mask(c);
      if Diff(p, c) < len { len := Diff(p, c); }
      if len > bytes { len := bytes; }
      UnreadIsContiguous(buf[..], stream, taken, len);
      Memcpy(dst, at, buf, Mask(c), len);
      assert buf[..][Mask(c)..Mask(c) + len] == buf[Mask(c)..Mask(c) + len];
      HoldsLess(buf[..], stream, taken, len);
      IndexAdvances(taken, len);
      cons := Wrap(cons + len);
      taken := taken + len;
    }

    /** The bytes up to the end of the buffer, of those that fit, of those that are given. */
    method WriteChunk(src: array<byte>, at: nat, bytes: nat, freed: nat) returns (len: nat)
      requires Valid() && src != buf && at + bytes <= src.Length
      requires taken + freed <= |stream|
      modifies this, buf
      ensures len == Chunk(|old(stream)|, SIZE - (|old(stream)| - old(taken)), bytes)
      ensures Valid() && taken == old(taken) + freed && stream == old(stream) + src[at..at + len]
    {
      hide Mask, Wrap, Diff, Holds, Splice;
      var c := cons;
      var p := prod;
      DiffIsOccupancy(|stream|, taken);
      MaskOfIndex(|stream|);
      PeerConsumes(freed);
      len := SIZE - Mask(p);
      if SIZE - Diff(p, c) < len { len := SIZE - Diff(p, c); }
      if len > bytes { len := bytes; }
      WrittenIsHeld(buf[..], stream, taken, src[at..at + len]);
      IndexAdvances(|stream|, len);
      Memcpy(buf, Mask(p), src, at, len);
      prod := Wrap(prod + len);
      stream := stream + src[at..at + len];
    }

    /** Up to two chunks, the second from slot 0.  The peer appends `first` during the first, `between`
        before the second is sampled and `second` during it; it may fill the slots that the first freed. */
    method ReadChunks(dst: array<byte>, at: nat, bytes: nat, first: seq<byte>, between: seq<byte>, second: seq<byte>)
      returns (moved: nat)
      requires Valid() && dst != buf && at + bytes <= dst.Length
      requires |stream| - taken + |first| <= SIZE
      requires |stream| - taken + |first| + |between| + |second| <= SIZE + Chunk(taken, |stream| - taken, bytes)
      modifies this, buf, dst
      ensures Valid() && moved <= bytes && taken == old(taken) + moved
      ensures old(stream) <= stream <= old(stream) + first + between + second
      ensures dst[..] == Splice(old(dst[..]), at, stream[old(taken)..taken])
      ensures Min(bytes, |old(stream)| - old(taken)) <= moved
      ensures moved <= Min(bytes, |old(stream)| - old(taken) + |first| + |between|)
    {
      hide Mask, Wrap, Diff, Holds, Splice, Chunk;
      moved := ReadChunk(dst, at, bytes, first);
      TwoChunks(old(taken), |old(stream)| - old(taken), bytes, moved, |stream| + |between| - taken);
      MaskOfIndex(taken);
      if moved < bytes && Mask(cons) == 0 {
        ghost var half := taken;
        ghost var mid, produced := dst[..], stream;
        PeerProduces(between);
        var more := ReadChunk(dst, at + moved, bytes - moved, second);
        assert stream[old(taken)..half] == produced[old(taken)..half];
        ReadTwice(old(dst[..]), mid, dst[..], at, stream, old(taken), half, taken);
        moved := moved + more;
      }
    }

    /** The same for writing; the peer may consume what the first chunk wrote. */
    method WriteChunks(src: array<byte>, at: nat, bytes: nat, first: nat, between: nat, second: nat) returns (moved: nat)
      requires Valid() && src != buf && at + bytes <= src.Length
      requires taken + first <= |stream|
      requires taken + first + between + second <= |stream| + Chunk(|stream|, SIZE - (|stream| - taken), bytes)
      modifies this, buf
      ensures Valid() && moved <= bytes && stream == old(stream) + src[at..at + moved]
      ensures taken == old(taken) + first || taken == old(taken) + first + between + second
      ensures Min(bytes, SIZE - (|old(stream)| - old(taken))) <= moved
      ensures moved <= Min(bytes, SIZE - (|old(stream)| - old(taken)) + first + between)
    {
      hide Mask, Wrap, Diff, Holds, Splice, Chunk;
      moved := WriteChunk(src, at, bytes, first);
      assert |stream| == |old(stream)| + moved && taken == old(taken) + first;
      TwoChunks(|old(stream)|, SIZE - (|old(stream)| - old(taken)), bytes, moved, SIZE - (|stream| - taken) + between);
      MaskOfIndex(|stream|);
      if moved < bytes && Mask(prod) == 0 {
        PeerConsumes(between);
        var more := WriteChunk(src, at + moved, bytes - moved, second);
        assert src[at..at + moved + more] == src[at..at + moved] + src[at + moved..at + moved + more];
        moved := moved + more;
      }
    }
  }

  /** What a connection promises about one transfer of `bytes` bytes, in either direction: it moves some
      prefix, it is done when all of it is moved, it does nothing once dead, and it asks the multiplexer
      to be called again (`on`) exactly while bytes remain. */
  predicate Honours(bytes: nat, moved: nat, done: bool, wasAlive: bool, alive: bool, wasOn: bool, on: bool) {
    && moved <= bytes && (done <==> alive && moved == bytes)
    && (if wasAlive then true else !alive && moved == 0)
    && (alive && moved < bytes ==> on)
    && (alive && moved == bytes > 0 ==> !on)
    && (alive && bytes == 0 && on ==> wasOn)
  }

  /** What the I/O multiplexer has been told about the connection. */
  datatype Interest = Registered(read: bool, write: bool) | Removed

  class RingConn {
    const req: Ring
    const rsp: Ring
    var evRead: bool
    var evWrite: bool
    var alive: bool
    var io: Interest

    ghost predicate Valid()
      reads this, req, req.buf, rsp, rsp.buf
    {
      && req != rsp && req.buf != rsp.buf && req.Valid() && rsp.Valid()
      && io == if alive then Registered(evRead, evWrite) else Removed
    }

    constructor ()
      ensures Valid() && alive && !evRead && !evWrite && fresh(req) && fresh(rsp) && fresh(req.buf) && fresh(rsp.buf)
      ensures req.stream == rsp.stream == [] && req.taken == rsp.taken == 0
    {
      req := new Ring();
      rsp := new Ring();
      evRead, evWrite, alive, io := false, false, true, Registered(false, false);
    }

    /** `first`, `between` and `second` are what the peer appends during and between the two chunks,
        `notified` whether the event channel accepted the notification. */
    method Read(dst: array<byte>, at: nat, bytes: nat, first: seq<byte>, between: seq<byte>, second: seq<byte>, notified: bool)
      returns (done: bool, moved: nat)
      requires Valid() && dst != req.buf && dst != rsp.buf && at + bytes <= dst.Length
      requires |req.stream| - req.taken + |first| <= SIZE
      requires |req.stream| - req.taken + |first| + |between| + |second|
            <= SIZE + Chunk(req.taken, |req.stream| - req.taken, bytes)
      modifies this`evRead, this`alive, this`io, req, req.buf, dst
      ensures Valid() && moved <= bytes && req.taken == old(req.taken) + moved && old(req.stream) <= req.stream
      ensures req.stream <= old(req.stream) + first + between + second
      ensures dst[..] == Splice(old(dst[..]), at, req.stream[old(req.taken)..req.taken])
      ensures Honours(bytes, moved, done, old(alive), alive, old(evRead), evRead)
      ensures old(alive) ==>
        && Min(bytes, |old(req.stream)| - old(req.taken)) <= moved
        && moved <= Min(bytes, |old(req.stream)| - old(req.taken) + |first| + |between|)
        && (evRead <==> moved < bytes)
        && (alive <==> moved == 0 || notified)
    {
      if !alive { return false, 0; }
      hide Mask, Wrap, Diff, Holds, Splice, Min, Chunk;
      moved := req.ReadChunks(dst, at, bytes, first, between, second);
      if moved < bytes && !evRead {
        evRead := true;
        io := Registered(evRead, evWrite);
      }
      if moved == bytes && evRead {
        evRead := false;
        io := Registered(evRead, evWrite);
      }
      if moved > 0 && !notified {
        alive := false;
        io := Removed;
      }
      done := alive && moved == bytes;
    }

    /** `first`, `between` and `second` are how much the peer consumes during and between the two chunks. */
    method Write(src: array<byte>, at: nat, bytes: nat, first: nat, between: nat, second: nat, notified: bool)
      returns (done: bool, moved: nat)
      requires Valid() && src != req.buf && src != rsp.buf && at + bytes <= src.Length
      requires rsp.taken + first <= |rsp.stream|
      requires rsp.taken + first + between + second
            <= |rsp.stream| + Chunk(|rsp.stream|, SIZE - (|rsp.stream| - rsp.taken), bytes)
      modifies this`evWrite, this`alive, this`io, rsp, rsp.buf
      ensures Valid() && moved <= bytes && rsp.stream == old(rsp.stream) + src[at..at + moved]
      ensures old(rsp.taken) <= rsp.taken
      ensures Honours(bytes, moved, done, old(alive), alive, old(evWrite), evWrite)
      ensures old(alive) ==>
        && Min(bytes, SIZE - (|old(rsp.stream)| - old(rsp.taken))) <= moved
        && moved <= Min(bytes, SIZE - (|old(rsp.stream)| - old(rsp.taken)) + first + between)
        && (evWrite <==> moved < bytes)
        && (alive <==> moved == 0 || notified)
    {
      if !alive { return false, 0; }
      hide Mask, Wrap, Diff, Holds, Splice, Min, Chunk;
      moved := rsp.WriteChunks(src, at, bytes, first, between, second);
      if moved < bytes && !evWrite {
        evWrite := true;
        io := Registered(evRead, evWrite);
      }
      if moved == bytes && evWrite {
        evWrite := false;
        io := Registered(evRead, evWrite);
      }
      if moved > 0 && !notified {
        alive := false;
        io := Removed;
      }
      done := alive && moved == bytes;
    }

    method NeedRx()
      requires Valid()
      modifies this`evRead, this`io
      ensures Valid() && evRead == (old(evRead) || alive)
    {
      if !alive { return; }
      if !evRead {
        evRead := true;
        io := Registered(evRead, evWrite);
      }
    }

    method NeedTx()
      requires Valid()
      modifies this`evWrite, this`io
      ensures Valid() && evWrite == (old(evWrite) || alive)
    {
      if !alive { return; }
      if !evWrite {
        evWrite := true;
        io := Registered(evRead, evWrite);
      }
    }
  }
}
