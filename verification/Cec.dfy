/** The receive queue of CEC messages (common/cec.c): a byte ring in which every message is
    preceded by its length, against a queue of whole messages. */
module Cec {
  import opened Octets
  import opened Arith

  const MAX_CEC_MSG_LEN: nat := 16

  datatype Status = Success | Inval | Overflow

  /** One byte of length, then the message. */
  function Frame(msg: seq<Byte>): (f: seq<Byte>)
    requires |msg| < 256
    ensures |f| == |msg| + 1
  {
    [|msg|] + msg
  }

  predicate IsMessage(msg: seq<Byte>) {
    1 <= |msg| <= MAX_CEC_MSG_LEN
  }

  predicate AreMessages(q: seq<seq<Byte>>) {
    forall i | 0 <= i < |q| :: IsMessage(q[i])
  }

  function Encode(q: seq<seq<Byte>>): seq<Byte>
    requires AreMessages(q)
  {
    if q == [] then [] else Frame(q[0]) + Encode(q[1..])
  }

  lemma {:induction false} EncodeAppend(q: seq<seq<Byte>>, msg: seq<Byte>)
    requires AreMessages(q) && IsMessage(msg)
    ensures AreMessages(q + [msg]) && Encode(q + [msg]) == Encode(q) + Frame(msg)
  {
    hide Frame;
    if q == [] {
      assert q + [msg] == [msg] && [msg][1..] == [];
    } else {
      assert (q + [msg])[1..] == q[1..] + [msg];
      EncodeAppend(q[1..], msg);
      assert Frame(q[0]) + (Encode(q[1..]) + Frame(msg)) == (Frame(q[0]) + Encode(q[1..])) + Frame(msg);
    }
  }

  // ----- Ring offsets -----

  /** The place k steps behind offset a. */
  function Place(a: nat, k: nat, size: nat): (p: nat)
    requires a < size && k <= size
    ensures p < size
  {
    if a + k >= size then a + k - size else a + k
  }

  /** How many bytes lie between the read and the write offset. */
  function Used(read: nat, write: nat, size: nat): (n: nat)
    requires read < size && write < size
    ensures n < size && write == Place(read, n, size)
  {
    if write >= read then write - read else write - read + size
  }

  lemma StepPlace(a: nat, size: nat)
    requires a < size
    ensures (a + 1) % size == Place(a, 1, size)
  {
    if a + 1 == size {
      DivModUnique(a + 1, size, 1, 0);
    } else {
      DivModUnique(a + 1, size, 0, a + 1);
    }
  }

  /** The n bytes of the ring that start at offset `read`. */
  function Stored(ring: seq<Byte>, read: nat, n: nat): (s: seq<Byte>)
    requires read < |ring| && n <= |ring|
    ensures |s| == n
  {
    seq(n, i requires 0 <= i < n => ring[Place(read, i, |ring|)])
  }

  lemma PlaceAdd(a: nat, j: nat, k: nat, size: nat)
    requires a < size && j + k <= size
    ensures Place(Place(a, j, size), k, size) == Place(a, j + k, size)
  {}

  /** Storing behind the first n bytes extends them. */
  lemma StoredExtend(ring: seq<Byte>, read: nat, n: nat, v: Byte)
    requires read < |ring| && n < |ring|
    ensures Stored(ring[Place(read, n, |ring|) := v], read, n + 1) == Stored(ring, read, n) + [v]
  {}

  lemma StoredUpdate(ring: seq<Byte>, read: nat, n: nat, k: nat, v: Byte)
    requires read < |ring| && k < n <= |ring|
    ensures Stored(ring[Place(read, k, |ring|) := v], read, n) == Stored(ring, read, n)[k := v]
  {}

  lemma StoredPrefix(ring: seq<Byte>, read: nat, m: nat, n: nat)
    requires read < |ring| && m <= n <= |ring|
    ensures Stored(ring, read, n)[..m] == Stored(ring, read, m)
  {}

  lemma StoredSuffix(ring: seq<Byte>, read: nat, m: nat, n: nat)
    requires read < |ring| && m <= n <= |ring|
    ensures Stored(ring, read, n)[m..] == Stored(ring, Place(read, m, |ring|), n - m)
  {}

  class RxQueue {
    const buf: array<Byte>
    var readOffset: nat
    var writeOffset: nat
    ghost var messages: seq<seq<Byte>>

    ghost predicate Valid()
      reads this, buf
    {
      && readOffset < buf.Length && writeOffset < buf.Length
      && AreMessages(messages)
      && Stored(buf[..], readOffset, Used(readOffset, writeOffset, buf.Length)) == Encode(messages)
    }

    /** Bytes occupied by queued messages. */
    function UsedBytes(): nat
      reads this
      requires readOffset < buf.Length && writeOffset < buf.Length
    {
      Used(readOffset, writeOffset, buf.Length)
    }

    constructor (size: nat)
      requires size > 0
      ensures Valid() && messages == [] && buf.Length == size && fresh(buf)
    {
      buf := new Byte[size](_ => 0);
      readOffset, writeOffset, messages := 0, 0, [];
    }

    method Flush()
      requires buf.Length > 0
      modifies this
      ensures Valid() && messages == [] && readOffset == writeOffset == 0
    {
      readOffset := 0;
      writeOffset := 0;
      messages := [];
    }

    /** One byte behind the first n, and the offset after it. */
    method PutByte(offset: nat, v: Byte, ghost n: nat, ghost stored: seq<Byte>) returns (next: nat)
      requires readOffset < buf.Length && n < buf.Length
      requires offset == Place(readOffset, n, buf.Length) && Stored(buf[..], readOffset, n) == stored
      modifies buf
      ensures next == Place(readOffset, n + 1, buf.Length)
      ensures Stored(buf[..], readOffset, n + 1) == stored + [v]
    {
      hide Place, Stored;
      StepPlace(offset, buf.Length);
      StoredExtend(buf[..], readOffset, n, v);
      PlaceAdd(readOffset, n, 1, buf.Length);
      buf[offset] := v;
      next := (offset + 1) % buf.Length;
    }

    /** Lines 158-180: write a frame behind the used bytes, with a zero for its length. When
        the frame does not fit, the queued bytes are still untouched. */
    method Fill(msg: seq<Byte>) returns (fits: bool, offset: nat)
      requires readOffset < buf.Length && writeOffset < buf.Length
      modifies buf
      ensures fits <==> UsedBytes() + |msg| + 1 < buf.Length
      ensures Stored(buf[..], readOffset, UsedBytes()) == old(Stored(buf[..], readOffset, UsedBytes()))
      ensures fits ==> offset == Place(readOffset, UsedBytes() + |msg| + 1, buf.Length)
      ensures fits ==> Stored(buf[..], readOffset, UsedBytes() + |msg| + 1)
                       == old(Stored(buf[..], readOffset, UsedBytes())) + ([0] + msg)
    {
      hide Place, Used, Stored;
      ghost var size, used := buf.Length, UsedBytes();
      ghost var before := Stored(buf[..], readOffset, used);
      offset := PutByte(writeOffset, 0, used, before);
      FrameStart(before, msg);
      for i := 0 to |msg|
        invariant used + i + 1 <= size
        invariant offset == Place(readOffset, used + i + 1, size)
        invariant Stored(buf[..], readOffset, used + i + 1) == before + ([0] + msg[..i])
      {
        PlaceMeets(readOffset, used + i + 1, size);
        if offset == readOffset {
          KeepPrefix(buf[..], readOffset, used, used + i + 1, before, [0] + msg[..i]);
          return false, offset;
        }
        offset := PutByte(offset, msg[i], used + i + 1, before + ([0] + msg[..i]));
        FrameNext(before, msg, i);
      }
      assert msg[..|msg|] == msg;
      PlaceMeets(readOffset, used + |msg| + 1, size);
      KeepPrefix(buf[..], readOffset, used, used + |msg| + 1, before, [0] + msg);
      fits := offset != readOffset;
    }

    /** cec_rx_queue_push (lines 149-187). One byte of the ring always stays free. */
    method Push(msg: seq<Byte>) returns (status: Status)
      requires Valid() && |msg| < 256
      modifies this`writeOffset, this`messages, buf
      ensures Valid()
      ensures status.Inval? <==> |msg| == 0 || |msg| > 16
      ensures status.Success? <==> IsMessage(msg) && old(UsedBytes()) + |msg| + 1 <= buf.Length - 1
      ensures messages == if status.Success? then old(messages) + [msg] else old(messages)
      ensures !status.Success? ==> writeOffset == old(writeOffset)
    {
      if |msg| > MAX_CEC_MSG_LEN || |msg| == 0 {
        return Inval;
      }
      hide Place, Used, Stored, Encode;
      ghost var used := UsedBytes();
      var fits, offset := Fill(msg);
      if !fits {
        return Overflow;
      }
      ghost var total := used + |msg| + 1;
      StoredUpdate(buf[..], readOffset, total, used, |msg|);
      buf[writeOffset] := |msg|;
      EncodeAppend(messages, msg);
      assert (Encode(messages) + ([0] + msg))[used := |msg|] == Encode(messages) + Frame(msg);
      UsedIsPlace(readOffset, offset, total, buf.Length);
      writeOffset := offset;
      messages := messages + [msg];
      return Success;
    }

    /** Lines 210-215: step over the length and copy the message out. */
    method Drain(msgLen: nat, ghost frame: seq<Byte>) returns (msg: seq<Byte>)
      requires readOffset < buf.Length && writeOffset < buf.Length
      requires msgLen + 1 == |frame| <= UsedBytes()
      requires Stored(buf[..], readOffset, UsedBytes())[..|frame|] == frame
      modifies this`readOffset
      ensures msg == frame[1..]
      ensures readOffset == Place(old(readOffset), |frame|, buf.Length)
    {
      hide Place, Used, Stored;
      ghost var size, used, ring, start := buf.Length, UsedBytes(), buf[..], readOffset;
      msg := [];
      StepPlace(readOffset, size);
      readOffset := (readOffset + 1) % buf.Length;
      for i := 0 to msgLen
        invariant readOffset == Place(start, i + 1, size)
        invariant msg == frame[1..i + 1]
      {
        StoredAt(ring, start, used, i + 1);
        assert frame[i + 1] == Stored(ring, start, used)[i + 1];
        msg := msg + [buf[readOffset]];
        PlaceAdd(start, i + 1, 1, size);
        StepPlace(readOffset, size);
        readOffset := (readOffset + 1) % buf.Length;
      }
    }

    /** cec_rx_queue_pop (lines 189-220): -1 in C is an empty result. */
    method Pop() returns (ok: bool, msg: seq<Byte>)
      requires Valid()
      modifies this`readOffset, this`messages
      ensures Valid()
      ensures ok <==> old(messages) != []
      ensures ok ==> old(messages) == [msg] + messages
      ensures !ok ==> messages == old(messages) && readOffset == old(readOffset) && msg == []
    {
      hide Place, Used, Stored, Encode;
      ghost var size, used, ring, start := buf.Length, UsedBytes(), buf[..], readOffset;
      QueueEmpty(readOffset, writeOffset, size, messages, ring);
      if readOffset == writeOffset {
        return false, [];
      }
      ghost var first, rest := messages[0], messages[1..];
      EncodeFirst(messages);
      StoredAt(ring, readOffset, used, 0);
      var msgLen := buf[readOffset];
      if msgLen == 0 || msgLen > MAX_CEC_MSG_LEN {
        return false, [];
      }
      msg := Drain(msgLen, Frame(first));
      StoredSuffix(ring, start, msgLen + 1, used);
      UsedAfter(start, writeOffset, msgLen + 1, size);
      assert messages == [first] + rest;
      messages := rest;
      return true, msg;
    }

    /** The queueing part of handle_received_message (lines 456-463): a full queue is flushed in
        favour of the new message. */
    method HandleReceived(msg: seq<Byte>) returns (queued: bool)
      requires Valid() && |msg| < 256
      modifies this, buf
      ensures Valid()
      ensures queued <==> IsMessage(msg) && |msg| + 1 < buf.Length
      ensures queued ==> messages == if old(UsedBytes()) + |msg| + 1 < buf.Length then old(messages) + [msg] else [msg]
      ensures !queued ==> messages == if IsMessage(msg) then [] else old(messages)
    {
      hide Stored, Encode, Place;
      var status := Push(msg);
      if status == Overflow {
        Flush();
        status := Push(msg);
      }
      return status == Success;
    }
  }

  lemma FrameStart(before: seq<Byte>, msg: seq<Byte>)
    ensures before + [0] == before + ([0] + msg[..0])
  {}

  lemma FrameNext(before: seq<Byte>, msg: seq<Byte>, i: nat)
    requires i < |msg|
    ensures before + ([0] + msg[..i]) + [msg[i]] == before + ([0] + msg[..i + 1])
  {
    assert msg[..i + 1] == msg[..i] + [msg[i]];
    assert before + ([0] + msg[..i]) + [msg[i]] == before + ([0] + (msg[..i] + [msg[i]]));
  }

  lemma KeepPrefix(ring: seq<Byte>, read: nat, m: nat, n: nat, front: seq<Byte>, back: seq<Byte>)
    requires read < |ring| && m <= n <= |ring|
    requires Stored(ring, read, n) == front + back && |front| == m
    ensures Stored(ring, read, m) == front
  {
    StoredPrefix(ring, read, m, n);
    assert (front + back)[..m] == front;
  }

  lemma StoredAt(ring: seq<Byte>, read: nat, n: nat, k: nat)
    requires read < |ring| && k < n <= |ring|
    ensures Stored(ring, read, n)[k] == ring[Place(read, k, |ring|)]
    ensures Place(read, 0, |ring|) == read
  {}

  /** The offsets meet exactly when nothing is queued. */
  lemma QueueEmpty(read: nat, write: nat, size: nat, q: seq<seq<Byte>>, ring: seq<Byte>)
    requires read < size && write < size && AreMessages(q) && |ring| == size
    requires Stored(ring, read, Used(read, write, size)) == Encode(q)
    ensures read == write <==> q == []
  {}

  lemma EncodeFirst(q: seq<seq<Byte>>)
    requires AreMessages(q) && q != []
    ensures AreMessages(q[1..]) && |Frame(q[0])| <= |Encode(q)|
    ensures Encode(q)[..|Frame(q[0])|] == Frame(q[0]) && Frame(q[0])[1..] == q[0]
    ensures Encode(q)[|Frame(q[0])|..] == Encode(q[1..])
    ensures Encode(q)[0] == |q[0]|
  {}

  lemma UsedAfter(read: nat, write: nat, k: nat, size: nat)
    requires read < size && write < size && k <= Used(read, write, size)
    ensures Used(Place(read, k, size), write, size) == Used(read, write, size) - k
  {}

  /** Going n steps round a ring of that size leads back exactly when n is the size. */
  lemma PlaceMeets(a: nat, n: nat, size: nat)
    requires a < size && 1 <= n <= size
    ensures Place(a, n, size) == a <==> n == size
  {}

  lemma UsedIsPlace(read: nat, write: nat, n: nat, size: nat)
    requires read < size && n < size && write == Place(read, n, size)
    ensures Used(read, write, size) == n
  {}
}
