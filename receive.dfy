/** The receive path of src/nanomsg-hx.cpp: hx_nn_recv into a scratch buffer of
    the caller's size, and hx_nn_recv_all, which lets nanomsg allocate the
    message, copies it out and gives the allocation back. nn_recv is an oracle:
    what it returned and wrote is a parameter. */
module Receive {
  import opened Outcomes

  /** What nn_recv did with a scratch buffer: its return value and the buffer afterwards. */
  datatype RecvOutcome = RecvOutcome(ret: int, scratch: seq<Byte>)

  /** What nn_recv did in NN_MSG mode: its return value and the message it allocated. */
  datatype MsgOutcome = MsgOutcome(ret: int, message: seq<Byte>)

  function Min(a: int, b: int): (m: int)
    ensures m <= a && m <= b && (m == a || m == b)
  {
    if a < b then a else b
  }

  /** nn_recv's documented behaviour on a pending message `msg`: it returns the
      message's full length and writes into the `nbytes`-byte buffer the part of
      the message that fits, truncating the rest. */
  predicate DeliversMessage(nbytes: nat, msg: seq<Byte>, outcome: RecvOutcome)
  {
    && outcome.ret == |msg|
    && |outcome.scratch| == nbytes
    && outcome.scratch[..Min(|msg|, nbytes)] == msg[..Min(|msg|, nbytes)]
  }

  /** The positions of the stack buffer `buf[length]` that
      `buffer_append_sub(b, buf, ret)` reads, in order, as written: `0 .. ret`. */
  function AsWrittenRecvReads(outcome: RecvOutcome): (touched: seq<nat>)
    ensures |touched| == if outcome.ret < 0 then 0 else outcome.ret
    ensures forall k :: 0 <= k < |touched| ==> touched[k] == k
  {
    if outcome.ret < 0 then [] else seq(outcome.ret, k => k)
  }

  /** As written, a message longer than the buffer is copied out at its full
      length: the copy reads position `nbytes`, one past the end of `buf`. */
  lemma AsWrittenRecvOverRead(nbytes: nat, msg: seq<Byte>, outcome: RecvOutcome)
    requires DeliversMessage(nbytes, msg, outcome)
    requires |msg| > nbytes
    ensures nbytes in AsWrittenRecvReads(outcome) && nbytes >= |outcome.scratch|
  {
    assert AsWrittenRecvReads(outcome)[nbytes] == nbytes;
  }

  /** The smallest instance: a 2-byte buffer and a 3-byte message; nn_recv
      returns 3 and the copy reads `buf[2]`. */
  lemma AsWrittenRecvOverReadExample()
    ensures var outcome := RecvOutcome(3, [1, 2]);
            && DeliversMessage(2, [1, 2, 3], outcome)
            && 2 in AsWrittenRecvReads(outcome) && |outcome.scratch| == 2
  {
    var outcome := RecvOutcome(3, [1, 2]);
    assert outcome.scratch[..2] == [1, 2] == [1, 2, 3][..2];
    assert AsWrittenRecvReads(outcome)[2] == 2;
  }

  /** hx_nn_recv, with the copy capped at the buffer size: a negative result
      raises with that code; otherwise the caller gets the first
      `min(ret, nbytes)` bytes of the scratch buffer, never more than it asked for. */
  function Recv(nbytes: nat, outcome: RecvOutcome): (r: Result<seq<Byte>>)
    requires |outcome.scratch| == nbytes
    ensures r.Error? <==> outcome.ret < 0
    ensures r.Error? ==> r.code == outcome.ret
    ensures r.Ok? ==> |r.value| <= nbytes && r.value <= outcome.scratch
    ensures r.Ok? && outcome.ret <= nbytes ==> |r.value| == outcome.ret
    ensures r.Ok? && outcome.ret > nbytes ==> r.value == outcome.scratch
  {
    if outcome.ret < 0 then Error(outcome.ret) else Ok(outcome.scratch[..Min(outcome.ret, nbytes)])
  }

  /** Whatever message nn_recv delivers, the corrected copy hands the caller
      exactly the part of it that fits in `nbytes`: all of it when it fits, its first `nbytes`
      bytes when it does not. */
  lemma RecvDeliversPrefix(nbytes: nat, msg: seq<Byte>, outcome: RecvOutcome)
    requires DeliversMessage(nbytes, msg, outcome)
    ensures Recv(nbytes, outcome) == Ok(msg[..Min(|msg|, nbytes)])
    ensures |msg| <= nbytes ==> Recv(nbytes, outcome) == Ok(msg)
  {
    assert msg[..|msg|] == msg;
  }

  /** nanomsg's side of a zero-copy receive: the messages it has allocated for
      NN_MSG receives and not yet had back, by chunk id. */
  class Transport {
    var chunks: map<nat, seq<Byte>>
    var nextId: nat
    /** The number of nn_freemsg calls made so far. */
    ghost var frees: nat

    ghost predicate Valid()
      reads this
    {
      forall id :: id in chunks ==> id < nextId
    }

    constructor ()
      ensures Valid() && chunks == map[] && frees == 0
    {
      chunks, nextId, frees := map[], 0, 0;
    }

    /** nn_recv(sock, &buf, NN_MSG, flags): on success nanomsg allocates a new
        chunk holding the message and sets `buf` to it; on failure `buf` stays NULL. */
    method RecvMsg(outcome: MsgOutcome) returns (ret: int, buf: Option<nat>)
      requires Valid()
      modifies this
      ensures Valid() && frees == old(frees)
      ensures ret == outcome.ret
      ensures ret < 0 ==> buf == None && chunks == old(chunks)
      ensures ret >= 0 ==> buf.Some? && buf.value !in old(chunks)
                           && chunks == old(chunks)[buf.value := outcome.message]
    {
      ret := outcome.ret;
      if ret < 0 {
        buf := None;
      } else {
        buf := Some(nextId);
        chunks := chunks[nextId := outcome.message];
        nextId := nextId + 1;
      }
    }

    /** nn_freemsg(buf): the chunk, if any, goes back to nanomsg. */
    method FreeMsg(buf: Option<nat>)
      requires Valid()
      requires buf.Some? ==> buf.value in chunks
      modifies this
      ensures Valid()
      ensures chunks == if buf.Some? then old(chunks) - {buf.value} else old(chunks)
      ensures frees == old(frees) + 1
    {
      if buf.Some? {
        chunks := chunks - {buf.value};
      }
      frees := frees + 1;
    }
  }

  /** hx_nn_recv_all: nn_freemsg is called exactly once on each path, releasing
      the chunk on success, so no chunk outlives the call, and on success the caller gets
      a copy of the whole message, taken while the chunk was still live. */
  method RecvAll(t: Transport, outcome: MsgOutcome) returns (r: Result<seq<Byte>>)
    requires t.Valid()
    requires outcome.ret >= 0 ==> |outcome.message| == outcome.ret
    modifies t
    ensures t.Valid()
    ensures t.chunks == old(t.chunks)
    ensures t.frees == old(t.frees) + 1
    ensures r.Error? <==> outcome.ret < 0
    ensures r.Error? ==> r.code == outcome.ret
    ensures r.Ok? ==> r.value == outcome.message
  {
    var ret, buf := t.RecvMsg(outcome);
    if ret < 0 {
      t.FreeMsg(buf);
      r := Error(ret);
    } else {
      var copy := t.chunks[buf.value][..ret];
      t.FreeMsg(buf);
      r := Ok(copy);
    }
  }
}
