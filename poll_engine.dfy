/** hx_nn_poll as a program over arrays: build the flat `nn_pollfd` array, let
    nn_poll (an oracle: its outcome is a parameter) write the `revents`, map the
    return value to one of three outcomes and collect the ready sockets into the
    two pre-sized output arrays. The collection is the corrected one (see
    PollAsWritten for the loop as written): each direction appends at its own
    position, and the ready count drops once per ready entry. */
module PollEngine {
  import opened Outcomes
  import opened PollSpec

  /** What hx_nn_poll returns: the error code it raised, `null` on timeout, or
      the pair `[read, write]` of socket arrays. */
  datatype PollResult =
    | PollError(code: int)
    | TimedOut
    | Ready(read: seq<Option<int>>, write: seq<Option<int>>)

  /** The three filling loops: read sockets with NN_POLLIN, then write sockets
      with NN_POLLOUT, then both sockets with NN_POLLIN | NN_POLLOUT. */
  method BuildPollFds(readSocks: seq<int>, writeSocks: seq<int>, bothSocks: seq<int>)
    returns (pfd: array<PollFd>)
    ensures fresh(pfd)
    ensures pfd[..] == Flatten(readSocks, writeSocks, bothSocks)
  {
    var r, w, b := |readSocks|, |writeSocks|, |bothSocks|;
    pfd := new PollFd[r + w + b];
    FillGroup(pfd, 0, readSocks, POLLIN);
    FillGroup(pfd, r, writeSocks, POLLOUT);
    FillGroup(pfd, r + w, bothSocks, POLLIN | POLLOUT);
    ghost var want := Flatten(readSocks, writeSocks, bothSocks);
    forall k | 0 <= k < pfd.Length
      ensures pfd[k] == want[k]
    {
      if k < r {
        assert want[k] == PollFd(readSocks[k], POLLIN, 0);
      } else if k < r + w {
        assert want[r + (k - r)] == PollFd(writeSocks[k - r], POLLOUT, 0);
      } else {
        assert want[r + w + (k - r - w)] == PollFd(bothSocks[k - r - w], POLLIN | POLLOUT, 0);
      }
    }
    assert pfd[..] == want;
  }

  /** One filling loop: entries `offset ..` get the sockets `hs`, in order, with
      interest `mask`; the rest of the array is left as it was. */
  method FillGroup(pfd: array<PollFd>, offset: nat, hs: seq<int>, mask: bv16)
    requires offset + |hs| <= pfd.Length
    modifies pfd
    ensures forall k :: 0 <= k < pfd.Length ==>
              pfd[k] == if offset <= k < offset + |hs| then PollFd(hs[k - offset], mask, 0) else old(pfd[k])
  {
    for i := 0 to |hs|
      invariant forall k :: 0 <= k < pfd.Length ==>
                  pfd[k] == if offset <= k < offset + i then PollFd(hs[k - offset], mask, 0) else old(pfd[k])
    {
      pfd[offset + i] := PollFd(hs[i], mask, 0);
    }
  }

  /** The collection loop: walk the entries while the ready count is positive;
      a readable entry's socket goes to the next free slot of `read`, a writable
      one's to the next free slot of `write`, and every ready entry takes one off
      the count. Slots nothing was stored in stay unset. */
  method Collect(pfd: array<PollFd>, ret: int, readCap: nat, writeCap: nat)
    returns (read: array<Option<int>>, write: array<Option<int>>)
    requires AllWithinInterest(pfd[..])
    requires InterestCount(pfd[..], POLLIN) <= readCap
    requires InterestCount(pfd[..], POLLOUT) <= writeCap
    ensures fresh(read) && fresh(write)
    ensures |Scan(pfd[..], ret).readable| <= readCap && |Scan(pfd[..], ret).writable| <= writeCap
    ensures read[..] == Slots(Scan(pfd[..], ret).readable, readCap)
    ensures write[..] == Slots(Scan(pfd[..], ret).writable, writeCap)
  {
    ScanFitsInterest(pfd[..], ret);
    read := new Option<int>[readCap](_ => None);
    write := new Option<int>[writeCap](_ => None);
    assert read[..] == Slots([], readCap) && write[..] == Slots([], writeCap);
    CollectInto(pfd, ret, read, write);
  }

  /** The loop itself, filling output arrays that start out all unset. */
  method CollectInto(pfd: array<PollFd>, ret: int, read: array<Option<int>>, write: array<Option<int>>)
    requires |Scan(pfd[..], ret).readable| <= read.Length
    requires |Scan(pfd[..], ret).writable| <= write.Length
    requires read != write
    requires read[..] == Slots([], read.Length) && write[..] == Slots([], write.Length)
    modifies read, write
    ensures read[..] == Slots(Scan(pfd[..], ret).readable, read.Length)
    ensures write[..] == Slots(Scan(pfd[..], ret).writable, write.Length)
  {
    ghost var p := pfd[..];
    ghost var want := Scan(p, ret);
    var nr, nw, left, i := 0, 0, ret, 0;
    ghost var rs, ws := [], [];
    while i < pfd.Length && left > 0
      invariant 0 <= i <= pfd.Length
      invariant rs + Scan(p[i..], left).readable == want.readable
      invariant ws + Scan(p[i..], left).writable == want.writable
      invariant nr == |rs| && nw == |ws|
      invariant read[..] == Slots(rs, read.Length)
      invariant write[..] == Slots(ws, write.Length)
    {
      var e := pfd[i];
      ScanAdvance(p, i, left, Readiness(rs, ws), want);
      if Has(e.revents, POLLIN) {
        Append(read, nr, rs, e.fd);
        nr := nr + 1;
      }
      if Has(e.revents, POLLOUT) {
        Append(write, nw, ws, e.fd);
        nw := nw + 1;
      }
      rs, ws := rs + Pick(e, POLLIN), ws + Pick(e, POLLOUT);
      left := if IsReady(e) then left - 1 else left;
      i := i + 1;
    }
  }

  /** Store `fd` in the first unset slot of a pre-sized output array. */
  method Append(a: array<Option<int>>, n: nat, ghost fds: seq<int>, fd: int)
    requires n == |fds| < a.Length
    requires a[..] == Slots(fds, a.Length)
    modifies a
    ensures a[..] == Slots(fds + [fd], a.Length)
  {
    a[n] := Some(fd);
    assert a[..] == Slots(fds + [fd], a.Length);
  }

  /** hx_nn_poll. `outcome` is what nn_poll did: the value it returned and the
      `revents` it wrote, which name only directions an entry asked for. */
  method Poll(readSocks: seq<int>, writeSocks: seq<int>, bothSocks: seq<int>, outcome: PollOutcome)
    returns (r: PollResult)
    requires |outcome.revents| == |readSocks| + |writeSocks| + |bothSocks|
    requires AllWithinInterest(Polled(Flatten(readSocks, writeSocks, bothSocks), outcome.revents))
    ensures r.PollError? <==> outcome.ret == -1
    ensures r.PollError? ==> r.code == -1
    ensures r.TimedOut? <==> outcome.ret == 0
    ensures r.Ready? ==>
              var s := Scan(Polled(Flatten(readSocks, writeSocks, bothSocks), outcome.revents), outcome.ret);
              && |s.readable| <= |readSocks| + |bothSocks|
              && |s.writable| <= |writeSocks| + |bothSocks|
              && r.read == Slots(s.readable, |readSocks| + |bothSocks|)
              && r.write == Slots(s.writable, |writeSocks| + |bothSocks|)
    ensures var p := Polled(Flatten(readSocks, writeSocks, bothSocks), outcome.revents);
            r.Ready? && outcome.ret == ReadyCount(p) ==>
              && |ReadyFds(p, POLLIN)| <= |readSocks| + |bothSocks|
              && |ReadyFds(p, POLLOUT)| <= |writeSocks| + |bothSocks|
              && r.read == Slots(ReadyFds(p, POLLIN), |readSocks| + |bothSocks|)
              && r.write == Slots(ReadyFds(p, POLLOUT), |writeSocks| + |bothSocks|)
  {
    ghost var req := Flatten(readSocks, writeSocks, bothSocks);
    var pfd := BuildPollFds(readSocks, writeSocks, bothSocks);
    // nn_poll writes the reported directions into every entry
    forall i | 0 <= i < pfd.Length {
      pfd[i] := pfd[i].(revents := outcome.revents[i]);
    }
    ghost var p := Polled(req, outcome.revents);
    assert pfd[..] == p;
    var ret := outcome.ret;
    if ret == -1 {
      r := PollError(ret);
    } else if ret == 0 {
      r := TimedOut;
    } else {
      InterestOfFlatten(readSocks, writeSocks, bothSocks);
      InterestOfPolled(req, outcome.revents, POLLIN);
      InterestOfPolled(req, outcome.revents, POLLOUT);
      var read, write := Collect(pfd, ret, |readSocks| + |bothSocks|, |writeSocks| + |bothSocks|);
      r := Ready(read[..], write[..]);
      if ret == ReadyCount(p) {
        ScanIsExact(p, ret);
      }
    }
  }
}
