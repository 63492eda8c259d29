/** The poll request and result of hx_nn_poll as values: the flat `nn_pollfd`
    layout, the readiness nn_poll reports, and what the corrected collection loop gathers. */
module PollSpec {
  import opened Outcomes

  /** NN_POLLIN and NN_POLLOUT as nanomsg defines them. */
  const POLLIN: bv16 := 1
  const POLLOUT: bv16 := 2

  /** One `struct nn_pollfd`: a socket, the directions asked for, the directions reported. */
  datatype PollFd = PollFd(fd: int, events: bv16, revents: bv16)

  /** What hx_nn_poll gets back in `ready`: the sockets ready to read and to write. */
  datatype Readiness = Readiness(readable: seq<int>, writable: seq<int>)

  /** The value nn_poll returned and the `revents` it wrote into each entry. */
  datatype PollOutcome = PollOutcome(ret: int, revents: seq<bv16>)

  predicate Has(mask: bv16, dir: bv16)
  {
    mask & dir != 0
  }

  /** nn_poll only reports directions an entry asked for. */
  predicate WithinInterest(e: PollFd)
  {
    e.revents & !e.events == 0
  }

  predicate AllWithinInterest(p: seq<PollFd>)
  {
    forall i :: 0 <= i < |p| ==> WithinInterest(p[i])
  }

  /** An entry nn_poll counts in its return value. */
  predicate IsReady(e: PollFd)
  {
    Has(e.revents, POLLIN) || Has(e.revents, POLLOUT)
  }

  /** One group of handles, all with the same interest mask, in input order. */
  function Group(hs: seq<int>, mask: bv16): (g: seq<PollFd>)
    ensures |g| == |hs|
    ensures forall i :: 0 <= i < |hs| ==> g[i] == PollFd(hs[i], mask, 0)
  {
    seq(|hs|, i requires 0 <= i < |hs| => PollFd(hs[i], mask, 0))
  }

  /** The `pfd` array hx_nn_poll builds: read entries, then write entries, then
      both entries, each group in input order and with its own interest mask.
      (`revents` starts at 0 here; nn_poll overwrites every entry's.) */
  function Flatten(readSocks: seq<int>, writeSocks: seq<int>, bothSocks: seq<int>): (p: seq<PollFd>)
    ensures |p| == |readSocks| + |writeSocks| + |bothSocks|
    ensures forall i :: 0 <= i < |readSocks| ==> p[i] == PollFd(readSocks[i], POLLIN, 0)
    ensures forall j :: 0 <= j < |writeSocks| ==> p[|readSocks| + j] == PollFd(writeSocks[j], POLLOUT, 0)
    ensures forall k :: 0 <= k < |bothSocks| ==>
              p[|readSocks| + |writeSocks| + k] == PollFd(bothSocks[k], POLLIN | POLLOUT, 0)
  {
    Group(readSocks, POLLIN) + Group(writeSocks, POLLOUT) + Group(bothSocks, POLLIN | POLLOUT)
  }

  /** The request after nn_poll has written its `revents`. */
  function Polled(req: seq<PollFd>, revents: seq<bv16>): (p: seq<PollFd>)
    requires |revents| == |req|
    ensures |p| == |req|
    ensures forall i :: 0 <= i < |req| ==>
              p[i].fd == req[i].fd && p[i].events == req[i].events && p[i].revents == revents[i]
  {
    seq(|req|, i requires 0 <= i < |req| => req[i].(revents := revents[i]))
  }

  /** The sockets ready in direction `dir`, in flat order: the reference result,
      without the early stop. */
  function ReadyFds(p: seq<PollFd>, dir: bv16): (fds: seq<int>)
    ensures |fds| <= |p|
  {
    if p == [] then [] else Pick(p[0], dir) + ReadyFds(p[1..], dir)
  }

  function Pick(e: PollFd, dir: bv16): (fds: seq<int>)
    ensures |fds| <= 1
  {
    if Has(e.revents, dir) then [e.fd] else []
  }

  /** The number of entries nn_poll reports as ready. */
  function ReadyCount(p: seq<PollFd>): (n: nat)
    ensures n <= |p|
  {
    if p == [] then 0 else (if IsReady(p[0]) then 1 else 0) + ReadyCount(p[1..])
  }

  /** The number of entries that asked for direction `dir`. */
  function InterestCount(p: seq<PollFd>, dir: bv16): (n: nat)
    ensures n <= |p|
  {
    if p == [] then 0 else (if Has(p[0].events, dir) then 1 else 0) + InterestCount(p[1..], dir)
  }

  /** The collection with the early stop, corrected (see PollAsWritten for the
      loop as written): walk the flat entries while the remaining ready count
      `left` is positive, taking one off per ready entry. */
  function Scan(p: seq<PollFd>, left: int): (r: Readiness)
    ensures |r.readable| <= |p| && |r.writable| <= |p|
  {
    if p == [] || left <= 0 then Readiness([], [])
    else
      var rest := Scan(p[1..], if IsReady(p[0]) then left - 1 else left);
      Readiness(Pick(p[0], POLLIN) + rest.readable, Pick(p[0], POLLOUT) + rest.writable)
  }

  /** One step of the scan from position `i`: the entry there is picked and the
      count goes down if it is ready. */
  lemma ScanStep(p: seq<PollFd>, i: nat, left: int)
    requires i < |p| && left > 0
    ensures Scan(p[i..], left) ==
            var rest := Scan(p[i + 1..], if IsReady(p[i]) then left - 1 else left);
            Readiness(Pick(p[i], POLLIN) + rest.readable, Pick(p[i], POLLOUT) + rest.writable)
  {
    assert p[i..][1..] == p[i + 1..];
  }

  /** The scan still ahead at position `i` accounts for what remains of `whole`
      once `sofar` has been gathered; one more step keeps that true. */
  lemma ScanAdvance(p: seq<PollFd>, i: nat, left: int, sofar: Readiness, whole: Readiness)
    requires i < |p| && left > 0
    requires sofar.readable + Scan(p[i..], left).readable == whole.readable
    requires sofar.writable + Scan(p[i..], left).writable == whole.writable
    ensures var next := if IsReady(p[i]) then left - 1 else left;
            && sofar.readable + Pick(p[i], POLLIN) + Scan(p[i + 1..], next).readable == whole.readable
            && sofar.writable + Pick(p[i], POLLOUT) + Scan(p[i + 1..], next).writable == whole.writable
  {
    ScanStep(p, i, left);
  }

  /** A pre-sized Haxe output array: the collected handles first, unset slots after. */
  function Slots(fds: seq<int>, cap: nat): (s: seq<Option<int>>)
    requires |fds| <= cap
    ensures |s| == cap
    ensures forall k :: 0 <= k < |fds| ==> s[k] == Some(fds[k])
    ensures forall k :: |fds| <= k < cap ==> s[k] == None
  {
    seq(cap, k requires 0 <= k < cap => if k < |fds| then Some(fds[k]) else None)
  }

  /** A socket is reported ready in direction `dir` exactly when some flat entry
      for it has `dir` among its `revents`; in particular a both entry ready in
      both directions is reported in both. */
  lemma {:induction false} ReadyFdsMembership(p: seq<PollFd>, dir: bv16, x: int)
    ensures x in ReadyFds(p, dir) <==>
            exists i :: 0 <= i < |p| && p[i].fd == x && Has(p[i].revents, dir)
  {
    if p != [] {
      ReadyFdsMembership(p[1..], dir, x);
      if x in ReadyFds(p[1..], dir) {
        var i :| 0 <= i < |p[1..]| && p[1..][i].fd == x && Has(p[1..][i].revents, dir);
        assert p[i + 1] == p[1..][i];
      }
      if exists i :: 0 <= i < |p| && p[i].fd == x && Has(p[i].revents, dir) {
        var i :| 0 <= i < |p| && p[i].fd == x && Has(p[i].revents, dir);
        if i > 0 {
          assert p[1..][i - 1] == p[i];
        }
      }
    }
  }

  /** The corrected early stop loses nothing when nn_poll keeps its contract: if the
      remaining count covers every ready entry still ahead, the scan yields
      exactly the reference result. */
  lemma {:induction false} ScanIsExact(p: seq<PollFd>, left: int)
    requires left >= ReadyCount(p)
    ensures Scan(p, left) == Readiness(ReadyFds(p, POLLIN), ReadyFds(p, POLLOUT))
  {
    if p == [] {
    } else if left <= 0 {
      NoneReady(p);
    } else {
      ScanIsExact(p[1..], if IsReady(p[0]) then left - 1 else left);
    }
  }

  lemma {:induction false} NoneReady(p: seq<PollFd>)
    requires ReadyCount(p) == 0
    ensures ReadyFds(p, POLLIN) == [] && ReadyFds(p, POLLOUT) == []
  {
    if p != [] {
      NoneReady(p[1..]);
    }
  }

  /** Each direction gathers at most one handle per entry that asked for it, so
      the pre-sized outputs always have room. */
  lemma {:induction false} ScanFitsInterest(p: seq<PollFd>, left: int)
    requires AllWithinInterest(p)
    ensures |Scan(p, left).readable| <= InterestCount(p, POLLIN)
    ensures |Scan(p, left).writable| <= InterestCount(p, POLLOUT)
  {
    if p != [] && left > 0 {
      ScanFitsInterest(p[1..], if IsReady(p[0]) then left - 1 else left);
    }
  }

  lemma {:induction false} InterestSplit(a: seq<PollFd>, b: seq<PollFd>, dir: bv16)
    ensures InterestCount(a + b, dir) == InterestCount(a, dir) + InterestCount(b, dir)
  {
    if a == [] {
      assert a + b == b;
    } else {
      assert (a + b)[1..] == a[1..] + b;
      InterestSplit(a[1..], b, dir);
    }
  }

  lemma {:induction false} InterestOfGroup(hs: seq<int>, mask: bv16, dir: bv16)
    ensures InterestCount(Group(hs, mask), dir) == if Has(mask, dir) then |hs| else 0
  {
    if hs != [] {
      assert Group(hs, mask)[1..] == Group(hs[1..], mask);
      InterestOfGroup(hs[1..], mask, dir);
    }
  }

  lemma {:induction false} InterestOfPolled(req: seq<PollFd>, revents: seq<bv16>, dir: bv16)
    requires |revents| == |req|
    ensures InterestCount(Polled(req, revents), dir) == InterestCount(req, dir)
  {
    if req != [] {
      assert Polled(req, revents)[1..] == Polled(req[1..], revents[1..]);
      InterestOfPolled(req[1..], revents[1..], dir);
    }
  }

  /** The capacities hx_nn_poll gives its outputs are the numbers of entries
      that asked for each direction. */
  lemma InterestOfFlatten(readSocks: seq<int>, writeSocks: seq<int>, bothSocks: seq<int>)
    ensures InterestCount(Flatten(readSocks, writeSocks, bothSocks), POLLIN) == |readSocks| + |bothSocks|
    ensures InterestCount(Flatten(readSocks, writeSocks, bothSocks), POLLOUT) == |writeSocks| + |bothSocks|
  {
    var g1, g2, g3 := Group(readSocks, POLLIN), Group(writeSocks, POLLOUT), Group(bothSocks, POLLIN | POLLOUT);
    InterestSplit(g1 + g2, g3, POLLIN);
    InterestSplit(g1, g2, POLLIN);
    InterestSplit(g1 + g2, g3, POLLOUT);
    InterestSplit(g1, g2, POLLOUT);
    InterestOfGroup(readSocks, POLLIN, POLLIN);
    InterestOfGroup(writeSocks, POLLOUT, POLLIN);
    InterestOfGroup(bothSocks, POLLIN | POLLOUT, POLLIN);
    InterestOfGroup(readSocks, POLLIN, POLLOUT);
    InterestOfGroup(writeSocks, POLLOUT, POLLOUT);
    InterestOfGroup(bothSocks, POLLIN | POLLOUT, POLLOUT);
  }
}
