/** The result-collection loop of hx_nn_poll exactly as written: it stores each
    ready socket at its FLAT index `i` in the pre-sized `read` and `write` arrays
    and takes one off the ready count per direction stored. The stores are listed
    rather than performed, so that the out-of-bounds ones can be named. */
module PollAsWritten {
  import opened PollSpec

  /** One `val_array_set_i`: into `read` (toRead) or `write`, at `index`, socket `fd`. */
  datatype Store = Store(toRead: bool, index: nat, fd: int)

  /** The stores the loop performs on the entries `p`, the first of which sits at
      flat index `base`, while `left` is the remaining ready count. */
  function AsWrittenStores(p: seq<PollFd>, base: nat, left: int): (stores: seq<Store>)
    ensures |stores| <= 2 * |p|
  {
    if p == [] || left <= 0 then []
    else
      var e := p[0];
      var r := if Has(e.revents, POLLIN) then [Store(true, base, e.fd)] else [];
      var w := if Has(e.revents, POLLOUT) then [Store(false, base, e.fd)] else [];
      r + w + AsWrittenStores(p[1..], base + 1, left - |r| - |w|)
  }

  /** Every store lands inside an array of the given capacities. */
  predicate StoresFit(stores: seq<Store>, readCap: nat, writeCap: nat)
  {
    forall s :: s in stores ==> s.index < if s.toRead then readCap else writeCap
  }

  /** Only one of the three interest groups is non-empty. */
  predicate OneGroup(readSocks: seq<int>, writeSocks: seq<int>, bothSocks: seq<int>)
  {
    || (|writeSocks| == 0 && |bothSocks| == 0)
    || (|readSocks| == 0 && |bothSocks| == 0)
    || (|readSocks| == 0 && |writeSocks| == 0)
  }

  /** nn_poll's report when only the last of `n` entries is ready, in direction `dir`. */
  function OnlyLastReady(n: nat, dir: bv16): (r: seq<bv16>)
    ensures |r| == n
    ensures forall i :: 0 <= i < n ==> r[i] == if i == n - 1 then dir else 0
  {
    seq(n, i requires 0 <= i < n => if i == n - 1 then dir else 0)
  }

  /** The direction in which the last entry of a mixed request lands out of
      bounds: read when there are write and both sockets, write otherwise. */
  function OverflowDir(readSocks: seq<int>, writeSocks: seq<int>, bothSocks: seq<int>): (dir: bv16)
    ensures dir == POLLIN || dir == POLLOUT
  {
    if |writeSocks| > 0 && |bothSocks| > 0 then POLLIN else POLLOUT
  }

  /** Each store is for a real entry, names that entry's socket and is made only
      for a direction in the entry's `revents`. */
  lemma {:induction false} AsWrittenStoresShape(p: seq<PollFd>, base: nat, left: int)
    ensures forall s :: s in AsWrittenStores(p, base, left) ==>
              && base <= s.index < base + |p|
              && s.fd == p[s.index - base].fd
              && Has(p[s.index - base].revents, if s.toRead then POLLIN else POLLOUT)
  {
    if p != [] && left > 0 {
      var e := p[0];
      var r := if Has(e.revents, POLLIN) then [Store(true, base, e.fd)] else [];
      var w := if Has(e.revents, POLLOUT) then [Store(false, base, e.fd)] else [];
      AsWrittenStoresShape(p[1..], base + 1, left - |r| - |w|);
      forall s | s in AsWrittenStores(p[1..], base + 1, left - |r| - |w|)
        ensures p[s.index - base] == p[1..][s.index - (base + 1)]
      {
      }
    }
  }

  /** Each store takes one off the count and the loop only tests the count
      between entries, so it can make one store more than nn_poll returned. */
  lemma {:induction false} AsWrittenStoreBound(p: seq<PollFd>, base: nat, left: int)
    ensures left <= 0 ==> AsWrittenStores(p, base, left) == []
    ensures left > 0 ==> |AsWrittenStores(p, base, left)| <= left + 1
  {
    if p != [] && left > 0 {
      var e := p[0];
      var r := if Has(e.revents, POLLIN) then [Store(true, base, e.fd)] else [];
      var w := if Has(e.revents, POLLOUT) then [Store(false, base, e.fd)] else [];
      AsWrittenStoreBound(p[1..], base + 1, left - |r| - |w|);
    }
  }

  /** The bound above is reached: one both entry ready in both directions, which
      nn_poll counts once, fills two slots. */
  lemma AsWrittenExceedsCount()
    ensures var p := Polled(Flatten([], [], [5]), [POLLIN | POLLOUT]);
            ReadyCount(p) == 1 && |AsWrittenStores(p, 0, ReadyCount(p))| == 2
  {
    var p := Polled(Flatten([], [], [5]), [POLLIN | POLLOUT]);
    assert p == [PollFd(5, POLLIN | POLLOUT, POLLIN | POLLOUT)];
  }

  /** When only one interest group is used, every store is in bounds, whatever
      nn_poll reports within the requested directions and whatever it returns. */
  lemma AsWrittenFitsWhenOneGroup(readSocks: seq<int>, writeSocks: seq<int>, bothSocks: seq<int>,
                                  revents: seq<bv16>, ret: int)
    requires |revents| == |readSocks| + |writeSocks| + |bothSocks|
    requires AllWithinInterest(Polled(Flatten(readSocks, writeSocks, bothSocks), revents))
    requires OneGroup(readSocks, writeSocks, bothSocks)
    ensures StoresFit(AsWrittenStores(Polled(Flatten(readSocks, writeSocks, bothSocks), revents), 0, ret),
                      |readSocks| + |bothSocks|, |writeSocks| + |bothSocks|)
  {
    var p := Polled(Flatten(readSocks, writeSocks, bothSocks), revents);
    AsWrittenStoresShape(p, 0, ret);
    forall s | s in AsWrittenStores(p, 0, ret)
      ensures s.index < if s.toRead then |readSocks| + |bothSocks| else |writeSocks| + |bothSocks|
    {
      assert WithinInterest(p[s.index]);
    }
  }

  /** When only the last entry is ready, in one direction it asked for, every
      report is within its interest, the loop passes over the quiet entries
      without using up the count and makes one store, at the last flat index;
      nn_poll counts one ready entry. */
  lemma {:induction false} LastOnlyStores(p: seq<PollFd>, base: nat, toRead: bool)
    requires |p| > 0
    requires forall i :: 0 <= i < |p| - 1 ==> p[i].revents == 0
    requires p[|p| - 1].revents == if toRead then POLLIN else POLLOUT
    requires WithinInterest(p[|p| - 1])
    ensures AllWithinInterest(p)
    ensures ReadyCount(p) == 1
    ensures AsWrittenStores(p, base, 1) == [Store(toRead, base + |p| - 1, p[|p| - 1].fd)]
  {
    if |p| == 1 {
      assert p[1..] == [];
    } else {
      assert p[0].revents == 0;
      LastOnlyStores(p[1..], base + 1, toRead);
      forall i | 0 <= i < |p|
        ensures WithinInterest(p[i])
      {
        if i > 0 {
          assert p[i] == p[1..][i - 1];
        }
      }
    }
  }

  /** The last entry of the request: a both entry if there are any, else a
      write entry if there are any, else a read entry. */
  lemma LastEntryInterest(readSocks: seq<int>, writeSocks: seq<int>, bothSocks: seq<int>)
    requires |readSocks| + |writeSocks| + |bothSocks| > 0
    ensures var req := Flatten(readSocks, writeSocks, bothSocks);
            req[|req| - 1].events ==
              if |bothSocks| > 0 then POLLIN | POLLOUT
              else if |writeSocks| > 0 then POLLOUT
              else POLLIN
  {
    var req := Flatten(readSocks, writeSocks, bothSocks);
    if |bothSocks| > 0 {
      assert req[|readSocks| + |writeSocks| + (|bothSocks| - 1)].events == POLLIN | POLLOUT;
    } else if |writeSocks| > 0 {
      assert req[|readSocks| + (|writeSocks| - 1)].events == POLLOUT;
    } else {
      assert req[|readSocks| - 1].events == POLLIN;
    }
  }

  /** A report of `dir` alone is within an interest in both directions, and a
      write report is within a write interest. */
  lemma ReportWithin(dir: bv16, events: bv16)
    requires dir == POLLIN || dir == POLLOUT
    requires events == POLLIN | POLLOUT || (events == POLLOUT && dir == POLLOUT)
    ensures dir & !events == 0
  {
  }

  /** nn_poll's report that only the last entry of `req` is ready, in a direction
      it asked for: within interest, counted once, and stored once by the loop,
      at the last flat index. */
  lemma PolledOnlyLast(req: seq<PollFd>, dir: bv16)
    requires |req| > 0
    requires dir == POLLIN || dir == POLLOUT
    requires dir & !req[|req| - 1].events == 0
    ensures var p := Polled(req, OnlyLastReady(|req|, dir));
            && AllWithinInterest(p)
            && ReadyCount(p) == 1
            && AsWrittenStores(p, 0, 1) == [Store(dir == POLLIN, |req| - 1, req[|req| - 1].fd)]
  {
    var revents := OnlyLastReady(|req|, dir);
    var p := Polled(req, revents);
    assert forall i :: 0 <= i < |p| - 1 ==> p[i].revents == revents[i] == 0;
    LastOnlyStores(p, 0, dir == POLLIN);
  }

  /** When two or more interest groups are used, an outcome nn_poll can produce
      makes the loop store out of bounds: only the last entry is ready, in one
      direction it asked for, and nn_poll returns 1. */
  lemma AsWrittenOverflowsWhenMixed(readSocks: seq<int>, writeSocks: seq<int>, bothSocks: seq<int>)
    requires !OneGroup(readSocks, writeSocks, bothSocks)
    ensures var req := Flatten(readSocks, writeSocks, bothSocks);
            var p := Polled(req, OnlyLastReady(|req|, OverflowDir(readSocks, writeSocks, bothSocks)));
            && AllWithinInterest(p)
            && ReadyCount(p) == 1
            && !StoresFit(AsWrittenStores(p, 0, ReadyCount(p)), |readSocks| + |bothSocks|, |writeSocks| + |bothSocks|)
  {
    var req := Flatten(readSocks, writeSocks, bothSocks);
    var dir := OverflowDir(readSocks, writeSocks, bothSocks);
    LastEntryInterest(readSocks, writeSocks, bothSocks);
    ReportWithin(dir, req[|req| - 1].events);
    PolledOnlyLast(req, dir);
    var p := Polled(req, OnlyLastReady(|req|, dir));
    assert Store(dir == POLLIN, |req| - 1, req[|req| - 1].fd) in AsWrittenStores(p, 0, ReadyCount(p));
  }

  /** The smallest instance: one write socket and one both socket, the first
      writable and the second readable. The both entry sits at flat index 1 and
      is stored at index 1 of a `read` array of size 1. */
  lemma AsWrittenOverflowExample()
    ensures var p := Polled(Flatten([], [7], [9]), [POLLOUT, POLLIN]);
            && AllWithinInterest(p) && ReadyCount(p) == 2
            && Store(true, 1, 9) in AsWrittenStores(p, 0, ReadyCount(p))
            && !StoresFit(AsWrittenStores(p, 0, ReadyCount(p)), 0 + 1, 1 + 1)
  {
    var p := Polled(Flatten([], [7], [9]), [POLLOUT, POLLIN]);
    assert p == [PollFd(7, POLLOUT, POLLOUT), PollFd(9, POLLIN | POLLOUT, POLLIN)];
    assert p[1..] == [PollFd(9, POLLIN | POLLOUT, POLLIN)];
    assert p[1..][1..] == [];
    assert ReadyCount(p[1..]) == 1;
  }

  /** Two both sockets, each ready in both directions: nn_poll returns 2 (it
      counts entries), the first entry alone uses the count up, and the second,
      ready socket 6 is never reported. */
  lemma AsWrittenMissesReadyEntry()
    ensures var p := Polled(Flatten([], [], [5, 6]), [POLLIN | POLLOUT, POLLIN | POLLOUT]);
            && AllWithinInterest(p) && ReadyCount(p) == 2 && IsReady(p[1]) && p[1].fd == 6
            && forall s :: s in AsWrittenStores(p, 0, ReadyCount(p)) ==> s.fd != 6
  {
    var p := Polled(Flatten([], [], [5, 6]), [POLLIN | POLLOUT, POLLIN | POLLOUT]);
    assert p == [PollFd(5, POLLIN | POLLOUT, POLLIN | POLLOUT), PollFd(6, POLLIN | POLLOUT, POLLIN | POLLOUT)];
    assert p[1..] == [PollFd(6, POLLIN | POLLOUT, POLLIN | POLLOUT)];
    assert p[1..][1..] == [];
    assert ReadyCount(p[1..]) == 1;
    assert AsWrittenStores(p[1..], 1, 0) == [];
  }
}
