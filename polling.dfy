/**
 * The selector (class Selector, Selio.hpp:117-186): an ordered registry of
 * handle references and one poll round over POSIX select().  The wait
 * itself is an input: `Select` receives the sets and the value select()
 * returns.
 */
module Polling {
  import opened Wrappers
  import opened Interest
  import opened Syscalls
  import opened Handle

  /** What a poll round reads of one registered handle. */
  datatype Entry = Entry(fd: int, sel: Bits)

  function Entries(hs: seq<Selectable>): (es: seq<Entry>)
    reads hs`fd, hs`sel
    ensures |es| == |hs|
    ensures forall i :: 0 <= i < |hs| ==> es[i] == Entry(hs[i].fd, hs[i].sel)
  {
    if hs == [] then []
    else
      var n := |hs| - 1;
      Entries(hs[..n]) + [Entry(hs[n].fd, hs[n].sel)]
  }

  /**
   * The running maximum of the first loop of select(): the largest
   * descriptor among handles with some interest bit, or -1 when there is none.
   */
  function MaxWatchedFd(es: seq<Entry>): int
  {
    if es == [] then -1
    else
      var m := MaxWatchedFd(es[..|es| - 1]);
      var e := es[|es| - 1];
      if Watched(e.sel) && e.fd > m then e.fd else m
  }

  /** The descriptors put in the read set: those of handles with READ or ACCEPT interest. */
  function ReadSet(es: seq<Entry>): set<int>
  {
    if es == [] then {}
    else
      var e := es[|es| - 1];
      ReadSet(es[..|es| - 1]) + (if WantsRead(e.sel) then {e.fd} else {})
  }

  /** The descriptors put in the write set: those of handles with WRITE or CONNECT interest. */
  function WriteSet(es: seq<Entry>): set<int>
  {
    if es == [] then {}
    else
      var e := es[|es| - 1];
      WriteSet(es[..|es| - 1]) + (if WantsWrite(e.sel) then {e.fd} else {})
  }

  /**
   * The first argument of select() is one past the largest watched
   * descriptor (it is 0 when nothing is watched), and the wait sets hold
   * exactly the descriptors of the handles that asked for reading or
   * accepting, respectively writing or connecting.
   */
  lemma {:induction false} WaitSetsMeaning(es: seq<Entry>)
    ensures MaxWatchedFd(es) >= -1
    ensures forall i :: 0 <= i < |es| && Watched(es[i].sel) ==> es[i].fd <= MaxWatchedFd(es)
    ensures MaxWatchedFd(es) == -1 || exists i :: 0 <= i < |es| && Watched(es[i].sel) && es[i].fd == MaxWatchedFd(es)
    ensures forall fd :: fd in ReadSet(es) <==> exists i :: 0 <= i < |es| && es[i].fd == fd && WantsRead(es[i].sel)
    ensures forall fd :: fd in WriteSet(es) <==> exists i :: 0 <= i < |es| && es[i].fd == fd && WantsWrite(es[i].sel)
  {
    if es != [] {
      var n := |es| - 1;
      var init := es[..n];
      WaitSetsMeaning(init);
      assert forall i :: 0 <= i < n ==> init[i] == es[i];
      var m := MaxWatchedFd(init);
      if m != -1 && !(Watched(es[n].sel) && es[n].fd > m) {
        var i :| 0 <= i < n && Watched(init[i].sel) && init[i].fd == m;
        assert es[i].fd == MaxWatchedFd(es);
      }
      forall fd | fd in ReadSet(es)
        ensures exists i :: 0 <= i < |es| && es[i].fd == fd && WantsRead(es[i].sel)
      {
        if fd !in ReadSet(init) {
          assert es[n].fd == fd && WantsRead(es[n].sel);
        } else {
          var i :| 0 <= i < n && init[i].fd == fd && WantsRead(init[i].sel);
          assert es[i].fd == fd;
        }
      }
      forall fd | fd in WriteSet(es)
        ensures exists i :: 0 <= i < |es| && es[i].fd == fd && WantsWrite(es[i].sel)
      {
        if fd !in WriteSet(init) {
          assert es[n].fd == fd && WantsWrite(es[n].sel);
        } else {
          var i :| 0 <= i < n && init[i].fd == fd && WantsWrite(init[i].sel);
          assert es[i].fd == fd;
        }
      }
    }
  }

  /** Every descriptor in either wait set is below the first argument given to select(). */
  lemma WaitSetsBelowNfds(es: seq<Entry>)
    ensures forall fd :: fd in ReadSet(es) + WriteSet(es) ==> fd < MaxWatchedFd(es) + 1
  {
    WaitSetsMeaning(es);
    forall fd | fd in ReadSet(es) + WriteSet(es)
      ensures fd < MaxWatchedFd(es) + 1
    {
      var i :| 0 <= i < |es| && es[i].fd == fd && (WantsRead(es[i].sel) || WantsWrite(es[i].sel));
      assert Watched(es[i].sel);
    }
  }

  /**
   * The snapshot a successful round publishes: the handles with some
   * interest bit, in registration order, ready or not.
   */
  function WatchedHandles(hs: seq<Selectable>, es: seq<Entry>): (r: seq<Selectable>)
    requires |hs| == |es|
    ensures |r| <= |hs|
  {
    if hs == [] then []
    else
      var n := |hs| - 1;
      WatchedHandles(hs[..n], es[..n]) + (if Watched(es[n].sel) then [hs[n]] else [])
  }

  /** The snapshot holds every handle with interest, and nothing else. */
  lemma {:induction false} WatchedHandlesMembers(hs: seq<Selectable>, es: seq<Entry>)
    requires |hs| == |es|
    ensures forall i :: 0 <= i < |hs| && Watched(es[i].sel) ==> hs[i] in WatchedHandles(hs, es)
    ensures forall h :: h in WatchedHandles(hs, es) ==> exists i :: 0 <= i < |hs| && hs[i] == h && Watched(es[i].sel)
  {
    if hs != [] {
      var n := |hs| - 1;
      WatchedHandlesMembers(hs[..n], es[..n]);
      var r := WatchedHandles(hs, es);
      forall h | h in r
        ensures exists i :: 0 <= i < |hs| && hs[i] == h && Watched(es[i].sel)
      {
        if h !in WatchedHandles(hs[..n], es[..n]) {
          assert h == hs[n] && Watched(es[n].sel);
        } else {
          var i :| 0 <= i < n && hs[..n][i] == h && Watched(es[..n][i].sel);
          assert hs[i] == h && Watched(es[i].sel);
        }
      }
      forall i | 0 <= i < |hs| && Watched(es[i].sel)
        ensures hs[i] in r
      {
        if i < n {
          assert hs[..n][i] == hs[i] && es[..n][i] == es[i];
        }
      }
    }
  }

  /** Unfolding of the three wait-set functions one entry further. */
  lemma PrefixStep(es: seq<Entry>, i: nat)
    requires i < |es|
    ensures MaxWatchedFd(es[..i + 1]) ==
      (if Watched(es[i].sel) && es[i].fd > MaxWatchedFd(es[..i]) then es[i].fd else MaxWatchedFd(es[..i]))
    ensures ReadSet(es[..i + 1]) == ReadSet(es[..i]) + (if WantsRead(es[i].sel) then {es[i].fd} else {})
    ensures WriteSet(es[..i + 1]) == WriteSet(es[..i]) + (if WantsWrite(es[i].sel) then {es[i].fd} else {})
  {
    assert es[..i + 1][..i] == es[..i];
  }

  /** Unfolding of the snapshot one handle further. */
  lemma WatchedStep(hs: seq<Selectable>, es: seq<Entry>, i: nat)
    requires |hs| == |es| && i < |es|
    ensures WatchedHandles(hs[..i + 1], es[..i + 1]) ==
      WatchedHandles(hs[..i], es[..i]) + (if Watched(es[i].sel) then [hs[i]] else [])
  {
    assert hs[..i + 1][..i] == hs[..i];
    assert es[..i + 1][..i] == es[..i];
  }

  /** The position of the first occurrence of `x`, as std::find finds it. */
  function IndexOf<T(==)>(xs: seq<T>, x: T): (i: nat)
    requires x in xs
    ensures i < |xs| && xs[i] == x && x !in xs[..i]
  {
    if xs[0] == x then 0 else 1 + IndexOf(xs[1..], x)
  }

  /** `xs` with its first occurrence of `x` erased. */
  function RemoveFirst<T(==)>(xs: seq<T>, x: T): (r: seq<T>)
    requires x in xs
    ensures |r| == |xs| - 1
    ensures multiset(r) == multiset(xs) - multiset{x}
  {
    var i := IndexOf(xs, x);
    assert xs == xs[..i] + [x] + xs[i + 1..];
    xs[..i] + xs[i + 1..]
  }

  /** Registering a handle that was not registered and removing it restores the registry. */
  lemma {:induction false} AddThenRemove<T>(xs: seq<T>, x: T)
    requires x !in xs
    ensures RemoveFirst(xs + [x], x) == xs
  {
    var i := IndexOf(xs + [x], x);
    assert (xs + [x])[..i] == xs;
  }

  /** With no duplicate check, a handle added twice stays registered after one removal. */
  lemma AddTwiceRemoveOnce<T>(xs: seq<T>, x: T)
    ensures x in RemoveFirst(xs + [x] + [x], x)
  {
    var ys := xs + [x] + [x];
    assert multiset(ys)[x] >= 2;
    assert multiset(RemoveFirst(ys, x))[x] >= 1;
  }

  /** The timeval a poll round passes: none (block indefinitely) for 0, else seconds and microseconds. */
  function SplitTimeout(timeout: int): Option<TimeVal>
  {
    if timeout == 0 then None
    else
      // C's `/` and `%` on long truncate toward zero.
      var sec := if timeout >= 0 then timeout / 1000 else -((-timeout) / 1000);
      Some(TimeVal(sec, (timeout - sec * 1000) * 1000))
  }

  /**
   * Timeout 0 passes no timeval; any other timeout is split into whole
   * seconds and the remaining milliseconds as microseconds, which recombine
   * to the timeout.  A positive timeout gives a normalised timeval; a
   * negative one, as C's truncating division leaves it, a non-positive one.
   */
  lemma SplitTimeoutMeaning(timeout: int)
    ensures SplitTimeout(timeout).None? <==> timeout == 0
    ensures SplitTimeout(timeout).Some? ==>
      var tv := SplitTimeout(timeout).value;
      tv.sec * 1000 + tv.usec / 1000 == timeout && tv.usec % 1000 == 0
    ensures timeout > 0 ==> SplitTimeout(timeout).value.sec >= 0 && 0 <= SplitTimeout(timeout).value.usec < 1_000_000
    ensures timeout < 0 ==> SplitTimeout(timeout).value.sec <= 0 && -1_000_000 < SplitTimeout(timeout).value.usec <= 0
  {
  }

  class Selector {
    var fds: seq<Selectable>
    var selectedFds: seq<Selectable>

    constructor ()
      ensures fds == [] && selectedFds == []
    {
      fds := [];
      selectedFds := [];
    }

    /** add: stores the interest on the handle and appends it, with no duplicate check. */
    method Add(s: Selectable, sel: Bits)
      modifies this`fds, s`sel
      ensures fds == old(fds) + [s] && s.sel == sel
    {
      s.sel := sel;
      fds := fds + [s];
    }

    /** remove: erases the first occurrence; the source needs the handle to be registered. */
    method Remove(s: Selectable)
      requires s in fds
      modifies this`fds
      ensures fds == RemoveFirst(old(fds), s)
      ensures multiset(fds) == multiset(old(fds)) - multiset{s}
    {
      var i := IndexOf(fds, s);
      fds := fds[..i] + fds[i + 1..];
    }

    /** set: changes the interest of a registered handle only; the registry is untouched. */
    method Set(s: Selectable, sel: Bits)
      modifies s`sel
      ensures s.sel == if s in fds then sel else old(s.sel)
    {
      if s in fds {
        s.sel := sel;
      }
    }

    /** getSelectedFds: the last round's snapshot, returned by value. */
    method GetSelectedFds() returns (snapshot: seq<Selectable>)
      ensures snapshot == selectedFds
    {
      snapshot := selectedFds;
    }

    /**
     * One poll round (Selio.hpp:143-185).  `rOut` and `wOut` are what
     * select() leaves in the two sets, `res` what it returns (and the errno
     * of a failure).  As in the source, any non-zero result, -1 included,
     * publishes a new snapshot.
     */
    method Select(k: Kernel, timeout: int, rOut: set<int>, wOut: set<int>, res: Outcome) returns (ret: int)
      modifies this`selectedFds, k`trace, k`errno, fds`ready
      ensures ret == res.ret
      ensures k.trace == old(k.trace) + [Call.Select(MaxWatchedFd(old(Entries(fds))) + 1,
                                                     ReadSet(old(Entries(fds))),
                                                     WriteSet(old(Entries(fds))),
                                                     SplitTimeout(timeout))]
      ensures k.errno == ErrnoAfter(old(k.errno), res)
      ensures ret != 0 ==> forall j :: 0 <= j < |fds| ==> fds[j].ready == ReadyBits(fds[j].sel, fds[j].fd, rOut, wOut)
      ensures ret != 0 ==> selectedFds == WatchedHandles(fds, old(Entries(fds)))
      ensures ret == 0 ==> forall j :: 0 <= j < |fds| ==> fds[j].ready == 0
      ensures ret == 0 ==> selectedFds == old(selectedFds)
    {
      ghost var es := Entries(fds);
      var pTimeout := SplitTimeout(timeout);
      var nfds, r, w := ClearAndCollect(es);
      assert Call.Select(nfds + 1, r, w, pTimeout) == Call.Select(MaxWatchedFd(es) + 1, ReadSet(es), WriteSet(es), SplitTimeout(timeout));
      k.Invoke(Call.Select(nfds + 1, r, w, pTimeout), res);
      ret := res.ret;
      if ret != 0 {
        Publish(rOut, wOut, es);
      }
    }

    /** `es` lists the descriptor and interest of every registered handle, in order. */
    ghost predicate Mirrors(es: seq<Entry>)
      reads this, fds
    {
      |es| == |fds| && forall j :: 0 <= j < |fds| ==> es[j] == Entry(fds[j].fd, fds[j].sel)
    }

    /** What the first loop has established after `i` handles. */
    ghost predicate Scanned(es: seq<Entry>, i: nat, nfds: int, r: set<int>, w: set<int>)
      requires i <= |fds| == |es|
      reads this, fds
    {
      && (forall j :: 0 <= j < i ==> fds[j].ready == 0)
      && nfds == MaxWatchedFd(es[..i])
      && r == ReadSet(es[..i])
      && w == WriteSet(es[..i])
    }

    /**
     * The first loop of a round (Selio.hpp:157-167): clears every handle's
     * readiness and builds the wait sets and the largest watched descriptor.
     */
    method ClearAndCollect(ghost es: seq<Entry>) returns (nfds: int, r: set<int>, w: set<int>)
      requires Mirrors(es)
      modifies fds`ready
      ensures Mirrors(es)
      ensures forall j :: 0 <= j < |fds| ==> fds[j].ready == 0
      ensures nfds == MaxWatchedFd(es) && r == ReadSet(es) && w == WriteSet(es)
    {
      nfds := -1;
      r, w := {}, {};
      var i := 0;
      while i < |fds|
        invariant 0 <= i <= |fds| && Mirrors(es)
        invariant Scanned(es, i, nfds, r, w)
        modifies fds`ready
      {
        nfds, r, w := ScanHandle(es, i, nfds, r, w);
        i := i + 1;
      }
      assert es[..i] == es;
    }

    /** One iteration of the first loop, on the handle at position `i`. */
    method ScanHandle(ghost es: seq<Entry>, i: nat, nfds0: int, r0: set<int>, w0: set<int>)
      returns (nfds: int, r: set<int>, w: set<int>)
      requires i < |fds| && Mirrors(es) && Scanned(es, i, nfds0, r0, w0)
      modifies fds`ready
      ensures Mirrors(es) && Scanned(es, i + 1, nfds, r, w)
    {
      nfds, r, w := nfds0, r0, w0;
      var s := fds[i];
      s.ready := 0;
      if Watched(s.sel) && s.Fd() > nfds {
        nfds := s.Fd();
      }
      if (s.sel & SelRead) != 0 { r := r + {s.Fd()}; }
      if (s.sel & SelWrite) != 0 { w := w + {s.Fd()}; }
      if (s.sel & SelConnect) != 0 { w := w + {s.Fd()}; }
      if (s.sel & SelAccept) != 0 { r := r + {s.Fd()}; }
      PrefixStep(es, i);
    }

    /** What the second loop has established after `i` handles. */
    ghost predicate Published(es: seq<Entry>, i: nat, rOut: set<int>, wOut: set<int>)
      requires i <= |fds| == |es|
      reads this, fds
    {
      && selectedFds == WatchedHandles(fds[..i], es[..i])
      && (forall j :: 0 <= j < |fds| ==> fds[j].ready == ReadyBits(es[j].sel, es[j].fd, rOut, wOut) || (i <= j && fds[j].ready == 0))
    }

    /**
     * The second loop of a successful round (Selio.hpp:172-181): rebuilds
     * the snapshot and sets the readiness bits of each watched handle.
     */
    method Publish(rOut: set<int>, wOut: set<int>, ghost es: seq<Entry>)
      requires Mirrors(es)
      requires forall j :: 0 <= j < |fds| ==> fds[j].ready == 0
      modifies this`selectedFds, fds`ready
      ensures forall j :: 0 <= j < |fds| ==> fds[j].ready == ReadyBits(fds[j].sel, fds[j].fd, rOut, wOut)
      ensures selectedFds == WatchedHandles(fds, es)
    {
      selectedFds := [];
      var i := 0;
      while i < |fds|
        invariant 0 <= i <= |fds| && Mirrors(es)
        invariant Published(es, i, rOut, wOut)
        modifies this`selectedFds, fds`ready
      {
        PublishHandle(es, i, rOut, wOut);
        i := i + 1;
      }
      assert fds[..i] == fds && es[..i] == es;
    }

    /** One iteration of the second loop, on the handle at position `i`. */
    method PublishHandle(ghost es: seq<Entry>, i: nat, rOut: set<int>, wOut: set<int>)
      requires i < |fds| && Mirrors(es) && Published(es, i, rOut, wOut)
      modifies this`selectedFds, fds`ready
      ensures Mirrors(es) && Published(es, i + 1, rOut, wOut)
    {
      var s := fds[i];
      if Watched(s.sel) {
        selectedFds := selectedFds + [s];
        s.MarkReady(rOut, wOut);
      } else {
        UnwatchedNeverReady(s.sel, s.fd, rOut, wOut);
      }
      WatchedStep(fds, es, i);
    }
  }

  /** The wait sets and the snapshot of a registry with a single handle. */
  lemma OneEntry(e: Entry)
    ensures MaxWatchedFd([e]) == if Watched(e.sel) && e.fd > -1 then e.fd else -1
    ensures ReadSet([e]) == if WantsRead(e.sel) then {e.fd} else {}
    ensures WriteSet([e]) == if WantsWrite(e.sel) then {e.fd} else {}
    ensures forall h: Selectable :: WatchedHandles([h], [e]) == if Watched(e.sel) then [h] else []
  {
    assert [e][..0] == [];
    forall h: Selectable
      ensures WatchedHandles([h], [e]) == if Watched(e.sel) then [h] else []
    {
      assert [h][..0] == [];
    }
  }

  /** The wait sets and the snapshot of a registry holding one handle registered for CONNECT. */
  lemma ConnectEntry(fd: nat)
    ensures MaxWatchedFd([Entry(fd, SelConnect)]) == fd
    ensures ReadSet([Entry(fd, SelConnect)]) == {}
    ensures WriteSet([Entry(fd, SelConnect)]) == {fd}
    ensures forall h: Selectable :: WatchedHandles([h], [Entry(fd, SelConnect)]) == [h]
  {
    assert Watched(SelConnect) && !WantsRead(SelConnect) && WantsWrite(SelConnect);
    OneEntry(Entry(fd, SelConnect));
  }

  /**
   * A client waiting for its connection to complete: one handle registered
   * for CONNECT, and select() reports its descriptor writable within the
   * one-second timeout.  The round asks for exactly that descriptor, leaves
   * the handle connectable and nothing else, and publishes it.
   */
  method ConnectingRound(fd: nat) returns (calls: seq<Call>, connectable: bool, readable: bool, selected: seq<Selectable>)
    ensures calls == [Call.Select(fd + 1, {}, {fd}, Some(TimeVal(1, 0)))]
    ensures connectable && !readable
    ensures |selected| == 1 && selected[0].fd == fd
  {
    var k := new Kernel();
    var h := new Selectable(fd);
    var s := new Selector();
    s.Add(h, SelConnect);
    assert s.fds == [h];
    ghost var es := Entries(s.fds);
    assert es == [Entry(fd, SelConnect)];
    ConnectEntry(fd);
    assert SplitTimeout(1000) == Some(TimeVal(1, 0));
    ghost var wait := Call.Select(fd + 1, {}, {fd}, Some(TimeVal(1, 0)));
    assert Call.Select(MaxWatchedFd(es) + 1, ReadSet(es), WriteSet(es), SplitTimeout(1000)) == wait;
    var ret := s.Select(k, 1000, {}, {fd}, Outcome(1, 0));
    assert k.trace == [wait];
    assert s.fds[0] == h;
    h.QueriesAfterRound({}, {fd});
    connectable := h.IsConnectable();
    readable := h.IsReadable();
    selected := s.GetSelectedFds();
    calls := k.trace;
  }

  /**
   * A round that times out, for a handle registered for reading and
   * writing: even with its descriptor left in both returned sets, the
   * handle is left with no readiness and the previous (here empty)
   * snapshot is kept.
   */
  method TimedOutRound(fd: nat) returns (anyReady: bool, selected: seq<Selectable>)
    ensures !anyReady && selected == []
  {
    var k := new Kernel();
    var h := new Selectable(fd);
    var s := new Selector();
    s.Add(h, SelRead | SelWrite);
    assert s.fds == [h];
    var ret := s.Select(k, 1000, {fd}, {fd}, Outcome(0, 0));
    assert ret == 0 && s.fds == [h];
    assert h.ready == 0;
    h.QueriesWhenCleared();
    anyReady := h.IsReadable() || h.IsWritable() || h.IsConnectable() || h.IsAcceptable();
    selected := s.GetSelectedFds();
  }
}
