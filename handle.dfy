/**
 * A selectable handle (class Selectable, Selio.hpp:36-115): it owns one file
 * descriptor, carries the interest mask a selector polls for and the
 * readiness word the last poll round left.  The C++ move constructor, the
 * destructor and `close` are the ownership rules modelled here.
 */
module Handle {
  import opened Interest
  import opened Syscalls

  /** O_NONBLOCK as Linux defines it (octal 04000). */
  const ONonBlock: Bits := 0x800

  predicate NonBlocking(flags: Bits) { (flags & ONonBlock) != 0 }

  /** A value of C `int`. */
  predicate IsCInt(x: int) { -0x8000_0000 <= x < 0x8000_0000 }

  /** The two's-complement bits of a C `int`. */
  function ToBits(x: int): Bits
    requires IsCInt(x)
  {
    if x < 0 then (x + 0x1_0000_0000) as Bits else x as Bits
  }

  /**
   * The flag word configureBlocking computes from the current flags
   * (Selio.hpp:70-76), as written: `block` turns O_NONBLOCK on, `!block`
   * turns it off, and when the descriptor is already in the requested mode
   * the word stays 0.
   */
  function NewFlags(block: bool, flags: Bits): (nfl: Bits)
    ensures block && !NonBlocking(flags) ==>
      NonBlocking(nfl) && (nfl & !ONonBlock) == (flags & !ONonBlock)
    ensures !block && NonBlocking(flags) ==>
      !NonBlocking(nfl) && (nfl & !ONonBlock) == (flags & !ONonBlock)
    ensures block == NonBlocking(flags) ==> nfl == 0
    ensures nfl == flags <==> block == NonBlocking(flags) && flags == 0
  {
    if block && !NonBlocking(flags) then flags | ONonBlock
    else if !block && NonBlocking(flags) then flags & !ONonBlock
    else 0
  }

  /**
   * Calling configureBlocking(true) a second time writes the word 0: it
   * turns O_NONBLOCK off again, making the descriptor blocking, and drops
   * every other status flag F_SETFL can change.
   */
  lemma SecondBlockingCallWritesZero(flags: Bits)
    requires !NonBlocking(flags)
    ensures NewFlags(true, flags) != flags
    ensures NewFlags(true, NewFlags(true, flags)) == 0
    ensures !NonBlocking(NewFlags(true, NewFlags(true, flags)))
  {
  }

  /** As written, `block == true` makes the descriptor non-blocking. */
  lemma BlockTrueSetsNonBlocking(flags: Bits)
    requires !NonBlocking(flags)
    ensures NonBlocking(NewFlags(true, flags))
  {
  }

  /**
   * The flag word evidently intended: `block` clears O_NONBLOCK, `!block`
   * sets it, every other flag is kept, and a descriptor already in the
   * requested mode keeps its flags.
   */
  function IntendedNewFlags(block: bool, flags: Bits): (nfl: Bits)
    ensures NonBlocking(nfl) == !block
    ensures (nfl & !ONonBlock) == (flags & !ONonBlock)
  {
    NonBlockingBitOps(flags);
    if block then flags & !ONonBlock else flags | ONonBlock
  }

  /** Clearing or setting O_NONBLOCK decides that bit and keeps every other one. */
  lemma NonBlockingBitOps(flags: Bits)
    ensures !NonBlocking(flags & !ONonBlock) && NonBlocking(flags | ONonBlock)
    ensures ((flags & !ONonBlock) & !ONonBlock) == (flags & !ONonBlock)
    ensures ((flags | ONonBlock) & !ONonBlock) == (flags & !ONonBlock)
  {
  }

  /** With the intended word, F_SETFL is skipped exactly when the mode already matches. */
  lemma IntendedSkipsExactlyWhenInMode(block: bool, flags: Bits)
    ensures IntendedNewFlags(block, flags) == flags <==> NonBlocking(flags) == !block
  {
    var nfl := IntendedNewFlags(block, flags);
    if NonBlocking(flags) == !block {
      assert (nfl & ONonBlock) == (flags & ONonBlock);
    }
  }

  /** With the intended word, configuring the same mode twice changes nothing the second time. */
  lemma IntendedNewFlagsIdempotent(block: bool, flags: Bits)
    ensures IntendedNewFlags(block, IntendedNewFlags(block, flags)) == IntendedNewFlags(block, flags)
  {
  }

  class Selectable {
    var fd: int
    var sel: Bits
    var ready: Bits

    /** Selio.hpp:44; `sel` is left unset, as the source leaves it uninitialised. */
    constructor (fd: int)
      ensures this.fd == fd && ready == 0
    {
      this.fd := fd;
      ready := 0;
    }

    /** The move constructor: the new handle takes everything, the source is emptied. */
    constructor Move(s: Selectable)
      modifies s
      ensures fd == old(s.fd) && sel == old(s.sel) && ready == old(s.ready)
      ensures s.fd == -1 && s.sel == 0 && s.ready == 0
    {
      fd, sel, ready := s.fd, s.sel, s.ready;
      s.fd, s.sel, s.ready := -1, 0, 0;
    }

    /** getFd: the descriptor the handle holds, -1 once given up. */
    function Fd(): (d: int)
      reads this
      ensures d == fd
    {
      fd
    }

    predicate IsReadable() reads this { Readable(ready) }
    predicate IsWritable() reads this { Writable(ready) }
    predicate IsConnectable() reads this { Connectable(ready) }
    predicate IsAcceptable() reads this { Acceptable(ready) }

    /**
     * After a round that published readiness, each query answers whether
     * the handle asked for that event and select() left its descriptor in
     * the matching set.
     */
    lemma QueriesAfterRound(r: set<int>, w: set<int>)
      requires ready == ReadyBits(sel, fd, r, w)
      ensures IsReadable() <==> (sel & SelRead) != 0 && fd in r
      ensures IsWritable() <==> (sel & SelWrite) != 0 && fd in w
      ensures IsConnectable() <==> (sel & SelConnect) != 0 && fd in w
      ensures IsAcceptable() <==> (sel & SelAccept) != 0 && fd in r
    {
      ReadyBitsMeaning(sel, fd, r, w);
    }

    /** After a round that timed out, every query answers false. */
    lemma QueriesWhenCleared()
      requires ready == 0
      ensures !IsReadable() && !IsWritable() && !IsConnectable() && !IsAcceptable()
    {
    }

    method MarkReady(r: set<int>, w: set<int>)
      requires ready == 0 || ready == ReadyBits(sel, fd, r, w)
      modifies this`ready
      ensures ready == ReadyBits(sel, fd, r, w)
    {
      // The four conditions of Selio.hpp:176-179: interest and FD_ISSET.
      var rd := (sel & SelRead) != 0 && fd in r;
      var wr := (sel & SelWrite) != 0 && fd in w;
      var cn := (sel & SelConnect) != 0 && fd in w;
      var ac := (sel & SelAccept) != 0 && fd in r;
      SetAllFromClear(rd, wr, cn, ac);
      SetAllAgain(rd, wr, cn, ac);
      var b := SetIf(ready, rd, SelRead);
      b := SetIf(b, wr, SelWrite);
      b := SetIf(b, cn, SelConnect);
      ready := SetIf(b, ac, SelAccept);
    }

    /** Hands the descriptor to the caller without closing it. */
    method ReleaseFd() returns (released: int)
      modifies this`fd
      ensures released == old(fd) && fd == -1
    {
      released := fd;
      fd := -1;
    }

    /** Issues close() when a descriptor is held; `fd` keeps its value. */
    method Close(k: Kernel, o: Outcome)
      modifies k`trace, k`errno
      ensures fd == -1 ==> k.trace == old(k.trace) && k.errno == old(k.errno)
      ensures fd != -1 ==> k.trace == old(k.trace) + [Call.Close(fd)] && k.errno == ErrnoAfter(old(k.errno), o)
    {
      if fd != -1 {
        k.Invoke(Call.Close(fd), o);
      }
    }

    /** The destructor (Selio.hpp:46-48). */
    method Destroy(k: Kernel, o: Outcome)
      modifies k`trace, k`errno
      ensures fd == -1 ==> k.trace == old(k.trace) && k.errno == old(k.errno)
      ensures fd != -1 ==> k.trace == old(k.trace) + [Call.Close(fd)] && k.errno == ErrnoAfter(old(k.errno), o)
    {
      Close(k, o);
    }

    /** close() as evidently intended: the descriptor is given up once closed. */
    method CloseOnce(k: Kernel, o: Outcome)
      modifies this`fd, k`trace, k`errno
      ensures fd == -1
      ensures old(fd) == -1 ==> k.trace == old(k.trace) && k.errno == old(k.errno)
      ensures old(fd) != -1 ==> k.trace == old(k.trace) + [Call.Close(old(fd))] && k.errno == ErrnoAfter(old(k.errno), o)
    {
      if fd != -1 {
        k.Invoke(Call.Close(fd), o);
        fd := -1;
      }
    }

    /**
     * configureBlocking (Selio.hpp:65-82): reads the flags, returns -1 when
     * that fails, returns 0 without a second call when the computed word
     * equals the flags, and otherwise returns what F_SETFL returns.
     */
    method ConfigureBlocking(k: Kernel, block: bool, getfl: Outcome, setfl: Outcome) returns (ret: int)
      requires IsCInt(getfl.ret)
      modifies k`trace, k`errno
      ensures getfl.ret == -1 ==>
        ret == -1 && k.trace == old(k.trace) + [GetFlags(fd)] && k.errno == getfl.err
      ensures getfl.ret != -1 && NewFlags(block, ToBits(getfl.ret)) == ToBits(getfl.ret) ==>
        ret == 0 && k.trace == old(k.trace) + [GetFlags(fd)] && k.errno == old(k.errno)
      ensures getfl.ret != -1 && NewFlags(block, ToBits(getfl.ret)) != ToBits(getfl.ret) ==>
        ret == setfl.ret
        && k.trace == old(k.trace) + [GetFlags(fd), SetFlags(fd, NewFlags(block, ToBits(getfl.ret)))]
        && k.errno == ErrnoAfter(old(k.errno), setfl)
    {
      k.Invoke(GetFlags(fd), getfl);
      if getfl.ret == -1 {
        return -1;
      }
      var flags := ToBits(getfl.ret);
      var nfl := NewFlags(block, flags);
      if nfl == flags {
        return 0;
      }
      k.Invoke(SetFlags(fd, nfl), setfl);
      ret := setfl.ret;
    }
  }

  /**
   * A handle closed explicitly and then destroyed issues close() twice on
   * the same descriptor.
   */
  method CloseThenDestroy(fd: int) returns (calls: seq<Call>)
    requires fd != -1
    ensures calls == [Call.Close(fd), Call.Close(fd)]
  {
    var k := new Kernel();
    var h := new Selectable(fd);
    h.Close(k, Outcome(0, 0));
    h.Destroy(k, Outcome(-1, 9));
    calls := k.trace;
  }

  /** With CloseOnce, the destructor that follows issues nothing. */
  method CloseOnceThenDestroy(fd: int) returns (calls: seq<Call>)
    requires fd != -1
    ensures calls == [Call.Close(fd)]
  {
    var k := new Kernel();
    var h := new Selectable(fd);
    h.CloseOnce(k, Outcome(0, 0));
    h.Destroy(k, Outcome(0, 0));
    calls := k.trace;
  }

  /**
   * configureBlocking(true) twice on a descriptor opened O_RDWR (flags 2):
   * the first call sets O_NONBLOCK, the second writes 0 and clears it.
   */
  method ConfigureBlockingTwice(fd: int) returns (calls: seq<Call>, first: int, second: int)
    ensures calls == [GetFlags(fd), SetFlags(fd, 0x802), GetFlags(fd), SetFlags(fd, 0)]
    ensures first == 0 && second == 0
  {
    var k := new Kernel();
    var h := new Selectable(fd);
    first := h.ConfigureBlocking(k, true, Outcome(2, 0), Outcome(0, 0));
    second := h.ConfigureBlocking(k, true, Outcome(0x802, 0), Outcome(0, 0));
    calls := k.trace;
  }
}
