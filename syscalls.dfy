/**
 * The operating-system calls the header makes, reduced to a record of what
 * was asked.  Every call's result is an input of the model: the caller of a
 * modelled operation passes the `Outcome` each system call is to produce.
 */
module Syscalls {
  import opened Wrappers

  /** What one system call returned, and the errno it leaves when it returns -1. */
  datatype Outcome = Outcome(ret: int, err: int)

  /** `struct timeval` as passed to select(). */
  datatype TimeVal = TimeVal(sec: int, usec: int)

  const AfUnix := 1
  const SockStream := 1
  const SolSocket := 1
  const SoError := 4

  /** One issued system call with the arguments that matter to the model. */
  datatype Call =
    | Socket(domain: int, kind: int)
    | Connect(fd: int, path: seq<char>, addrLen: int)
    | Bind(fd: int, path: seq<char>, addrLen: int)
    | Listen(fd: int, backlog: int)
    | Close(fd: int)
    | Unlink(path: seq<char>)
    | GetFlags(fd: int)
    | SetFlags(fd: int, flags: bv32)
    | GetSockOpt(fd: int, level: int, option: int)
    | Select(nfds: int, readSet: set<int>, writeSet: set<int>, timeout: Option<TimeVal>)

  /** errno after a call with outcome `o`: set only by a failing call. */
  function ErrnoAfter(errno: int, o: Outcome): int
  {
    if o.ret == -1 then o.err else errno
  }

  /** The kernel as the header sees it: the calls made so far and errno. */
  class Kernel {
    var trace: seq<Call>
    var errno: int

    constructor ()
      ensures trace == [] && errno == 0
    {
      trace := [];
      errno := 0;
    }

    /** Issue `c`, which produces outcome `o`. */
    method Invoke(c: Call, o: Outcome)
      modifies this`trace, this`errno
      ensures trace == old(trace) + [c]
      ensures errno == ErrnoAfter(old(errno), o)
    {
      trace := trace + [c];
      errno := ErrnoAfter(errno, o);
    }
  }
}
