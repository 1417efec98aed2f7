/**
 * Unix-domain socket endpoints (class UnixSocket, Selio.hpp:231-318, with
 * the one piece of class SelectableSocket it relies on, isConnected).
 *
 * The C++ inheritance UnixSocket : SelectableSocket : Selectable becomes
 * composition: a socket owns one `Selectable` handle, whose `fd` the
 * connect and bind operations overwrite.  The socket remembers the name it
 * was given and whether it must leave the file in place (`keepFile`); the
 * destructor removes the file only when it does not have to keep it, the
 * name is non-empty and the name is not abstract (leading NUL).
 */
module UnixSockets {
  import opened Wrappers
  import opened Syscalls
  import opened Handle

  /** sizeof(sockaddr_un::sun_path), offsetof(sockaddr_un, sun_path) and sizeof(sockaddr_un) on Linux. */
  const SunPathSize := 108
  const SunPathOffset := 2
  const SockaddrUnSize := 110

  /** bind's default listen backlog. */
  const DefaultBacklog := 50

  /** errno values used by the scenarios below (Linux). */
  const EAddrInUse := 98
  const EConnRefused := 111

  /**
   * The C string a character buffer holds: everything before its first NUL,
   * or the whole buffer when it has none.  Its length is what strlen
   * returns; it is also what `std::string::c_str()` hands to a system call.
   */
  function CString(s: seq<char>): (c: seq<char>)
    ensures c <= s
    ensures '\0' !in c
    ensures |c| < |s| ==> s[|c|] == '\0'
  {
    if |s| == 0 || s[0] == '\0' then [] else [s[0]] + CString(s[1..])
  }

  /** A terminated string measures to exactly its characters. */
  lemma CStringOfTerminated(p: seq<char>)
    requires '\0' !in p
    ensures CString(p + ['\0']) == p
  {
    var s := p + ['\0'];
    var c := CString(s);
    assert forall i :: 0 <= i < |p| ==> s[i] == p[i] && s[i] != '\0';
    assert s[|p|] == '\0';
    assert c != s;
    assert c == s[..|p|];
  }

  /** A name without NUL characters is its own C string. */
  lemma CStringWithoutNul(p: seq<char>)
    requires '\0' !in p
    ensures CString(p) == p
  {
  }

  /**
   * The filename/nameLen pairs connect and bind are defined for: with
   * nameLen == -1 the buffer must be NUL-terminated, otherwise it must hold
   * nameLen characters; either way the name must fit in sun_path, since it
   * is copied there unchecked.
   */
  predicate ValidName(buf: seq<char>, nameLen: int)
  {
    if nameLen == -1 then '\0' in buf && |CString(buf)| <= SunPathSize
    else 0 <= nameLen <= |buf| && nameLen <= SunPathSize
  }

  /** The name connect and bind store: `std::string(filename, nameLen)` after nameLen == -1 became strlen. */
  function NameOf(buf: seq<char>, nameLen: int): (name: seq<char>)
    requires ValidName(buf, nameLen)
    ensures name <= buf && |name| <= SunPathSize
    ensures nameLen == -1 ==> '\0' !in name && |name| < |buf| && buf[|name|] == '\0'
    ensures nameLen != -1 ==> |name| == nameLen
  {
    if nameLen == -1 then CString(buf) else buf[..nameLen]
  }

  /** An abstract name (leading NUL) given without its length measures as the empty name. */
  lemma AbstractNameWithoutLengthIsEmpty(buf: seq<char>)
    requires |buf| > 0 && buf[0] == '\0'
    ensures ValidName(buf, -1) && NameOf(buf, -1) == []
  {
  }

  /** The socket address length passed to connect/bind: sizeof(sockaddr_un) - (sizeof(sun_path) - nameLen). */
  function AddrLen(nameLen: int): (len: int)
    requires 0 <= nameLen <= SunPathSize
    ensures len == SunPathOffset + nameLen
    ensures SunPathOffset <= len <= SockaddrUnSize
  {
    SockaddrUnSize - (SunPathSize - nameLen)
  }

  /** The destructor's condition for removing the socket file. */
  predicate UnlinksOnDestroy(keepFile: bool, name: seq<char>)
  {
    !keepFile && |name| > 0 && name[0] != '\0'
  }

  /** An abstract name is never unlinked, and a kept file never is. */
  lemma OnlyOwnedFileNamesAreUnlinked(keepFile: bool, name: seq<char>)
    ensures UnlinksOnDestroy(keepFile, name) ==> !keepFile && CString(name) != []
    ensures |name| > 0 && name[0] == '\0' ==> !UnlinksOnDestroy(keepFile, name)
    ensures keepFile ==> !UnlinksOnDestroy(keepFile, name)
  {
  }

  class UnixSocket {
    const handle: Selectable
    var keepFile: bool
    var name: seq<char>

    /** Selio.hpp:237: adopts `fd`, keeps no file and has no name. */
    constructor (fd: int)
      ensures fresh(handle) && handle.fd == fd && handle.ready == 0
      ensures !keepFile && name == []
    {
      handle := new Selectable(fd);
      keepFile := false;
      name := [];
    }

    /**
     * The move constructor (Selio.hpp:239-241): the new socket takes the
     * handle's state, `keepFile` and the name; the source keeps no file and,
     * as a moved-from std::string, an empty name.
     */
    constructor Move(s: UnixSocket)
      modifies s, s.handle
      ensures fresh(handle)
      ensures handle.fd == old(s.handle.fd) && handle.sel == old(s.handle.sel) && handle.ready == old(s.handle.ready)
      ensures keepFile == old(s.keepFile) && name == old(s.name)
      ensures s.handle.fd == -1 && s.handle.sel == 0 && s.handle.ready == 0
      ensures !s.keepFile && s.name == []
    {
      handle := new Selectable.Move(s.handle);
      keepFile := s.keepFile;
      name := s.name;
      new;
      s.keepFile := false;
      s.name := [];
    }

    /**
     * The part connect and bind share (Selio.hpp:256-263, 289-297): measure
     * the name, store `keepFile` and the name, then create the socket and
     * store whatever socket() returned as the descriptor.
     */
    method Open(k: Kernel, buf: seq<char>, nameLen: int, keep: bool, kind: int, sock: Outcome)
      requires ValidName(buf, nameLen)
      modifies this`keepFile, this`name, handle`fd, k`trace, k`errno
      ensures keepFile == keep && name == NameOf(buf, nameLen) && handle.fd == sock.ret
      ensures k.trace == old(k.trace) + [Call.Socket(AfUnix, kind)]
      ensures k.errno == ErrnoAfter(old(k.errno), sock)
    {
      var n := if nameLen == -1 then |CString(buf)| else nameLen;
      keepFile := keep;
      name := buf[..n];
      k.Invoke(Call.Socket(AfUnix, kind), sock);
      handle.fd := sock.ret;
    }

    /**
     * The ERROR label of connect and bind: close the descriptor when there
     * is one, put back the errno of the call that failed, return -1.  The
     * descriptor stays stored in the handle.
     */
    method Fail(k: Kernel, cl: Outcome) returns (ret: int)
      modifies k`trace, k`errno
      ensures ret == -1 && k.errno == old(k.errno)
      ensures handle.fd != -1 ==> k.trace == old(k.trace) + [Call.Close(handle.fd)]
      ensures handle.fd == -1 ==> k.trace == old(k.trace)
    {
      var err := k.errno;
      if handle.fd != -1 {
        k.Invoke(Call.Close(handle.fd), cl);
      }
      k.errno := err;
      ret := -1;
    }

    /**
     * connect (Selio.hpp:250-281), a client endpoint: a null filename
     * returns -1 and changes nothing; otherwise the file is kept, the name
     * stored, and a failing socket() or connect() returns -1 with the errno
     * of that call.
     */
    method Connect(k: Kernel, filename: Option<seq<char>>, nameLen: int, sock: Outcome, conn: Outcome, cl: Outcome)
      returns (ret: int)
      requires filename.Some? ==> ValidName(filename.value, nameLen)
      modifies this`keepFile, this`name, handle`fd, k`trace, k`errno
      ensures filename.None? ==>
        ret == -1 && keepFile == old(keepFile) && name == old(name) && handle.fd == old(handle.fd)
        && k.trace == old(k.trace) && k.errno == old(k.errno)
      ensures filename.Some? ==> keepFile && name == NameOf(filename.value, nameLen) && handle.fd == sock.ret
      ensures filename.Some? && sock.ret == -1 ==>
        ret == -1 && k.trace == old(k.trace) + [Call.Socket(AfUnix, SockStream)] && k.errno == sock.err
      ensures filename.Some? && sock.ret != -1 && conn.ret == -1 ==>
        ret == -1 && k.errno == conn.err
        && k.trace == old(k.trace) + [Call.Socket(AfUnix, SockStream), Call.Connect(sock.ret, name, AddrLen(|name|)), Call.Close(sock.ret)]
      ensures filename.Some? && sock.ret != -1 && conn.ret != -1 ==>
        ret == sock.ret && k.errno == old(k.errno)
        && k.trace == old(k.trace) + [Call.Socket(AfUnix, SockStream), Call.Connect(sock.ret, name, AddrLen(|name|))]
    {
      if filename.None? {
        return -1;
      }
      Open(k, filename.value, nameLen, true, SockStream, sock);
      if handle.fd == -1 {
        return -1;
      }
      k.Invoke(Call.Connect(handle.fd, name, AddrLen(|name|)), conn);
      if conn.ret == -1 {
        ret := Fail(k, cl);
        return;
      }
      ret := handle.fd;
    }

    /**
     * connect with the error path evidently intended: the descriptor it
     * closes is also given up, so the destructor does not close it again.
     */
    method ConnectReleasing(k: Kernel, filename: Option<seq<char>>, nameLen: int, sock: Outcome, conn: Outcome, cl: Outcome)
      returns (ret: int)
      requires filename.Some? ==> ValidName(filename.value, nameLen)
      modifies this`keepFile, this`name, handle`fd, k`trace, k`errno
      ensures filename.None? ==>
        ret == -1 && keepFile == old(keepFile) && name == old(name) && handle.fd == old(handle.fd)
        && k.trace == old(k.trace) && k.errno == old(k.errno)
      ensures filename.Some? ==> keepFile && name == NameOf(filename.value, nameLen)
      ensures filename.Some? && ret == -1 ==> handle.fd == -1
      ensures filename.Some? && sock.ret == -1 ==>
        ret == -1 && k.trace == old(k.trace) + [Call.Socket(AfUnix, SockStream)] && k.errno == sock.err
      ensures filename.Some? && sock.ret != -1 && conn.ret == -1 ==>
        ret == -1 && k.errno == conn.err
        && k.trace == old(k.trace) + [Call.Socket(AfUnix, SockStream), Call.Connect(sock.ret, name, AddrLen(|name|)), Call.Close(sock.ret)]
      ensures filename.Some? && sock.ret != -1 && conn.ret != -1 ==>
        ret == sock.ret && handle.fd == sock.ret && k.errno == old(k.errno)
        && k.trace == old(k.trace) + [Call.Socket(AfUnix, SockStream), Call.Connect(sock.ret, name, AddrLen(|name|))]
    {
      if filename.None? {
        return -1;
      }
      Open(k, filename.value, nameLen, true, SockStream, sock);
      if handle.fd == -1 {
        return -1;
      }
      k.Invoke(Call.Connect(handle.fd, name, AddrLen(|name|)), conn);
      if conn.ret == -1 {
        ret := Fail(k, cl);
        handle.fd := -1;
        return;
      }
      ret := handle.fd;
    }

    /**
     * bind (Selio.hpp:283-317), a server endpoint: like connect, but the
     * file is not kept, the socket type and backlog are arguments, and
     * listen() follows a successful bind(); a failure of either closes the
     * descriptor and returns -1 with the errno of the failed call.
     */
    method Bind(k: Kernel, filename: Option<seq<char>>, nameLen: int, kind: int, backlog: int,
                sock: Outcome, bnd: Outcome, lst: Outcome, cl: Outcome)
      returns (ret: int)
      requires filename.Some? ==> ValidName(filename.value, nameLen)
      modifies this`keepFile, this`name, handle`fd, k`trace, k`errno
      ensures filename.None? ==>
        ret == -1 && keepFile == old(keepFile) && name == old(name) && handle.fd == old(handle.fd)
        && k.trace == old(k.trace) && k.errno == old(k.errno)
      ensures filename.Some? ==> !keepFile && name == NameOf(filename.value, nameLen) && handle.fd == sock.ret
      ensures filename.Some? && sock.ret == -1 ==>
        ret == -1 && k.trace == old(k.trace) + [Call.Socket(AfUnix, kind)] && k.errno == sock.err
      ensures filename.Some? && sock.ret != -1 && bnd.ret == -1 ==>
        ret == -1 && k.errno == bnd.err
        && k.trace == old(k.trace) + [Call.Socket(AfUnix, kind), Call.Bind(sock.ret, name, AddrLen(|name|)), Call.Close(sock.ret)]
      ensures filename.Some? && sock.ret != -1 && bnd.ret != -1 && lst.ret == -1 ==>
        ret == -1 && k.errno == lst.err
        && k.trace == old(k.trace) + [Call.Socket(AfUnix, kind), Call.Bind(sock.ret, name, AddrLen(|name|)),
                                      Call.Listen(sock.ret, backlog), Call.Close(sock.ret)]
      ensures filename.Some? && sock.ret != -1 && bnd.ret != -1 && lst.ret != -1 ==>
        ret == sock.ret && k.errno == old(k.errno)
        && k.trace == old(k.trace) + [Call.Socket(AfUnix, kind), Call.Bind(sock.ret, name, AddrLen(|name|)),
                                      Call.Listen(sock.ret, backlog)]
    {
      if filename.None? {
        return -1;
      }
      Open(k, filename.value, nameLen, false, kind, sock);
      if handle.fd == -1 {
        return handle.fd;
      }
      k.Invoke(Call.Bind(handle.fd, name, AddrLen(|name|)), bnd);
      if bnd.ret == -1 {
        ret := Fail(k, cl);
        return;
      }
      k.Invoke(Call.Listen(handle.fd, backlog), lst);
      if lst.ret == -1 {
        ret := Fail(k, cl);
        return;
      }
      ret := handle.fd;
    }

    /**
     * bind with the ownership evidently intended: the socket takes charge of
     * the file only once listen() has succeeded, and a failure gives up the
     * descriptor it closes, so the destructor neither removes a file this
     * socket did not create nor closes the descriptor a second time.
     */
    method BindOwningOnSuccess(k: Kernel, filename: Option<seq<char>>, nameLen: int, kind: int, backlog: int,
                               sock: Outcome, bnd: Outcome, lst: Outcome, cl: Outcome)
      returns (ret: int)
      requires filename.Some? ==> ValidName(filename.value, nameLen)
      modifies this`keepFile, this`name, handle`fd, k`trace, k`errno
      ensures filename.None? ==>
        ret == -1 && keepFile == old(keepFile) && name == old(name) && handle.fd == old(handle.fd)
        && k.trace == old(k.trace) && k.errno == old(k.errno)
      ensures filename.Some? ==> name == NameOf(filename.value, nameLen) && (keepFile <==> ret == -1)
      ensures filename.Some? && ret == -1 ==> handle.fd == -1 && !UnlinksOnDestroy(keepFile, name)
      ensures filename.Some? && sock.ret == -1 ==>
        ret == -1 && k.trace == old(k.trace) + [Call.Socket(AfUnix, kind)] && k.errno == sock.err
      ensures filename.Some? && sock.ret != -1 && bnd.ret == -1 ==>
        ret == -1 && k.errno == bnd.err
        && k.trace == old(k.trace) + [Call.Socket(AfUnix, kind), Call.Bind(sock.ret, name, AddrLen(|name|)), Call.Close(sock.ret)]
      ensures filename.Some? && sock.ret != -1 && bnd.ret != -1 && lst.ret == -1 ==>
        ret == -1 && k.errno == lst.err
        && k.trace == old(k.trace) + [Call.Socket(AfUnix, kind), Call.Bind(sock.ret, name, AddrLen(|name|)),
                                      Call.Listen(sock.ret, backlog), Call.Close(sock.ret)]
      ensures filename.Some? && sock.ret != -1 && bnd.ret != -1 && lst.ret != -1 ==>
        ret == sock.ret && handle.fd == sock.ret && k.errno == old(k.errno)
        && k.trace == old(k.trace) + [Call.Socket(AfUnix, kind), Call.Bind(sock.ret, name, AddrLen(|name|)),
                                      Call.Listen(sock.ret, backlog)]
    {
      if filename.None? {
        return -1;
      }
      Open(k, filename.value, nameLen, true, kind, sock);
      if handle.fd == -1 {
        return -1;
      }
      k.Invoke(Call.Bind(handle.fd, name, AddrLen(|name|)), bnd);
      if bnd.ret == -1 {
        ret := Fail(k, cl);
        handle.fd := -1;
        return;
      }
      k.Invoke(Call.Listen(handle.fd, backlog), lst);
      if lst.ret == -1 {
        ret := Fail(k, cl);
        handle.fd := -1;
        return;
      }
      keepFile := false;
      ret := handle.fd;
    }

    /**
     * The destructor (Selio.hpp:243-246), followed by the handle's own: the
     * socket file is removed first when the socket owns it, then the
     * descriptor is closed when one is held.
     */
    method Destroy(k: Kernel, unl: Outcome, cl: Outcome)
      modifies k`trace, k`errno
      ensures UnlinksOnDestroy(keepFile, name) && handle.fd != -1 ==>
        k.trace == old(k.trace) + [Call.Unlink(CString(name)), Call.Close(handle.fd)]
      ensures UnlinksOnDestroy(keepFile, name) && handle.fd == -1 ==>
        k.trace == old(k.trace) + [Call.Unlink(CString(name))]
      ensures !UnlinksOnDestroy(keepFile, name) && handle.fd != -1 ==>
        k.trace == old(k.trace) + [Call.Close(handle.fd)]
      ensures !UnlinksOnDestroy(keepFile, name) && handle.fd == -1 ==>
        k.trace == old(k.trace)
      ensures var e := if UnlinksOnDestroy(keepFile, name) then ErrnoAfter(old(k.errno), unl) else old(k.errno);
        k.errno == if handle.fd != -1 then ErrnoAfter(e, cl) else e
    {
      if UnlinksOnDestroy(keepFile, name) {
        k.Invoke(Call.Unlink(CString(name)), unl);
      }
      handle.Destroy(k, cl);
    }

    /**
     * isConnected (Selio.hpp:202-212) as written: the SO_ERROR query passes
     * the address of its own `int *` parameter to getsockopt, so the
     * caller's `val` keeps its 0 and only a failing query reports false.
     */
    method IsConnected(k: Kernel, query: Outcome) returns (connected: bool)
      modifies k`trace, k`errno
      ensures k.trace == old(k.trace) + [Call.GetSockOpt(handle.fd, SolSocket, SoError)]
      ensures k.errno == ErrnoAfter(old(k.errno), query)
      ensures connected <==> query.ret >= 0
    {
      var val := 0;
      k.Invoke(Call.GetSockOpt(handle.fd, SolSocket, SoError), query);
      if query.ret < 0 {
        return false;
      }
      connected := val == 0;
    }

    /**
     * isConnected as evidently intended: the pending error the query
     * reports (`pending`) lands in `val`, so a pending error reports false.
     */
    method IsConnectedChecked(k: Kernel, query: Outcome, pending: int) returns (connected: bool)
      modifies k`trace, k`errno
      ensures k.trace == old(k.trace) + [Call.GetSockOpt(handle.fd, SolSocket, SoError)]
      ensures k.errno == ErrnoAfter(old(k.errno), query)
      ensures connected <==> query.ret >= 0 && pending == 0
    {
      var val := 0;
      k.Invoke(Call.GetSockOpt(handle.fd, SolSocket, SoError), query);
      if query.ret < 0 {
        return false;
      }
      val := pending;
      connected := val == 0;
    }
  }

  /**
   * A connect that fails after socket() closes the descriptor on its error
   * path and leaves it stored, so the destructor closes it a second time.
   */
  method FailedConnectThenDestroy(fd: nat, path: seq<char>) returns (ret: int, calls: seq<Call>)
    requires '\0' !in path && |path| <= SunPathSize
    ensures ret == -1
    ensures calls == [Call.Socket(AfUnix, SockStream), Call.Connect(fd, path, SunPathOffset + |path|),
                      Call.Close(fd), Call.Close(fd)]
  {
    var k := new Kernel();
    var s := new UnixSocket(-1);
    CStringOfTerminated(path);
    ret := s.Connect(k, Some(path + ['\0']), -1, Outcome(fd, 0), Outcome(-1, EConnRefused), Outcome(0, 0));
    s.Destroy(k, Outcome(0, 0), Outcome(-1, 9));
    calls := k.trace;
  }

  /** With the releasing error path the destructor issues nothing more. */
  method FailedConnectReleasedThenDestroy(fd: nat, path: seq<char>) returns (ret: int, calls: seq<Call>)
    requires '\0' !in path && |path| <= SunPathSize
    ensures ret == -1
    ensures calls == [Call.Socket(AfUnix, SockStream), Call.Connect(fd, path, SunPathOffset + |path|), Call.Close(fd)]
  {
    var k := new Kernel();
    var s := new UnixSocket(-1);
    CStringOfTerminated(path);
    ret := s.ConnectReleasing(k, Some(path + ['\0']), -1, Outcome(fd, 0), Outcome(-1, EConnRefused), Outcome(0, 0));
    s.Destroy(k, Outcome(0, 0), Outcome(0, 0));
    calls := k.trace;
  }

  /**
   * A client that connected keeps the server's file: destroying it only
   * closes its descriptor.
   */
  method ConnectedClientKeepsFile(fd: nat, path: seq<char>) returns (ret: int, calls: seq<Call>)
    requires '\0' !in path && |path| <= SunPathSize
    ensures ret == fd
    ensures calls == [Call.Socket(AfUnix, SockStream), Call.Connect(fd, path, SunPathOffset + |path|), Call.Close(fd)]
  {
    var k := new Kernel();
    var s := new UnixSocket(-1);
    CStringOfTerminated(path);
    ret := s.Connect(k, Some(path + ['\0']), -1, Outcome(fd, 0), Outcome(0, 0), Outcome(0, 0));
    s.Destroy(k, Outcome(0, 0), Outcome(0, 0));
    calls := k.trace;
  }

  /** A listening server removes its socket file, then closes, when destroyed. */
  method BoundServerRemovesFile(fd: nat, path: seq<char>) returns (ret: int, calls: seq<Call>)
    requires '\0' !in path && 0 < |path| <= SunPathSize
    ensures ret == fd
    ensures calls == [Call.Socket(AfUnix, SockStream), Call.Bind(fd, path, SunPathOffset + |path|),
                      Call.Listen(fd, DefaultBacklog), Call.Unlink(path), Call.Close(fd)]
  {
    var k := new Kernel();
    var s := new UnixSocket(-1);
    ret := s.Bind(k, Some(path), |path|, SockStream, DefaultBacklog, Outcome(fd, 0), Outcome(0, 0), Outcome(0, 0), Outcome(0, 0));
    assert path[..|path|] == path;
    CStringWithoutNul(path);
    s.Destroy(k, Outcome(0, 0), Outcome(0, 0));
    calls := k.trace;
  }

  /**
   * A bind that fails because the address is in use still leaves the socket
   * responsible for the file, so its destructor removes the file another
   * server is listening on (and closes the descriptor a second time).
   */
  method FailedBindRemovesFile(fd: nat, path: seq<char>) returns (ret: int, calls: seq<Call>)
    requires '\0' !in path && 0 < |path| <= SunPathSize
    ensures ret == -1
    ensures calls == [Call.Socket(AfUnix, SockStream), Call.Bind(fd, path, SunPathOffset + |path|),
                      Call.Close(fd), Call.Unlink(path), Call.Close(fd)]
  {
    var k := new Kernel();
    var s := new UnixSocket(-1);
    ret := s.Bind(k, Some(path), |path|, SockStream, DefaultBacklog, Outcome(fd, 0), Outcome(-1, EAddrInUse), Outcome(0, 0), Outcome(0, 0));
    assert path[..|path|] == path;
    CStringWithoutNul(path);
    s.Destroy(k, Outcome(0, 0), Outcome(-1, 9));
    calls := k.trace;
  }

  /**
   * With the intended bind, a bind that fails because the address is in use
   * closes its descriptor once, and the destructor neither removes the file
   * nor closes anything.
   */
  method FailedBindOwningRemovesNothing(fd: nat, path: seq<char>) returns (ret: int, calls: seq<Call>)
    requires '\0' !in path && 0 < |path| <= SunPathSize
    ensures ret == -1
    ensures calls == [Call.Socket(AfUnix, SockStream), Call.Bind(fd, path, SunPathOffset + |path|), Call.Close(fd)]
  {
    var k := new Kernel();
    var s := new UnixSocket(-1);
    ret := s.BindOwningOnSuccess(k, Some(path), |path|, SockStream, DefaultBacklog,
                                 Outcome(fd, 0), Outcome(-1, EAddrInUse), Outcome(0, 0), Outcome(0, 0));
    assert path[..|path|] == path;
    s.Destroy(k, Outcome(0, 0), Outcome(0, 0));
    calls := k.trace;
  }

  /** With the intended bind, a listening server still removes its file, then closes, when destroyed. */
  method BoundOwningServerRemovesFile(fd: nat, path: seq<char>) returns (ret: int, calls: seq<Call>)
    requires '\0' !in path && 0 < |path| <= SunPathSize
    ensures ret == fd
    ensures calls == [Call.Socket(AfUnix, SockStream), Call.Bind(fd, path, SunPathOffset + |path|),
                      Call.Listen(fd, DefaultBacklog), Call.Unlink(path), Call.Close(fd)]
  {
    var k := new Kernel();
    var s := new UnixSocket(-1);
    ret := s.BindOwningOnSuccess(k, Some(path), |path|, SockStream, DefaultBacklog,
                                 Outcome(fd, 0), Outcome(0, 0), Outcome(0, 0), Outcome(0, 0));
    assert path[..|path|] == path;
    CStringWithoutNul(path);
    s.Destroy(k, Outcome(0, 0), Outcome(0, 0));
    calls := k.trace;
  }

  /** A server bound to an abstract name (leading NUL, length given) leaves no file to remove. */
  method AbstractServerRemovesNothing(fd: nat, path: seq<char>) returns (ret: int, calls: seq<Call>)
    requires |path| < SunPathSize
    ensures ret == fd
    ensures calls == [Call.Socket(AfUnix, SockStream), Call.Bind(fd, ['\0'] + path, SunPathOffset + 1 + |path|),
                      Call.Listen(fd, DefaultBacklog), Call.Close(fd)]
  {
    var k := new Kernel();
    var s := new UnixSocket(-1);
    var buf := ['\0'] + path;
    assert buf[..|buf|] == buf;
    ret := s.Bind(k, Some(buf), |buf|, SockStream, DefaultBacklog, Outcome(fd, 0), Outcome(0, 0), Outcome(0, 0), Outcome(0, 0));
    s.Destroy(k, Outcome(0, 0), Outcome(0, 0));
    calls := k.trace;
  }

  /**
   * Moving a listening server hands over both the descriptor and the file:
   * the moved-from socket's destructor issues nothing, the new one's
   * removes the file and closes the descriptor.
   */
  method MoveServerThenDestroyBoth(fd: nat, path: seq<char>) returns (fromCalls: seq<Call>, toCalls: seq<Call>)
    requires '\0' !in path && 0 < |path| <= SunPathSize
    ensures fromCalls == []
    ensures toCalls == [Call.Unlink(path), Call.Close(fd)]
  {
    var k := new Kernel();
    var s := new UnixSocket(-1);
    var ret := s.Bind(k, Some(path), |path|, SockStream, DefaultBacklog, Outcome(fd, 0), Outcome(0, 0), Outcome(0, 0), Outcome(0, 0));
    var t := new UnixSocket.Move(s);
    assert path[..|path|] == path;
    CStringWithoutNul(path);
    var k1 := new Kernel();
    s.Destroy(k1, Outcome(0, 0), Outcome(0, 0));
    fromCalls := k1.trace;
    var k2 := new Kernel();
    t.Destroy(k2, Outcome(0, 0), Outcome(0, 0));
    toCalls := k2.trace;
  }

  /**
   * A connection the peer refused: the SO_ERROR query itself succeeds and
   * reports ECONNREFUSED, yet isConnected as written answers true.
   */
  method RefusedConnectionReportedConnected(fd: nat) returns (connected: bool)
    ensures connected
  {
    var k := new Kernel();
    var s := new UnixSocket(fd);
    connected := s.IsConnected(k, Outcome(0, 0));
  }

  /** The intended isConnected answers false for the same refused connection. */
  method RefusedConnectionReportedChecked(fd: nat) returns (connected: bool)
    ensures !connected
  {
    var k := new Kernel();
    var s := new UnixSocket(fd);
    connected := s.IsConnectedChecked(k, Outcome(0, 0), EConnRefused);
  }
}
