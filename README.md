# Selio in Dafny

A model of the header-only C++ library Selio (`Selio.hpp`): a `select()`
based readiness multiplexer for Unix-domain sockets.

- **Handles (`handle.dfy`, class `Selectable`).** A handle owns one file
  descriptor. It carries an interest mask `sel` (READ 1, WRITE 2, CONNECT 4,
  ACCEPT 8) and the readiness word `ready` that the last poll round left on
  it. The model covers:
  - the ownership rules: move constructor, `releaseFd`, `close`, destructor;
  - the readiness bit tests `IsReadable`, `IsWritable`, `IsConnectable`
    and `IsAcceptable`, whose answers after a round the lemmas
    `QueriesAfterRound` and `QueriesWhenCleared` state;
  - the flag-word arithmetic of `configureBlocking`.
- **Selector (`polling.dfy`, class `Selector`).** An ordered registry of
  handle references plus one poll round.
  - The round clears every handle's readiness.
  - It builds the read and write sets and the first argument of `select()`
    from the interest masks alone.
  - It hands the wait to the kernel.
  - On a non-zero result it writes readiness back and rebuilds the snapshot
    of handles with interest.
- **Unix sockets (`unix_socket.dfy`, class `UnixSocket`).** `connect` and
  `bind` record the name and whether the socket file must be left in place
  (`keepFile`), create the socket and take an error path that closes the
  new descriptor and keeps errno. The destructor removes the file only when
  the socket owns it. `isConnected` of the base class `SelectableSocket` is
  modelled here too.
- **Bits and calls (`interest.dfy`, `syscalls.dfy`).**
  - `interest.dfy` holds the interest and readiness bit vocabulary.
  - `syscalls.dfy` holds the kernel as the library sees it: a `Kernel`
    object that records every system call issued, with its arguments, and
    keeps `errno`.
  - Every system call's result is an input (`Outcome`) of the operation that
    issues it, so each contract covers all possible results.

Integers the source keeps in C `int` flag words (`sel`, `ready`, the
`fcntl` flags) are `bv32`. Descriptors are unbounded integers. The C++
inheritance `UnixSocket : SelectableSocket : Selectable` becomes
composition: a `UnixSocket` owns one `Selectable`. Where the intended
design and the code differ, the model follows the code:

- `add` has no duplicate check;
- a round clears readiness even when `select()` fails;
- any non-zero `select()` result, -1 included, publishes a snapshot;
- the snapshot holds every handle with interest, ready or not;
- `close` does not reset the descriptor;
- `configureBlocking(true)` sets `O_NONBLOCK`;
- `bind` gives up `keepFile` before it knows whether binding succeeds.

Constants are Linux's: `O_NONBLOCK` 0x800, `sizeof(sun_path)` 108,
`offsetof(sockaddr_un, sun_path)` 2, `SOL_SOCKET` 1, `SO_ERROR` 4.

## Model

| member | source | states |
|---|---|---|
| Interest.ReadyBitsMeaning | Selio.hpp:97-111 | The readiness a round computes stays within the interest mask. Each `is*` test holds exactly when that interest bit is set and the descriptor is in the matching returned set: read set for READ/ACCEPT, write set for WRITE/CONNECT. |
| Interest.UnwatchedNeverReady | Selio.hpp:174 | A handle with no bit of `SEL_MASK` gets no readiness. |
| Handle.NewFlags | Selio.hpp:70-76 | The flag word as written. `block` on a blocking descriptor adds `O_NONBLOCK`; `!block` on a non-blocking one removes it; every other bit is kept. A descriptor already in the requested mode gets 0. The word equals the current flags exactly when the mode matches and the flags are 0. |
| Handle.SecondBlockingCallWritesZero | Selio.hpp:70-79 | After `configureBlocking(true)` has set `O_NONBLOCK`, a second call computes the word 0, which differs from the flags, so `F_SETFL` is issued with 0. That word has `O_NONBLOCK` off, so the descriptor becomes blocking again. |
| Handle.BlockTrueSetsNonBlocking | Selio.hpp:72-73 | As written, `block == true` makes a blocking descriptor non-blocking. |
| Handle.IntendedNewFlags | Selio.hpp:65-82 | The intended word: `block` clears `O_NONBLOCK`, `!block` sets it, every other flag is kept. |
| Handle.IntendedSkipsExactlyWhenInMode | Selio.hpp:78-79 | With the intended word, `F_SETFL` is skipped exactly when the descriptor is already in the requested mode. |
| Handle.IntendedNewFlagsIdempotent | Selio.hpp:65-82 | With the intended word, a second identical call changes nothing. |
| Handle.Selectable.constructor | Selio.hpp:44 | A new handle holds the given descriptor and no readiness. |
| Handle.Selectable.Fd | Selio.hpp:61 | `getFd` answers the descriptor the handle holds, -1 once it was released or moved away. |
| Handle.Selectable.QueriesAfterRound | Selio.hpp:97-111 | After a round that published readiness, `isReadable`, `isWritable`, `isConnectable` and `isAcceptable` each hold exactly when the handle asked for that event and `select()` left its descriptor in the matching set: the read set for READ and ACCEPT, the write set for WRITE and CONNECT. |
| Handle.Selectable.QueriesWhenCleared | Selio.hpp:97-111 | After a round that cleared the readiness (a timeout), all four queries are false. |
| Handle.Selectable.Move | Selio.hpp:50-57 | The new handle takes `fd`, `sel` and `ready`. The source is left with -1, 0, 0, so exactly one object holds the descriptor. |
| Handle.Selectable.MarkReady | Selio.hpp:176-179 | Starting from cleared readiness, the four conditional bit-sets leave exactly `ReadyBits` of the interest and the returned sets. |
| Handle.Selectable.ReleaseFd | Selio.hpp:63 | Returns the held descriptor and leaves the handle with -1. |
| Handle.Selectable.Close | Selio.hpp:84-87 | Issues `close(fd)` only when a descriptor is held. Otherwise no call is made and errno is unchanged. `fd` keeps its value. |
| Handle.Selectable.Destroy | Selio.hpp:46-48 | The destructor closes the held descriptor, if any, and nothing else. |
| Handle.Selectable.CloseOnce | Selio.hpp:84-87 | The intended `close`: closes at most once and leaves the handle with -1. |
| Handle.Selectable.ConfigureBlocking | Selio.hpp:65-82 | A failing `F_GETFL` returns -1 with its errno. A word equal to the flags returns 0 after one call. Otherwise `F_SETFL` is issued with `NewFlags` and its result is returned. |
| Handle.CloseThenDestroy | Selio.hpp:46-48 | An explicit `close` followed by the destructor issues `close` twice on the same descriptor. |
| Handle.CloseOnceThenDestroy | Selio.hpp:84-87 | With the intended `close`, the destructor issues nothing more. |
| Handle.ConfigureBlockingTwice | Selio.hpp:65-82 | Two `configureBlocking(true)` calls on flags 2 issue `F_SETFL 0x802`, then `F_SETFL 0`. |
| Polling.Entries | Selio.hpp:157-167 | The snapshot of (fd, interest) that a round reads has one entry per registered handle, in order. |
| Polling.WaitSetsMeaning | Selio.hpp:154-167 | The running maximum is -1 or the fd of some watched handle, and bounds every watched fd. The read set holds exactly the fds of handles with READ or ACCEPT; the write set exactly those with WRITE or CONNECT. |
| Polling.WaitSetsBelowNfds | Selio.hpp:169 | Every descriptor in either wait set is below the first argument passed to `select()`. |
| Polling.WatchedHandlesMembers | Selio.hpp:171-175 | The snapshot holds every registered handle with some interest bit, and only such handles. |
| Polling.IndexOf | Selio.hpp:130 | `std::find`: the first position holding the handle. |
| Polling.RemoveFirst | Selio.hpp:129-131 | Erasing the found position removes one occurrence: one element fewer, multiset minus the handle. |
| Polling.AddThenRemove | Selio.hpp:124-131 | Adding a handle that was not registered and removing it restores the registry. |
| Polling.AddTwiceRemoveOnce | Selio.hpp:124-131 | With no duplicate check, a handle added twice is still registered after one removal. |
| Polling.SplitTimeoutMeaning | Selio.hpp:145-152 | Timeout 0 passes no timeval (block indefinitely). Any other timeout t gives `sec*1000 + usec/1000 == t` with a whole number of milliseconds. For t > 0, `0 <= usec < 1000000`; for t < 0 both fields are non-positive, as C's truncating division gives. |
| Polling.Selector.constructor | Selio.hpp:117-122 | A new selector has an empty registry and an empty snapshot. |
| Polling.Selector.Add | Selio.hpp:124-127 | Stores the interest on the handle and appends the handle, with no duplicate check. |
| Polling.Selector.Remove | Selio.hpp:129-131 | Requires the handle to be registered and erases its first occurrence. |
| Polling.Selector.Set | Selio.hpp:133-137 | Changes the interest only of a registered handle and never changes the registry. |
| Polling.Selector.GetSelectedFds | Selio.hpp:139-141 | Returns the last snapshot by value. |
| Polling.Selector.Select | Selio.hpp:143-185 | Issues exactly one `select()`, built from the interest masks as above and with `SplitTimeout`, and returns its result. On a non-zero result every handle's readiness is `ReadyBits` of the returned sets, and the snapshot is the watched handles in order. On 0 every handle's readiness is 0 and the snapshot is unchanged. |
| Polling.Selector.ClearAndCollect | Selio.hpp:157-167 | Clears every handle's readiness and returns the running maximum and the two wait sets. |
| Polling.Selector.ScanHandle | Selio.hpp:158-166 | One iteration of the first loop extends the maximum and the sets by one handle. |
| Polling.Selector.Publish | Selio.hpp:172-181 | Rebuilds the snapshot as the watched handles and sets each handle's readiness to `ReadyBits`. |
| Polling.Selector.PublishHandle | Selio.hpp:174-180 | One iteration of the second loop publishes one handle. |
| Polling.ConnectingRound | Selio.hpp:143-185 | A client registered for CONNECT whose descriptor `select()` reports writable: the round asks for that descriptor in the write set only, with nfds one past it and a one-second timeval. Afterwards the handle is connectable and not readable, and it is the one handle in the snapshot. |
| Polling.TimedOutRound | Selio.hpp:157-158 | A round that times out leaves a handle registered for reading and writing with no readiness, even with its descriptor in both returned sets, and keeps the previous snapshot. |
| UnixSockets.CString | Selio.hpp:256-257 | `strlen`/`c_str()`: the longest NUL-free prefix of the buffer, followed by a NUL when shorter than the buffer. |
| UnixSockets.CStringOfTerminated | Selio.hpp:256-257 | A NUL-terminated name measures to exactly its characters. |
| UnixSockets.NameOf | Selio.hpp:256-260 | The stored name is a prefix of the buffer of `nameLen` characters, or of `strlen` characters when `nameLen` is -1. It fits in `sun_path`. |
| UnixSockets.AbstractNameWithoutLengthIsEmpty | Selio.hpp:256-260 | An abstract name (leading NUL) given without its length is stored as the empty name. |
| UnixSockets.AddrLen | Selio.hpp:271 | The address length equals the offset of `sun_path` plus the name length, between 2 and `sizeof(sockaddr_un)`. |
| UnixSockets.OnlyOwnedFileNamesAreUnlinked | Selio.hpp:243-246 | The destructor removes a file only when the socket does not keep it and the name's C string is non-empty. It never removes an abstract name or a kept file. |
| UnixSockets.UnixSocket.constructor | Selio.hpp:237 | A new socket adopts the descriptor, keeps no file and has no name. |
| UnixSockets.UnixSocket.Move | Selio.hpp:239-241 | The new socket takes the handle's state, `keepFile` and the name. The source holds no descriptor, no interest, no readiness, no `keepFile` and an empty name. |
| UnixSockets.UnixSocket.Open | Selio.hpp:256-263 | Stores `keepFile` and the measured name, issues `socket(AF_UNIX, type)` and stores its result as the descriptor. |
| UnixSockets.UnixSocket.Fail | Selio.hpp:275-280 | The error path closes the held descriptor, restores errno to the failed call's and returns -1. The descriptor stays stored. |
| UnixSockets.UnixSocket.Connect | Selio.hpp:250-281 | A null filename returns -1 with no call and no state change. Otherwise `keepFile` is set and the name stored. A failing `socket()` returns -1. A failing `connect()` closes the descriptor, keeps its errno and returns -1. Success returns the descriptor. Each case states the exact calls issued. |
| UnixSockets.UnixSocket.ConnectReleasing | Selio.hpp:275-280 | The intended connect: every failure leaves no descriptor behind. |
| UnixSockets.UnixSocket.Bind | Selio.hpp:283-317 | Like connect, with `keepFile` cleared, the given socket type, and `listen(fd, backlog)` after a successful `bind()`. A failure of either closes the descriptor and returns -1 with that call's errno. |
| UnixSockets.UnixSocket.BindOwningOnSuccess | Selio.hpp:283-317 | The intended bind. It issues the same calls as bind. The socket takes charge of the file exactly when it returns the descriptor, that is, after `listen()` succeeds. Every failure leaves no descriptor behind and nothing for the destructor to remove. |
| UnixSockets.UnixSocket.Destroy | Selio.hpp:243-246 | The destructor issues `unlink(c_str())` exactly when `UnlinksOnDestroy` holds, then the handle's `close` when a descriptor is held. It states the errno after each. |
| UnixSockets.UnixSocket.IsConnected | Selio.hpp:202-212 | As written: one `SO_ERROR` query, and the answer is true exactly when the query does not fail. |
| UnixSockets.UnixSocket.IsConnectedChecked | Selio.hpp:207-212 | The intended answer: true exactly when the query succeeds and reports no pending error. |
| UnixSockets.FailedConnectThenDestroy | Selio.hpp:271-281 | A connect refused after `socket()` closes the descriptor on its error path, and the destructor closes it again. |
| UnixSockets.FailedConnectReleasedThenDestroy | Selio.hpp:275-280 | With the releasing error path, the descriptor is closed once. |
| UnixSockets.ConnectedClientKeepsFile | Selio.hpp:259 | A connected client's destructor closes its descriptor and never removes the server's file. |
| UnixSockets.BoundServerRemovesFile | Selio.hpp:283-317 | A listening server issues `socket`, `bind` with address length 2 + name length, and `listen` with backlog 50. Its destructor removes the file, then closes. |
| UnixSockets.FailedBindRemovesFile | Selio.hpp:292 | A bind that fails with `EADDRINUSE` still leaves the socket owning the file. Its destructor removes the file another server listens on, and closes the descriptor a second time. |
| UnixSockets.FailedBindOwningRemovesNothing | Selio.hpp:304-316 | With the intended bind, a bind that fails with `EADDRINUSE` closes its descriptor once. Its destructor then issues nothing. |
| UnixSockets.BoundOwningServerRemovesFile | Selio.hpp:283-317 | With the intended bind, a listening server still removes its file and then closes its descriptor when destroyed. |
| UnixSockets.AbstractServerRemovesNothing | Selio.hpp:244 | A server bound to an abstract name, given with its length, removes no file when destroyed. |
| UnixSockets.MoveServerThenDestroyBoth | Selio.hpp:239-246 | After moving a listening server, the moved-from socket's destructor issues nothing. The new socket's removes the file and closes the descriptor. |
| UnixSockets.RefusedConnectionReportedConnected | Selio.hpp:202-212 | A refused connection whose `SO_ERROR` query succeeds is reported as connected. |
| UnixSockets.RefusedConnectionReportedChecked | Selio.hpp:207-212 | The intended `isConnected` reports the same refused connection as not connected. |

## Left out

- `client.cpp` and `server.cpp` are demo programs and are not part of this
  model. They cover signal handling, printing, `accept`, file reading, and
  descriptor passing built inline with the `CMSG_*` macros.
- The pass-through wrappers add no logic of their own and are left out:
  `read`, `write` (Selio.hpp:89-95), `setsockopt`, `getsockopt` as a public
  call (Selio.hpp:198-205), and `recv`, `send`, `sendmsg`, `recvmsg`
  (Selio.hpp:214-228).
- Real system calls are not modelled. Each call is recorded with its
  arguments, and its result and errno are inputs.
- Kernel semantics are not modelled: which descriptors a real `select()`
  reports, what `SO_ERROR` holds, whether a file exists. errno is changed
  only by a call that returns -1.
- `fd_set` is a set of integers. The model does not have:
  - its bit layout;
  - the `FD_SETSIZE` bound, which the source never checks;
  - the unspecified contents after a failed `select()`. Those contents are
    inputs like any other returned sets.
- Template parameter `SelectablePtr`: handles are object references and
  `std::shared_ptr` reference counting is not modelled.
- `userData` (an opaque `void *`) is not modelled.
- `sel` is left unset by the handle constructor, as in the source. Every
  contract about a round speaks of the interest that `add` or `set` stored.
- UnixSockets.UnixSocket.Connect, UnixSockets.UnixSocket.Bind and
  UnixSockets.UnixSocket.Open: all three require `ValidName`. With `nameLen` -1 the
  buffer must hold a NUL; otherwise it must hold `nameLen` characters. The
  name must fit in the 108 bytes of `sun_path`. Outside these bounds the C++
  code reads past the buffer or overflows `sun_path`, which is undefined
  behaviour and not modelled.
- Handle.Selectable.ConfigureBlocking: requires the `F_GETFL` result to be
  a C `int`, the type `fcntl` returns.
- UnixSockets.UnixSocket.Move: states that the moved-from name is empty.
  That is libstdc++'s moved-from `std::string`; the C++ standard only says
  "valid but unspecified".
- Names and buffers are `seq<char>`, and each `char` stands for one C
  `char`, that is, one byte. `strlen`, `nameLen` and the 108 bytes of
  `sun_path` all count bytes. Encodings are not modelled.
- UnixSockets.UnixSocket.Connect and UnixSockets.UnixSocket.Bind: the
  recorded path is the stored name, not the 108 zero-padded bytes of
  `sun_path` the kernel receives. The address length says how many of those
  bytes count.

## Findings

| source | as written | input that shows it | evidently intended | confidence | as-written member | corrected member |
|---|---|---|---|---|---|---|
| Selio.hpp:70-79 | `nfl` stays 0 when the descriptor is already in the requested mode; 0 differs from the flags, so `F_SETFL 0` is issued | `configureBlocking(true)` twice on a descriptor with flags `O_RDWR` (2): the second call issues `F_SETFL` with the word 0, which turns `O_NONBLOCK` off again and drops any other status flag `F_SETFL` can change | a descriptor already in the requested mode keeps its flags and `F_SETFL` is skipped | high, not executed | Handle.ConfigureBlockingTwice | Handle.IntendedNewFlagsIdempotent |
| Selio.hpp:72-75 | `block == true` sets `O_NONBLOCK` | `configureBlocking(true)` on flags 0 writes 0x800 | `block == true` makes the descriptor blocking | medium, not executed | Handle.BlockTrueSetsNonBlocking | Handle.IntendedNewFlags |
| Selio.hpp:84-87 | `close()` keeps `fd`, so the destructor closes the same number again | `close()` on a handle holding 5, then destroy: `close(5)` is issued twice | a closed handle holds -1 | high, not executed | Handle.CloseThenDestroy | Handle.CloseOnceThenDestroy |
| Selio.hpp:275-280 | the error path closes `fd` but leaves it stored, so the destructor closes it again | `connect` where `socket()` returns 3 and `connect()` fails with `ECONNREFUSED`, then destroy: `close(3)` twice | the error path gives up the descriptor it closed | high, not executed | UnixSockets.FailedConnectThenDestroy | UnixSockets.FailedConnectReleasedThenDestroy |
| Selio.hpp:292 | `keepFile = false` is set before `socket()`, and the ERROR label (Selio.hpp:311-316) closes `fd` but leaves it stored | `bind` to a path another server listens on, where `socket()` returns 3 and `bind()` fails with `EADDRINUSE`, then destroy: `close(3)`, then `unlink` of the other server's file, then `close(3)` again | the socket takes charge of the file only after `listen()` succeeds, and the error path gives up the descriptor it closed | high, not executed | UnixSockets.FailedBindRemovesFile | UnixSockets.FailedBindOwningRemovesNothing |
| Selio.hpp:202-212 | `getsockopt` passes `&p`, the address of its `int *` parameter, so `val` in `isConnected` stays 0 | an asynchronously refused connection: the `SO_ERROR` query returns 0 and reports `ECONNREFUSED`, and `isConnected` returns true | `isConnected` is false when a pending error is reported | high, not executed | UnixSockets.RefusedConnectionReportedConnected | UnixSockets.RefusedConnectionReportedChecked |
