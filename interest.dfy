/**
 * The interest and readiness bits of a selectable handle (Selio.hpp:28-34)
 * and the pure bit tests over them.  A C `int` is modelled as a 32-bit
 * two's-complement word.
 */
module Interest {
  type Bits = bv32

  const SelRead: Bits := 1
  const SelWrite: Bits := 2
  const SelConnect: Bits := 4
  const SelAccept: Bits := 8
  const SelMask: Bits := 0x0f

  /** A handle takes part in a poll round when some interest bit is set. */
  predicate Watched(sel: Bits) { (sel & SelMask) != 0 }

  /** READ and ACCEPT interest are served by the read set of select(). */
  predicate WantsRead(sel: Bits) { (sel & SelRead) != 0 || (sel & SelAccept) != 0 }

  /** WRITE and CONNECT interest are served by the write set of select(). */
  predicate WantsWrite(sel: Bits) { (sel & SelWrite) != 0 || (sel & SelConnect) != 0 }

  // The readiness queries of a handle: plain bit tests on its `ready` word.
  predicate Readable(ready: Bits) { (ready & SelRead) != 0 }
  predicate Writable(ready: Bits) { (ready & SelWrite) != 0 }
  predicate Connectable(ready: Bits) { (ready & SelConnect) != 0 }
  predicate Acceptable(ready: Bits) { (ready & SelAccept) != 0 }

  /** The word with exactly the given readiness bits set. */
  function Word(read: bool, write: bool, connect: bool, accept: bool): Bits
  {
    (if read then SelRead else 0) | (if write then SelWrite else 0)
    | (if connect then SelConnect else 0) | (if accept then SelAccept else 0)
  }

  /** Each query on a word built by `Word` answers the flag it was built from. */
  lemma WordQueries(read: bool, write: bool, connect: bool, accept: bool)
    ensures Readable(Word(read, write, connect, accept)) <==> read
    ensures Writable(Word(read, write, connect, accept)) <==> write
    ensures Connectable(Word(read, write, connect, accept)) <==> connect
    ensures Acceptable(Word(read, write, connect, accept)) <==> accept
  {
  }

  /** `ready |= bit` when `on` holds: one of the four updates of the second loop of select(). */
  function SetIf(ready: Bits, on: bool, bit: Bits): Bits
  {
    if on then ready | bit else ready
  }

  /** The four updates applied to a cleared word produce exactly the word of their conditions. */
  lemma SetAllFromClear(read: bool, write: bool, connect: bool, accept: bool)
    ensures SetIf(SetIf(SetIf(SetIf(0, read, SelRead), write, SelWrite), connect, SelConnect), accept, SelAccept)
         == Word(read, write, connect, accept)
  {
  }

  /** Applying the four updates again to their own result changes nothing. */
  lemma SetAllAgain(read: bool, write: bool, connect: bool, accept: bool)
    ensures SetIf(SetIf(SetIf(SetIf(Word(read, write, connect, accept), read, SelRead), write, SelWrite),
                        connect, SelConnect), accept, SelAccept)
         == Word(read, write, connect, accept)
  {
    var x := Word(read, write, connect, accept);
    assert read ==> x | SelRead == x;
    assert write ==> x | SelWrite == x;
    assert connect ==> x | SelConnect == x;
    assert accept ==> x | SelAccept == x;
  }

  /**
   * The readiness word a poll round leaves on a handle with interest `sel`
   * and descriptor `fd`, given the read and write sets select() returned:
   * a bit is set when the handle asked for the event and select() left the
   * descriptor in the matching set.
   */
  function ReadyBits(sel: Bits, fd: int, r: set<int>, w: set<int>): Bits
  {
    Word((sel & SelRead) != 0 && fd in r, (sel & SelWrite) != 0 && fd in w,
         (sel & SelConnect) != 0 && fd in w, (sel & SelAccept) != 0 && fd in r)
  }

  /**
   * A handle is reported ready for an event exactly when it asked for that
   * event and select() left its descriptor in the matching set; no bit
   * outside its interest is ever set.
   */
  lemma ReadyBitsMeaning(sel: Bits, fd: int, r: set<int>, w: set<int>)
    ensures (ReadyBits(sel, fd, r, w) & !(sel & SelMask)) == 0
    ensures Readable(ReadyBits(sel, fd, r, w)) <==> (sel & SelRead) != 0 && fd in r
    ensures Writable(ReadyBits(sel, fd, r, w)) <==> (sel & SelWrite) != 0 && fd in w
    ensures Connectable(ReadyBits(sel, fd, r, w)) <==> (sel & SelConnect) != 0 && fd in w
    ensures Acceptable(ReadyBits(sel, fd, r, w)) <==> (sel & SelAccept) != 0 && fd in r
  {
    var rd, wr := (sel & SelRead) != 0 && fd in r, (sel & SelWrite) != 0 && fd in w;
    var cn, ac := (sel & SelConnect) != 0 && fd in w, (sel & SelAccept) != 0 && fd in r;
    WordQueries(rd, wr, cn, ac);
    WordWithinInterest(sel, rd, wr, cn, ac);
  }

  /** A word whose bits all lie in the interest `sel` has nothing outside it. */
  lemma WordWithinInterest(sel: Bits, read: bool, write: bool, connect: bool, accept: bool)
    requires read ==> (sel & SelRead) != 0
    requires write ==> (sel & SelWrite) != 0
    requires connect ==> (sel & SelConnect) != 0
    requires accept ==> (sel & SelAccept) != 0
    ensures (Word(read, write, connect, accept) & !(sel & SelMask)) == 0
  {
  }

  /** A handle with no interest bit is never reported ready, whatever select() returned. */
  lemma UnwatchedNeverReady(sel: Bits, fd: int, r: set<int>, w: set<int>)
    requires !Watched(sel)
    ensures ReadyBits(sel, fd, r, w) == 0
  {
    assert (sel & SelRead) == 0 && (sel & SelWrite) == 0 && (sel & SelConnect) == 0 && (sel & SelAccept) == 0;
  }
}
