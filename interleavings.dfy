/**
 * Transactions interleaved by hand over one store, to show what the commit protocol does when
 * attempts overlap: a stale read is rejected and retried, disjoint writers both commit, a
 * transaction reads its own writes, and a read of a missing key gives no protection.
 */
module Interleavings {
  import opened Base
  import opened Primitives
  import opened SvmMemory

  /**
   * Two attempts read `x` at version 1. The first writes `U24(1)` and commits (version 2); the
   * second, whose read is now stale, writes `U24(2)`, fails to commit and leaves the store as it was.
   */
  method StaleReadIsRejected()
    returns (firstOk: bool, secondOk: bool, afterConflict: Option<SVMObject>)
    ensures firstOk && !secondOk
    ensures afterConflict == Some(SVMObject(U24(1), 2))
  {
    var x: Key := [0x78];  // "x"
    var tm := new SVMMemory();
    tm.Set(x, SVMObject(U24(0), 1));
    var t1 := new Transaction(tm);
    var t2 := new Transaction(tm);
    var seen1 := t1.Read(x);
    var seen2 := t2.Read(x);
    t1.Write(x, U24(1));
    firstOk := t1.Commit();
    t2.Write(x, U24(2));
    secondOk := t2.Commit();
    afterConflict := tm.Get(x);
  }

  /**
   * The retry of the rejected attempt, on the store the conflict left (`x` = `U24(1)` at version 2):
   * a fresh attempt reads `U24(1)`, writes `U24(2)` and commits at version 3.
   */
  method RetryAfterConflict()
    returns (retryRead: Option<Primitive>, retryOk: bool, final: Option<SVMObject>)
    ensures retryRead == Some(U24(1))
    ensures retryOk
    ensures final == Some(SVMObject(U24(2), 3))
  {
    var x: Key := [0x78];  // "x"
    var tm := new SVMMemory();
    tm.Set(x, SVMObject(U24(1), 2));
    var t := new Transaction(tm);
    retryRead := t.Read(x);
    t.Write(x, U24(2));
    retryOk := t.Commit();
    final := tm.Get(x);
  }

  /** Two write-only attempts on different keys both commit at once, each key at version 1. */
  method DisjointWritersBothCommit()
    returns (aOk: bool, bOk: bool, a: Option<SVMObject>, b: Option<SVMObject>)
    ensures aOk && bOk
    ensures a == Some(SVMObject(U24(0), 1)) && b == Some(SVMObject(U24(0), 1))
  {
    var ka: Key, kb: Key := [0x61], [0x62];  // "a", "b"
    var tm := new SVMMemory();
    var ta := new Transaction(tm);
    var tb := new Transaction(tm);
    ta.Write(ka, U24(0));
    tb.Write(kb, U24(0));
    aOk := ta.Commit();
    bOk := tb.Commit();
    a, b := tm.Get(ka), tm.Get(kb);
  }

  /**
   * After writing `x`, a transaction reads back its own value although the store still holds
   * another one; once it commits, the store holds the written value at the next version.
   */
  method ReadYourWrites()
    returns (own: Option<Primitive>, storedBefore: Option<SVMObject>, ok: bool, storedAfter: Option<SVMObject>)
    ensures own == Some(U24(5))
    ensures storedBefore == Some(SVMObject(U24(0), 1))
    ensures ok && storedAfter == Some(SVMObject(U24(5), 2))
  {
    var x: Key := [0x78];  // "x"
    var tm := new SVMMemory();
    tm.Set(x, SVMObject(U24(0), 1));
    var t := new Transaction(tm);
    t.Write(x, U24(5));
    own := t.Read(x);
    storedBefore := tm.Get(x);
    ok := t.Commit();
    storedAfter := tm.Get(x);
  }

  /**
   * A read of a missing key is not recorded, so a transaction that saw `y` absent still commits
   * after another transaction has created `y` in between.
   */
  method AbsentReadIsUnprotected()
    returns (seen: Option<Primitive>, creatorOk: bool, readerOk: bool, y: Option<SVMObject>)
    ensures seen == None
    ensures creatorOk && readerOk
    ensures y == Some(SVMObject(U24(7), 1))
  {
    var ky: Key, kz: Key := [0x79], [0x7A];  // "y", "z"
    var tm := new SVMMemory();
    var reader := new Transaction(tm);
    seen := reader.Read(ky);
    reader.Write(kz, U24(1));
    var creator := new Transaction(tm);
    creator.Write(ky, U24(7));
    creatorOk := creator.Commit();
    readerOk := reader.Commit();
    y := tm.Get(ky);
  }
}
