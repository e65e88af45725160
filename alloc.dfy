/** `alloc`: one write-only transaction per account `0x{i}`, a <= i <= b, setting it to `U24(0)`. */
module Alloc {
  import opened Base
  import opened Primitives
  import opened Formatting
  import opened SvmMemory
  import opened CommitProperties

  /** The writes of the allocation transactions for `a..i` (`i` excluded), in loop order. */
  function AllocWrites(a: nat, i: nat): WriteSet
    decreases i
  {
    if i <= a then map[] else AllocWrites(a, i - 1)[AddressKey(i - 1) := U24(0)]
  }

  /** The allocation writes `U24(0)` to exactly the keys `0x{n}` with `a <= n < i`. */
  lemma {:induction false} AllocWritesKeys(a: nat, i: nat, k: Key)
    ensures k in AllocWrites(a, i) <==> exists n :: a <= n < i && k == AddressKey(n)
    ensures k in AllocWrites(a, i) ==> AllocWrites(a, i)[k] == U24(0)
    decreases i
  {
    if i > a {
      AllocWritesKeys(a, i - 1, k);
    }
  }

  /** The body of one allocation transaction: write `U24(0)` and return `Ok(None)`; no reads. */
  method AllocBody(txn: Transaction, key: Key) returns (r: Result<Option<Primitive>>)
    modifies txn`writeSet
    ensures r == Ok(None)
    ensures txn.writeSet == old(txn.writeSet)[key := U24(0)]
  {
    txn.Write(key, U24(0));
    r := Ok(None);
  }

  /**
   * Runs the allocation transactions for `a..=b` one after the other, each as one attempt that
   * commits. The store afterwards is the old store with all of their writes applied.
   */
  method Alloc(tm: SVMMemory, a: u32, b: u32)
    modifies tm
    ensures tm.objects == ApplyWrites(old(tm.objects), AllocWrites(a, b + 1))
  {
    var i: nat := a;
    while i <= b
      invariant a <= i <= if a <= b then b + 1 else a
      invariant tm.objects == ApplyWrites(old(tm.objects), AllocWrites(a, i))
    {
      var key := AddressKey(i);
      var txn := new Transaction(tm);
      var body := AllocBody(txn, key);
      var committed := txn.Commit();
      assert committed;
      AllocStep(a, i);
      SequentialDisjointCommits(old(tm.objects), AllocWrites(a, i), map[key := U24(0)]);
      i := i + 1;
    }
  }

  /** Allocating one more account adds exactly the write of its key, which was not yet written. */
  lemma AllocStep(a: nat, i: nat)
    requires a <= i
    ensures AddressKey(i) !in AllocWrites(a, i)
    ensures AllocWrites(a, i + 1) == AllocWrites(a, i) + map[AddressKey(i) := U24(0)]
  {
    AllocWritesKeys(a, i, AddressKey(i));
    if AddressKey(i) in AllocWrites(a, i) {
      var n :| a <= n < i && AddressKey(i) == AddressKey(n);
      AddressKeyInjective(n, i);
    }
  }

  /** After allocating `a..=b`, each account in range holds `U24(0)` one version above what it had. */
  lemma AllocatedInRange(objects: Objects, a: nat, b: nat, i: nat)
    requires a <= i <= b
    ensures AddressKey(i) in ApplyWrites(objects, AllocWrites(a, b + 1))
    ensures ApplyWrites(objects, AllocWrites(a, b + 1))[AddressKey(i)]
         == SVMObject(U24(0), CurrentVersion(objects, AddressKey(i)) + 1)
  {
    AllocWritesKeys(a, b + 1, AddressKey(i));
  }

  /** Every key that is not an account in `a..=b` is as before: present with the same object, or absent. */
  lemma AllocatedElsewhere(objects: Objects, a: nat, b: nat, k: Key)
    requires forall i :: a <= i <= b ==> k != AddressKey(i)
    ensures (k in ApplyWrites(objects, AllocWrites(a, b + 1))) == (k in objects)
    ensures k in objects ==> ApplyWrites(objects, AllocWrites(a, b + 1))[k] == objects[k]
  {
    AllocWritesKeys(a, b + 1, k);
  }

  /** With `a > b` the allocation changes nothing. */
  lemma AllocEmptyRange(objects: Objects, a: nat, b: nat)
    requires a > b
    ensures ApplyWrites(objects, AllocWrites(a, b + 1)) == objects
  {
    assert AllocWrites(a, b + 1) == map[];
    assert ApplyWrites(objects, map[]) == objects;
  }

  /** A key of the form `0x{n}` with `n` outside `a..=b` is never touched by the allocation. */
  lemma OutOfRangeUntouched(objects: Objects, a: nat, b: nat, n: nat)
    requires n < a || b < n
    ensures (AddressKey(n) in ApplyWrites(objects, AllocWrites(a, b + 1))) == (AddressKey(n) in objects)
    ensures AddressKey(n) in objects ==>
      ApplyWrites(objects, AllocWrites(a, b + 1))[AddressKey(n)] == objects[AddressKey(n)]
  {
    AllocWritesKeys(a, b + 1, AddressKey(n));
    if AddressKey(n) in AllocWrites(a, b + 1) {
      var m :| a <= m < b + 1 && AddressKey(n) == AddressKey(m);
      AddressKeyInjective(m, n);
    }
  }
}
