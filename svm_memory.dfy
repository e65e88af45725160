/**
 * The optimistic transactional memory: a store of versioned objects and the transactions that read
 * and write it. A transaction buffers its writes, remembers the version of every object it read,
 * and at commit time first validates those versions against the store and then applies its writes,
 * each at the key's current version plus one.
 */
module SvmMemory {
  import opened Base
  import opened Primitives

  /** An object as stored: its value and the version at which that value became current. */
  datatype SVMObject = SVMObject(value: Primitive, version: nat)

  type Objects = map<Key, SVMObject>
  /** What a transaction saw: key -> (value, version). */
  type ReadSet = map<Key, (Primitive, nat)>
  /** What a transaction wants to write: key -> value. */
  type WriteSet = map<Key, Primitive>

  /** The version of `key` in the store, 0 for a key that was never written. */
  function CurrentVersion(objects: Objects, key: Key): nat {
    if key in objects then objects[key].version else 0
  }

  // ---------------------------------------------------------------------------------------------
  // The two phases of commit, as functions of the store

  /**
   * Validation: every read-set key that is present in the store still has the version that was
   * read. A read-set key absent from the store does not conflict.
   */
  predicate Validates(objects: Objects, readSet: ReadSet) {
    forall k :: k in readSet && k in objects ==> objects[k].version == readSet[k].1
  }

  /** Application: every buffered write lands at its key's current version plus one. */
  function ApplyWrites(objects: Objects, writeSet: WriteSet): Objects {
    map k | k in objects.Keys + writeSet.Keys ::
      if k in writeSet then SVMObject(writeSet[k], CurrentVersion(objects, k) + 1) else objects[k]
  }

  /** A transaction's view of `key`: its own buffered write if any, else the stored value. */
  function View(objects: Objects, writeSet: WriteSet, key: Key): Option<Primitive> {
    if key in writeSet then Some(writeSet[key])
    else if key in objects then Some(objects[key].value)
    else None
  }

  /** Every read recorded in `readSet` is exactly what the store holds now. */
  ghost predicate ReadsCurrent(objects: Objects, readSet: ReadSet) {
    forall k :: k in readSet ==> k in objects && objects[k] == SVMObject(readSet[k].0, readSet[k].1)
  }

  // ---------------------------------------------------------------------------------------------
  // The store

  class SVMMemory {
    var objects: Objects

    /** An empty store. */
    constructor ()
      ensures objects == map[]
    {
      objects := map[];
    }

    /** The object stored under `key`, if any. */
    function Get(key: Key): (r: Option<SVMObject>)
      reads this
      ensures r.Some? <==> key in objects
      ensures r.Some? ==> r.value == objects[key]
    {
      if key in objects then Some(objects[key]) else None
    }

    /** Unconditionally stores `obj` under `key`. */
    method Set(key: Key, obj: SVMObject)
      modifies this
      ensures Get(key) == Some(obj)
      ensures forall k :: k != key ==> Get(k) == old(Get(k))
      ensures objects == old(objects)[key := obj]
    {
      objects := objects[key := obj];
    }
  }

  // ---------------------------------------------------------------------------------------------
  // A transaction

  class Transaction {
    const tm: SVMMemory
    var readSet: ReadSet
    var writeSet: WriteSet

    /** A fresh transaction over `tm`, with nothing read and nothing written. */
    constructor (tm: SVMMemory)
      ensures this.tm == tm && readSet == map[] && writeSet == map[]
    {
      this.tm := tm;
      readSet := map[];
      writeSet := map[];
    }

    /** Everything this transaction has read is still what the store holds. */
    ghost predicate ReadSetCurrent()
      reads this, tm
    {
      ReadsCurrent(tm.objects, readSet)
    }

    /**
     * Reads `key`: the transaction's own buffered write if there is one; otherwise the stored value,
     * whose value and version then replace any earlier read-set entry for `key`; otherwise nothing,
     * and nothing is recorded.
     */
    method Read(key: Key) returns (r: Option<Primitive>)
      modifies this`readSet
      ensures key in writeSet ==> r == Some(writeSet[key]) && readSet == old(readSet)
      ensures key !in writeSet && key in tm.objects ==>
        && r == Some(tm.objects[key].value)
        && readSet == old(readSet)[key := (tm.objects[key].value, tm.objects[key].version)]
      ensures key !in writeSet && key !in tm.objects ==> r == None && readSet == old(readSet)
      ensures old(ReadSetCurrent()) ==> ReadSetCurrent()
    {
      if key in writeSet {
        return Some(writeSet[key]);
      }
      var stored := tm.Get(key);
      if stored.Some? {
        readSet := readSet[key := (stored.value.value, stored.value.version)];
        return Some(stored.value.value);
      }
      r := None;
    }

    /** Buffers `value` for `key`; the last write to a key wins. */
    method Write(key: Key, value: Primitive)
      modifies this`writeSet
      ensures writeSet == old(writeSet)[key := value]
    {
      writeSet := writeSet[key := value];
    }

    /**
     * Validates the read set against the store, in any order, stopping at the first conflict; if
     * none is found, applies the write set, key by key, in any order.
     */
    method Commit() returns (ok: bool)
      modifies tm
      ensures ok == Validates(old(tm.objects), readSet)
      ensures tm.objects == if ok then ApplyWrites(old(tm.objects), writeSet) else old(tm.objects)
      ensures old(ReadSetCurrent()) ==> ok
    {
      var unchecked := readSet.Keys;
      while unchecked != {}
        invariant unchecked <= readSet.Keys
        invariant tm.objects == old(tm.objects)
        invariant forall k :: k in readSet && k !in unchecked && k in tm.objects ==>
          tm.objects[k].version == readSet[k].1
        decreases unchecked
      {
        var key :| key in unchecked;
        if key in tm.objects && tm.objects[key].version != readSet[key].1 {
          return false;
        }
        unchecked := unchecked - {key};
      }
      var pending := writeSet.Keys;
      while pending != {}
        invariant pending <= writeSet.Keys
        invariant tm.objects == ApplyWrites(old(tm.objects), writeSet - pending)
        decreases pending
      {
        var key :| key in pending;
        var version := (if key in tm.objects then tm.objects[key].version else 0) + 1;
        ApplyWritesStep(old(tm.objects), writeSet - pending, key, writeSet[key]);
        assert (writeSet - pending)[key := writeSet[key]] == writeSet - (pending - {key});
        tm.objects := tm.objects[key := SVMObject(writeSet[key], version)];
        pending := pending - {key};
      }
      assert writeSet - {} == writeSet;
      ok := true;
    }
  }

  /** Applying one more write to a key not yet written adds exactly that key's new object. */
  lemma ApplyWritesStep(objects: Objects, writeSet: WriteSet, key: Key, value: Primitive)
    requires key !in writeSet
    ensures CurrentVersion(ApplyWrites(objects, writeSet), key) == CurrentVersion(objects, key)
    ensures ApplyWrites(objects, writeSet[key := value])
         == ApplyWrites(objects, writeSet)[key := SVMObject(value, CurrentVersion(objects, key) + 1)]
  {
  }
}

/** Properties of the commit protocol, stated over the store's contents. */
module CommitProperties {
  import opened Base
  import opened Primitives
  import opened SvmMemory

  /**
   * After a successful commit no key has disappeared, every written key holds its buffered value
   * at a version strictly above the one it had, and every other key is untouched.
   */
  lemma CommittedState(objects: Objects, writeSet: WriteSet)
    ensures ApplyWrites(objects, writeSet).Keys == objects.Keys + writeSet.Keys
    ensures forall k :: k in writeSet ==>
      && ApplyWrites(objects, writeSet)[k].value == writeSet[k]
      && ApplyWrites(objects, writeSet)[k].version == CurrentVersion(objects, k) + 1
    ensures forall k :: k in objects && k !in writeSet ==> ApplyWrites(objects, writeSet)[k] == objects[k]
  {
  }

  /** Versions never go down, and a committed write strictly raises its key's version. */
  lemma VersionsMonotonic(objects: Objects, writeSet: WriteSet, k: Key)
    ensures CurrentVersion(objects, k) <= CurrentVersion(ApplyWrites(objects, writeSet), k)
    ensures k in writeSet ==> CurrentVersion(objects, k) < CurrentVersion(ApplyWrites(objects, writeSet), k)
  {
  }

  /** An empty read set always validates: a write-only transaction never conflicts. */
  lemma EmptyReadSetValidates(objects: Objects)
    ensures Validates(objects, map[])
  {
  }

  /** A read-set key that is absent from the store plays no part in validation. */
  lemma AbsentKeyNeverConflicts(objects: Objects, readSet: ReadSet, k: Key)
    requires k in readSet && k !in objects
    ensures Validates(objects, readSet) <==> Validates(objects, readSet - {k})
  {
  }

  /** Validation succeeds exactly when no present read-set key has changed version. */
  lemma ConflictIffVersionMoved(objects: Objects, readSet: ReadSet)
    ensures !Validates(objects, readSet) <==>
      exists k :: k in readSet && k in objects && objects[k].version != readSet[k].1
  {
  }

  /** Reads that still match the store always validate. */
  lemma CurrentReadsValidate(objects: Objects, readSet: ReadSet)
    requires ReadsCurrent(objects, readSet)
    ensures Validates(objects, readSet)
  {
  }

  /**
   * Conflict forces retry: if another transaction commits a write to a key this one read while
   * it was current, this one no longer validates, so none of its writes is applied.
   */
  lemma StaleReadConflicts(objects: Objects, readSet: ReadSet, other: WriteSet, k: Key)
    requires k in readSet && k in objects && objects[k].version == readSet[k].1
    requires k in other
    ensures !Validates(ApplyWrites(objects, other), readSet)
  {
  }

  /** A commit that writes none of the keys this transaction read leaves its validation intact. */
  lemma DisjointCommitKeepsValidation(objects: Objects, readSet: ReadSet, other: WriteSet)
    requires readSet.Keys !! other.Keys
    ensures Validates(objects, readSet) ==> Validates(ApplyWrites(objects, other), readSet)
  {
  }

  /** Two commits of disjoint write sets, one after the other, act as one commit of both. */
  lemma SequentialDisjointCommits(objects: Objects, w1: WriteSet, w2: WriteSet)
    requires w1.Keys !! w2.Keys
    ensures ApplyWrites(ApplyWrites(objects, w1), w2) == ApplyWrites(objects, w1 + w2)
  {
  }

  /** Commits of transactions with disjoint write sets give the same store in either order. */
  lemma DisjointCommitsCommute(objects: Objects, w1: WriteSet, w2: WriteSet)
    requires w1.Keys !! w2.Keys
    ensures ApplyWrites(ApplyWrites(objects, w1), w2) == ApplyWrites(ApplyWrites(objects, w2), w1)
  {
    SequentialDisjointCommits(objects, w1, w2);
    SequentialDisjointCommits(objects, w2, w1);
    assert w1 + w2 == w2 + w1;
  }
}
