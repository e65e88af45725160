/**
 * `process_tx`: the generic transaction body. It reads the transaction's objects in order, hands
 * them with the transaction's own arguments to the code executor, and writes the executor's tuple
 * result back onto the objects by position.
 */
module Executor {
  import opened Base
  import opened Primitives
  import opened Formatting
  import opened SvmMemory

  /** A submitted transaction (`TxBody`). */
  datatype TxBody = TxBody(txHash: string, codeHash: string, objs: seq<string>, args: seq<Primitive>)

  /** The code executor, seen from outside: code id and arguments to a value or an error message. */
  type Executor = (string, seq<Primitive>) -> Result<Primitive>

  /**
   * How a run of the body ends: it returns a result, or it panics because the executor returned a
   * tuple with fewer elements than there are objects (the write-back indexes past its end).
   */
  datatype Outcome = Completed(result: Result<Primitive>) | Panicked(index: nat)

  /** The store keys of the named objects: the bytes of each name. */
  function ObjectKeys(objs: seq<string>): (keys: seq<Key>)
    ensures |keys| == |objs|
    ensures forall i :: 0 <= i < |objs| ==> keys[i] == Utf8(objs[i])
  {
    seq(|objs|, i requires 0 <= i < |objs| => Utf8(objs[i]))
  }

  function MissingObject(obj: string): string {
    "key=" + obj + " does not exist"
  }

  /**
   * The values of `objs` as the transaction reads them, in order; the first object that has
   * neither a buffered write nor a stored value stops the reading with an error naming it.
   */
  function ReadObjects(objects: Objects, writeSet: WriteSet, objs: seq<string>): Result<seq<Primitive>>
    decreases |objs|
  {
    if objs == [] then Ok([])
    else
      var last := objs[|objs| - 1];
      match ReadObjects(objects, writeSet, objs[..|objs| - 1])
      case Err(e) => Err(e)
      case Ok(values) =>
        match View(objects, writeSet, Utf8(last))
        case None => Err(MissingObject(last))
        case Some(v) => Ok(values + [v])
  }

  /** The writes of the write-back: `els[i]` for the key of `objs[i]`; a later index wins. */
  function PositionalWrites(keys: seq<Key>, els: seq<Primitive>): WriteSet
    requires |keys| <= |els|
    decreases |keys|
  {
    if keys == [] then map[]
    else PositionalWrites(keys[..|keys| - 1], els)[keys[|keys| - 1] := els[|keys| - 1]]
  }

  /** What the body returns once the objects have been read (or failed to be). */
  function BodyOutcome(read: Result<seq<Primitive>>, tx: TxBody, run: Executor): (r: Outcome)
    ensures read.Err? ==> r == Completed(Err(read.error))
    ensures r.Completed? && r.result.Ok? ==>
      && read.Ok?
      && run(tx.codeHash, read.value + tx.args) == Ok(r.result.value)
      && r.result.value.Tup? && |tx.objs| <= |r.result.value.els|
    ensures r.Panicked? ==>
      read.Ok? && run(tx.codeHash, read.value + tx.args).Ok?
      && run(tx.codeHash, read.value + tx.args).value.Tup?
      && r.index == |run(tx.codeHash, read.value + tx.args).value.els| < |tx.objs|
  {
    match read
    case Err(e) => Completed(Err(e))
    case Ok(values) =>
      match run(tx.codeHash, values + tx.args)
      case Err(e) => Completed(Err("svm execution failed err=" + e))
      case Ok(result) =>
        match result
        case Tup(els) => if |els| < |tx.objs| then Panicked(|els|) else Completed(Ok(result))
        case U24(_) => Completed(Err("unexpected type of result"))
  }

  /** The writes a successful body leaves buffered; none otherwise. */
  function BodyWrites(tx: TxBody, r: Outcome): WriteSet {
    if r.Completed? && r.result.Ok? && r.result.value.Tup? && |tx.objs| <= |r.result.value.els|
    then PositionalWrites(ObjectKeys(tx.objs), r.result.value.els)
    else map[]
  }

  // ---------------------------------------------------------------------------------------------

  /**
   * The reads succeed exactly when every object is visible to the transaction, and then they yield
   * the objects' values in `objs` order.
   */
  lemma {:induction false} ReadObjectsOk(objects: Objects, writeSet: WriteSet, objs: seq<string>)
    ensures ReadObjects(objects, writeSet, objs).Ok? <==>
      forall i :: 0 <= i < |objs| ==> View(objects, writeSet, Utf8(objs[i])).Some?
    ensures ReadObjects(objects, writeSet, objs).Ok? ==>
      var values := ReadObjects(objects, writeSet, objs).value;
      |values| == |objs| &&
      forall i :: 0 <= i < |objs| ==> Some(values[i]) == View(objects, writeSet, Utf8(objs[i]))
    decreases |objs|
  {
    if objs != [] {
      var init := objs[..|objs| - 1];
      ReadObjectsOk(objects, writeSet, init);
      assert forall i :: 0 <= i < |init| ==> init[i] == objs[i];
    }
  }

  /** A failed read names the first object, in `objs` order, that is not visible. */
  lemma {:induction false} ReadObjectsFirstMissing(objects: Objects, writeSet: WriteSet, objs: seq<string>)
    requires ReadObjects(objects, writeSet, objs).Err?
    ensures exists i ::
      (&& 0 <= i < |objs|
       && View(objects, writeSet, Utf8(objs[i])).None?
       && (forall j :: 0 <= j < i ==> View(objects, writeSet, Utf8(objs[j])).Some?)
       && ReadObjects(objects, writeSet, objs).error == MissingObject(objs[i]))
    decreases |objs|
  {
    var init := objs[..|objs| - 1];
    assert forall i :: 0 <= i < |init| ==> init[i] == objs[i];
    match ReadObjects(objects, writeSet, init)
    case Err(_) =>
      ReadObjectsFirstMissing(objects, writeSet, init);
      var i :| 0 <= i < |init| && View(objects, writeSet, Utf8(init[i])).None?
        && (forall j :: 0 <= j < i ==> View(objects, writeSet, Utf8(init[j])).Some?)
        && ReadObjects(objects, writeSet, init).error == MissingObject(init[i]);
      assert objs[i] == init[i];
    case Ok(_) =>
      ReadObjectsOk(objects, writeSet, init);
      var i := |objs| - 1;
      assert View(objects, writeSet, Utf8(objs[i])).None?;
  }

  /** The write-back writes exactly the given keys. */
  lemma {:induction false} PositionalWritesKeys(keys: seq<Key>, els: seq<Primitive>)
    requires |keys| <= |els|
    ensures forall k :: k in PositionalWrites(keys, els) <==> k in keys
    decreases |keys|
  {
    if keys != [] {
      var n := |keys| - 1;
      PositionalWritesKeys(keys[..n], els);
      assert forall k :: k in keys <==> k in keys[..n] || k == keys[n];
    }
  }

  /**
   * A key holds the element at the last position where it occurs; so, for distinct keys, `els[i]`
   * lands on `keys[i]`.
   */
  lemma {:induction false} PositionalWritesAt(keys: seq<Key>, els: seq<Primitive>, i: nat)
    requires |keys| <= |els| && i < |keys|
    requires forall j :: i < j < |keys| ==> keys[j] != keys[i]
    ensures keys[i] in PositionalWrites(keys, els)
    ensures PositionalWrites(keys, els)[keys[i]] == els[i]
    decreases |keys|
  {
    var n := |keys| - 1;
    if i < n {
      PositionalWritesAt(keys[..n], els, i);
    }
  }

  /** A failed read of a prefix fails the whole sequence of reads with the same error. */
  lemma {:induction false} ReadObjectsErrExtends(objects: Objects, writeSet: WriteSet, objs: seq<string>, n: nat)
    requires n <= |objs| && ReadObjects(objects, writeSet, objs[..n]).Err?
    ensures ReadObjects(objects, writeSet, objs) == ReadObjects(objects, writeSet, objs[..n])
    decreases |objs| - n
  {
    if n < |objs| {
      assert objs[..n + 1][..n] == objs[..n];
      ReadObjectsErrExtends(objects, writeSet, objs, n + 1);
    } else {
      assert objs[..n] == objs;
    }
  }

  /**
   * How reading `keys` changes a read set: the entry of any other key is kept (or stays absent),
   * and every new or changed entry holds the store's current value and version.
   */
  ghost predicate RecordsOnly(objects: Objects, before: ReadSet, after: ReadSet, keys: seq<Key>) {
    && (forall k :: k !in keys ==> (k in after <==> k in before) && (k in before ==> after[k] == before[k]))
    && (forall k :: k in after && (k !in before || after[k] != before[k]) ==>
          k in objects && after[k] == (objects[k].value, objects[k].version))
  }

  /** Every object of `objs` without a buffered write is recorded at its stored value and version. */
  ghost predicate RecordsAll(objects: Objects, writeSet: WriteSet, readSet: ReadSet, objs: seq<string>) {
    forall i :: 0 <= i < |objs| && Utf8(objs[i]) !in writeSet ==>
      && Utf8(objs[i]) in objects
      && Utf8(objs[i]) in readSet
      && readSet[Utf8(objs[i])] == (objects[Utf8(objs[i])].value, objects[Utf8(objs[i])].version)
  }

  /** One read of the loop keeps both read-set predicates, the second over one more object. */
  lemma RecordStep(objects: Objects, writeSet: WriteSet, start: ReadSet, before: ReadSet, after: ReadSet,
                   objs: seq<string>, i: nat)
    requires i < |objs|
    requires RecordsOnly(objects, start, before, ObjectKeys(objs))
    requires RecordsAll(objects, writeSet, before, objs[..i])
    requires after == if Utf8(objs[i]) !in writeSet && Utf8(objs[i]) in objects
      then before[Utf8(objs[i]) := (objects[Utf8(objs[i])].value, objects[Utf8(objs[i])].version)]
      else before
    ensures RecordsOnly(objects, start, after, ObjectKeys(objs))
    ensures Utf8(objs[i]) in writeSet || Utf8(objs[i]) in objects ==>
      RecordsAll(objects, writeSet, after, objs[..i + 1])
  {
    assert ObjectKeys(objs)[i] in ObjectKeys(objs);
    if Utf8(objs[i]) in writeSet || Utf8(objs[i]) in objects {
      var p := objs[..i + 1];
      forall j | 0 <= j < |p| && Utf8(p[j]) !in writeSet
        ensures && Utf8(p[j]) in objects
                && Utf8(p[j]) in after
                && after[Utf8(p[j])] == (objects[Utf8(p[j])].value, objects[Utf8(p[j])].version)
      {
        if j < i {
          assert p[j] == objs[..i][j];
        }
      }
    }
  }

  /** The read loop of the body: reads every object in order, stopping at the first missing one. */
  method ReadAll(txn: Transaction, objs: seq<string>) returns (r: Result<seq<Primitive>>)
    modifies txn`readSet
    ensures r == ReadObjects(txn.tm.objects, txn.writeSet, objs)
    ensures RecordsOnly(txn.tm.objects, old(txn.readSet), txn.readSet, ObjectKeys(objs))
    ensures r.Ok? ==> RecordsAll(txn.tm.objects, txn.writeSet, txn.readSet, objs)
    ensures old(txn.ReadSetCurrent()) ==> txn.ReadSetCurrent()
  {
    var objects: seq<Primitive> := [];
    var keys := ObjectKeys(objs);
    for i := 0 to |objs|
      invariant ReadObjects(txn.tm.objects, txn.writeSet, objs[..i]) == Ok(objects)
      invariant RecordsOnly(txn.tm.objects, old(txn.readSet), txn.readSet, keys)
      invariant RecordsAll(txn.tm.objects, txn.writeSet, txn.readSet, objs[..i])
      invariant old(txn.ReadSetCurrent()) ==> txn.ReadSetCurrent()
    {
      ghost var before := txn.readSet;
      var seen := txn.Read(Utf8(objs[i]));
      RecordStep(txn.tm.objects, txn.writeSet, old(txn.readSet), before, txn.readSet, objs, i);
      assert objs[..i + 1][..i] == objs[..i];
      if seen.None? {
        ReadObjectsErrExtends(txn.tm.objects, txn.writeSet, objs, i + 1);
        return Err(MissingObject(objs[i]));
      }
      objects := objects + [seen.value];
    }
    assert objs[..|objs|] == objs;
    r := Ok(objects);
  }

  /**
   * The write-back loop of the body: writes `els[i]` to the key of `objs[i]` for each index in
   * turn; an index past the end of `els` panics, reported here as that index.
   */
  method WriteBack(txn: Transaction, objs: seq<string>, els: seq<Primitive>) returns (panicAt: Option<nat>)
    modifies txn`writeSet
    ensures panicAt.None? <==> |objs| <= |els|
    ensures panicAt.Some? ==> panicAt.value == |els|
    ensures panicAt.None? ==> txn.writeSet == old(txn.writeSet) + PositionalWrites(ObjectKeys(objs), els)
  {
    var keys := ObjectKeys(objs);
    for index := 0 to |objs|
      invariant index <= |els|
      invariant txn.writeSet == old(txn.writeSet) + PositionalWrites(keys[..index], els)
    {
      if |els| <= index {
        return Some(index);
      }
      assert keys[..index + 1][..index] == keys[..index];
      UnionUpdate(old(txn.writeSet), PositionalWrites(keys[..index], els), keys[index], els[index]);
      txn.Write(keys[index], els[index]);
    }
    assert keys[..|objs|] == keys;
    panicAt := None;
  }

  lemma UnionUpdate(w: WriteSet, p: WriteSet, k: Key, v: Primitive)
    ensures (w + p)[k := v] == w + p[k := v]
  {
  }

  /** The transaction body of `process_tx`, run against `txn`. */
  method ProcessTxBody(txn: Transaction, tx: TxBody, run: Executor) returns (r: Outcome)
    modifies txn`readSet, txn`writeSet
    ensures r == BodyOutcome(ReadObjects(txn.tm.objects, old(txn.writeSet), tx.objs), tx, run)
    ensures r.Completed? ==> txn.writeSet == old(txn.writeSet) + BodyWrites(tx, r)
    ensures RecordsOnly(txn.tm.objects, old(txn.readSet), txn.readSet, ObjectKeys(tx.objs))
    ensures ReadObjects(txn.tm.objects, old(txn.writeSet), tx.objs).Ok? ==>
      RecordsAll(txn.tm.objects, old(txn.writeSet), txn.readSet, tx.objs)
    ensures old(txn.ReadSetCurrent()) ==> txn.ReadSetCurrent()
  {
    var read := ReadAll(txn, tx.objs);
    match read
    case Err(e) =>
      assert txn.writeSet + map[] == txn.writeSet;
      return Completed(Err(e));
    case Ok(objects) =>
      var args := objects + tx.args;
      match run(tx.codeHash, args)
      case Err(e) =>
        assert txn.writeSet + map[] == txn.writeSet;
        r := Completed(Err("svm execution failed err=" + e));
      case Ok(result) =>
        match result
        case Tup(els) =>
          var panicAt := WriteBack(txn, tx.objs, els);
          if panicAt.Some? {
            return Panicked(panicAt.value);
          }
          r := Completed(Ok(result));
        case U24(_) =>
          assert txn.writeSet + map[] == txn.writeSet;
          r := Completed(Err("unexpected type of result"));
  }

  /**
   * `process_tx`: one attempt that runs the body and, when it returns `Ok`, commits its writes.
   * An error or a panic leaves the store unchanged.
   */
  method ProcessTx(tx: TxBody, tm: SVMMemory, run: Executor) returns (r: Outcome)
    modifies tm
    ensures r == BodyOutcome(ReadObjects(old(tm.objects), map[], tx.objs), tx, run)
    ensures tm.objects == ApplyWrites(old(tm.objects), BodyWrites(tx, r))
  {
    var txn := new Transaction(tm);
    r := ProcessTxBody(txn, tx, run);
    if r.Completed? && r.result.Ok? {
      var committed := txn.Commit();
      assert committed;
    } else {
      assert ApplyWrites(tm.objects, map[]) == tm.objects;
    }
  }
}
