/** `get_val`: a read-only lookup run as a transaction over the store. */
module BlockStm {
  import opened Base
  import opened Primitives
  import opened Formatting
  import opened SvmMemory

  /** The lookup error the body reports for a missing key. */
  function MissingKey(key: string): string {
    "key=" + key + " does not exist"
  }

  /** The transaction body of `get_val`: read the key, fail if it is missing. */
  method GetValBody(txn: Transaction, key: string) returns (r: Result<Primitive>)
    modifies txn`readSet
    ensures match View(txn.tm.objects, txn.writeSet, Utf8(key))
      case Some(v) => r == Ok(v)
      case None => r == Err(MissingKey(key))
    ensures txn.readSet ==
      if Utf8(key) !in txn.writeSet && Utf8(key) in txn.tm.objects
      then old(txn.readSet)[Utf8(key) := (txn.tm.objects[Utf8(key)].value, txn.tm.objects[Utf8(key)].version)]
      else old(txn.readSet)
    ensures old(txn.ReadSetCurrent()) ==> txn.ReadSetCurrent()
  {
    var v := txn.Read(Utf8(key));
    match v
    case Some(value) => r := Ok(value);
    case None => r := Err(MissingKey(key));
  }

  /**
   * Looks up the value stored under the UTF-8 bytes of `key`: one attempt that runs the body and
   * commits. The body never writes, so the store is unchanged; a missing key comes back as `None`.
   */
  method GetVal(tm: SVMMemory, key: string) returns (r: Option<Primitive>)
    modifies tm
    ensures Utf8(key) in old(tm.objects) ==> r == Some(old(tm.objects)[Utf8(key)].value)
    ensures Utf8(key) !in old(tm.objects) ==> r == None
    ensures tm.objects == old(tm.objects)
  {
    var txn := new Transaction(tm);
    var body := GetValBody(txn, key);
    match body
    case Err(_) =>
      r := None;
    case Ok(value) =>
      var committed := txn.Commit();
      assert committed;
      assert txn.writeSet == map[];
      assert ApplyWrites(old(tm.objects), map[]) == old(tm.objects);
      r := Some(value);
  }
}
